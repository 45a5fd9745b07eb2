/**
 * Building native metadata blocks out of JVM models. A builder allocates its
 * block first and then takes many steps that can fail; at whichever it fails,
 * it has to free the block and its temporary buffers, and publish nothing.
 */
module MetadataBuilders {
  import opened MetadataContent
  import opened MetadataOrder
  import opened Wrappers

  /** A temporary native buffer: a NUL-terminated text or raw bytes. */
  datatype Buffer = Chars(text: string) | Octets(data: seq<int>)

  /**
   * Everything a builder calls that may fail: JNI, the allocator, libFLAC. The
   * script says which of the next calls fail; past its end every call succeeds.
   */
  class Env {
    const luck: seq<bool>
    var used: nat
    var buffers: map<nat, Buffer>
    var nextBuffer: nat
    var localFrames: nat

    ghost predicate Valid()
      reads this
    {
      forall b :: b in buffers ==> b < nextBuffer
    }

    /** No call made so far has failed. */
    ghost predicate NoFailure()
      reads `used
    {
      forall i :: 0 <= i < used && i < |luck| ==> luck[i]
    }

    constructor (luck: seq<bool>)
      ensures Valid() && NoFailure() && buffers == map[] && localFrames == 0 && this.luck == luck
    {
      this.luck, used, buffers, nextBuffer, localFrames := luck, 0, map[], 0, 0;
    }

    /** One call that may fail. */
    method Attempt() returns (ok: bool)
      modifies `used
      ensures NoFailure() <==> old(NoFailure()) && ok
    {
      ok := used >= |luck| || luck[used];
      used := used + 1;
    }

    /** So many calls in a row, given up at the first failure. */
    method Attempts(calls: nat) returns (ok: bool)
      modifies `used
      ensures NoFailure() <==> old(NoFailure()) && ok
    {
      hide NoFailure;
      ok := true;
      for i := 0 to calls
        invariant ok && NoFailure() == old(NoFailure())
      {
        ok := Attempt();
        if !ok {
          return;
        }
      }
    }

    method Malloc(content: Buffer) returns (buffer: Option<nat>)
      requires Valid()
      modifies `used, `buffers, `nextBuffer
      ensures Valid() && (NoFailure() <==> old(NoFailure()) && buffer.Some?)
      ensures buffer.Some? ==>
        buffer.value !in old(buffers) && buffers == old(buffers)[buffer.value := content]
      ensures buffer.None? ==> buffers == old(buffers)
    {
      var ok := Attempt();
      if !ok {
        return None;
      }
      buffer := Some(nextBuffer);
      buffers, nextBuffer := buffers[nextBuffer := content], nextBuffer + 1;
    }

    /** free: a null pointer is ignored, anything else must be held. */
    method Free(buffer: Option<nat>)
      requires Valid() && (buffer.Some? ==> buffer.value in buffers)
      modifies `buffers
      ensures Valid()
      ensures buffers == if buffer.Some? then old(buffers) - {buffer.value} else old(buffers)
    {
      if buffer.Some? {
        buffers := buffers - {buffer.value};
      }
    }

    method PushLocalFrame() returns (ok: bool)
      modifies `used, `localFrames
      ensures NoFailure() <==> old(NoFailure()) && ok
      ensures localFrames == old(localFrames) + if ok then 1 else 0
    {
      ok := Attempt();
      if ok {
        localFrames := localFrames + 1;
      }
    }

    method PopLocalFrame()
      requires localFrames > 0
      modifies `localFrames
      ensures localFrames == old(localFrames) - 1
    {
      localFrames := localFrames - 1;
    }

    /** jstring_to_utf8: a buffer that the caller has to free, or null. */
    method ToUtf8(text: string) returns (buffer: Option<nat>)
      requires Valid()
      modifies this
      ensures Valid() && localFrames == old(localFrames)
      ensures NoFailure() <==> old(NoFailure()) && buffer.Some?
      ensures buffer.Some? ==>
        buffer.value !in old(buffers) && buffers == old(buffers)[buffer.value := Chars(text)]
      ensures buffer.None? ==> buffers == old(buffers)
    {
      hide NoFailure;
      var ok := PushLocalFrame();
      if !ok {
        return None;
      }
      ok := Attempts(6);
      if !ok {
        PopLocalFrame();
        return None;
      }
      buffer := Malloc(Chars(text));
      if buffer.None? {
        PopLocalFrame();
        return None;
      }
      ok := Attempt();
      if !ok {
        Free(buffer);
        PopLocalFrame();
        return None;
      }
      PopLocalFrame();
    }
  }

  /** What libFLAC's allocator has handed out, and what of it is not freed. */
  datatype View = View(contents: map<nat, NativeBlock>, live: set<nat>)

  /** What was there before is still there, unchanged. */
  ghost predicate Kept(before: View, after: View) {
    forall id :: id in before.contents ==> id in after.contents && after.contents[id] == before.contents[id]
  }

  /** One block has come to life since, and holds this much. */
  ghost predicate Building(before: View, after: View, id: nat, content: NativeBlock) {
    && Kept(before, after) && id !in before.contents && id !in before.live
    && id in after.contents && after.contents[id] == content
    && after.live == before.live + {id}
  }

  /** Nothing is left alive of the attempt. */
  ghost predicate Abandoned(before: View, after: View) {
    Kept(before, after) && after.live == before.live
  }

  /** The end of a builder: what it published, or that it left nothing behind. */
  ghost predicate Outcome(before: View, after: View, ok: bool, result: Option<nat>, content: NativeBlock) {
    if ok then result.Some? && Building(before, after, result.value, content)
    else result.None? && Abandoned(before, after)
  }

  /** libFLAC's block allocator. */
  class BlockHeap {
    const ownVendor: string
    var contents: map<nat, NativeBlock>
    var live: set<nat>
    var next: nat

    ghost predicate Valid()
      reads this
    {
      && live <= contents.Keys
      && forall id :: id in contents ==> id < next
    }

    ghost function Now(): View
      reads this
    {
      View(contents, live)
    }

    constructor (ownVendor: string)
      ensures Valid() && live == {} && contents == map[] && this.ownVendor == ownVendor
    {
      this.ownVendor, contents, live, next := ownVendor, map[], {}, 0;
    }

    /** metadata_object_new and metadata_object_clone. */
    method New(env: Env, content: NativeBlock) returns (id: Option<nat>)
      requires Valid()
      modifies this, env`used
      ensures Valid() && (env.NoFailure() <==> old(env.NoFailure()) && id.Some?)
      ensures id.Some? ==> Building(old(Now()), Now(), id.value, content)
      ensures id.None? ==> Abandoned(old(Now()), Now())
    {
      var ok := env.Attempt();
      if !ok {
        return None;
      }
      id := Some(next);
      contents, live, next := contents[next := content], live + {next}, next + 1;
    }

    /** A setter of libFLAC, or a field written in place: the block must be alive. */
    method Put(ghost before: View, id: nat, content: NativeBlock)
      requires Valid() && id in live && Building(before, Now(), id, contents[id])
      modifies `contents
      ensures Valid() && Building(before, Now(), id, content)
    {
      contents := contents[id := content];
    }

    /** metadata_object_delete: only a live block may be freed. */
    method Delete(id: nat)
      requires Valid() && id in live
      modifies `live
      ensures Valid() && live == old(live) - {id}
    {
      live := live - {id};
    }

    /** Deletes a block that was being built. */
    method Discard(ghost before: View, id: nat)
      requires Valid() && id in live && Building(before, Now(), id, contents[id])
      modifies `live
      ensures Valid() && Abandoned(before, Now())
    {
      Delete(id);
    }
  }

  lemma BuildingIsLive(before: View, after: View, id: nat, content: NativeBlock)
    requires Building(before, after, id, content)
    ensures id in after.live && id in after.contents && after.contents[id] == content
  {
  }

  // ---------------------------------------------------------- comment blocks

  /** The temporary buffers of one entry: its text, and a copy with a separator if it has none. */
  method PrepareEntry(env: Env, entry: string)
    returns (ok: bool, utf8: Option<nat>, normalised: Option<nat>, text: string)
    requires env.Valid()
    modifies env
    ensures env.Valid() && env.localFrames == old(env.localFrames)
    ensures env.NoFailure() <==> old(env.NoFailure()) && ok
    ensures ok ==> utf8.Some? && utf8.value in env.buffers && text == NativeEntry(entry)
    ensures ok && normalised.Some? ==> normalised.value in env.buffers && normalised != utf8
    ensures ok ==>
      env.buffers - {utf8.value} - (if normalised.Some? then {normalised.value} else {}) == old(env.buffers)
    ensures !ok ==> env.buffers == old(env.buffers)
  {
    hide env.NoFailure, CString;
    normalised, text := None, "";
    utf8 := env.ToUtf8(entry);
    ok := env.Attempt();
    if utf8.None? || !ok {
      env.Free(utf8);
      ok := false;
      return;
    }
    text := CString(env.buffers[utf8.value].text);
    if '=' !in text {
      normalised := env.Malloc(Chars(text + "="));
      if normalised.None? {
        env.Free(utf8);
        ok := false;
        return;
      }
      text := env.buffers[normalised.value].text;
    }
  }

  /** One entry: its text is converted, given a separator if it has none, and copied into the block. */
  method AppendEntry(env: Env, heap: BlockHeap, ghost before: View, block: nat, entry: string,
                     ghost vendor: string, ghost entries: seq<string>)
    returns (ok: bool)
    requires env.Valid() && heap.Valid() && Building(before, heap.Now(), block, NativeVorbis(vendor, entries))
    requires env.NoFailure()
    modifies env, heap
    ensures env.Valid() && heap.Valid()
    ensures env.buffers == old(env.buffers) && env.localFrames == old(env.localFrames)
    ensures ok <==> env.NoFailure()
    ensures ok ==> Building(before, heap.Now(), block, NativeVorbis(vendor, entries + [NativeEntry(entry)]))
    ensures !ok ==> Abandoned(before, heap.Now())
  {
    hide Building, Abandoned, env.NoFailure, NativeEntry;
    BuildingIsLive(before, heap.Now(), block, NativeVorbis(vendor, entries));
    ok := env.PushLocalFrame();
    if !ok {
      heap.Discard(before, block);
      return;
    }
    ok := env.Attempt();
    if !ok {
      env.PopLocalFrame();
      heap.Discard(before, block);
      return;
    }
    var utf8, normalised, text;
    ok, utf8, normalised, text := PrepareEntry(env, entry);
    if !ok {
      env.PopLocalFrame();
      heap.Discard(before, block);
      return;
    }
    ok := AppendComment(env, heap, before, block, text, vendor, entries);
    env.Free(normalised);
    env.Free(utf8);
    env.PopLocalFrame();
    if !ok {
      heap.Discard(before, block);
    }
  }

  /** libFLAC's append, which copies the text. */
  method AppendComment(env: Env, heap: BlockHeap, ghost before: View, block: nat, text: string,
                       ghost vendor: string, ghost entries: seq<string>)
    returns (ok: bool)
    requires heap.Valid() && Building(before, heap.Now(), block, NativeVorbis(vendor, entries))
    modifies env`used, heap`contents
    ensures heap.Valid() && (env.NoFailure() <==> old(env.NoFailure()) && ok)
    ensures block in heap.live && block in heap.contents
    ensures heap.contents[block] == NativeVorbis(vendor, if ok then entries + [text] else entries)
    ensures Building(before, heap.Now(), block, heap.contents[block])
  {
    hide Building, env.NoFailure;
    BuildingIsLive(before, heap.Now(), block, NativeVorbis(vendor, entries));
    ok := env.Attempt();
    if ok {
      var comment := heap.contents[block];
      heap.Put(before, block, NativeVorbis(comment.vendor, comment.entries + [text]));
      BuildingIsLive(before, heap.Now(), block, NativeVorbis(vendor, entries + [text]));
    }
  }

  method SetVendor(env: Env, heap: BlockHeap, ghost before: View, block: nat, vendor: string,
                   ghost entries: seq<string>)
    returns (ok: bool)
    requires env.Valid() && heap.Valid() && Building(before, heap.Now(), block, NativeVorbis(heap.ownVendor, entries))
    requires env.NoFailure()
    modifies env, heap
    ensures env.Valid() && heap.Valid()
    ensures env.buffers == old(env.buffers) && env.localFrames == old(env.localFrames)
    ensures ok <==> env.NoFailure()
    ensures ok ==> Building(before, heap.Now(), block, NativeVorbis(CString(vendor), entries))
    ensures !ok ==> Abandoned(before, heap.Now())
  {
    hide Building, Abandoned, env.NoFailure, CString;
    BuildingIsLive(before, heap.Now(), block, NativeVorbis(heap.ownVendor, entries));
    var utf8 := env.ToUtf8(vendor);
    ok := env.Attempt();
    if utf8.None? || !ok {
      env.Free(utf8);
      heap.Discard(before, block);
      return false;
    }
    var text := CString(env.buffers[utf8.value].text);
    ok := env.Attempt();
    if ok {
      heap.Put(before, block, heap.contents[block].(vendor := text));
    }
    env.Free(utf8);
    if !ok {
      heap.Discard(before, block);
    }
  }

  /** build_vorbis_comment_block, for callers that want a block in any case. */
  method BuildVorbisCommentBlock(env: Env, heap: BlockHeap, vendor: Option<string>, entries: seq<string>)
    returns (ok: bool, result: Option<nat>)
    requires env.Valid() && heap.Valid() && env.NoFailure()
    modifies env, heap
    ensures env.Valid() && heap.Valid()
    ensures env.buffers == old(env.buffers) && env.localFrames == old(env.localFrames)
    ensures ok <==> env.NoFailure()
    ensures Outcome(old(heap.Now()), heap.Now(), ok, result,
                    NativeVorbis(VendorOf(heap.ownVendor, vendor), NativeEntries(entries)))
  {
    hide Building, Abandoned, env.NoFailure, CString, NativeEntry;
    ghost var before := heap.Now();
    var created := heap.New(env, NativeVorbis(heap.ownVendor, []));
    if created.None? {
      return false, None;
    }
    var block := created.value;
    ghost var kept := VendorOf(heap.ownVendor, vendor);
    if vendor.Some? {
      ok := SetVendor(env, heap, before, block, vendor.value, []);
      if !ok {
        return false, None;
      }
    }
    for i := 0 to |entries|
      invariant env.Valid() && heap.Valid() && env.NoFailure()
      invariant env.buffers == old(env.buffers) && env.localFrames == old(env.localFrames)
      invariant Building(before, heap.Now(), block, NativeVorbis(kept, NativeEntries(entries)[..i]))
    {
      ok := AppendEntry(env, heap, before, block, entries[i], kept, NativeEntries(entries)[..i]);
      if !ok {
        return false, None;
      }
      assert NativeEntries(entries)[..i + 1] == NativeEntries(entries)[..i] + [NativeEntry(entries[i])];
    }
    assert NativeEntries(entries)[..|entries|] == NativeEntries(entries);
    return true, Some(block);
  }

  // ----------------------------------------------- blocks with raw payloads

  /** A Java byte array copied into a temporary native buffer; an empty one needs none. */
  method CopyBytes(env: Env, data: seq<int>) returns (ok: bool, buffer: Option<nat>)
    requires env.Valid()
    modifies env`used, env`buffers, env`nextBuffer
    ensures env.Valid() && (env.NoFailure() <==> old(env.NoFailure()) && ok)
    ensures ok && buffer.Some? ==>
      buffer.value !in old(env.buffers) && env.buffers == old(env.buffers)[buffer.value := Octets(data)]
    ensures ok ==> (buffer.Some? <==> data != [])
    ensures buffer.None? ==> env.buffers == old(env.buffers)
    ensures !ok ==> buffer.None?
  {
    hide env.NoFailure;
    if data == [] {
      return true, None;
    }
    buffer := env.Malloc(Octets(data));
    if buffer.None? {
      return false, None;
    }
    ok := env.Attempt();
    if !ok {
      env.Free(buffer);
      buffer := None;
    }
  }

  method BuildApplicationBlock(env: Env, heap: BlockHeap, id: seq<int>, data: seq<int>)
    returns (ok: bool, result: Option<nat>)
    requires env.Valid() && heap.Valid() && env.NoFailure()
    modifies env, heap
    ensures env.Valid() && heap.Valid()
    ensures env.buffers == old(env.buffers) && env.localFrames == old(env.localFrames)
    ensures ok <==> env.NoFailure() && |id| == APPLICATION_ID_LENGTH
    ensures Outcome(old(heap.Now()), heap.Now(), ok, result, Typed(2, ApplicationContent(id, data)))
  {
    hide Building, env.NoFailure;
    ghost var before := heap.Now();
    ok := env.Attempts(5);
    if !ok || |id| != APPLICATION_ID_LENGTH {
      return false, None;
    }
    var created := heap.New(env, Typed(2, ApplicationContent([0, 0, 0, 0], [])));
    if created.None? {
      return false, None;
    }
    var block := created.value;
    BuildingIsLive(before, heap.Now(), block, Typed(2, ApplicationContent([0, 0, 0, 0], [])));
    ok := env.Attempt();
    if !ok {
      heap.Discard(before, block);
      return false, None;
    }
    heap.Put(before, block, Typed(2, ApplicationContent(id, [])));
    var buffer;
    ok, buffer := CopyBytes(env, data);
    if !ok {
      heap.Discard(before, block);
      return false, None;
    }
    ok := env.Attempt();
    if ok {
      var copied := if buffer.Some? then env.buffers[buffer.value].data else [];
      heap.Put(before, block, Typed(2, ApplicationContent(id, copied)));
    }
    env.Free(buffer);
    if !ok {
      heap.Discard(before, block);
      return false, None;
    }
    return true, created;
  }

  method BuildPaddingBlock(env: Env, heap: BlockHeap, length: int) returns (ok: bool, result: Option<nat>)
    requires env.Valid() && heap.Valid() && env.NoFailure()
    modifies env, heap
    ensures env.Valid() && heap.Valid()
    ensures env.buffers == old(env.buffers) && env.localFrames == old(env.localFrames)
    ensures ok <==> env.NoFailure() && 0 <= length <= MAX_BLOCK_LENGTH
    ensures Outcome(old(heap.Now()), heap.Now(), ok, result, Typed(1, PaddingContent(length)))
  {
    hide Building, env.NoFailure;
    ghost var before := heap.Now();
    ok := env.Attempts(3);
    if !ok || length < 0 || length > MAX_BLOCK_LENGTH {
      return false, None;
    }
    result := heap.New(env, Typed(1, PaddingContent(0)));
    if result.None? {
      return false, None;
    }
    BuildingIsLive(before, heap.Now(), result.value, Typed(1, PaddingContent(0)));
    heap.Put(before, result.value, Typed(1, PaddingContent(length)));
  }

  /** Unknown blocks are cloned from a structure that borrows the JVM's bytes. */
  method BuildUnknownBlock(env: Env, heap: BlockHeap, blockType: nat, payload: seq<int>)
    returns (ok: bool, result: Option<nat>)
    requires env.Valid() && heap.Valid() && env.NoFailure()
    modifies env, heap
    ensures env.Valid() && heap.Valid()
    ensures env.buffers == old(env.buffers) && env.localFrames == old(env.localFrames)
    ensures ok <==> env.NoFailure() && 7 <= blockType <= 126 && |payload| <= 0xFF_FFFF
    ensures Outcome(old(heap.Now()), heap.Now(), ok, result, Typed(blockType, UnknownContent(payload)))
  {
    hide Building, env.NoFailure;
    ok := env.Attempts(5);
    if !ok || blockType < UNKNOWN_MIN_TYPE || blockType > UNKNOWN_MAX_TYPE || |payload| > MAX_BLOCK_LENGTH {
      return false, None;
    }
    var borrowed: Option<nat> := None;
    if payload != [] {
      borrowed := env.Malloc(Octets(payload));
      if borrowed.None? {
        return false, None;
      }
    }
    var source := if borrowed.Some? then env.buffers[borrowed.value].data else [];
    result := heap.New(env, Typed(blockType, UnknownContent(source)));
    env.Free(borrowed);
    ok := result.Some?;
  }

  /** The getters come before the allocation; everything after it frees the block when it fails. */
  method BuildPictureBlock(env: Env, heap: BlockHeap, picture: Picture) returns (ok: bool, result: Option<nat>)
    requires env.Valid() && heap.Valid() && env.NoFailure()
    modifies env, heap
    ensures env.Valid() && heap.Valid()
    ensures env.buffers == old(env.buffers) && env.localFrames == old(env.localFrames)
    ensures ok <==> env.NoFailure()
    ensures Outcome(old(heap.Now()), heap.Now(), ok, result, Typed(6, NativeContent(PictureContent(picture))))
  {
    hide Building, env.NoFailure, CString;
    ghost var before := heap.Now();
    ok := env.Attempts(17);
    if !ok {
      return false, None;
    }
    var blank := PictureContent(Picture(0, "", "", 0, 0, 0, 0, []));
    result := heap.New(env, Typed(6, blank));
    if result.None? {
      return false, None;
    }
    ok := FillPicture(env, heap, before, result.value, blank, picture);
    if !ok {
      result := None;
    }
  }

  method FillPicture(env: Env, heap: BlockHeap, ghost before: View, block: nat, ghost blank: Content, picture: Picture)
    returns (ok: bool)
    requires env.Valid() && heap.Valid() && env.NoFailure() && Building(before, heap.Now(), block, Typed(6, blank))
    modifies env, heap
    ensures env.Valid() && heap.Valid()
    ensures env.buffers == old(env.buffers) && env.localFrames == old(env.localFrames)
    ensures ok <==> env.NoFailure()
    ensures ok ==> Building(before, heap.Now(), block, Typed(6, NativeContent(PictureContent(picture))))
    ensures !ok ==> Abandoned(before, heap.Now())
  {
    hide Building, Abandoned, env.NoFailure, CString;
    BuildingIsLive(before, heap.Now(), block, Typed(6, blank));
    var mimeType, description, data;
    ok, mimeType, description, data := PictureBuffers(env, picture);
    if !ok {
      heap.Discard(before, block);
      return;
    }
    ok := env.Attempts(3);
    if ok {
      heap.Put(before, block, Typed(6, PictureContent(picture.(
        mimeType := CString(env.buffers[mimeType.value].text),
        description := CString(env.buffers[description.value].text),
        data := if data.Some? then env.buffers[data.value].data else []))));
    }
    env.Free(mimeType);
    env.Free(description);
    env.Free(data);
    if !ok {
      heap.Discard(before, block);
    }
  }

  /** The three temporary buffers of a picture; a failure frees those that were made. */
  method PictureBuffers(env: Env, picture: Picture)
    returns (ok: bool, mimeType: Option<nat>, description: Option<nat>, data: Option<nat>)
    requires env.Valid()
    modifies env
    ensures env.Valid() && env.localFrames == old(env.localFrames)
    ensures env.NoFailure() <==> old(env.NoFailure()) && ok
    ensures ok ==>
      && mimeType.Some? && description.Some? && mimeType != description && data != mimeType && data != description
      && mimeType.value in env.buffers && env.buffers[mimeType.value] == Chars(picture.mimeType)
      && description.value in env.buffers && env.buffers[description.value] == Chars(picture.description)
      && (data.Some? <==> picture.data != [])
      && (data.Some? ==> data.value in env.buffers && env.buffers[data.value] == Octets(picture.data))
      && env.buffers - {mimeType.value, description.value}
         - (if data.Some? then {data.value} else {}) == old(env.buffers)
    ensures !ok ==> env.buffers == old(env.buffers)
  {
    hide env.NoFailure;
    description, data := None, None;
    mimeType := env.ToUtf8(picture.mimeType);
    ok := env.Attempt();
    if mimeType.None? || !ok {
      env.Free(mimeType);
      ok := false;
      return;
    }
    description := env.ToUtf8(picture.description);
    ok := env.Attempt();
    if description.None? || !ok {
      env.Free(mimeType);
      env.Free(description);
      ok := false;
      return;
    }
    ok, data := CopyBytes(env, picture.data);
    if !ok {
      env.Free(mimeType);
      env.Free(description);
    }
  }

  // --------------------------------------- blocks that are filled in place

  /** A resized array with its first elements written. */
  function Filling<T>(items: seq<T>, blank: T, written: nat): (filled: seq<T>)
    requires written <= |items|
    ensures |filled| == |items|
  {
    items[..written] + seq(|items| - written, _ => blank)
  }

  lemma FillingStep<T>(items: seq<T>, blank: T, written: nat)
    requires written < |items|
    ensures Filling(items, blank, written)[written := items[written]] == Filling(items, blank, written + 1)
  {
  }

  lemma FillingEnds<T>(items: seq<T>, blank: T)
    ensures Filling(items, blank, 0) == seq(|items|, _ => blank)
    ensures Filling(items, blank, |items|) == items
  {
  }

  method BuildSeekTableBlock(env: Env, heap: BlockHeap, points: seq<SeekPoint>) returns (ok: bool, result: Option<nat>)
    requires env.Valid() && heap.Valid() && env.NoFailure()
    modifies env, heap
    ensures env.Valid() && heap.Valid()
    ensures env.buffers == old(env.buffers) && env.localFrames == old(env.localFrames)
    ensures ok <==> env.NoFailure()
    ensures Outcome(old(heap.Now()), heap.Now(), ok, result, Typed(3, SeekTableContent(points)))
  {
    hide Building, env.NoFailure, Filling;
    ghost var before := heap.Now();
    ok := env.Attempts(11);
    if !ok {
      return false, None;
    }
    var created := heap.New(env, Typed(3, SeekTableContent([])));
    if created.None? {
      return false, None;
    }
    var block, blank := created.value, SeekPoint(0, 0, 0);
    BuildingIsLive(before, heap.Now(), block, Typed(3, SeekTableContent([])));
    FillingEnds(points, blank);
    ok := env.Attempt();
    if !ok {
      heap.Discard(before, block);
      return false, None;
    }
    heap.Put(before, block, Typed(3, SeekTableContent(seq(|points|, _ => blank))));
    for i := 0 to |points|
      invariant env.Valid() && heap.Valid() && env.NoFailure()
      invariant env.buffers == old(env.buffers) && env.localFrames == old(env.localFrames)
      invariant Building(before, heap.Now(), block, Typed(3, SeekTableContent(Filling(points, blank, i))))
    {
      BuildingIsLive(before, heap.Now(), block, Typed(3, SeekTableContent(Filling(points, blank, i))));
      ok := env.Attempts(4);
      if !ok {
        heap.Discard(before, block);
        return false, None;
      }
      FillingStep(points, blank, i);
      heap.Put(before, block, Typed(3, SeekTableContent(heap.contents[block].data.points[i := points[i]])));
    }
    BuildingIsLive(before, heap.Now(), block, Typed(3, SeekTableContent(points)));
    ok := env.Attempt();
    if !ok {
      heap.Discard(before, block);
      return false, None;
    }
    return true, created;
  }

  /** The fields of one track of a cue sheet that is being built. */
  method PutTrack(heap: BlockHeap, ghost before: View, block: nat, ghost sheet: CueSheet, index: nat, track: CueTrack)
    requires heap.Valid() && Building(before, heap.Now(), block, Typed(5, CueSheetContent(sheet)))
    requires index < |sheet.tracks|
    modifies heap`contents
    ensures heap.Valid()
    ensures Building(before, heap.Now(), block,
                     Typed(5, CueSheetContent(sheet.(tracks := sheet.tracks[index := track]))))
  {
    hide Building;
    BuildingIsLive(before, heap.Now(), block, Typed(5, CueSheetContent(sheet)));
    var current := heap.contents[block].data.sheet;
    heap.Put(before, block, Typed(5, CueSheetContent(current.(tracks := current.tracks[index := track]))));
  }

  ghost function SheetWith(sheet: CueSheet, index: nat, track: CueTrack): NativeBlock
    requires index < |sheet.tracks|
  {
    Typed(5, CueSheetContent(sheet.(tracks := sheet.tracks[index := track])))
  }

  /** A track with its fields and its first indices written. */
  ghost function TrackFilled(track: CueTrack, written: nat): CueTrack
    requires written <= |track.indices|
  {
    NativeTrack(track).(indices := Filling(track.indices, BLANK_INDEX, written))
  }

  /** The scalar fields and the index array of a track; frees its text whatever happens, and never the block. */
  method FillTrackFields(env: Env, heap: BlockHeap, ghost before: View, block: nat, ghost sheet: CueSheet, index: nat,
                         track: CueTrack)
    returns (ok: bool)
    requires env.Valid() && heap.Valid() && env.NoFailure() && index < |sheet.tracks|
    requires Building(before, heap.Now(), block, Typed(5, CueSheetContent(sheet)))
    modifies env, heap`contents
    ensures env.Valid() && heap.Valid()
    ensures env.buffers == old(env.buffers) && env.localFrames == old(env.localFrames)
    ensures ok <==> env.NoFailure() && FixedFieldFits(track.isrc, ISRC_LENGTH)
    ensures block in heap.contents && Building(before, heap.Now(), block, heap.contents[block])
    ensures ok ==> Building(before, heap.Now(), block,
                            SheetWith(sheet, index, TrackFilled(track, 0)))
  {
    hide Building, env.NoFailure, CString, Filling, Utf8Length;
    BuildingIsLive(before, heap.Now(), block, Typed(5, CueSheetContent(sheet)));
    FillingEnds(track.indices, BLANK_INDEX);
    ok := env.Attempts(13);
    if !ok {
      return;
    }
    var isrc := env.ToUtf8(track.isrc);
    ok := env.Attempt();
    if isrc.None? || !ok {
      env.Free(isrc);
      return false;
    }
    var text := CString(env.buffers[isrc.value].text);
    ok := env.Attempts(8);
    if !ok {
      env.Free(isrc);
      return;
    }
    var blank := seq(|track.indices|, _ => BLANK_INDEX);
    if Utf8Length(text) > ISRC_LENGTH {
      PutTrack(heap, before, block, sheet, index, track.(isrc := "", indices := blank));
      BuildingIsLive(before, heap.Now(), block, SheetWith(sheet, index, track.(isrc := "", indices := blank)));
      env.Free(isrc);
      return false;
    }
    PutTrack(heap, before, block, sheet, index, track.(isrc := text, indices := blank));
    BuildingIsLive(before, heap.Now(), block, SheetWith(sheet, index, track.(isrc := text, indices := blank)));
    env.Free(isrc);
  }

  const BLANK_INDEX := CueIndex(0, 0)
  const BLANK_TRACK := CueTrack(0, 0, "", 0, false, [])

  /** fill_cue_sheet_track: on failure it just says so, the caller owns the block. */
  method FillCueSheetTrack(env: Env, heap: BlockHeap, ghost before: View, block: nat, ghost sheet: CueSheet, index: nat,
                           track: CueTrack)
    returns (ok: bool)
    requires env.Valid() && heap.Valid() && env.NoFailure() && index < |sheet.tracks|
    requires Building(before, heap.Now(), block, Typed(5, CueSheetContent(sheet)))
    modifies env, heap`contents
    ensures env.Valid() && heap.Valid()
    ensures env.buffers == old(env.buffers) && env.localFrames == old(env.localFrames)
    ensures ok <==> env.NoFailure() && FixedFieldFits(track.isrc, ISRC_LENGTH)
    ensures block in heap.contents && Building(before, heap.Now(), block, heap.contents[block])
    ensures ok ==> Building(before, heap.Now(), block, SheetWith(sheet, index, NativeTrack(track)))
  {
    hide Building, env.NoFailure, Filling, FixedFieldFits;
    ok := FillTrackFields(env, heap, before, block, sheet, index, track);
    if !ok {
      return;
    }
    FillingEnds(track.indices, BLANK_INDEX);
    for i := 0 to |track.indices|
      invariant env.Valid() && heap.Valid() && env.NoFailure()
      invariant env.buffers == old(env.buffers) && env.localFrames == old(env.localFrames)
      invariant Building(before, heap.Now(), block,
                         SheetWith(sheet, index, TrackFilled(track, i)))
    {
      ghost var filled := TrackFilled(track, i);
      BuildingIsLive(before, heap.Now(), block, SheetWith(sheet, index, filled));
      ok := env.Attempts(3);
      if !ok {
        return;
      }
      FillingStep(track.indices, BLANK_INDEX, i);
      var current := heap.contents[block].data.sheet.tracks[index];
      PutTrack(heap, before, block, sheet.(tracks := sheet.tracks[index := filled]), index,
               current.(indices := current.indices[i := track.indices[i]]));
      assert sheet.tracks[index := filled][index := filled.(indices := Filling(track.indices, BLANK_INDEX, i + 1))]
          == sheet.tracks[index := filled.(indices := Filling(track.indices, BLANK_INDEX, i + 1))];
    }
    BuildingIsLive(before, heap.Now(), block, SheetWith(sheet, index, NativeTrack(track)));
    return true;
  }

  predicate TracksFit(tracks: seq<CueTrack>, n: nat)
    requires n <= |tracks|
  {
    forall i :: 0 <= i < n ==> FixedFieldFits(tracks[i].isrc, ISRC_LENGTH)
  }

  /** Every track in turn; the block is freed at the first that cannot be filled. */
  method FillTracks(env: Env, heap: BlockHeap, ghost before: View, block: nat, ghost sheet: CueSheet,
                    tracks: seq<CueTrack>)
    returns (ok: bool)
    requires env.Valid() && heap.Valid() && env.NoFailure()
    requires sheet.tracks == Filling(NativeTracks(tracks), BLANK_TRACK, 0)
    requires Building(before, heap.Now(), block, Typed(5, CueSheetContent(sheet)))
    modifies env, heap
    ensures env.Valid() && heap.Valid()
    ensures env.buffers == old(env.buffers) && env.localFrames == old(env.localFrames)
    ensures ok <==> env.NoFailure() && TracksFit(tracks, |tracks|)
    ensures ok ==> Building(before, heap.Now(), block,
                            Typed(5, CueSheetContent(sheet.(tracks := NativeTracks(tracks)))))
    ensures !ok ==> Abandoned(before, heap.Now())
  {
    hide Building, Abandoned, env.NoFailure, Filling, FixedFieldFits, NativeTrack;
    FillingEnds(NativeTracks(tracks), BLANK_TRACK);
    for i := 0 to |tracks|
      invariant env.Valid() && heap.Valid() && env.NoFailure() && TracksFit(tracks, i)
      invariant env.buffers == old(env.buffers) && env.localFrames == old(env.localFrames)
      invariant Building(before, heap.Now(), block,
                         Typed(5, CueSheetContent(sheet.(tracks := Filling(NativeTracks(tracks), BLANK_TRACK, i)))))
    {
      ghost var current := sheet.(tracks := Filling(NativeTracks(tracks), BLANK_TRACK, i));
      BuildingIsLive(before, heap.Now(), block, Typed(5, CueSheetContent(current)));
      ok := env.PushLocalFrame();
      if !ok {
        heap.Discard(before, block);
        return;
      }
      ok := env.Attempt();
      if !ok {
        env.PopLocalFrame();
        heap.Discard(before, block);
        return;
      }
      ok := FillCueSheetTrack(env, heap, before, block, current, i, tracks[i]);
      BuildingIsLive(before, heap.Now(), block, heap.contents[block]);
      var quiet := env.Attempt();
      env.PopLocalFrame();
      if !ok || !quiet {
        heap.Discard(before, block);
        return false;
      }
      FillingStep(NativeTracks(tracks), BLANK_TRACK, i);
      assert NativeTracks(tracks)[i] == NativeTrack(tracks[i]);
    }
    return true;
  }

  /** The catalog number and what is allocated for it; the text is freed whatever happens, the block on failure. */
  method StartCueSheet(env: Env, heap: BlockHeap, sheet: CueSheet) returns (ok: bool, result: Option<nat>)
    requires env.Valid() && heap.Valid() && env.NoFailure()
    modifies env, heap
    ensures env.Valid() && heap.Valid()
    ensures env.buffers == old(env.buffers) && env.localFrames == old(env.localFrames)
    ensures ok <==> env.NoFailure() && FixedFieldFits(sheet.catalog, CATALOG_LENGTH)
    ensures Outcome(old(heap.Now()), heap.Now(), ok, result,
                    Typed(5, CueSheetContent(sheet.(catalog := CString(sheet.catalog), tracks := []))))
  {
    hide Building, env.NoFailure, CString, Utf8Length;
    ghost var before := heap.Now();
    ok := env.Attempts(9);
    if !ok {
      return false, None;
    }
    var catalog := env.ToUtf8(sheet.catalog);
    ok := env.Attempt();
    if catalog.None? || !ok {
      env.Free(catalog);
      return false, None;
    }
    ok := env.Attempts(4);
    if !ok {
      env.Free(catalog);
      return false, None;
    }
    var created := heap.New(env, Typed(5, CueSheetContent(CueSheet("", 0, false, []))));
    if created.None? {
      env.Free(catalog);
      return false, None;
    }
    var block, text := created.value, CString(env.buffers[catalog.value].text);
    BuildingIsLive(before, heap.Now(), block, Typed(5, CueSheetContent(CueSheet("", 0, false, []))));
    heap.Put(before, block, Typed(5, CueSheetContent(CueSheet("", sheet.leadIn, sheet.cd, []))));
    if Utf8Length(text) > CATALOG_LENGTH {
      env.Free(catalog);
      heap.Discard(before, block);
      return false, None;
    }
    heap.Put(before, block, Typed(5, CueSheetContent(CueSheet(text, sheet.leadIn, sheet.cd, []))));
    env.Free(catalog);
    return true, created;
  }

  method BuildCueSheetBlock(env: Env, heap: BlockHeap, sheet: CueSheet) returns (ok: bool, result: Option<nat>)
    requires env.Valid() && heap.Valid() && env.NoFailure()
    modifies env, heap
    ensures env.Valid() && heap.Valid()
    ensures env.buffers == old(env.buffers) && env.localFrames == old(env.localFrames)
    ensures ok <==> env.NoFailure() && NativeAccepts(5, CueSheetContent(sheet))
    ensures Outcome(old(heap.Now()), heap.Now(), ok, result, Typed(5, NativeContent(CueSheetContent(sheet))))
  {
    hide Building, Abandoned, env.NoFailure, CString, FixedFieldFits, Filling, NativeTrack;
    ghost var before := heap.Now();
    ok, result := StartCueSheet(env, heap, sheet);
    assert ok ==> NativeAccepts(5, CueSheetContent(sheet)) == TracksFit(sheet.tracks, |sheet.tracks|);
    if !ok {
      return;
    }
    var block := result.value;
    ghost var started := sheet.(catalog := CString(sheet.catalog), tracks := []);
    BuildingIsLive(before, heap.Now(), block, Typed(5, CueSheetContent(started)));
    ok := env.Attempt();
    if !ok {
      heap.Discard(before, block);
      return false, None;
    }
    var blank := seq(|sheet.tracks|, _ => BLANK_TRACK);
    FillingEnds(NativeTracks(sheet.tracks), BLANK_TRACK);
    heap.Put(before, block, Typed(5, CueSheetContent(heap.contents[block].data.sheet.(tracks := blank))));
    ok := FillTracks(env, heap, before, block, started.(tracks := blank), sheet.tracks);
    if !ok {
      return false, None;
    }
    BuildingIsLive(before, heap.Now(), block, Typed(5, NativeContent(CueSheetContent(sheet))));
    ok := env.Attempt();
    if !ok {
      heap.Discard(before, block);
      return false, None;
    }
  }

  // ------------------------------------------------------------ one request

  /** The builder that type and model select; an ordered request is checked against the model's class first. */
  method BuildRequested(env: Env, heap: BlockHeap, request: Request, ordered: bool)
    returns (ok: bool, result: Option<nat>)
    requires env.Valid() && heap.Valid() && env.NoFailure()
    modifies env, heap
    ensures env.Valid() && heap.Valid()
    ensures env.buffers == old(env.buffers) && env.localFrames == old(env.localFrames)
    ensures ok <==> env.NoFailure() && BlockFor(heap.ownVendor, request).Some?
    ensures ok ==> Outcome(old(heap.Now()), heap.Now(), ok, result, BlockFor(heap.ownVendor, request).value)
    ensures !ok ==> result.None? && Abandoned(old(heap.Now()), heap.Now())
  {
    hide Building, env.NoFailure, CString, NativeEntries, NativeTracks, FixedFieldFits;
    if ordered {
      ok := env.Attempts(if request.blockType == VORBIS_COMMENT_TYPE then 7 else 2);
      if !ok {
        return false, None;
      }
    }
    match request.value
    case VorbisValue(vendor, entries) =>
      if request.blockType != VORBIS_COMMENT_TYPE {
        return false, None;
      }
      ok, result := BuildVorbisCommentBlock(env, heap, vendor, entries);
    case TypedValue(Item(ownType, content)) =>
      if request.blockType in {0, VORBIS_COMMENT_TYPE} || !Fits(SlotOf(request.blockType), content) {
        return false, None;
      }
      ok, result := BuildTyped(env, heap, if content.UnknownContent? then ownType else request.blockType, content);
  }

  method BuildTyped(env: Env, heap: BlockHeap, blockType: nat, content: Content) returns (ok: bool, result: Option<nat>)
    requires env.Valid() && heap.Valid() && env.NoFailure()
    requires content.UnknownContent? || (blockType in {1, 2, 3, 5, 6} && Fits(SlotOf(blockType), content))
    modifies env, heap
    ensures env.Valid() && heap.Valid()
    ensures env.buffers == old(env.buffers) && env.localFrames == old(env.localFrames)
    ensures ok <==> env.NoFailure() && NativeAccepts(blockType, content)
    ensures Outcome(old(heap.Now()), heap.Now(), ok, result, Typed(blockType, NativeContent(content)))
  {
    hide Building, Abandoned, env.NoFailure, CString, NativeTracks, FixedFieldFits;
    match content
    case PictureContent(picture) => ok, result := BuildPictureBlock(env, heap, picture);
    case ApplicationContent(id, data) => ok, result := BuildApplicationBlock(env, heap, id, data);
    case SeekTableContent(points) => ok, result := BuildSeekTableBlock(env, heap, points);
    case CueSheetContent(sheet) => ok, result := BuildCueSheetBlock(env, heap, sheet);
    case PaddingContent(length) => ok, result := BuildPaddingBlock(env, heap, length);
    case UnknownContent(payload) => ok, result := BuildUnknownBlock(env, heap, blockType, payload);
  }
}
