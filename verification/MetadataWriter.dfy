/**
 * Rewriting the metadata of a file: native blocks are built into a table,
 * moved one by one into the chain, and freed exactly once on every path.
 */
module MetadataWriter {
  import opened MetadataBuilders
  import opened MetadataContent
  import opened MetadataOrder
  import opened VorbisComments
  import opened Wrappers

  function NativeType(block: PublicBlock<Content>): nat {
    match block
    case VorbisComment(_, _) => VORBIS_COMMENT_TYPE
    case Public(slot, item) =>
      match slot
      case Paddings => 1
      case Applications => 2
      case SeekTables => 3
      case CueSheets => 5
      case Pictures => 6
      case Unknowns => item.blockType
  }

  /** The request the JVM makes for one public block. */
  function RequestFor(block: PublicBlock<Content>): Request {
    match block
    case VorbisComment(vendor, groups) => Request(NativeType(block), VorbisValue(Some(vendor), Printed(groups)))
    case Public(_, item) => Request(NativeType(block), TypedValue(item))
  }

  /** What any block of a file satisfies: type and content belong together, and the length fits its field. */
  predicate Consistent(block: NativeBlock) {
    && Legal(block) && LengthFits(block)
    && (block.Typed? ==>
          && Fits(SlotOf(block.blockType), block.data)
          && (block.data.ApplicationContent? ==> |block.data.id| == APPLICATION_ID_LENGTH)
          && (block.data.PaddingContent? ==> block.data.length >= 0))
  }

  ghost predicate ConsistentChain(chain: seq<NativeBlock>) {
    forall i :: 0 <= i < |chain| ==> Consistent(chain[i])
  }

  /** A block after one trip through the public form: its comments are grouped by key. */
  function Regrouped(block: NativeBlock): NativeBlock {
    if block.NativeVorbis? then NativeVorbis(block.vendor, Printed(Parsed(block.entries))) else block
  }

  ghost function RegroupedAll(blocks: seq<NativeBlock>): seq<NativeBlock> {
    seq(|blocks|, i requires 0 <= i < |blocks| => Regrouped(blocks[i]))
  }

  /** Which content stands under which type code of section 8.1 of RFC 9639. */
  lemma TypeCodes(block: NativeBlock)
    requires Consistent(block) && block.Typed?
    ensures block.data.PaddingContent? <==> block.blockType == 1
    ensures block.data.ApplicationContent? <==> block.blockType == 2
    ensures block.data.SeekTableContent? <==> block.blockType == 3
    ensures block.data.CueSheetContent? <==> block.blockType == 5
    ensures block.data.PictureContent? <==> block.blockType == 6
    ensures block.data.UnknownContent? <==> 7 <= block.blockType <= 126
    ensures RequestFor(Shown(block)).blockType == block.blockType
  {
  }

  /** Every shown block that passes the API's check can be built again, and gives the regrouped original. */
  lemma ShownIsBuilt(block: NativeBlock, ownVendor: string)
    requires Consistent(block) && !block.StreamInfo? && BlockAccepted(Shown(block))
    ensures Requested(ownVendor, RequestFor(Shown(block))) == Some(Regrouped(block))
  {
    match block
    case NativeVorbis(vendor, entries) =>
      hide Parsed, Printed, Accepted, NativeEntries, CommentLength;
      PrintedUnchanged(Parsed(entries));
    case Typed(blockType, content) =>
      hide ContentAccepted, ContentLength;
      AcceptedUnchanged(blockType, content);
      if !content.CueSheetContent? {
        PlainFits(blockType, content);
      }
  }

  lemma PlainFits(blockType: nat, content: Content)
    requires Consistent(Typed(blockType, content)) && !content.CueSheetContent?
    ensures NativeAccepts(blockType, content)
  {
  }

  /** The public API sees no difference after such a trip. */
  lemma RegroupedLooksSame(block: NativeBlock)
    requires !block.StreamInfo?
    ensures Shown(Regrouped(block)) == Shown(block)
  {
    if block.NativeVorbis? {
      RoundTripIsStable(block.entries);
    }
  }

  ghost predicate AllBuildable(ownVendor: string, requests: seq<Request>) {
    forall i :: 0 <= i < |requests| ==> Requested(ownVendor, requests[i]).Some?
  }

  ghost function Blocks(ownVendor: string, requests: seq<Request>): seq<NativeBlock>
    requires AllBuildable(ownVendor, requests)
  {
    seq(|requests|, i requires 0 <= i < |requests| => Requested(ownVendor, requests[i]).value)
  }

  /** The requests the JVM makes for an ordered list. */
  ghost function RequestsFor(blocks: seq<PublicBlock<Content>>): seq<Request> {
    seq(|blocks|, i requires 0 <= i < |blocks| => RequestFor(blocks[i]))
  }

  lemma {:induction false} ShownRow(chain: seq<NativeBlock>)
    ensures |ShownAll(chain)| == |Ordered(chain)|
    ensures forall i :: 0 <= i < |Ordered(chain)| ==>
      !Ordered(chain)[i].StreamInfo? && ShownAll(chain)[i] == Shown(Ordered(chain)[i]) && Ordered(chain)[i] in chain
  {
    if chain != [] {
      ShownRow(chain[..|chain| - 1]);
    }
  }

  /**
   * Reading a chain and writing the ordered list back, as far as the API's check
   * lets it, gives STREAMINFO and the same blocks in the same order, with
   * comments grouped by key, and the public API cannot tell the new chain from
   * the old one.
   */
  lemma ReadThenWrite(chain: seq<NativeBlock>, payload: Payload<Content>, ownVendor: string)
    requires ConsistentChain(chain) && VorbisCount(chain) <= 1 && PayloadOf(payload, chain)
    requires chain != [] && chain[0].StreamInfo? && OrderedAccepted(PublicBlocks(payload))
    ensures var requests := RequestsFor(PublicBlocks(payload));
      && AllBuildable(ownVendor, requests)
      && Blocks(ownVendor, requests) == RegroupedAll(Ordered(chain))
      && ShownAll([chain[0]] + Blocks(ownVendor, requests)) == ShownAll(chain)
  {
    hide Ordered, ShownAll, Requested, Regrouped, Shown, PayloadOf, VorbisCount, PublicBlocks, BlockAccepted,
         VorbisShown, SeekTablesShown, LengthFits, Fits;
    assert LegalChain(chain) by {
      assert forall i :: 0 <= i < |chain| ==> Consistent(chain[i]);
    }
    OrderIsKept(chain, payload);
    ShownRow(chain);
    assert forall i :: 0 <= i < |Ordered(chain)| ==> Consistent(Ordered(chain)[i]);
    RequestsBuilt(Ordered(chain), ShownAll(chain), ownVendor);
    SameView(chain);
  }

  lemma RequestsBuilt(blocks: seq<NativeBlock>, shown: seq<PublicBlock<Content>>, ownVendor: string)
    requires |blocks| == |shown|
    requires forall i :: 0 <= i < |blocks| ==>
      !blocks[i].StreamInfo? && Consistent(blocks[i]) && shown[i] == Shown(blocks[i]) && BlockAccepted(shown[i])
    ensures AllBuildable(ownVendor, RequestsFor(shown)) && Blocks(ownVendor, RequestsFor(shown)) == RegroupedAll(blocks)
  {
    hide Regrouped, Shown, Consistent, BlockAccepted, Requested;
    forall i | 0 <= i < |blocks|
      ensures Requested(ownVendor, RequestsFor(shown)[i]) == Some(Regrouped(blocks[i]))
    {
      ShownIsBuilt(blocks[i], ownVendor);
    }
  }

  lemma SameView(chain: seq<NativeBlock>)
    requires chain != [] && chain[0].StreamInfo?
    ensures ShownAll([chain[0]] + RegroupedAll(Ordered(chain))) == ShownAll(chain)
  {
    hide Ordered, ShownAll, Regrouped, Shown;
    ShownRow(chain);
    var blocks := Ordered(chain);
    RegroupedShown(chain[0], blocks, |blocks|);
    assert RegroupedAll(blocks)[..|blocks|] == RegroupedAll(blocks);
  }

  /** A leading STREAMINFO does not show; the other blocks show one by one. */
  lemma {:induction false} ShownList(first: NativeBlock, blocks: seq<NativeBlock>, n: nat)
    requires first.StreamInfo? && n <= |blocks| && forall i :: 0 <= i < |blocks| ==> !blocks[i].StreamInfo?
    ensures |ShownAll([first] + blocks[..n])| == n
    ensures forall i :: 0 <= i < n ==> ShownAll([first] + blocks[..n])[i] == Shown(blocks[i])
  {
    if n == 0 {
      assert [first] + blocks[..0] == [first] && [first][..0] == [];
    } else {
      ShownList(first, blocks, n - 1);
      var all := [first] + blocks[..n];
      assert all[..|all| - 1] == [first] + blocks[..n - 1];
    }
  }

  lemma RegroupedShown(first: NativeBlock, blocks: seq<NativeBlock>, n: nat)
    requires first.StreamInfo? && n == |blocks| && forall i :: 0 <= i < |blocks| ==> !blocks[i].StreamInfo?
    ensures |ShownAll([first] + RegroupedAll(blocks)[..n])| == n
    ensures forall i :: 0 <= i < n ==> ShownAll([first] + RegroupedAll(blocks)[..n])[i] == Shown(blocks[i])
  {
    ShownList(first, RegroupedAll(blocks), n);
    forall i | 0 <= i < n
      ensures Shown(RegroupedAll(blocks)[i]) == Shown(blocks[i])
    {
      RegroupedLooksSame(blocks[i]);
    }
  }

  /** With one leading STREAMINFO, the ordered list is the rest of the chain. */
  lemma {:induction false} LeadingInfo(chain: seq<NativeBlock>)
    requires chain != [] && chain[0].StreamInfo? && InfoCount(chain) == 1
    ensures Ordered(chain) == chain[1..]
  {
    var last := |chain| - 1;
    if last == 0 {
      assert chain[..0] == [];
    } else {
      InfoAtFront(chain[..last]);
      LeadingInfo(chain[..last]);
      assert chain[1..] == chain[..last][1..] + [chain[last]];
    }
  }

  lemma {:induction false} InfoAtFront(chain: seq<NativeBlock>)
    requires chain != [] && chain[0].StreamInfo?
    ensures InfoCount(chain) >= 1
  {
    if |chain| > 1 {
      InfoAtFront(chain[..|chain| - 1]);
    }
  }

  ghost function VorbisShown(blocks: seq<PublicBlock<Content>>): nat {
    if blocks == [] then 0 else
      VorbisShown(blocks[..|blocks| - 1]) + if blocks[|blocks| - 1].VorbisComment? then 1 else 0
  }

  ghost function SeekTablesShown(blocks: seq<PublicBlock<Content>>): nat {
    if blocks == [] then 0 else
      var last := blocks[|blocks| - 1];
      SeekTablesShown(blocks[..|blocks| - 1]) + if last.Public? && last.slot == SeekTables then 1 else 0
  }

  /** The JVM check of an ordered list. */
  ghost predicate OrderedAccepted(blocks: seq<PublicBlock<Content>>) {
    && VorbisShown(blocks) <= 1 && SeekTablesShown(blocks) <= 1
    && forall i :: 0 <= i < |blocks| ==> BlockAccepted(blocks[i])
  }

  /** What the check asks of a block as it stands in the file. */
  ghost predicate NativeBlockAccepted(block: NativeBlock) {
    match block
    case StreamInfo(_) => true
    case NativeVorbis(vendor, entries) =>
      && NUL !in vendor && (forall i :: 0 <= i < |entries| ==> AcceptedEntry(entries[i]))
      && CommentLength(vendor, WellFormedOnes(entries)) <= MAX_BLOCK_LENGTH
    case Typed(_, content) => ContentAccepted(content)
  }

  /**
   * A list that was read passes the check exactly when it has one seek table at
   * most and every block passes by itself; for comments that means no NUL, no
   * blank key, and well-formed entries that fit a block.
   */
  lemma ReadPassesCheck(chain: seq<NativeBlock>)
    requires VorbisCount(chain) <= 1
    ensures OrderedAccepted(ShownAll(chain)) <==>
      |Items(chain, SeekTables)| <= 1 && forall i :: 0 <= i < |chain| ==> NativeBlockAccepted(chain[i])
  {
    hide BlockAccepted, NativeBlockAccepted;
    ShownCounts(chain);
    BlocksShown(chain);
  }

  /** The length is no obstacle for a block that came out of a file. */
  lemma ReadLengthFits(block: NativeBlock)
    requires Consistent(block) && block.NativeVorbis?
    ensures NativeBlockAccepted(block) <==>
      NUL !in block.vendor && forall i :: 0 <= i < |block.entries| ==> AcceptedEntry(block.entries[i])
  {
    hide AcceptedEntry;
    WellFormedLength(block.entries);
  }

  lemma {:induction false} ShownCounts(chain: seq<NativeBlock>)
    ensures VorbisShown(ShownAll(chain)) == VorbisCount(chain)
    ensures SeekTablesShown(ShownAll(chain)) == |Items(chain, SeekTables)|
  {
    if chain != [] {
      ShownCounts(chain[..|chain| - 1]);
      if !chain[|chain| - 1].StreamInfo? {
        var earlier := ShownAll(chain[..|chain| - 1]);
        assert (earlier + [Shown(chain[|chain| - 1])])[..|earlier|] == earlier;
      } else {
        assert ShownAll(chain) == ShownAll(chain[..|chain| - 1]);
      }
    }
  }

  lemma ShownAcceptedIff(block: NativeBlock)
    requires !block.StreamInfo?
    ensures BlockAccepted(Shown(block)) <==> NativeBlockAccepted(block)
  {
    if block.NativeVorbis? {
      ReadIsWritable(block.entries);
      RegroupedLength(block.vendor, block.entries);
    }
  }

  lemma {:induction false} BlocksShown(chain: seq<NativeBlock>)
    ensures (forall i :: 0 <= i < |ShownAll(chain)| ==> BlockAccepted(ShownAll(chain)[i]))
       <==> forall i :: 0 <= i < |chain| ==> NativeBlockAccepted(chain[i])
  {
    hide BlockAccepted, Shown;
    if chain != [] {
      var last := |chain| - 1;
      BlocksShown(chain[..last]);
      assert forall i :: 0 <= i < last ==> chain[..last][i] == chain[i];
      if !chain[last].StreamInfo? {
        var earlier := ShownAll(chain[..last]);
        assert forall i :: 0 <= i < |earlier| ==> ShownAll(chain)[i] == earlier[i];
        assert ShownAll(chain)[|earlier|] == Shown(chain[last]);
        ShownAcceptedIff(chain[last]);
      } else {
        assert ShownAll(chain) == ShownAll(chain[..last]);
      }
    }
  }

  function SetOf(ids: seq<nat>): set<nat> {
    set i | 0 <= i < |ids| :: ids[i]
  }

  ghost predicate Unique(ids: seq<nat>) {
    forall i, j :: 0 <= i < j < |ids| ==> ids[i] != ids[j]
  }

  /** The blocks a table still owns. */
  ghost function Owned(slots: seq<Option<nat>>): set<nat> {
    set i | 0 <= i < |slots| && slots[i].Some? :: slots[i].value
  }

  ghost predicate UniqueSlots(slots: seq<Option<nat>>) {
    forall i, j :: 0 <= i < j < |slots| && slots[i].Some? && slots[j].Some? ==> slots[i].value != slots[j].value
  }

  /** The metadata part of an encode context: a table of blocks that are not handed over yet. */
  class BlockTable {
    var slots: array?<Option<nat>>
    var count: nat

    constructor ()
      ensures slots == null && count == 0
    {
      slots, count := null, 0;
    }

    ghost function Slots(): seq<Option<nat>>
      reads this, slots
    {
      if slots == null then [] else slots[..]
    }

    /** The cleanup span is the whole table, and every block in it is live and there once. */
    ghost predicate Valid(heap: BlockHeap)
      reads this, slots, heap
    {
      && heap.Valid() && UniqueSlots(Slots()) && Owned(Slots()) <= heap.live
      && (slots != null ==> count == slots.Length)
    }

    /** Frees what the table still owns; calling it again does nothing. */
    method DestroyMetadataBlocks(heap: BlockHeap)
      requires Valid(heap)
      modifies this, heap`live
      ensures Valid(heap) && slots == null && count == 0
      ensures heap.live == old(heap.live) - old(Owned(Slots()))
    {
      if slots == null {
        count := 0;
        return;
      }
      var i := 0;
      ghost var all := slots[..];
      while i < count
        invariant i <= count == |all| && slots != null && slots[..] == all && heap.Valid()
        invariant heap.live == old(heap.live) - Owned(all[..i])
      {
        assert all[..i + 1] == all[..i] + [all[i]];
        OwnedMore(all[..i], all[i]);
        if slots[i].Some? {
          StillOwned(all, i);
          heap.Delete(slots[i].value);
        }
        i := i + 1;
      }
      assert all[..i] == all;
      slots, count := null, 0;
    }

    /** Live blocks that belong to somebody else. */
    ghost function Others(heap: BlockHeap): set<nat>
      reads this, slots, heap
    {
      heap.live - Owned(Slots())
    }

    /** One builder call with its length check, its array access and its checks for pending exceptions. */
    method BuildInto(env: Env, heap: BlockHeap, index: nat, request: Request, ordered: bool) returns (ok: bool)
      requires Valid(heap) && slots != null && index < slots.Length && slots[index].None?
      requires env.Valid() && env.NoFailure()
      modifies slots, heap, env
      ensures Valid(heap) && Others(heap) == old(Others(heap))
      ensures env.Valid() && env.buffers == old(env.buffers) && env.localFrames == old(env.localFrames)
      ensures forall j :: 0 <= j < slots.Length && j != index ==> slots[j] == old(slots[j])
      ensures Kept(old(heap.Now()), heap.Now())
      ensures ok <==> env.NoFailure() && Requested(heap.ownVendor, request).Some?
      ensures ok ==>
        && slots[index].Some? && slots[index].value in heap.contents
        && Requested(heap.ownVendor, request) == Some(heap.contents[slots[index].value])
    {
      hide env.NoFailure, BlockFor, LengthFits, Owned, UniqueSlots;
      ghost var before, was := heap.Now(), slots[..];
      // Only the grouped comment block is built outside a local frame, and not followed by exception checks.
      var framed := ordered || !request.value.VorbisValue?;
      if framed {
        ok := env.PushLocalFrame();
        if !ok {
          return;
        }
        ok := env.Attempts(if ordered then 2 else 1);
        if !ok {
          env.PopLocalFrame();
          return;
        }
      }
      var result;
      ok, result := BuildRequested(env, heap, request, ordered);
      assert ok ==> Building(before, heap.Now(), result.value, BlockFor(heap.ownVendor, request).value);
      assert !ok ==> result.None? && Abandoned(before, heap.Now());
      if ok && ordered && !LengthFits(heap.contents[result.value]) {
        heap.Discard(before, result.value);
        ok, result := false, None;
      }
      Publish(heap, index, result, before);
      var quiet := true;
      if framed {
        quiet := env.Attempts(if ordered then 1 else 2);
        env.PopLocalFrame();
      }
      ok := ok && quiet && (ordered || LengthFits(heap.contents[result.value]));
    }

    /** The builder's result goes into its slot: the table owns the new block, if there is one. */
    method Publish(heap: BlockHeap, index: nat, result: Option<nat>, ghost before: View)
      requires heap.Valid() && slots != null && index < slots.Length && slots[index].None? && count == slots.Length
      requires UniqueSlots(Slots()) && Owned(Slots()) <= before.live
      requires if result.None? then Abandoned(before, heap.Now()) else
        result.value in heap.contents && Building(before, heap.Now(), result.value, heap.contents[result.value])
      modifies slots
      ensures Valid(heap) && Others(heap) == before.live - old(Owned(Slots()))
      ensures slots[..] == old(slots[..])[index := result]
    {
      ghost var was := slots[..];
      slots[index] := result;
      if result.Some? {
        OwnedSet(was, index, result.value);
      } else {
        assert slots[..] == was;
      }
    }

    /** What a finished build leaves in the table. */
    ghost predicate Holds(heap: BlockHeap, requests: seq<Request>)
      reads this, slots, heap
    {
      && |Slots()| == |requests|
      && forall i :: 0 <= i < |requests| ==>
        && Slots()[i].Some? && Slots()[i].value in heap.contents
        && Requested(heap.ownVendor, requests[i]) == Some(heap.contents[Slots()[i].value])
    }

    /** Either every block is built, or nothing is left of the attempt. */
    method BuildMetadataBlocks(env: Env, heap: BlockHeap, requests: seq<Request>, ordered: bool) returns (ok: bool)
      requires heap.Valid() && env.Valid() && env.NoFailure()
      modifies this, heap, env
      ensures Valid(heap) && (slots == null || fresh(slots))
      ensures env.Valid() && env.buffers == old(env.buffers) && env.localFrames == old(env.localFrames)
      ensures Kept(old(heap.Now()), heap.Now())
      ensures ok <==> env.NoFailure() && AllBuildable(heap.ownVendor, requests)
      ensures Others(heap) == old(heap.live)
      ensures ok ==> Holds(heap, requests)
      ensures !ok ==> slots == null && heap.live == old(heap.live)
    {
      hide env.NoFailure, Requested, Owned, UniqueSlots;
      slots, count := null, 0;
      NothingOwned();
      if requests == [] {
        return true;
      }
      ok := env.Attempt();
      if !ok {
        return;
      }
      slots := new Option<nat>[|requests|](_ => None);
      count := |requests|;
      NoneOwned(slots[..]);
      var i := 0;
      while i < |requests|
        invariant i <= |requests| && fresh(slots) && slots != null && slots.Length == |requests| == count
        invariant Valid(heap) && Others(heap) == old(heap.live)
        invariant env.Valid() && env.buffers == old(env.buffers) && env.localFrames == old(env.localFrames)
        invariant env.NoFailure()
        invariant Kept(old(heap.Now()), heap.Now())
        invariant forall j :: i <= j < |requests| ==> slots[j].None?
        invariant forall j :: 0 <= j < i ==>
          && slots[j].Some? && slots[j].value in heap.contents
          && Requested(heap.ownVendor, requests[j]) == Some(heap.contents[slots[j].value])
      {
        var built := BuildInto(env, heap, i, requests[i], ordered);
        if !built {
          DestroyMetadataBlocks(heap);
          return false;
        }
        i := i + 1;
      }
      return true;
    }
  }

  lemma NothingOwned()
    ensures Owned([]) == {} && UniqueSlots([])
  {
  }

  lemma NoneOwned(slots: seq<Option<nat>>)
    requires forall i :: 0 <= i < |slots| ==> slots[i].None?
    ensures Owned(slots) == {} && UniqueSlots(slots)
  {
  }

  lemma OwnedSet(slots: seq<Option<nat>>, index: nat, id: nat)
    requires index < |slots| && slots[index].None? && UniqueSlots(slots) && id !in Owned(slots)
    ensures UniqueSlots(slots[index := Some(id)])
    ensures Owned(slots[index := Some(id)]) == Owned(slots) + {id}
  {
    var after := slots[index := Some(id)];
    assert after[index] == Some(id);
    forall x | x in Owned(slots)
      ensures x in Owned(after)
    {
      var i :| 0 <= i < |slots| && slots[i].Some? && slots[i].value == x;
      assert after[i] == slots[i];
    }
    forall i, j | 0 <= i < j < |after| && after[i].Some? && after[j].Some?
      ensures after[i].value != after[j].value
    {
      assert i != index ==> after[i].value in Owned(slots);
      assert j != index ==> after[j].value in Owned(slots);
    }
  }

  lemma OwnedMore(slots: seq<Option<nat>>, slot: Option<nat>)
    ensures Owned(slots + [slot]) == Owned(slots) + if slot.Some? then {slot.value} else {}
  {
    var more := slots + [slot];
    forall id | id in Owned(slots)
      ensures id in Owned(more)
    {
      var i :| 0 <= i < |slots| && slots[i].Some? && slots[i].value == id;
      assert more[i] == slots[i];
    }
    if slot.Some? {
      assert more[|slots|] == slot;
    }
  }

  lemma StillOwned(slots: seq<Option<nat>>, i: nat)
    requires UniqueSlots(slots) && i < |slots| && slots[i].Some?
    ensures slots[i].value in Owned(slots) && slots[i].value !in Owned(slots[..i])
  {
  }

  /** libFLAC's metadata chain with the iterator the writer uses on it. */
  class MetadataChain {
    var ids: seq<nat>
    var position: nat

    ghost predicate Valid(heap: BlockHeap)
      reads this, heap
    {
      heap.Valid() && Unique(ids) && SetOf(ids) <= heap.live && position < |ids|
    }

    constructor (ids: seq<nat>)
      ensures this.ids == ids && position == 0
    {
      this.ids, position := ids, 0;
    }

    method Next() returns (moved: bool)
      requires position < |ids|
      modifies `position
      ensures moved <==> old(position) + 1 < |ids|
      ensures position == old(position) + if moved then 1 else 0
    {
      moved := position + 1 < |ids|;
      if moved {
        position := position + 1;
      }
    }

    /** Deletes the current block; the iterator falls back to its predecessor. */
    method DeleteBlock(heap: BlockHeap, permitted: bool) returns (ok: bool)
      requires Valid(heap) && position > 0
      modifies this, heap`live
      ensures ok == permitted && Valid(heap)
      ensures heap.live - SetOf(ids) == old(heap.live - SetOf(ids))
      ensures !ok ==> ids == old(ids) && position == old(position)
      ensures ok ==> ids == old(ids[..position] + ids[position + 1..]) && position == old(position) - 1
    {
      if !permitted {
        return false;
      }
      Without(ids, position);
      heap.Delete(ids[position]);
      ids := ids[..position] + ids[position + 1..];
      position := position - 1;
      return true;
    }

    /** Inserts behind the current block and moves to the inserted one; the chain owns it from then on. */
    method InsertBlockAfter(heap: BlockHeap, id: nat, permitted: bool) returns (ok: bool)
      requires Valid(heap) && id in heap.live && id !in SetOf(ids)
      modifies this
      ensures ok == permitted && Valid(heap)
      ensures !ok ==> ids == old(ids) && position == old(position)
      ensures ok ==>
        && ids == old(ids[..position + 1]) + [id] + old(ids[position + 1..]) && position == old(position) + 1
        && SetOf(ids) == old(SetOf(ids)) + {id}
    {
      if permitted {
        Inserted(ids, position + 1, id);
        ids := ids[..position + 1] + [id] + ids[position + 1..];
        position := position + 1;
      }
      return permitted;
    }

    /** metadata_chain_delete: frees every block the chain owns. */
    method DeleteChain(heap: BlockHeap)
      requires heap.Valid() && Unique(ids) && SetOf(ids) <= heap.live
      modifies heap`live
      ensures heap.Valid() && heap.live == old(heap.live) - SetOf(ids)
    {
      for i := 0 to |ids|
        invariant heap.Valid() && heap.live == old(heap.live) - SetOf(ids[..i])
      {
        assert ids[..i + 1] == ids[..i] + [ids[i]];
        heap.Delete(ids[i]);
      }
      assert ids[..|ids|] == ids;
    }
  }

  lemma Without(ids: seq<nat>, i: nat)
    requires i < |ids| && Unique(ids)
    ensures Unique(ids[..i] + ids[i + 1..])
    ensures SetOf(ids[..i] + ids[i + 1..]) == SetOf(ids) - {ids[i]}
  {
    var rest := ids[..i] + ids[i + 1..];
    forall id | id in SetOf(ids) && id != ids[i]
      ensures id in SetOf(rest)
    {
      var j :| 0 <= j < |ids| && ids[j] == id;
      assert rest[if j < i then j else j - 1] == id;
    }
  }

  lemma Inserted(ids: seq<nat>, i: nat, id: nat)
    requires i <= |ids| && Unique(ids) && id !in SetOf(ids)
    ensures Unique(ids[..i] + [id] + ids[i..])
    ensures SetOf(ids[..i] + [id] + ids[i..]) == SetOf(ids) + {id}
  {
    var more := ids[..i] + [id] + ids[i..];
    assert more[i] == id;
    forall x | x in SetOf(ids)
      ensures x in SetOf(more)
    {
      var j :| 0 <= j < |ids| && ids[j] == x;
      assert more[if j < i then j else j + 1] == x;
    }
    forall j | 0 <= j < |more|
      ensures j != i ==> more[j] in SetOf(ids)
    {
    }
  }

  datatype Result = Written(blocks: seq<NativeBlock>) | Failed

  /** Removes every block behind the first. */
  method DeleteAllButFirst(env: Env, heap: BlockHeap, chain: MetadataChain) returns (ok: bool)
    requires chain.Valid(heap) && chain.position == 0 && env.NoFailure()
    modifies env`used, chain, heap`live
    ensures chain.Valid(heap)
    ensures heap.live - SetOf(chain.ids) == old(heap.live - SetOf(chain.ids))
    ensures chain.ids[0] == old(chain.ids[0])
    ensures ok <==> env.NoFailure()
    ensures ok ==> chain.ids == [old(chain.ids[0])] && chain.position == 0
  {
    hide env.NoFailure;
    while true
      invariant chain.Valid(heap) && chain.position == 0 && env.NoFailure()
      invariant heap.live - SetOf(chain.ids) == old(heap.live - SetOf(chain.ids))
      invariant chain.ids[0] == old(chain.ids[0])
      decreases |chain.ids|
    {
      var moved := chain.Next();
      if !moved {
        return true;
      }
      var permitted := env.Attempt();
      ok := chain.DeleteBlock(heap, permitted);
      if !ok {
        return;
      }
    }
  }

  /** The blocks of a table in order. */
  ghost function Filled(slots: seq<Option<nat>>): seq<nat> {
    if slots == [] then [] else
      var last := slots[|slots| - 1];
      Filled(slots[..|slots| - 1]) + if last.Some? then [last.value] else []
  }

  lemma OwnedCleared(slots: seq<Option<nat>>, i: nat)
    requires i < |slots| && slots[i].Some? && UniqueSlots(slots)
    ensures UniqueSlots(slots[i := None]) && slots[i].value in Owned(slots)
    ensures Owned(slots[i := None]) == Owned(slots) - {slots[i].value}
  {
    var after := slots[i := None];
    forall id | id in Owned(slots) && id != slots[i].value
      ensures id in Owned(after)
    {
      var j :| 0 <= j < |slots| && slots[j].Some? && slots[j].value == id;
      assert after[j] == slots[j];
    }
  }

  /** A live block is in the chain or in the table, never in both. */
  ghost predicate Shared(heap: BlockHeap, chain: MetadataChain, table: BlockTable, both: set<nat>)
    reads heap, chain, table, table.slots
  {
    && chain.Valid(heap) && table.Valid(heap)
    && SetOf(chain.ids) !! Owned(table.Slots())
    && SetOf(chain.ids) + Owned(table.Slots()) == both
  }

  /** Hands one block over; the slot is emptied in the same step. */
  method InsertOne(heap: BlockHeap, chain: MetadataChain, table: BlockTable, i: nat, permitted: bool,
                      ghost both: set<nat>)
    returns (ok: bool)
    requires Shared(heap, chain, table, both) && chain.position == |chain.ids| - 1
    requires table.slots != null && i < table.slots.Length && table.slots[i].Some?
    modifies chain, table.slots
    ensures Shared(heap, chain, table, both) && chain.position == |chain.ids| - 1
    ensures ok == permitted
    ensures ok ==>
      && chain.ids == old(chain.ids) + [old(table.slots[i].value)]
      && table.slots[..] == old(table.slots[..])[i := None]
    ensures !ok ==> chain.ids == old(chain.ids) && table.slots[..] == old(table.slots[..])
  {
    ghost var slots := table.slots[..];
    OwnedCleared(slots, i);
    ok := chain.InsertBlockAfter(heap, table.slots[i].value, permitted);
    if ok {
      table.slots[i] := None;
      assert table.slots[..] == slots[i := None];
    }
  }

  lemma NothingFilled()
    ensures Filled([]) == []
  {
  }

  lemma FilledStep(slots: seq<Option<nat>>, i: nat)
    requires i < |slots|
    ensures Filled(slots[..i + 1]) == Filled(slots[..i]) + if slots[i].Some? then [slots[i].value] else []
  {
    assert slots[..i + 1][..i] == slots[..i];
  }

  method InsertAll(env: Env, heap: BlockHeap, chain: MetadataChain, table: BlockTable, ghost both: set<nat>)
    returns (ok: bool)
    requires Shared(heap, chain, table, both) && chain.position == |chain.ids| - 1 && env.NoFailure()
    modifies env`used, chain, table.slots
    ensures Shared(heap, chain, table, both)
    ensures ok <==> env.NoFailure()
    ensures ok ==> chain.ids == old(chain.ids + Filled(table.Slots()))
  {
    hide Owned, SetOf, Unique, UniqueSlots, env.NoFailure, Filled;
    if table.slots == null {
      NothingFilled();
      return true;
    }
    NothingFilled();
    ghost var start, first := table.slots[..], chain.ids;
    assert start[..0] == [];
    var i := 0;
    while i < table.count
      invariant i <= table.count == |start| && table.slots != null && env.NoFailure()
      invariant Shared(heap, chain, table, both) && chain.position == |chain.ids| - 1
      invariant table.slots[i..] == start[i..]
      invariant chain.ids == first + Filled(start[..i])
    {
      FilledStep(start, i);
      assert table.slots[i] == start[i];
      if table.slots[i].Some? {
        var permitted := env.Attempt();
        ok := InsertOne(heap, chain, table, i, permitted, both);
        if !ok {
          return;
        }
      }
      assert table.slots[i + 1..] == start[i + 1..];
      i := i + 1;
    }
    assert start[..i] == start;
    return true;
  }

  function ContentsOf(contents: map<nat, NativeBlock>, ids: seq<nat>): seq<NativeBlock>
    requires forall i :: 0 <= i < |ids| ==> ids[i] in contents
  {
    seq(|ids|, i requires 0 <= i < |ids| => contents[ids[i]])
  }

  /** What the chain holds once every block of the table is in it. */
  lemma NewChain(ownVendor: string, contents: map<nat, NativeBlock>, first: nat, slots: seq<Option<nat>>,
                 requests: seq<Request>)
    requires first in contents && |slots| == |requests| && AllBuildable(ownVendor, requests)
    requires forall i :: 0 <= i < |requests| ==>
      && slots[i].Some? && slots[i].value in contents
      && Requested(ownVendor, requests[i]) == Some(contents[slots[i].value])
    ensures |Filled(slots)| == |requests|
    ensures forall i :: 0 <= i < |requests| + 1 ==> ([first] + Filled(slots))[i] in contents
    ensures ContentsOf(contents, [first] + Filled(slots)) == [contents[first]] + Blocks(ownVendor, requests)
  {
    hide Filled, Requested;
    FilledAll(slots);
  }

  /**
   * writeMetadata on a chain that was read from a file. It succeeds exactly when
   * the file starts with STREAMINFO, every value can be built and nothing it calls
   * fails; whatever fails and wherever, every block of the chain, every block
   * built on the way, every temporary buffer and the iterator are freed once.
   */
  method WriteMetadata(env: Env, heap: BlockHeap, chain: MetadataChain, ordered: seq<Request>, grouped: seq<Request>)
    returns (result: Result)
    requires chain.Valid(heap) && chain.position == 0 && env.Valid() && env.NoFailure()
    modifies env, heap, chain
    ensures heap.Valid() && heap.live == old(heap.live - SetOf(chain.ids))
    ensures env.Valid() && env.buffers == old(env.buffers) && env.localFrames == old(env.localFrames)
    ensures
      && var requests := if ordered != [] then ordered else grouped;
      && var first := old(heap.contents[chain.ids[0]]);
      && (result.Written? <==> env.NoFailure() && first.StreamInfo? && AllBuildable(heap.ownVendor, requests))
      && (result.Written? ==> result.blocks == [first] + Blocks(heap.ownVendor, requests))
  {
    assert chain.ids[0] in SetOf(chain.ids);
    hide env.NoFailure, SetOf, Unique, AllBuildable;
    var cursor := env.Malloc(Octets([]));
    if cursor.None? {
      DeleteChain(heap, chain);
      return Failed;
    }
    var prepared := false;
    if heap.contents[chain.ids[0]].StreamInfo? {
      prepared := DeleteAllButFirst(env, heap, chain);
      if prepared {
        prepared := env.Attempts(19);
      }
    }
    if !prepared {
      env.Free(cursor);
      DeleteChain(heap, chain);
      return Failed;
    }
    result := ReplaceBlocks(env, heap, chain, if ordered != [] then ordered else grouped, ordered != []);
    env.Free(cursor);
    DeleteChain(heap, chain);
  }

  /** metadata_chain_delete on a chain that is still whole. */
  method DeleteChain(heap: BlockHeap, chain: MetadataChain)
    requires chain.Valid(heap)
    modifies heap`live
    ensures heap.Valid() && heap.live == old(heap.live) - SetOf(chain.ids)
  {
    chain.DeleteChain(heap);
  }

  /** Builds the new blocks and puts them behind the only one left. */
  method ReplaceBlocks(env: Env, heap: BlockHeap, chain: MetadataChain, requests: seq<Request>, ordered: bool)
    returns (result: Result)
    requires chain.Valid(heap) && chain.position == 0 && |chain.ids| == 1 && env.Valid() && env.NoFailure()
    modifies env, heap, chain
    ensures chain.Valid(heap)
    ensures heap.live - SetOf(chain.ids) == old(heap.live - SetOf(chain.ids))
    ensures env.Valid() && env.buffers == old(env.buffers) && env.localFrames == old(env.localFrames)
    ensures
      && var first := old(heap.contents[chain.ids[0]]);
      && (result.Written? <==> env.NoFailure() && AllBuildable(heap.ownVendor, requests))
      && (result.Written? ==> result.blocks == [first] + Blocks(heap.ownVendor, requests))
  {
    assert chain.ids[0] in SetOf(chain.ids);
    hide Owned, SetOf, UniqueSlots, AllBuildable, Requested, env.NoFailure;
    var table := new BlockTable();
    var built := table.BuildMetadataBlocks(env, heap, requests, ordered);
    if !built {
      table.DestroyMetadataBlocks(heap);
      return Failed;
    }
    result := InstallBlocks(env, heap, chain, table, requests);
  }

  /** Hands a finished table over to the chain and has the chain written. */
  method InstallBlocks(env: Env, heap: BlockHeap, chain: MetadataChain, table: BlockTable, requests: seq<Request>)
    returns (result: Result)
    requires chain.Valid(heap) && chain.position == 0 && |chain.ids| == 1 && env.NoFailure()
    requires table.Valid(heap) && AllBuildable(heap.ownVendor, requests) && table.Holds(heap, requests)
    requires SetOf(chain.ids) <= table.Others(heap)
    modifies env`used, heap`live, chain, table, table.slots
    ensures chain.Valid(heap)
    ensures heap.live - SetOf(chain.ids) == old(table.Others(heap) - SetOf(chain.ids))
    ensures result.Written? <==> env.NoFailure()
    ensures result.Written? ==>
      result.blocks == [old(heap.contents[chain.ids[0]])] + Blocks(heap.ownVendor, requests)
  {
    hide Owned, Filled, AllBuildable, Requested, env.NoFailure, UniqueSlots;
    NewChain(heap.ownVendor, heap.contents, chain.ids[0], table.Slots(), requests);
    ghost var both := SetOf(chain.ids) + Owned(table.Slots());
    var inserted := InsertAll(env, heap, chain, table, both);
    table.DestroyMetadataBlocks(heap);
    if !inserted {
      return Failed;
    }
    var written := env.Attempt();
    if !written {
      return Failed;
    }
    return Written(ContentsOf(heap.contents, chain.ids));
  }

  lemma {:induction false} FilledAll(slots: seq<Option<nat>>)
    ensures |Filled(slots)| <= |slots|
    ensures (forall i :: 0 <= i < |slots| ==> slots[i].Some?) ==>
      |Filled(slots)| == |slots| && forall i :: 0 <= i < |slots| ==> Filled(slots)[i] == slots[i].value
  {
    if slots != [] {
      FilledAll(slots[..|slots| - 1]);
    }
  }
}
