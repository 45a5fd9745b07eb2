/**
 * What metadata blocks hold: the models of the public API, the length each
 * takes in a file (section 8 of RFC 9639), and the API's own checks.
 */
module MetadataContent {
  import opened MetadataOrder
  import opened VorbisComments
  import opened Wrappers

  const MAX_BLOCK_LENGTH := 0xFF_FFFF
  const APPLICATION_ID_LENGTH := 4
  const CATALOG_LENGTH := 128
  const ISRC_LENGTH := 12
  const MAX_LIST_ITEMS := 255
  const MAX_FRAME_SAMPLES := 65_535
  const UNKNOWN_MIN_TYPE := 7
  const UNKNOWN_MAX_TYPE := 126

  datatype Picture = Picture(kind: int, mimeType: string, description: string, width: int, height: int, depth: int,
                             colors: int, data: seq<int>)

  datatype SeekPoint = SeekPoint(sampleNumber: int, streamOffset: int, frameSamples: int)

  datatype CueIndex = CueIndex(offset: int, number: int)

  datatype CueTrack = CueTrack(offset: int, number: int, isrc: string, kind: int, preEmphasis: bool,
                               indices: seq<CueIndex>)

  datatype CueSheet = CueSheet(catalog: string, leadIn: int, cd: bool, tracks: seq<CueTrack>)

  datatype Content =
    | StreamInfoFields(fields: seq<int>)
    | PictureContent(picture: Picture)
    | ApplicationContent(id: seq<int>, data: seq<int>)
    | SeekTableContent(points: seq<SeekPoint>)
    | CueSheetContent(sheet: CueSheet)
    | PaddingContent(length: int)
    | UnknownContent(payload: seq<int>)

  type NativeBlock = Block<Content>

  /** The model belongs to this kind of block. */
  predicate Fits(slot: Slot, content: Content) {
    match slot
    case Pictures => content.PictureContent?
    case Applications => content.ApplicationContent?
    case SeekTables => content.SeekTableContent?
    case CueSheets => content.CueSheetContent?
    case Paddings => content.PaddingContent?
    case Unknowns => content.UnknownContent?
  }

  // ---------------------------------------------------------------- strings

  function Utf8Size(c: char): nat {
    if c < '\U{80}' then 1 else if c < '\U{800}' then 2 else if c < '\U{10000}' then 3 else 4
  }

  /** The length of the UTF-8 form. */
  function Utf8Length(text: string): (n: nat)
    ensures n >= |text|
  {
    if text == [] then 0 else Utf8Length(text[..|text| - 1]) + Utf8Size(text[|text| - 1])
  }

  /** What native code sees of a NUL-terminated buffer. */
  function CString(text: string): (seen: string)
    ensures seen <= text && NUL !in seen
    ensures NUL !in text ==> seen == text
    ensures |seen| < |text| ==> text[|seen|] == NUL
  {
    if text == [] || text[0] == NUL then [] else [text[0]] + CString(text[1..])
  }

  /** An entry without a separator is given an empty value. */
  function WithSeparator(entry: string): string {
    if '=' in entry then entry else entry + "="
  }

  function NativeEntry(entry: string): string {
    WithSeparator(CString(entry))
  }

  function NativeEntries(entries: seq<string>): seq<string> {
    seq(|entries|, i requires 0 <= i < |entries| => NativeEntry(entries[i]))
  }

  // ---------------------------------------------------------------- lengths

  function EntriesLength(entries: seq<string>): nat {
    if entries == [] then 0 else EntriesLength(entries[..|entries| - 1]) + 4 + Utf8Length(entries[|entries| - 1])
  }

  function CommentLength(vendor: string, entries: seq<string>): nat {
    8 + Utf8Length(vendor) + EntriesLength(entries)
  }

  function TracksLength(tracks: seq<CueTrack>): nat {
    if tracks == [] then 0 else
      TracksLength(tracks[..|tracks| - 1]) + 36 + 12 * |tracks[|tracks| - 1].indices|
  }

  function ContentLength(content: Content): int {
    match content
    case StreamInfoFields(_) => 34
    case PictureContent(p) => 32 + Utf8Length(p.mimeType) + Utf8Length(p.description) + |p.data|
    case ApplicationContent(_, data) => APPLICATION_ID_LENGTH + |data|
    case SeekTableContent(points) => 18 * |points|
    case CueSheetContent(sheet) => 396 + TracksLength(sheet.tracks)
    case PaddingContent(length) => length
    case UnknownContent(payload) => |payload|
  }

  // The fields of section 8 of RFC 9639 with their widths in bits, in file order.

  function PointBits(points: seq<SeekPoint>): seq<nat> {
    if points == [] then [] else PointBits(points[..|points| - 1]) + [64, 64, 16]
  }

  function IndexBits(indices: seq<CueIndex>): seq<nat> {
    if indices == [] then [] else IndexBits(indices[..|indices| - 1]) + [64, 8, 3 * 8]
  }

  function TrackBits(tracks: seq<CueTrack>): seq<nat> {
    if tracks == [] then [] else
      TrackBits(tracks[..|tracks| - 1])
      + ([64, 8, 12 * 8, 1, 1, 6 + 13 * 8, 8] + IndexBits(tracks[|tracks| - 1].indices))
  }

  function EntryBits(entries: seq<string>): seq<nat> {
    if entries == [] then [] else EntryBits(entries[..|entries| - 1]) + [32, 8 * Utf8Length(entries[|entries| - 1])]
  }

  function ContentBits(content: Content): seq<nat> {
    match content
    case StreamInfoFields(_) => [16, 16, 24, 24, 20, 3, 5, 36, 128]
    case PictureContent(p) =>
      [32, 32, 8 * Utf8Length(p.mimeType), 32, 8 * Utf8Length(p.description), 32, 32, 32, 32, 32, 8 * |p.data|]
    case ApplicationContent(_, data) => [32, 8 * |data|]
    case SeekTableContent(points) => PointBits(points)
    case CueSheetContent(sheet) => [128 * 8, 64, 1, 7 + 258 * 8, 8] + TrackBits(sheet.tracks)
    case PaddingContent(length) => [if length > 0 then 8 * length else 0]
    case UnknownContent(payload) => [8 * |payload|]
  }

  function BlockBits(block: NativeBlock): seq<nat> {
    match block
    case StreamInfo(info) => ContentBits(info)
    case NativeVorbis(vendor, entries) => [32, 8 * Utf8Length(vendor), 32] + EntryBits(entries)
    case Typed(_, content) => ContentBits(content)
  }

  function BlockLength(block: NativeBlock): int {
    match block
    case StreamInfo(info) => ContentLength(info)
    case NativeVorbis(vendor, entries) => CommentLength(vendor, entries)
    case Typed(_, content) => ContentLength(content)
  }

  predicate LengthFits(block: NativeBlock) {
    BlockLength(block) <= MAX_BLOCK_LENGTH
  }

  // ---------------------------------------------- what native code makes of it

  function NativeTrack(track: CueTrack): CueTrack {
    track.(isrc := CString(track.isrc))
  }

  function NativeTracks(tracks: seq<CueTrack>): seq<CueTrack> {
    seq(|tracks|, i requires 0 <= i < |tracks| => NativeTrack(tracks[i]))
  }

  function NativeContent(content: Content): Content {
    match content
    case PictureContent(p) =>
      PictureContent(p.(mimeType := CString(p.mimeType), description := CString(p.description)))
    case CueSheetContent(sheet) =>
      CueSheetContent(sheet.(catalog := CString(sheet.catalog), tracks := NativeTracks(sheet.tracks)))
    case _ => content
  }

  predicate FixedFieldFits(text: string, capacity: nat) {
    Utf8Length(CString(text)) <= capacity
  }

  /** The checks the native builders make themselves, besides libFLAC's verdicts. */
  predicate NativeAccepts(blockType: nat, content: Content) {
    match content
    case ApplicationContent(id, _) => |id| == APPLICATION_ID_LENGTH
    case PaddingContent(length) => 0 <= length <= MAX_BLOCK_LENGTH
    case UnknownContent(payload) =>
      UNKNOWN_MIN_TYPE <= blockType <= UNKNOWN_MAX_TYPE && |payload| <= MAX_BLOCK_LENGTH
    case CueSheetContent(sheet) =>
      && FixedFieldFits(sheet.catalog, CATALOG_LENGTH)
      && forall track :: track in sheet.tracks ==> FixedFieldFits(track.isrc, ISRC_LENGTH)
    case _ => true
  }

  // ------------------------------------------------------ requested blocks

  /** A public block as native type code and value; without a vendor the codec's own stays. */
  datatype NativeValue = VorbisValue(vendor: Option<string>, entries: seq<string>) | TypedValue(item: Item<Content>)

  datatype Request = Request(blockType: nat, value: NativeValue)

  function VendorOf(ownVendor: string, vendor: Option<string>): string {
    match vendor case Some(text) => CString(text) case None => ownVendor
  }

  /** The block a builder has to make, if type and value belong together and pass the builder's checks. */
  function BlockFor(ownVendor: string, request: Request): Option<NativeBlock> {
    match request.value
    case VorbisValue(vendor, entries) =>
      if request.blockType == VORBIS_COMMENT_TYPE
      then Some(NativeVorbis(VendorOf(ownVendor, vendor), NativeEntries(entries))) else None
    case TypedValue(Item(ownType, content)) =>
      var blockType := if content.UnknownContent? then ownType else request.blockType;
      if request.blockType in {0, VORBIS_COMMENT_TYPE} || !Fits(SlotOf(request.blockType), content)
         || !NativeAccepts(blockType, content) then None
      else Some(Typed(blockType, NativeContent(content)))
  }

  /** Every block must also fit the 24-bit length field. */
  function Requested(ownVendor: string, request: Request): Option<NativeBlock> {
    var block := BlockFor(ownVendor, request);
    if block.Some? && LengthFits(block.value) then block else None
  }

  // ------------------------------------------------------- the API's checks

  predicate FixedAscii(text: string, capacity: nat) {
    |text| <= capacity && forall i :: 0 <= i < |text| ==> '\U{20}' <= text[i] <= '\U{7E}'
  }

  predicate PointAccepted(point: SeekPoint) {
    point.sampleNumber >= -1 && point.streamOffset >= 0 && 0 <= point.frameSamples <= MAX_FRAME_SAMPLES
  }

  predicate IndexAccepted(index: CueIndex) {
    index.offset >= 0 && 0 <= index.number <= 255
  }

  predicate TrackAccepted(track: CueTrack) {
    && track.offset >= 0 && 0 <= track.number <= 255 && FixedAscii(track.isrc, ISRC_LENGTH) && 0 <= track.kind <= 1
    && |track.indices| <= MAX_LIST_ITEMS
    && forall index :: index in track.indices ==> IndexAccepted(index)
  }

  predicate ContentAccepted(content: Content) {
    match content
    case PictureContent(p) =>
      && p.kind >= 0 && !IsBlank(p.mimeType) && NUL !in p.mimeType && NUL !in p.description
      && p.width >= 0 && p.height >= 0 && p.depth >= 0 && p.colors >= 0
      && ContentLength(content) <= MAX_BLOCK_LENGTH
    case ApplicationContent(_, _) => ContentLength(content) <= MAX_BLOCK_LENGTH
    case SeekTableContent(points) => forall point :: point in points ==> PointAccepted(point)
    case CueSheetContent(sheet) =>
      && FixedAscii(sheet.catalog, CATALOG_LENGTH) && sheet.leadIn >= 0 && |sheet.tracks| <= MAX_LIST_ITEMS
      && forall track :: track in sheet.tracks ==> TrackAccepted(track)
    case _ => true
  }

  /** The check of a comment block: its vendor, its keys and values, and the length it will take. */
  ghost predicate CommentsAccepted(vendor: string, groups: seq<Group>) {
    NUL !in vendor && Accepted(groups) && CommentLength(vendor, Printed(groups)) <= MAX_BLOCK_LENGTH
  }

  ghost predicate BlockAccepted(block: PublicBlock<Content>) {
    match block
    case VorbisComment(vendor, groups) => CommentsAccepted(vendor, groups)
    case Public(_, item) => ContentAccepted(item.data)
  }

  // ------------------------------------------------------------------- facts

  function Sum(widths: seq<nat>): nat {
    if widths == [] then 0 else widths[0] + Sum(widths[1..])
  }

  lemma SumOfTwo(a: nat, b: nat)
    ensures Sum([a]) == a && Sum([a, b]) == a + b
  {
    assert [a][1..] == [] && [b][1..] == [] && [a, b][1..] == [b];
    assert Sum([b]) == b;
  }

  lemma SumOfThree(a: nat, b: nat, c: nat)
    ensures Sum([a, b, c]) == a + b + c
  {
    SumOfTwo(b, c);
    assert [a, b, c][1..] == [b, c];
  }

  lemma SumOfFive(a: nat, b: nat, c: nat, d: nat, e: nat)
    ensures Sum([a, b, c, d, e]) == a + b + c + d + e
  {
    SumOfTwo(a, b);
    SumOfThree(c, d, e);
    SumAppend([a, b], [c, d, e]);
    assert [a, b] + [c, d, e] == [a, b, c, d, e];
  }

  lemma {:induction false} SumAppend(front: seq<nat>, back: seq<nat>)
    ensures Sum(front + back) == Sum(front) + Sum(back)
  {
    if front == [] {
      assert front + back == back;
    } else {
      SumAppend(front[1..], back);
      assert (front + back)[1..] == front[1..] + back;
    }
  }

  lemma {:induction false} PointLength(points: seq<SeekPoint>)
    ensures Sum(PointBits(points)) == 8 * (18 * |points|)
  {
    if points != [] {
      PointLength(points[..|points| - 1]);
      SumOfThree(64, 64, 16);
      SumAppend(PointBits(points[..|points| - 1]), [64, 64, 16]);
    }
  }

  lemma {:induction false} IndexLength(indices: seq<CueIndex>)
    ensures Sum(IndexBits(indices)) == 8 * (12 * |indices|)
  {
    if indices != [] {
      IndexLength(indices[..|indices| - 1]);
      SumOfThree(64, 8, 3 * 8);
      SumAppend(IndexBits(indices[..|indices| - 1]), [64, 8, 3 * 8]);
    }
  }

  lemma {:induction false} TrackLength(tracks: seq<CueTrack>)
    ensures Sum(TrackBits(tracks)) == 8 * TracksLength(tracks)
  {
    if tracks != [] {
      var last := |tracks| - 1;
      var head := [64, 8, 12 * 8, 1, 1, 6 + 13 * 8, 8];
      TrackLength(tracks[..last]);
      IndexLength(tracks[last].indices);
      SumAppend(head, IndexBits(tracks[last].indices));
      SumAppend(TrackBits(tracks[..last]), head + IndexBits(tracks[last].indices));
      SumOfFive(64, 8, 12 * 8, 1, 1);
      SumOfTwo(6 + 13 * 8, 8);
      SumAppend([64, 8, 12 * 8, 1, 1], [6 + 13 * 8, 8]);
      assert head == [64, 8, 12 * 8, 1, 1] + [6 + 13 * 8, 8];
    }
  }

  lemma {:induction false} EntryLength(entries: seq<string>)
    ensures Sum(EntryBits(entries)) == 8 * EntriesLength(entries)
  {
    if entries != [] {
      var last := |entries| - 1;
      EntryLength(entries[..last]);
      SumOfTwo(32, 8 * Utf8Length(entries[last]));
      SumAppend(EntryBits(entries[..last]), [32, 8 * Utf8Length(entries[last])]);
    }
  }

  /** The length of a block is what its fields take in a file, bit for bit. */
  lemma LengthOfFields(block: NativeBlock)
    requires block.StreamInfo? && block.info.PaddingContent? ==> block.info.length >= 0
    requires block.Typed? && block.data.PaddingContent? ==> block.data.length >= 0
    ensures Sum(BlockBits(block)) == 8 * BlockLength(block)
    ensures LengthFits(block) <==> Sum(BlockBits(block)) < 8 * 0x100_0000
  {
    hide Utf8Length, EntriesLength, TracksLength, PointBits, TrackBits, EntryBits;
    match block
    case StreamInfo(info) => ContentFields(info);
    case NativeVorbis(vendor, entries) =>
      EntryLength(entries);
      SumOfThree(32, 8 * Utf8Length(vendor), 32);
      SumAppend([32, 8 * Utf8Length(vendor), 32], EntryBits(entries));
    case Typed(_, content) => ContentFields(content);
  }

  lemma ContentFields(content: Content)
    requires content.PaddingContent? ==> content.length >= 0
    ensures Sum(ContentBits(content)) == 8 * ContentLength(content)
  {
    hide Utf8Length, EntriesLength, TracksLength, PointBits, TrackBits, EntryBits;
    match content
    case StreamInfoFields(_) => StreamInfoLength();
    case PictureContent(p) => PictureFields(Utf8Length(p.mimeType), Utf8Length(p.description), |p.data|);
    case ApplicationContent(_, data) => SumOfTwo(32, 8 * |data|);
    case SeekTableContent(points) => PointLength(points);
    case CueSheetContent(sheet) =>
      TrackLength(sheet.tracks);
      SumOfFive(128 * 8, 64, 1, 7 + 258 * 8, 8);
      SumAppend([128 * 8, 64, 1, 7 + 258 * 8, 8], TrackBits(sheet.tracks));
    case PaddingContent(length) => SumOfTwo(8 * length, 0);
    case UnknownContent(payload) => SumOfTwo(8 * |payload|, 0);
  }

  lemma StreamInfoLength()
    ensures Sum([16, 16, 24, 24, 20, 3, 5, 36, 128]) == 8 * 34
  {
    SumOfFive(16, 16, 24, 24, 20);
    SumOfThree(3, 5, 36);
    SumOfTwo(128, 0);
    SumAppend([3, 5, 36], [128]);
    SumAppend([16, 16, 24, 24, 20], [3, 5, 36] + [128]);
    assert [16, 16, 24, 24, 20] + ([3, 5, 36] + [128]) == [16, 16, 24, 24, 20, 3, 5, 36, 128];
  }

  lemma PictureFields(mimeType: nat, description: nat, data: nat)
    ensures Sum([32, 32, 8 * mimeType, 32, 8 * description, 32, 32, 32, 32, 32, 8 * data])
         == 8 * (32 + mimeType + description + data)
  {
    var front, middle, back := [32, 32, 8 * mimeType, 32, 8 * description], [32, 32, 32], [32, 32, 8 * data];
    SumOfFive(32, 32, 8 * mimeType, 32, 8 * description);
    SumOfThree(32, 32, 32);
    SumOfThree(32, 32, 8 * data);
    SumAppend(front, middle);
    SumAppend(front + middle, back);
    assert front + middle + back == [32, 32, 8 * mimeType, 32, 8 * description, 32, 32, 32, 32, 32, 8 * data];
  }


  lemma {:induction false} AsciiLength(text: string)
    requires forall i :: 0 <= i < |text| ==> '\U{20}' <= text[i] <= '\U{7E}'
    ensures Utf8Length(text) == |text| && NUL !in text
  {
    if text != [] {
      AsciiLength(text[..|text| - 1]);
    }
  }

  /** A model that passed the API's check reaches the native block unchanged, and passes the native checks it shares. */
  lemma AcceptedUnchanged(blockType: nat, content: Content)
    requires ContentAccepted(content)
    ensures NativeContent(content) == content
    ensures content.CueSheetContent? ==> NativeAccepts(blockType, content)
  {
    if content.CueSheetContent? {
      AsciiLength(content.sheet.catalog);
      forall i | 0 <= i < |content.sheet.tracks|
        ensures FixedFieldFits(content.sheet.tracks[i].isrc, ISRC_LENGTH)
        ensures NativeTrack(content.sheet.tracks[i]) == content.sheet.tracks[i]
      {
        assert content.sheet.tracks[i] in content.sheet.tracks;
        AsciiLength(content.sheet.tracks[i].isrc);
      }
      assert NativeTracks(content.sheet.tracks) == content.sheet.tracks;
    }
  }

  /**
   * The API takes exactly the seek points and index points that their unsigned fields can
   * hold, longs taken as they are.
   */
  lemma PointsFitTheirFields(point: SeekPoint, index: CueIndex)
    requires point.sampleNumber >= -1 && point.streamOffset >= 0 && index.offset >= 0
    ensures ContentAccepted(SeekTableContent([point])) <==> 0 <= point.frameSamples < 0x1_0000
    ensures IndexAccepted(index) <==> 0 <= index.number < 0x100
  {
    assert point in [point];
  }

  /**
   * An accepted cue sheet fits its fields: one-octet counts and numbers, a one-bit track type,
   * texts of 128 and 12 octets.
   */
  lemma CueSheetFitsItsFields(sheet: CueSheet)
    requires ContentAccepted(CueSheetContent(sheet))
    ensures |sheet.tracks| < 0x100 && Utf8Length(sheet.catalog) <= 128 && sheet.leadIn >= 0
    ensures forall track :: track in sheet.tracks ==>
      && track.offset >= 0 && 0 <= track.number < 0x100 && 0 <= track.kind < 2
      && |track.indices| < 0x100 && Utf8Length(track.isrc) <= 12
    ensures LengthFits(Typed(5, CueSheetContent(sheet)))
  {
    AsciiLength(sheet.catalog);
    forall track | track in sheet.tracks
      ensures Utf8Length(track.isrc) <= 12 && |track.indices| <= 255
    {
      AsciiLength(track.isrc);
    }
    ShortTracks(sheet.tracks);
  }

  lemma {:induction false} ShortTracks(tracks: seq<CueTrack>)
    requires forall track :: track in tracks ==> |track.indices| <= 255
    ensures TracksLength(tracks) <= |tracks| * (36 + 12 * 255)
  {
    if tracks != [] {
      ShortTracks(tracks[..|tracks| - 1]);
    }
  }

  /** A fixed field takes no text that is too long for it and has no NUL to cut it short. */
  lemma TooLongRefused(text: string, capacity: nat)
    requires NUL !in text && |text| > capacity
    ensures !FixedFieldFits(text, capacity)
  {
  }

  /**
   * Without a vendor of its own a comment block keeps the codec's; native code completes
   * entries that lack a separator.
   */
  lemma OwnVendorStays(ownVendor: string, entries: seq<string>)
    requires CommentLength(ownVendor, NativeEntries(entries)) <= MAX_BLOCK_LENGTH
    requires forall i :: 0 <= i < |entries| ==> NUL !in entries[i]
    ensures var made := Requested(ownVendor, Request(4, VorbisValue(None, entries)));
      && made.Some? && made.value.NativeVorbis? && made.value.vendor == ownVendor && |made.value.entries| == |entries|
      && forall i :: 0 <= i < |entries| ==>
        made.value.entries[i] == if '=' in entries[i] then entries[i] else entries[i] + "="
  {
  }

  lemma {:induction false} EntriesLengthAppend(front: seq<string>, back: seq<string>)
    ensures EntriesLength(front + back) == EntriesLength(front) + EntriesLength(back)
  {
    if back == [] {
      assert front + back == front;
    } else {
      var last := |back| - 1;
      assert (front + back)[..|front| + last] == front + back[..last];
      EntriesLengthAppend(front, back[..last]);
    }
  }

  /** The length does not depend on the order of the entries. */
  lemma {:induction false} EntriesLengthOf(a: seq<string>, b: seq<string>)
    requires multiset(a) == multiset(b)
    ensures EntriesLength(a) == EntriesLength(b)
    decreases |a|
  {
    if a == [] {
      assert |b| == |multiset(b)| == |multiset(a)| == 0;
    } else {
      var last := a[|a| - 1];
      assert a == a[..|a| - 1] + [last];
      assert last in multiset(b);
      var i :| 0 <= i < |b| && b[i] == last;
      assert b == b[..i] + [last] + b[i + 1..];
      assert multiset(a[..|a| - 1]) == multiset(a) - multiset{last};
      assert multiset(b[..i] + b[i + 1..]) == multiset(b) - multiset{last};
      EntriesLengthOf(a[..|a| - 1], b[..i] + b[i + 1..]);
      EntriesLengthAppend(b[..i] + [last], b[i + 1..]);
      EntriesLengthAppend(b[..i], [last]);
      EntriesLengthAppend(b[..i], b[i + 1..]);
      assert [last][..0] == [];
    }
  }

  /** Grouping entries and printing them again takes exactly the room of the well-formed ones. */
  lemma RegroupedLength(vendor: string, entries: seq<string>)
    ensures CommentLength(vendor, Printed(Parsed(entries))) == CommentLength(vendor, WellFormedOnes(entries))
  {
    NothingLost(entries);
    EntriesLengthOf(Printed(Parsed(entries)), WellFormedOnes(entries));
  }

  lemma EntriesLengthSnoc(entries: seq<string>, entry: string)
    ensures EntriesLength(entries + [entry]) == EntriesLength(entries) + 4 + Utf8Length(entry)
  {
    assert (entries + [entry])[..|entries|] == entries;
  }

  lemma {:induction false} WellFormedLength(entries: seq<string>)
    ensures EntriesLength(WellFormedOnes(entries)) <= EntriesLength(entries)
  {
    if entries != [] {
      var last := |entries| - 1;
      var kept := WellFormedOnes(entries[..last]);
      WellFormedLength(entries[..last]);
      EntriesLengthSnoc(kept, entries[last]);
      assert WellFormedOnes(entries) == if WellFormed(entries[last]) then kept + [entries[last]] else kept;
      assert EntriesLength(entries) == EntriesLength(entries[..last]) + 4 + Utf8Length(entries[last]);
    }
  }

  /** So comments that fitted a block before fit it again. */
  lemma RegroupedFits(vendor: string, entries: seq<string>)
    ensures CommentLength(vendor, Printed(Parsed(entries))) <= CommentLength(vendor, entries)
  {
    RegroupedLength(vendor, entries);
    WellFormedLength(entries);
  }

  /** Printed comments that were accepted contain a separator and no NUL, so native code keeps them as they are. */
  lemma {:induction false} PrintedUnchanged(groups: seq<Group>)
    requires Accepted(groups)
    ensures NativeEntries(Printed(groups)) == Printed(groups)
  {
    if groups != [] {
      AcceptedFirst(groups);
      PrintedUnchanged(groups[1..]);
      var lines, group := Printed(groups), groups[0];
      forall i | 0 <= i < |lines|
        ensures NativeEntry(lines[i]) == lines[i]
      {
        if i < |group.values| {
          assert group.values[i] in group.values;
          EntryUnchanged(group.key, group.values[i]);
        } else {
          assert lines[i] == Printed(groups[1..])[i - |group.values|];
          assert NativeEntries(Printed(groups[1..]))[i - |group.values|] == NativeEntry(lines[i]);
        }
      }
    }
  }

  lemma EntryUnchanged(key: string, value: string)
    requires NUL !in key && NUL !in value
    ensures NativeEntry(Entry(key, value)) == Entry(key, value)
  {
    assert Entry(key, value)[|key|] == '=';
  }
}
