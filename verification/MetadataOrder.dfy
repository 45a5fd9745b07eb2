/**
 * Metadata blocks on their way to the JVM and back: typed arrays with a
 * (type, index) table, rebuilt into an ordered list, turned into native types
 * and values again. Type codes are those of section 8.1 of RFC 9639.
 */
module MetadataOrder {
  import opened VorbisComments
  import opened Wrappers

  const VORBIS_COMMENT_TYPE := 4

  /** A native block; `type` of a Typed block is its type code. */
  datatype Block<D> =
    | StreamInfo(info: D)
    | NativeVorbis(vendor: string, entries: seq<string>)
    | Typed(blockType: nat, data: D)

  /** The typed arrays of the payload. */
  datatype Slot = Pictures | Applications | SeekTables | CueSheets | Paddings | Unknowns

  /** An element of a typed array; only unknown blocks carry their code with them. */
  datatype Item<D> = Item(blockType: nat, data: D)

  datatype Payload<D> = Payload(info: D, vorbis: Option<(string, seq<string>)>, lists: map<Slot, seq<Item<D>>>,
                                types: seq<nat>, indices: seq<nat>)

  /** The public ordered list. */
  datatype PublicBlock<D> =
    | VorbisComment(vendor: string, groups: seq<Group>)
    | Public(slot: Slot, item: Item<D>)

  predicate Legal<D>(block: Block<D>) {
    block.Typed? ==> 1 <= block.blockType <= 126 && block.blockType != VORBIS_COMMENT_TYPE
  }

  ghost predicate LegalChain<D>(chain: seq<Block<D>>) {
    forall i :: 0 <= i < |chain| ==> Legal(chain[i])
  }

  function SlotOf(blockType: nat): Slot {
    match blockType
    case 1 => Paddings
    case 2 => Applications
    case 3 => SeekTables
    case 5 => CueSheets
    case 6 => Pictures
    case _ => Unknowns
  }

  function TypeOf<D>(block: Block<D>): nat {
    match block
    case StreamInfo(_) => 0
    case NativeVorbis(_, _) => VORBIS_COMMENT_TYPE
    case Typed(blockType, _) => blockType
  }

  predicate InSlot<D>(block: Block<D>, slot: Slot) {
    block.Typed? && SlotOf(block.blockType) == slot
  }

  /** The blocks of one typed array, in chain order. */
  ghost function Items<D>(chain: seq<Block<D>>, slot: Slot): seq<Item<D>> {
    if chain == [] then [] else
      var block := chain[|chain| - 1];
      Items(chain[..|chain| - 1], slot) + if InSlot(block, slot) then [Item(block.blockType, block.data)] else []
  }

  ghost function InfoCount<D>(chain: seq<Block<D>>): nat {
    if chain == [] then 0 else
      InfoCount(chain[..|chain| - 1]) + if chain[|chain| - 1].StreamInfo? then 1 else 0
  }

  ghost function VorbisCount<D>(chain: seq<Block<D>>): nat {
    if chain == [] then 0 else
      VorbisCount(chain[..|chain| - 1]) + if chain[|chain| - 1].NativeVorbis? then 1 else 0
  }

  ghost function Ordered<D>(chain: seq<Block<D>>): seq<Block<D>> {
    if chain == [] then [] else
      Ordered(chain[..|chain| - 1]) + if chain[|chain| - 1].StreamInfo? then [] else [chain[|chain| - 1]]
  }

  /** The order table: types, and indices into the typed arrays. */
  ghost function Types<D>(chain: seq<Block<D>>): (types: seq<nat>)
    ensures |types| == |Ordered(chain)|
  {
    if chain == [] then [] else
      var block := chain[|chain| - 1];
      Types(chain[..|chain| - 1]) + if block.StreamInfo? then [] else [TypeOf(block)]
  }

  ghost function Indices<D>(chain: seq<Block<D>>): (indices: seq<nat>)
    ensures |indices| == |Ordered(chain)|
  {
    if chain == [] then [] else
      var earlier, block := chain[..|chain| - 1], chain[|chain| - 1];
      Indices(earlier)
      + if block.StreamInfo? then [] else if block.NativeVorbis? then [0] else [|Items(earlier, SlotOf(block.blockType))|]
  }

  function ZeroCounts(): map<Slot, nat> {
    map[Pictures := 0, Applications := 0, SeekTables := 0, CueSheets := 0, Paddings := 0, Unknowns := 0]
  }

  lemma ZeroCountsAreZero()
    ensures forall slot: Slot :: slot in ZeroCounts() && ZeroCounts()[slot] == 0
  {
    forall slot: Slot
      ensures slot in ZeroCounts() && ZeroCounts()[slot] == 0
    {
      match slot
      case Pictures =>
      case Applications =>
      case SeekTables =>
      case CueSheets =>
      case Paddings =>
      case Unknowns =>
    }
  }

  ghost predicate CountsOf<D>(counts: map<Slot, nat>, chain: seq<Block<D>>) {
    forall slot: Slot :: slot in counts && counts[slot] == |Items(chain, slot)|
  }

  datatype Singles<D> = Singles(info: Option<D>, vorbis: Option<(string, seq<string>)>, vorbisCount: nat, ordered: nat,
                                counts: map<Slot, nat>)

  /** The first pass: counts, and the blocks that occur once. */
  method CountBlocks<D>(chain: seq<Block<D>>) returns (singles: Singles<D>)
    ensures CountsOf(singles.counts, chain) && singles.ordered == |Ordered(chain)|
    ensures singles.vorbisCount == VorbisCount(chain)
    ensures singles.info.Some? <==> InfoCount(chain) > 0
    ensures singles.info.Some? ==> StreamInfo(singles.info.value) in chain
    ensures singles.vorbis.Some? <==> VorbisCount(chain) > 0
    ensures singles.vorbis.Some? ==> NativeVorbis(singles.vorbis.value.0, singles.vorbis.value.1) in chain
  {
    singles := Singles(None, None, 0, 0, ZeroCounts());
    ZeroCountsAreZero();
    for i := 0 to |chain|
      invariant CountsOf(singles.counts, chain[..i]) && singles.ordered == |Ordered(chain[..i])|
      invariant singles.vorbisCount == VorbisCount(chain[..i])
      invariant singles.info.Some? <==> InfoCount(chain[..i]) > 0
      invariant singles.info.Some? ==> StreamInfo(singles.info.value) in chain
      invariant singles.vorbis.Some? <==> VorbisCount(chain[..i]) > 0
      invariant singles.vorbis.Some? ==> NativeVorbis(singles.vorbis.value.0, singles.vorbis.value.1) in chain
    {
      assert chain[..i + 1][..i] == chain[..i];
      match chain[i]
      case StreamInfo(info) =>
        singles := singles.(info := Some(info));
      case NativeVorbis(vendor, entries) =>
        singles := singles.(vorbis := Some((vendor, entries)), vorbisCount := singles.vorbisCount + 1,
                            ordered := singles.ordered + 1);
      case Typed(blockType, _) =>
        var slot := SlotOf(blockType);
        singles := singles.(counts := singles.counts[slot := singles.counts[slot] + 1], ordered := singles.ordered + 1);
    }
    assert chain[..|chain|] == chain;
  }

  /** One of the copying passes: an array of exactly the counted size. */
  method FillSlot<D(0)>(chain: seq<Block<D>>, slot: Slot, count: nat) returns (values: array<Item<D>>)
    requires count == |Items(chain, slot)|
    ensures fresh(values) && values[..] == Items(chain, slot)
  {
    values := new Item<D>[count];
    var index := 0;
    for i := 0 to |chain|
      invariant index == |Items(chain[..i], slot)| <= count
      invariant values[..index] == Items(chain[..i], slot)
    {
      ItemsGrow(chain, i + 1, slot);
      assert chain[..i + 1][..i] == chain[..i];
      if InSlot(chain[i], slot) {
        values[index] := Item(chain[i].blockType, chain[i].data);
        index := index + 1;
      }
    }
    assert chain[..|chain|] == chain;
  }

  lemma {:induction false} ItemsGrow<D>(chain: seq<Block<D>>, n: nat, slot: Slot)
    requires n <= |chain|
    ensures |Items(chain[..n], slot)| <= |Items(chain, slot)|
    decreases |chain| - n
  {
    if n == |chain| {
      assert chain[..n] == chain;
    } else {
      assert chain[..n + 1][..n] == chain[..n];
      ItemsGrow(chain, n + 1, slot);
    }
  }

  /** The final pass: the type and index tables. */
  method BuildOrderTable<D>(chain: seq<Block<D>>, ordered: nat) returns (types: array<nat>, indices: array<nat>)
    requires ordered == |Ordered(chain)|
    ensures fresh(types) && fresh(indices)
    ensures types[..] == Types(chain) && indices[..] == Indices(chain)
  {
    types, indices := new nat[ordered], new nat[ordered];
    var orderedIndex := 0;
    var next := ZeroCounts();
    ZeroCountsAreZero();
    for i := 0 to |chain|
      invariant orderedIndex == |Ordered(chain[..i])| <= ordered && CountsOf(next, chain[..i])
      invariant types[..orderedIndex] == Types(chain[..i]) && indices[..orderedIndex] == Indices(chain[..i])
    {
      OrderedGrow(chain, i + 1);
      assert chain[..i + 1][..i] == chain[..i];
      if !chain[i].StreamInfo? {
        var blockIndex := 0;
        if chain[i].Typed? {
          var slot := SlotOf(chain[i].blockType);
          blockIndex := next[slot];
          next := next[slot := blockIndex + 1];
        }
        types[orderedIndex], indices[orderedIndex] := TypeOf(chain[i]), blockIndex;
        orderedIndex := orderedIndex + 1;
      }
    }
    assert chain[..|chain|] == chain;
  }

  lemma {:induction false} OrderedGrow<D>(chain: seq<Block<D>>, n: nat)
    requires n <= |chain|
    ensures |Ordered(chain[..n])| <= |Ordered(chain)|
    decreases |chain| - n
  {
    if n == |chain| {
      assert chain[..n] == chain;
    } else {
      assert chain[..n + 1][..n] == chain[..n];
      OrderedGrow(chain, n + 1);
    }
  }

  /** What reading a chain must yield. */
  ghost predicate PayloadOf<D>(payload: Payload<D>, chain: seq<Block<D>>) {
    && StreamInfo(payload.info) in chain
    && (payload.vorbis.Some? <==> VorbisCount(chain) > 0)
    && (payload.vorbis.Some? ==> NativeVorbis(payload.vorbis.value.0, payload.vorbis.value.1) in chain)
    && ListsOf(payload.lists, chain)
    && payload.types == Types(chain) && payload.indices == Indices(chain)
  }

  /** readMetadata: a payload, or an error for a chain the payload cannot represent. */
  method ReadMetadata<D(0)>(chain: seq<Block<D>>) returns (payload: Option<Payload<D>>)
    ensures payload.Some? <==> InfoCount(chain) > 0 && VorbisCount(chain) <= 1
    ensures payload.Some? ==> PayloadOf(payload.value, chain)
  {
    hide CountsOf, ListsOf;
    var singles := CountBlocks(chain);
    if singles.info.None? || singles.vorbisCount > 1 {
      return None;
    }
    var lists := CopyLists(chain, singles.counts);
    var types, indices := BuildOrderTable(chain, singles.ordered);
    return Some(Payload(singles.info.value, singles.vorbis, lists, types[..], indices[..]));
  }

  ghost predicate ListsOf<D>(lists: map<Slot, seq<Item<D>>>, chain: seq<Block<D>>) {
    forall slot: Slot :: slot in lists && lists[slot] == Items(chain, slot)
  }

  /** The six copying passes. */
  method CopyLists<D(0)>(chain: seq<Block<D>>, counts: map<Slot, nat>) returns (lists: map<Slot, seq<Item<D>>>)
    requires CountsOf(counts, chain)
    ensures ListsOf(lists, chain)
  {
    hide Items;
    var pictures := FillSlot(chain, Pictures, counts[Pictures]);
    var applications := FillSlot(chain, Applications, counts[Applications]);
    var seekTables := FillSlot(chain, SeekTables, counts[SeekTables]);
    var cueSheets := FillSlot(chain, CueSheets, counts[CueSheets]);
    var paddings := FillSlot(chain, Paddings, counts[Paddings]);
    var unknowns := FillSlot(chain, Unknowns, counts[Unknowns]);
    lists := map[Pictures := pictures[..], Applications := applications[..], SeekTables := seekTables[..],
                 CueSheets := cueSheets[..], Paddings := paddings[..], Unknowns := unknowns[..]];
    forall slot: Slot
      ensures slot in lists && lists[slot] == Items(chain, slot)
    {
      match slot
      case Pictures =>
      case Applications =>
      case SeekTables =>
      case CueSheets =>
      case Paddings =>
      case Unknowns =>
    }
  }

  /** One lookup of the ordered list; None is dropped. */
  function Resolved<D>(payload: Payload<D>, blockType: nat, index: nat): Option<PublicBlock<D>> {
    if blockType == VORBIS_COMMENT_TYPE then
      if payload.vorbis.None? then None
      else Some(VorbisComment(payload.vorbis.value.0, Parsed(payload.vorbis.value.1)))
    else
      var slot := SlotOf(blockType);
      if slot !in payload.lists || index >= |payload.lists[slot]| then None
      else Some(Public(slot, payload.lists[slot][index]))
  }

  /** toPublicMetadata's ordered list: zip, look up, drop what is missing. */
  function Reconstructed<D>(payload: Payload<D>, n: nat): seq<PublicBlock<D>>
    requires n <= |payload.types| && n <= |payload.indices|
  {
    if n == 0 then [] else
      var found := Resolved(payload, payload.types[n - 1], payload.indices[n - 1]);
      Reconstructed(payload, n - 1) + if found.Some? then [found.value] else []
  }

  function PublicBlocks<D>(payload: Payload<D>): seq<PublicBlock<D>> {
    Reconstructed(payload, if |payload.types| <= |payload.indices| then |payload.types| else |payload.indices|)
  }

  /** How one native block looks to the public API. */
  function Shown<D>(block: Block<D>): PublicBlock<D>
    requires !block.StreamInfo?
  {
    match block
    case NativeVorbis(vendor, entries) => VorbisComment(vendor, Parsed(entries))
    case Typed(blockType, data) => Public(SlotOf(blockType), Item(blockType, data))
  }

  ghost function ShownAll<D>(chain: seq<Block<D>>): seq<PublicBlock<D>> {
    if chain == [] then [] else
      ShownAll(chain[..|chain| - 1]) + if chain[|chain| - 1].StreamInfo? then [] else [Shown(chain[|chain| - 1])]
  }

  /**
   * The typed arrays and the order table lose nothing: the ordered list is the
   * chain without STREAMINFO, block for block.
   */
  lemma OrderIsKept<D>(chain: seq<Block<D>>, payload: Payload<D>)
    requires LegalChain(chain) && VorbisCount(chain) <= 1 && PayloadOf(payload, chain)
    ensures PublicBlocks(payload) == ShownAll(chain)
  {
    OrderIsKeptUpTo(chain, payload, |chain|);
    assert chain[..|chain|] == chain;
  }

  lemma {:induction false} OrderIsKeptUpTo<D>(chain: seq<Block<D>>, payload: Payload<D>, n: nat)
    requires LegalChain(chain) && VorbisCount(chain) <= 1 && PayloadOf(payload, chain) && n <= |chain|
    ensures |Ordered(chain[..n])| <= |payload.types| == |payload.indices|
    ensures Reconstructed(payload, |Ordered(chain[..n])|) == ShownAll(chain[..n])
  {
    hide LegalChain, VorbisCount, PayloadOf, Resolved, Shown, Items, Types, Indices;
    TableSize(chain, payload, n);
    if n > 0 {
      OrderIsKeptUpTo(chain, payload, n - 1);
      assert chain[..n][..n - 1] == chain[..n - 1];
      if !chain[n - 1].StreamInfo? {
        RowResolves(chain, payload, n);
      }
    }
  }

  lemma TableSize<D>(chain: seq<Block<D>>, payload: Payload<D>, n: nat)
    requires PayloadOf(payload, chain) && n <= |chain|
    ensures |Ordered(chain[..n])| <= |Ordered(chain)| == |payload.types| == |payload.indices|
  {
    OrderedGrow(chain, n);
  }

  /** The row of block n - 1 finds that block again. */
  lemma RowResolves<D>(chain: seq<Block<D>>, payload: Payload<D>, n: nat)
    requires LegalChain(chain) && VorbisCount(chain) <= 1 && PayloadOf(payload, chain)
    requires 0 < n <= |chain| && !chain[n - 1].StreamInfo?
    ensures var row := |Ordered(chain[..n - 1])|;
      && row < |payload.types| == |payload.indices|
      && Resolved(payload, payload.types[row], payload.indices[row]) == Some(Shown(chain[n - 1]))
  {
    hide Resolved, Shown, LegalChain, VorbisCount;
    TableEntry(chain, n);
    EntryResolves(chain, payload, n);
  }

  /** Row |Ordered(chain[..n - 1])| of the table belongs to block n - 1. */
  lemma {:induction false} TableEntry<D>(chain: seq<Block<D>>, n: nat)
    requires 0 < n <= |chain| && !chain[n - 1].StreamInfo?
    ensures var row := |Ordered(chain[..n - 1])|;
      && row < |Ordered(chain)|
      && Types(chain)[row] == TypeOf(chain[n - 1])
      && Indices(chain)[row]
         == if chain[n - 1].NativeVorbis? then 0 else |Items(chain[..n - 1], SlotOf(chain[n - 1].blockType))|
    decreases |chain|
  {
    var last := |chain| - 1;
    if n == |chain| {
      assert chain[..last] == chain[..n - 1];
    } else {
      assert chain[..last][..n - 1] == chain[..n - 1] && chain[..last][n - 1] == chain[n - 1];
      TableEntry(chain[..last], n);
    }
  }

  lemma EntryResolves<D>(chain: seq<Block<D>>, payload: Payload<D>, n: nat)
    requires LegalChain(chain) && VorbisCount(chain) <= 1 && PayloadOf(payload, chain)
    requires 0 < n <= |chain| && !chain[n - 1].StreamInfo?
    ensures Resolved(payload, TypeOf(chain[n - 1]),
                     if chain[n - 1].NativeVorbis? then 0 else |Items(chain[..n - 1], SlotOf(chain[n - 1].blockType))|)
         == Some(Shown(chain[n - 1]))
  {
    match chain[n - 1]
    case NativeVorbis(vendor, entries) =>
      VorbisAt(chain, n - 1);
      OnlyVorbis(chain, n - 1, NativeVorbis(payload.vorbis.value.0, payload.vorbis.value.1));
    case Typed(blockType, data) =>
      assert Legal(chain[n - 1]);
      ItemAt(chain, n, SlotOf(blockType));
  }

  lemma {:induction false} ItemAt<D>(chain: seq<Block<D>>, n: nat, slot: Slot)
    requires 0 < n <= |chain| && InSlot(chain[n - 1], slot)
    ensures var index := |Items(chain[..n - 1], slot)|;
      index < |Items(chain, slot)| && Items(chain, slot)[index] == Item(chain[n - 1].blockType, chain[n - 1].data)
    decreases |chain|
  {
    var last := |chain| - 1;
    if n == |chain| {
      assert chain[..last] == chain[..n - 1];
    } else {
      assert chain[..last][..n - 1] == chain[..n - 1] && chain[..last][n - 1] == chain[n - 1];
      ItemAt(chain[..last], n, slot);
    }
  }

  lemma {:induction false} VorbisAt<D>(chain: seq<Block<D>>, i: nat)
    requires i < |chain| && chain[i].NativeVorbis?
    ensures VorbisCount(chain) > 0
    decreases |chain|
  {
    if i < |chain| - 1 {
      VorbisAt(chain[..|chain| - 1], i);
    }
  }

  lemma {:induction false} OnlyVorbis<D>(chain: seq<Block<D>>, i: nat, block: Block<D>)
    requires VorbisCount(chain) <= 1 && i < |chain| && chain[i].NativeVorbis?
    requires block in chain && block.NativeVorbis?
    ensures chain[i] == block
    decreases |chain|
  {
    var last := |chain| - 1;
    var j :| 0 <= j < |chain| && chain[j] == block;
    if i < last {
      VorbisAt(chain[..last], i);
    }
    if j < last {
      VorbisAt(chain[..last], j);
    }
    if i < last && j < last {
      assert chain[..last][j] == block;
      OnlyVorbis(chain[..last], i, block);
    }
  }
}
