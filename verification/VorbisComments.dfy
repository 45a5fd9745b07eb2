/** Vorbis comment entries and the grouped form the wrapper shows (section 8.6 of RFC 9639). */
module VorbisComments {
  /** One key of the insertion-ordered map, with its values. */
  datatype Group = Group(key: string, values: seq<string>)

  /** The position of the first '=', or -1. */
  function IndexOfSeparator(entry: string): (i: int)
    ensures -1 <= i < |entry|
    ensures i >= 0 ==> entry[i] == '=' && '=' !in entry[..i]
    ensures i < 0 ==> '=' !in entry
  {
    if entry == [] then -1
    else if entry[0] == '=' then 0
    else
      var rest := IndexOfSeparator(entry[1..]);
      assert entry == [entry[0]] + entry[1..];
      assert rest >= 0 ==> entry[..rest + 1] == [entry[0]] + entry[1..][..rest];
      if rest < 0 then -1 else rest + 1
  }

  predicate WellFormed(entry: string) {
    IndexOfSeparator(entry) > 0
  }

  function KeyOf(entry: string): string
    requires WellFormed(entry)
  {
    entry[..IndexOfSeparator(entry)]
  }

  function ValueOf(entry: string): string
    requires WellFormed(entry)
  {
    entry[IndexOfSeparator(entry) + 1..]
  }

  function Entry(key: string, value: string): string {
    key + "=" + value
  }

  /** Keys that can stand in front of a '='. */
  predicate GoodKey(key: string) {
    key != "" && '=' !in key
  }

  lemma {:induction false} SeparatorAt(entry: string, k: nat)
    requires k < |entry| && entry[k] == '=' && '=' !in entry[..k]
    ensures IndexOfSeparator(entry) == k
  {
    if k > 0 {
      assert entry[0] == entry[..k][0];
      assert entry[1..][..k - 1] == entry[..k][1..];
      SeparatorAt(entry[1..], k - 1);
    }
  }

  lemma EntrySplits(key: string, value: string)
    requires GoodKey(key)
    ensures WellFormed(Entry(key, value)) && KeyOf(Entry(key, value)) == key && ValueOf(Entry(key, value)) == value
  {
    var entry := Entry(key, value);
    assert entry[..|key|] == key && entry[|key| + 1..] == value;
    SeparatorAt(entry, |key|);
  }

  lemma SplitJoins(entry: string)
    requires WellFormed(entry)
    ensures GoodKey(KeyOf(entry)) && Entry(KeyOf(entry), ValueOf(entry)) == entry
  {
  }

  ghost predicate DistinctKeys(groups: seq<Group>) {
    forall i, j :: 0 <= i < j < |groups| ==> groups[i].key != groups[j].key
  }

  /** getOrPut(key).add(value) on the linked map. */
  function Added(groups: seq<Group>, key: string, value: string): seq<Group> {
    if groups == [] then [Group(key, [value])]
    else if groups[0].key == key then [groups[0].(values := groups[0].values + [value])] + groups[1..]
    else [groups[0]] + Added(groups[1..], key, value)
  }

  /** The grouped form of a list of entries. */
  function Parsed(entries: seq<string>): seq<Group> {
    if entries == [] then [] else
      var earlier, entry := Parsed(entries[..|entries| - 1]), entries[|entries| - 1];
      if WellFormed(entry) then Added(earlier, KeyOf(entry), ValueOf(entry)) else earlier
  }

  /** The grouping loop. */
  method ParseEntries(entries: seq<string>) returns (groups: seq<Group>)
    ensures groups == Parsed(entries)
  {
    groups := [];
    for i := 0 to |entries|
      invariant groups == Parsed(entries[..i])
    {
      assert entries[..i + 1][..i] == entries[..i];
      var separator := IndexOfSeparator(entries[i]);
      if separator <= 0 {
        continue;
      }
      groups := GetOrPutAdd(groups, entries[i][..separator], entries[i][separator + 1..]);
    }
    assert entries[..|entries|] == entries;
  }

  method GetOrPutAdd(groups: seq<Group>, key: string, value: string) returns (added: seq<Group>)
    ensures added == Added(groups, key, value)
  {
    hide Added;
    var i := 0;
    assert groups[0..] == groups;
    while i < |groups| && groups[i].key != key
      invariant i <= |groups|
      invariant Added(groups, key, value) == groups[..i] + Added(groups[i..], key, value)
    {
      AddedAt(groups, i, key, value);
      i := i + 1;
    }
    AddedAt(groups, i, key, value);
    if i == |groups| {
      assert groups[..i] == groups;
      return groups + [Group(key, [value])];
    }
    return groups[..i] + [groups[i].(values := groups[i].values + [value])] + groups[i + 1..];
  }

  lemma AddedAt(groups: seq<Group>, i: nat, key: string, value: string)
    requires i <= |groups|
    ensures i == |groups| ==> Added(groups[i..], key, value) == [Group(key, [value])]
    ensures i < |groups| && groups[i].key == key ==>
      Added(groups[i..], key, value) == [groups[i].(values := groups[i].values + [value])] + groups[i + 1..]
    ensures i < |groups| && groups[i].key != key ==>
      groups[..i] + Added(groups[i..], key, value) == groups[..i + 1] + Added(groups[i + 1..], key, value)
  {
    if i < |groups| {
      assert groups[i..][1..] == groups[i + 1..];
      assert groups[..i + 1] == groups[..i] + [groups[i]];
    }
  }

  function PrintedGroup(group: Group): (entries: seq<string>)
    ensures |entries| == |group.values|
  {
    seq(|group.values|, i requires 0 <= i < |group.values| => Entry(group.key, group.values[i]))
  }

  /** The entries of a grouped map, key by key. */
  function Printed(groups: seq<Group>): seq<string> {
    if groups == [] then [] else PrintedGroup(groups[0]) + Printed(groups[1..])
  }

  /** The groups a parse can produce. */
  ghost predicate WellShaped(groups: seq<Group>) {
    && DistinctKeys(groups)
    && forall i :: 0 <= i < |groups| ==> GoodKey(groups[i].key) && groups[i].values != []
  }

  ghost predicate HasKey(groups: seq<Group>, key: string) {
    exists i :: 0 <= i < |groups| && groups[i].key == key
  }

  lemma {:induction false} AddedShape(groups: seq<Group>, key: string, value: string)
    requires WellShaped(groups) && GoodKey(key)
    ensures WellShaped(Added(groups, key, value))
    ensures forall k :: HasKey(Added(groups, key, value), k) <==> k == key || HasKey(groups, k)
  {
    var after := Added(groups, key, value);
    if groups == [] {
      assert after[0].key == key;
    } else if groups[0].key == key {
      forall k
        ensures HasKey(after, k) <==> k == key || HasKey(groups, k)
      {
        assert forall i :: 0 <= i < |groups| ==> after[i].key == groups[i].key;
      }
    } else {
      var rest := Added(groups[1..], key, value);
      AddedShape(groups[1..], key, value);
      assert !HasKey(rest, groups[0].key) by {
        assert forall i :: 0 <= i < |groups| - 1 ==> groups[1..][i] == groups[i + 1];
      }
      forall k
        ensures HasKey(after, k) <==> k == key || HasKey(groups, k)
      {
        FirstOrRest(after, k);
        FirstOrRest(groups, k);
        assert after[1..] == rest;
      }
      forall i, j | 0 <= i < j < |after|
        ensures after[i].key != after[j].key
      {
        assert after[j] == rest[j - 1];
        if i > 0 {
          assert after[i] == rest[i - 1];
        }
      }
    }
  }

  lemma FirstOrRest(groups: seq<Group>, key: string)
    requires groups != []
    ensures HasKey(groups, key) <==> groups[0].key == key || HasKey(groups[1..], key)
  {
    if HasKey(groups, key) {
      var i :| 0 <= i < |groups| && groups[i].key == key;
      assert i > 0 ==> groups[1..][i - 1] == groups[i];
    }
    if HasKey(groups[1..], key) {
      var i :| 0 <= i < |groups| - 1 && groups[1..][i].key == key;
      assert groups[i + 1] == groups[1..][i];
    }
  }

  lemma {:induction false} ParsedShape(entries: seq<string>)
    ensures WellShaped(Parsed(entries))
  {
    if entries != [] {
      var entry := entries[|entries| - 1];
      ParsedShape(entries[..|entries| - 1]);
      if WellFormed(entry) {
        SplitJoins(entry);
        AddedShape(Parsed(entries[..|entries| - 1]), KeyOf(entry), ValueOf(entry));
      }
    }
  }

  /**
    What becomes of one more entry: it is split at its first separator, and dropped without
    one or with an empty key.
   */
  lemma EntryRead(entries: seq<string>, key: string, value: string, plain: string)
    requires '=' !in key && '=' !in plain
    ensures Parsed(entries + [plain]) == Parsed(entries)
    ensures Parsed(entries + [key + "=" + value]) ==
      if key == "" then Parsed(entries) else Added(Parsed(entries), key, value)
  {
    hide Added;
    assert (entries + [plain])[..|entries|] == entries;
    assert (entries + [key + "=" + value])[..|entries|] == entries;
    if key == "" {
      SeparatorAt(key + "=" + value, 0);
    } else {
      ParsedSnoc(entries, key, value);
    }
  }

  /** Adding to keys that are all smaller appends a group or a value. */
  lemma {:induction false} AddedLast(groups: seq<Group>, key: string, values: seq<string>, value: string)
    requires !HasKey(groups, key)
    ensures Added(groups + [Group(key, values)], key, value) == groups + [Group(key, values + [value])]
    ensures Added(groups, key, value) == groups + [Group(key, [value])]
  {
    if groups == [] {
      assert [Group(key, values)][1..] == [];
    } else {
      FirstOrRest(groups, key);
      AddedLast(groups[1..], key, values, value);
      assert (groups + [Group(key, values)])[1..] == groups[1..] + [Group(key, values)];
    }
  }

  lemma ParsedSnoc(entries: seq<string>, key: string, value: string)
    requires GoodKey(key)
    ensures Parsed(entries + [Entry(key, value)]) == Added(Parsed(entries), key, value)
  {
    EntrySplits(key, value);
    assert (entries + [Entry(key, value)])[..|entries|] == entries;
  }

  /** Parsing one printed group behind others. */
  lemma {:induction false} ParsedGroup(entries: seq<string>, group: Group, n: nat)
    requires GoodKey(group.key) && n <= |group.values| && !HasKey(Parsed(entries), group.key)
    ensures Parsed(entries + PrintedGroup(group)[..n])
         == if n == 0 then Parsed(entries) else Parsed(entries) + [Group(group.key, group.values[..n])]
  {
    hide Parsed, Added, HasKey, GoodKey, Entry;
    var lines := PrintedGroup(group);
    if n == 0 {
      assert entries + lines[..0] == entries;
    } else {
      var key, value := group.key, group.values[n - 1];
      ParsedGroup(entries, group, n - 1);
      assert entries + lines[..n] == (entries + lines[..n - 1]) + [Entry(key, value)];
      ParsedSnoc(entries + lines[..n - 1], key, value);
      AddedLast(Parsed(entries), key, group.values[..n - 1], value);
      assert group.values[..n] == group.values[..n - 1] + [value];
      assert n == 1 ==> group.values[..n] == [value];
    }
  }

  lemma {:induction false} ParsedPrinted(groups: seq<Group>, n: nat)
    requires WellShaped(groups) && n <= |groups|
    ensures Parsed(Printed(groups[..n])) == groups[..n]
  {
    hide Parsed, GoodKey, PrintedGroup;
    if n == 0 {
      NothingParsed();
    } else {
      var group := groups[n - 1];
      ParsedPrinted(groups, n - 1);
      PrintedSnoc(groups[..n - 1], group);
      assert groups[..n] == groups[..n - 1] + [group];
      ParsedGroup(Printed(groups[..n - 1]), group, |group.values|);
      assert PrintedGroup(group)[..|group.values|] == PrintedGroup(group);
      assert group.values[..|group.values|] == group.values;
    }
  }

  lemma NothingParsed()
    ensures Printed([]) == [] && Parsed([]) == []
  {
  }

  lemma PrintedSnoc(groups: seq<Group>, group: Group)
    ensures Printed(groups + [group]) == Printed(groups) + PrintedGroup(group)
  {
    PrintedAppend(groups, [group]);
    assert [group][1..] == [];
  }

  lemma {:induction false} PrintedAppend(front: seq<Group>, back: seq<Group>)
    ensures Printed(front + back) == Printed(front) + Printed(back)
  {
    if front == [] {
      assert front + back == back;
    } else {
      assert (front + back)[1..] == front[1..] + back;
      PrintedAppend(front[1..], back);
    }
  }

  /** Reading back a written map gives the map exactly when no key is lost, split early, or without a value. */
  lemma PrintThenParse(groups: seq<Group>)
    requires DistinctKeys(groups)
    ensures Parsed(Printed(groups)) == groups <==>
      forall i :: 0 <= i < |groups| ==> GoodKey(groups[i].key) && groups[i].values != []
  {
    ParsedShape(Printed(groups));
    if WellShaped(groups) {
      ParsedPrinted(groups, |groups|);
      assert groups[..|groups|] == groups;
    }
  }

  /** Writing what was read and reading it again changes nothing, so a second round trip is the first one. */
  lemma RoundTripIsStable(entries: seq<string>)
    ensures Parsed(Printed(Parsed(entries))) == Parsed(entries)
  {
    ParsedShape(entries);
    PrintThenParse(Parsed(entries));
  }

  /** The values of one key, in the order of the entries. */
  function ValuesFor(entries: seq<string>, key: string): seq<string> {
    if entries == [] then [] else
      var entry := entries[|entries| - 1];
      ValuesFor(entries[..|entries| - 1], key)
      + if WellFormed(entry) && KeyOf(entry) == key then [ValueOf(entry)] else []
  }

  function Lookup(groups: seq<Group>, key: string): seq<string> {
    if groups == [] then [] else if groups[0].key == key then groups[0].values else Lookup(groups[1..], key)
  }

  lemma {:induction false} LookupAdded(groups: seq<Group>, key: string, value: string, wanted: string)
    ensures Lookup(Added(groups, key, value), wanted)
         == Lookup(groups, wanted) + if key == wanted then [value] else []
  {
    if groups != [] {
      LookupAdded(groups[1..], key, value, wanted);
    }
  }

  /** Grouping is stable: under every key stand exactly that key's values, in their order. */
  lemma {:induction false} GroupingIsStable(entries: seq<string>, key: string)
    ensures Lookup(Parsed(entries), key) == ValuesFor(entries, key)
  {
    if entries != [] {
      var entry := entries[|entries| - 1];
      GroupingIsStable(entries[..|entries| - 1], key);
      if WellFormed(entry) {
        LookupAdded(Parsed(entries[..|entries| - 1]), KeyOf(entry), ValueOf(entry), key);
      }
    }
  }

  function WellFormedOnes(entries: seq<string>): seq<string> {
    if entries == [] then [] else
      var entry := entries[|entries| - 1];
      WellFormedOnes(entries[..|entries| - 1]) + if WellFormed(entry) then [entry] else []
  }

  lemma {:induction false} PrintedAdded(groups: seq<Group>, key: string, value: string)
    ensures multiset(Printed(Added(groups, key, value))) == multiset(Printed(groups)) + multiset{Entry(key, value)}
  {
    if groups == [] {
      var single := Group(key, [value]);
      assert PrintedGroup(single) == [Entry(key, value)] && [single][1..] == [];
    } else if groups[0].key == key {
      var grown := groups[0].(values := groups[0].values + [value]);
      assert PrintedGroup(grown) == PrintedGroup(groups[0]) + [Entry(key, value)];
      assert ([grown] + groups[1..])[1..] == groups[1..];
    } else {
      PrintedAdded(groups[1..], key, value);
      var rest := Added(groups[1..], key, value);
      assert ([groups[0]] + rest)[1..] == rest;
    }
  }

  /** No well-formed entry is lost, changed or doubled by reading and writing. */
  lemma {:induction false} NothingLost(entries: seq<string>)
    ensures multiset(Printed(Parsed(entries))) == multiset(WellFormedOnes(entries))
  {
    if entries != [] {
      var entry := entries[|entries| - 1];
      NothingLost(entries[..|entries| - 1]);
      if WellFormed(entry) {
        PrintedAdded(Parsed(entries[..|entries| - 1]), KeyOf(entry), ValueOf(entry));
        SplitJoins(entry);
      }
    }
  }

  /** Kotlin's Char.isWhitespace. */
  predicate IsWhitespace(c: char) {
    || '\U{9}' <= c <= '\U{D}' || '\U{1C}' <= c <= '\U{20}' || c == '\U{A0}' || c == '\U{1680}'
    || '\U{2000}' <= c <= '\U{200A}' || '\U{2028}' <= c <= '\U{2029}' || c == '\U{202F}' || c == '\U{205F}'
    || c == '\U{3000}'
  }

  predicate IsBlank(text: string) {
    forall c :: c in text ==> IsWhitespace(c)
  }

  const NUL := '\U{0}'

  /** The edit API's own check of a comment map, apart from the block length. */
  ghost predicate Accepted(groups: seq<Group>) {
    forall i :: 0 <= i < |groups| ==> AcceptedGroup(groups[i])
  }

  predicate AcceptedGroup(group: Group) {
    && !IsBlank(group.key) && '=' !in group.key && NUL !in group.key
    && forall v :: v in group.values ==> NUL !in v
  }

  predicate AcceptedEntry(entry: string) {
    WellFormed(entry) ==> !IsBlank(KeyOf(entry)) && NUL !in entry
  }

  lemma {:induction false} AddedAccepted(groups: seq<Group>, key: string, value: string)
    requires GoodKey(key)
    ensures Accepted(Added(groups, key, value))
       <==> Accepted(groups) && !IsBlank(key) && NUL !in key && NUL !in value
  {
    var after := Added(groups, key, value);
    if groups == [] {
      assert after[0].values == [value];
    } else {
      AcceptedFirst(groups);
      AcceptedFirst(after);
      if groups[0].key == key {
        assert after[1..] == groups[1..];
        assert after[0].values == groups[0].values + [value];
        assert forall v :: v in after[0].values <==> v in groups[0].values || v == value;
      } else {
        AddedAccepted(groups[1..], key, value);
        assert after[1..] == Added(groups[1..], key, value);
      }
    }
  }

  lemma AcceptedFirst(groups: seq<Group>)
    requires groups != []
    ensures Accepted(groups) <==> AcceptedGroup(groups[0]) && Accepted(groups[1..])
  {
    assert forall i :: 0 < i < |groups| ==> groups[1..][i - 1] == groups[i];
    assert forall i {:trigger groups[1..][i]} :: 0 <= i < |groups| - 1 ==> groups[1..][i] == groups[i + 1];
  }

  /** Comments that were read can be written back exactly when no entry has a blank key or a NUL in it. */
  lemma {:induction false} ReadIsWritable(entries: seq<string>)
    ensures Accepted(Parsed(entries)) <==> forall i :: 0 <= i < |entries| ==> AcceptedEntry(entries[i])
  {
    if entries != [] {
      var last := |entries| - 1;
      ReadIsWritable(entries[..last]);
      assert forall i :: 0 <= i < last ==> entries[..last][i] == entries[i];
      if WellFormed(entries[last]) {
        var key, value := KeyOf(entries[last]), ValueOf(entries[last]);
        SplitJoins(entries[last]);
        AddedAccepted(Parsed(entries[..last]), key, value);
        assert NUL in Entry(key, value) <==> NUL in key || NUL in value;
      }
    }
  }
}
