/**
  The registry as the program keeps it: a singly linked list of entries that own
  heap records, changed in place under one lock. Each method is one locked
  section (or the free that follows it), proved against the value-level function
  of `HandleRegistry` with the same name in the past tense.
 */
module SessionRegistry {
  import opened Arithmetic
  import opened HandleRegistry
  import opened Wrappers

  class NativeSession {
    var handle: int
    var references: int
    var released: bool
    var inUse: bool
    var hasCodec: bool
    /** Global references to the caller's stream or channel. */
    var callerReferences: nat

    /** A record as the open call leaves it: a codec object and zeroed registry fields. */
    constructor (callerReferences: nat)
      ensures hasCodec && handle == 0 && references == 0 && !released && !inUse
      ensures this.callerReferences == callerReferences
    {
      handle, references, released, inUse, hasCodec := 0, 0, false, false, true;
      this.callerReferences := callerReferences;
    }

    /** Nothing outside the record is owned by it any more. */
    predicate Empty()
      reads this
    {
      !hasCodec && callerReferences == 0
    }

    /** The cleanup of one record before its memory is freed: the codec, if there is one, and every reference. */
    method Clear() returns (codecsDeleted: nat)
      modifies this
      ensures Empty() && codecsDeleted == if old(hasCodec) then 1 else 0
      ensures handle == old(handle) && references == old(references)
      ensures released == old(released) && inUse == old(inUse)
    {
      codecsDeleted := 0;
      if hasCodec {
        codecsDeleted := codecsDeleted + 1;
        hasCodec := false;
      }
      while callerReferences > 0
        invariant !hasCodec && codecsDeleted == if old(hasCodec) then 1 else 0
        invariant handle == old(handle) && references == old(references)
        invariant released == old(released) && inUse == old(inUse)
      {
        callerReferences := callerReferences - 1;
      }
    }

    ghost function Snapshot(): Fields
      reads this
    {
      Fields(handle, references, released, inUse, hasCodec)
    }
  }

  class RegistryEntry {
    const handle: int
    const session: NativeSession
    var next: RegistryEntry?

    constructor (handle: int, session: NativeSession, next: RegistryEntry?)
      ensures this.handle == handle && this.session == session && this.next == next
    {
      this.handle, this.session, this.next := handle, session, next;
    }
  }

  class SessionTable {
    var head: RegistryEntry?
    var nextHandle: int
    ghost var nodes: seq<RegistryEntry>
    ghost var entries: seq<Entry<NativeSession>>
    ghost var heap: map<NativeSession, Fields>

    constructor (counter: int)
      requires 1 <= counter <= LONG_MAX
      ensures Valid() && Model() == Registry(counter, [], map[])
    {
      head, nextHandle, nodes, entries, heap := null, counter, [], [], map[];
    }

    /** The value this table represents. */
    ghost function Model(): Registry<NativeSession>
      reads `nextHandle, `entries, `heap
    {
      Registry(nextHandle, entries, heap)
    }

    ghost function NodeAt(i: nat): RegistryEntry?
      reads `nodes
    {
      if i < |nodes| then nodes[i] else null
    }

    /** `nodes` are the list's entries in order, joined by `next` and ended by null. */
    ghost predicate Linked()
      reads `head, `nodes, nodes
    {
      && head == NodeAt(0)
      && (forall i :: 0 <= i < |nodes| ==> nodes[i].next == NodeAt(i + 1))
      && (forall i, j :: 0 <= i < j < |nodes| ==> nodes[i] != nodes[j])
    }

    ghost predicate EntriesMatch()
      reads `nodes, `entries
    {
      Match(nodes, entries)
    }

    ghost predicate RecordsMatch()
      reads `heap, heap.Keys
    {
      forall s :: s in heap ==> heap[s] == s.Snapshot()
    }

    ghost predicate Valid()
      reads this, nodes, heap.Keys
    {
      Linked() && EntriesMatch() && RecordsMatch() && WellFormed(Model())
    }

    /** Walks the list; `previous` is the node before the match. */
    method FindEntry(handle: int) returns (entry: RegistryEntry?, previous: RegistryEntry?, ghost at: nat)
      requires Linked() && EntriesMatch()
      ensures at == Find(entries, handle) && entry == NodeAt(at) && (entry == null <==> at == |entries|)
      ensures entry != null ==> at < |entries| && entry.session == entries[at].session
      ensures entry == null <==> !InUse(entries, handle)
      ensures entry != null ==> entry.handle == handle
      ensures previous == if entry == null || at == 0 then null else nodes[at - 1]
    {
      entry, previous, at := head, null, 0;
      while entry != null
        invariant at <= |nodes| && entry == NodeAt(at)
        invariant previous == if at == 0 then null else nodes[at - 1]
        invariant forall j :: 0 <= j < at ==> entries[j].handle != handle
        decreases |nodes| - at
      {
        if entry.handle == handle {
          FindAt(entries, at, handle);
          return;
        }
        previous, entry, at := entry, entry.next, at + 1;
      }
      previous := null;
    }

    /** Terminates after at most one probe per registered handle plus one. */
    method Reserve() returns (handle: int, ghost probes: nat)
      requires Linked() && EntriesMatch() && 1 <= nextHandle <= LONG_MAX && |entries| < LONG_MAX
      modifies this`nextHandle
      ensures Reserves(old(Model()), handle) && 1 <= handle <= LONG_MAX && nextHandle == Successor(handle)
      ensures 1 <= probes <= |entries| + 1 && FirstFree(entries, old(nextHandle), handle, probes - 1)
    {
      hide Linked, EntriesMatch;
      ghost var start := nextHandle;
      probes := 0;
      while true
        invariant probes <= |entries| && nextHandle == Probe(start, probes)
        invariant forall j :: 0 <= j < probes ==> InUse(entries, Probe(start, j))
        decreases |entries| - probes
      {
        handle := nextHandle;
        nextHandle := if handle == LONG_MAX then -LONG_MAX - 1 else handle + 1;
        if nextHandle <= 0 {
          nextHandle := FIRST_VALID_HANDLE;
        }
        if handle > 0 {
          var entry, _, at := FindEntry(handle);
          if entry == null {
            assert FirstFree(entries, start, handle, probes);
            probes := probes + 1;
            return;
          }
          assert entries[at].handle == handle;
        }
        probes := probes + 1;
        ProbesBounded(entries, start, probes);
      }
    }

    /** Returns zero, and keeps nothing, when the entry cannot be allocated. */
    method Register(session: NativeSession, entryAllocated: bool) returns (handle: int)
      requires Valid() && |entries| < LONG_MAX
      requires session !in heap && session.hasCodec
      modifies this, session
      ensures Valid()
      ensures !entryAllocated ==> handle == 0 && Model() == old(Model())
      ensures entryAllocated ==> Reserves(old(Model()), handle)
      ensures entryAllocated ==> Model() == Registered(old(Model()), session, handle)
    {
      if !entryAllocated {
        return 0;
      }
      assert 1 <= nextHandle;
      hide WellFormed, Linked, EntriesMatch, RecordsMatch, Reserves, FirstFree;
      ghost var before := Model();
      ghost var probes;
      handle, probes := Reserve();
      RegisteredOk(before, session, handle);
      hide Lookup;
      SetRecord(session, handle, 0, false, false);
      Link(handle, session);
      assert Model() == Registered(before, session, handle);
    }

    method Acquire(handle: int) returns (session: NativeSession?)
      requires Valid()
      modifies `heap, heap.Keys
      ensures Valid()
      ensures Model() == Acquired(old(Model()), handle).0
      ensures session == OrNull(Acquired(old(Model()), handle).1)
    {
      hide WellFormed, Linked, EntriesMatch, RecordsMatch;
      session := null;
      AcquiredOk(Model(), handle);
      if handle > 0 {
        var entry, _, at := FindEntry(handle);
        if entry != null {
          var candidate := entry.session;
          EntryIsOk(Model(), at);
          RecordMatches(candidate);
          if !candidate.released && !candidate.inUse && candidate.hasCodec {
            session := candidate;
            SetRecord(session, session.handle, session.references + 1, session.released, true);
          }
        }
      }
    }

    method ReleaseReference(session: NativeSession) returns (shouldDestroy: bool)
      requires Valid() && session in heap
      modifies `heap, session
      ensures Valid()
      ensures (Model(), shouldDestroy) == Dropped(old(Model()), session)
    {
      hide WellFormed, Linked, EntriesMatch, RecordsMatch;
      DroppedOk(Model(), session);
      RecordMatches(session);
      var references := if session.references > 0 then session.references - 1 else session.references;
      SetRecord(session, session.handle, references, session.released, false);
      shouldDestroy := session.released && session.references == 0;
    }

    method Remove(handle: int) returns (toDestroy: NativeSession?)
      requires Valid()
      modifies this, nodes, heap.Keys
      ensures Valid()
      ensures Model() == Removed(old(Model()), handle).0
      ensures toDestroy == OrNull(Removed(old(Model()), handle).1)
    {
      hide WellFormed, Linked, Match, RecordsMatch, Find, InUse, Without;
      toDestroy := null;
      if handle <= 0 {
        return;
      }
      RemovedOk(Model(), handle);
      var entry, previous, at := FindEntry(handle);
      if entry != null {
        var session := entry.session;
        EntryIsOk(Model(), at);
        Unlink(entry, previous, at);
        MatchUnlinked(old(nodes), entries, at);
        entries := Without(entries, at);
        RecordMatches(session);
        SetRecord(session, session.handle, session.references, true, session.inUse);
        if session.references == 0 {
          toDestroy := session;
        }
      }
    }

    /** Destroys a record that has left the list: its one codec and its references first, then its memory. */
    method Destroy(session: NativeSession) returns (codecsDeleted: nat)
      requires Valid() && session in heap && session.released
      modifies `heap, session
      ensures Valid() && Model() == Destroyed(old(Model()), session)
      ensures codecsDeleted == 1 && session.Empty()
    {
      hide WellFormed, Linked, EntriesMatch;
      DestroyedOk(Model(), session);
      HasCodec(Model(), session);
      codecsDeleted := session.Clear();
      heap := heap - {session};
    }

    /**
      Library unload: the whole list is detached, then every record on it is
      destroyed. Records that have left the list before are not touched.
     */
    method DestroyAll() returns (codecsDeleted: nat)
      requires Valid()
      modifies this, heap.Keys
      ensures Valid() && Model() == Registry(old(nextHandle), [], old(heap) - Unreleased(old(Model())))
      ensures codecsDeleted == |old(entries)| == |Unreleased(old(Model()))|
      ensures forall s :: s in old(heap) ==>
        if s in Unreleased(old(Model())) then s.Empty() else s.Snapshot() == old(heap)[s]
    {
      hide WellFormed, Linked, Match, RecordsMatch, Clearable, DistinctSessions;
      AllClearable();
      ghost var detached, all := nodes, Unreleased(Model());
      var entry := Detach();
      label detached:
      codecsDeleted := ClearAll(entry, detached, all);
      Untouched@detached(all);
    }

    /** Clearing other records leaves the table valid and its own records as they were. */
    twostate lemma Untouched(all: set<NativeSession>)
      requires old(Valid()) && heap.Keys !! all
      requires unchanged(this) && unchanged(nodes) && forall s :: s in heap && s !in all ==> unchanged(s)
      ensures Valid() && forall s :: s in heap ==> s.Snapshot() == heap[s]
    {
    }

    /** Takes the list, and the records on it, out of the table. */
    method Detach() returns (first: RegistryEntry?)
      requires Valid()
      modifies this
      ensures first == old(NodeAt(0)) && Valid()
      ensures Model() == Registry(old(nextHandle), [], old(heap) - Unreleased(old(Model())))
    {
      hide Listed;
      first := head;
      head, nodes, entries, heap := null, [], [], heap - Unreleased(Model());
    }

    lemma AllClearable()
      requires Valid()
      ensures Clearable(nodes, Unreleased(Model())) && |nodes| == |Unreleased(Model())| == |entries|
    {
      hide WellFormed, DistinctSessions;
      AllListed(nodes, Model());
    }

    // ------------------------------------------------------------- list surgery

    lemma RecordMatches(session: NativeSession)
      requires RecordsMatch() && session in heap
      ensures heap[session] == session.Snapshot()
    {
    }

    /** Writes one record, new or old; every other record stays as it was. */
    method SetRecord(session: NativeSession, handle: int, references: int, released: bool, inUse: bool)
      requires RecordsMatch()
      modifies `heap, session
      ensures RecordsMatch()
      ensures heap == old(heap)[session := Fields(handle, references, released, inUse, old(session.hasCodec))]
      ensures session.Snapshot() == Fields(handle, references, released, inUse, old(session.hasCodec))
    {
      session.handle, session.references, session.released, session.inUse := handle, references, released, inUse;
      heap := heap[session := session.Snapshot()];
    }

    /** Puts a new entry in front of the list. */
    method Link(handle: int, session: NativeSession)
      requires Linked() && EntriesMatch()
      modifies `head, `nodes, `entries
      ensures Linked() && EntriesMatch() && entries == [Entry(handle, session)] + old(entries)
    {
      var entry := new RegistryEntry(handle, session, head);
      head := entry;
      nodes := [entry] + nodes;
      entries := [Entry(handle, session)] + entries;
    }

    /** Takes `entry`, the node at position `at`, out of the list. */
    method Unlink(entry: RegistryEntry, previous: RegistryEntry?, ghost at: nat)
      requires Linked() && at < |nodes| && entry == nodes[at]
      requires previous == if at == 0 then null else nodes[at - 1]
      modifies `head, `nodes, nodes
      ensures Linked() && nodes == Without(old(nodes), at)
    {
      if previous == null {
        head := entry.next;
      } else {
        previous.next := entry.next;
      }
      ghost var was := nodes;
      nodes := Without(nodes, at);
      forall i | 0 <= i < |nodes|
        ensures nodes[i] == was[if i < at then i else i + 1] && nodes[i].next == NodeAt(i + 1)
      {
        assert nodes[i] == was[if i < at then i else i + 1];
      }
    }
  }

  ghost predicate Match(nodes: seq<RegistryEntry>, entries: seq<Entry<NativeSession>>) {
    && |nodes| == |entries|
    && forall i :: 0 <= i < |nodes| ==> entries[i] == Entry(nodes[i].handle, nodes[i].session)
  }

  lemma MatchUnlinked(nodes: seq<RegistryEntry>, entries: seq<Entry<NativeSession>>, at: nat)
    requires Match(nodes, entries) && at < |nodes|
    ensures Match(Without(nodes, at), Without(entries, at))
  {
  }

  lemma HasCodec(r: Registry<NativeSession>, session: NativeSession)
    requires WellFormed(r) && session in r.heap
    ensures r.heap[session].hasCodec
  {
    assert RecordOk(r, session);
  }

  /** The records that have not left the list. */
  ghost function Unreleased(r: Registry<NativeSession>): set<NativeSession> {
    set s | s in r.heap && !r.heap[s].released
  }

  /** The list names exactly the unreleased records, each once and with its codec. */
  lemma AllListed(nodes: seq<RegistryEntry>, r: Registry<NativeSession>)
    requires WellFormed(r) && Match(nodes, r.entries)
    ensures |nodes| == |Unreleased(r)| && DistinctSessions(nodes, Unreleased(r))
    ensures forall s :: s in Unreleased(r) ==> r.heap[s].hasCodec
  {
    forall s | s in Unreleased(r)
      ensures r.heap[s].hasCodec && exists i :: 0 <= i < |nodes| && nodes[i].session == s
    {
      assert RecordOk(r, s);
      var i :| 0 <= i < |r.entries| && r.entries[i].session == s;
      assert nodes[i].session == s;
    }
    forall i | 0 <= i < |nodes|
      ensures nodes[i].session == r.entries[i].session && nodes[i].session in Unreleased(r)
    {
      EntryIsOk(r, i);
    }
    forall i, j | 0 <= i < j < |nodes|
      ensures nodes[i].session != nodes[j].session
    {
      assert r.entries[i].session != r.entries[j].session;
    }
    hide WellFormed, Listed, Match;
    ListedSize(nodes, Unreleased(r));
  }

  lemma ListedSize(nodes: seq<RegistryEntry>, all: set<NativeSession>)
    requires DistinctSessions(nodes, all)
    ensures |all| == |nodes|
  {
    var sessions := seq(|nodes|, i requires 0 <= i < |nodes| => nodes[i].session);
    forall s | s in all
      ensures s in sessions
    {
      var i :| 0 <= i < |nodes| && nodes[i].session == s;
      assert sessions[i] == s;
    }
    DistinctSize(sessions, all);
  }

  /** The nodes list each of these sessions once. */
  ghost predicate DistinctSessions(nodes: seq<RegistryEntry>, all: set<NativeSession>) {
    && (forall i :: 0 <= i < |nodes| ==> nodes[i].session in all)
    && (forall s :: s in all ==> exists i :: 0 <= i < |nodes| && nodes[i].session == s)
    && (forall i, j :: 0 <= i < j < |nodes| ==> nodes[i].session != nodes[j].session)
  }

  /** A list from front to end, over records that still have their codecs. */
  ghost predicate Clearable(nodes: seq<RegistryEntry>, all: set<NativeSession>)
    reads nodes, all
  {
    && (forall i :: 0 <= i < |nodes| ==> nodes[i].next == if i + 1 < |nodes| then nodes[i + 1] else null)
    && DistinctSessions(nodes, all)
    && forall s :: s in all ==> s.hasCodec
  }

  /** Walks a detached list and clears every record on it. */
  method ClearAll(first: RegistryEntry?, ghost nodes: seq<RegistryEntry>, ghost all: set<NativeSession>)
    returns (codecsDeleted: nat)
    requires Clearable(nodes, all) && first == if nodes == [] then null else nodes[0]
    modifies all
    ensures codecsDeleted == |nodes| && forall s :: s in all ==> s.Empty()
  {
    var entry := first;
    ghost var at := 0;
    codecsDeleted := 0;
    while entry != null
      invariant codecsDeleted == at <= |nodes|
      invariant entry == if at < |nodes| then nodes[at] else null
      invariant forall i :: 0 <= i < at ==> nodes[i].session.Empty()
      invariant forall i :: at <= i < |nodes| ==> nodes[i].session.hasCodec
      decreases |nodes| - at
    {
      var deleted := entry.session.Clear();
      entry := entry.next;
      codecsDeleted, at := codecsDeleted + deleted, at + 1;
    }
  }

  lemma {:induction false} DistinctSize<T>(xs: seq<T>, all: set<T>)
    requires forall i, j :: 0 <= i < j < |xs| ==> xs[i] != xs[j]
    requires forall x :: x in all <==> x in xs
    ensures |all| == |xs|
  {
    if xs != [] {
      DistinctSize(xs[1..], all - {xs[0]});
    }
  }

  function OrNull(o: Option<NativeSession>): NativeSession? {
    match o case Some(s) => s case None => null
  }
}
