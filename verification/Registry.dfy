/**
  The process-wide table of native decoder sessions and encoder contexts.

  The two tables of the JNI library run the same code over two record types.
  `Registry<S>` is the value a table has between two locked sections, for
  sessions identified by an `S`; the functions below say what each locked section
  does to it. `SessionRegistry` is the linked list itself, and every one of its
  methods is proved equal to one of those functions.
 */
module HandleRegistry {
  import opened Arithmetic
  import opened Wrappers

  const FIRST_VALID_HANDLE: int := 1

  /** The registry-owned part of one native record. */
  datatype Fields = Fields(handle: int, references: int, released: bool, inUse: bool, hasCodec: bool)

  datatype Entry<S> = Entry(handle: int, session: S)

  /** `heap` holds the records that are allocated: freeing one takes it out. */
  datatype Registry<S> = Registry(next: int, entries: seq<Entry<S>>, heap: map<S, Fields>)

  // ---------------------------------------------------------------- lookup

  /** The position of the first entry with this handle, or the length of the list. */
  function Find<S>(entries: seq<Entry<S>>, handle: int): (i: nat)
    ensures i <= |entries|
    ensures i < |entries| ==> entries[i].handle == handle
    ensures forall j :: 0 <= j < i ==> entries[j].handle != handle
  {
    if entries == [] || entries[0].handle == handle then 0 else 1 + Find(entries[1..], handle)
  }

  function Lookup<S>(r: Registry<S>, handle: int): Option<S> {
    var i := Find(r.entries, handle);
    if i < |r.entries| then Some(r.entries[i].session) else None
  }

  ghost predicate InUse<S>(entries: seq<Entry<S>>, handle: int) {
    exists i :: 0 <= i < |entries| && entries[i].handle == handle
  }

  lemma FindAt<S>(entries: seq<Entry<S>>, i: nat, handle: int)
    requires i < |entries| && entries[i].handle == handle
    requires forall j :: 0 <= j < i ==> entries[j].handle != handle
    ensures Find(entries, handle) == i
  {
  }

  // ------------------------------------------------------ handle reservation

  /** The counter value after `handle`; 64-bit wrap-around restarts at one. */
  function Successor(handle: int): (r: int)
    requires 1 <= handle <= LONG_MAX
    ensures 1 <= r <= LONG_MAX && r == handle % LONG_MAX + 1
  {
    var bumped := if handle == LONG_MAX then -LONG_MAX - 1 else handle + 1;
    if bumped <= 0 then FIRST_VALID_HANDLE else bumped
  }

  /** The candidate inspected by probe number k of a search that starts at `start`. */
  function Probe(start: int, k: nat): (r: int)
    requires 1 <= start <= LONG_MAX && k < LONG_MAX
    ensures 1 <= r <= LONG_MAX
  {
    if start + k <= LONG_MAX then start + k else start + k - LONG_MAX
  }

  /** `handle` is the first unregistered candidate from `start` on, found by probe `k`. */
  ghost predicate FirstFree<S>(entries: seq<Entry<S>>, start: int, handle: int, k: nat)
    requires 1 <= start <= LONG_MAX
  {
    && k < LONG_MAX
    && handle == Probe(start, k)
    && !InUse(entries, handle)
    && forall j :: 0 <= j < k ==> InUse(entries, Probe(start, j))
  }

  ghost predicate Reserves<S>(r: Registry<S>, handle: int) {
    && 1 <= r.next <= LONG_MAX
    && exists k: nat :: k <= |r.entries| && FirstFree(r.entries, r.next, handle, k)
  }

  lemma ReservesRange<S>(r: Registry<S>, handle: int)
    requires Reserves(r, handle)
    ensures 1 <= handle <= LONG_MAX && !InUse(r.entries, handle)
  {
  }

  /** The search has one answer: two reservations from the same table agree. */
  lemma ReservationUnique<S>(r: Registry<S>, h1: int, h2: int)
    requires Reserves(r, h1) && Reserves(r, h2)
    ensures h1 == h2
  {
    var k1: nat :| k1 <= |r.entries| && FirstFree(r.entries, r.next, h1, k1);
    var k2: nat :| k2 <= |r.entries| && FirstFree(r.entries, r.next, h2, k2);
    assert !(k1 < k2) && !(k2 < k1);
  }

  /** Before the counter wraps every registered handle is below it, and one probe is enough. */
  lemma FreshCounterReservesItself<S>(r: Registry<S>, handle: int)
    requires Reserves(r, handle)
    requires forall i :: 0 <= i < |r.entries| ==> r.entries[i].handle < r.next
    ensures handle == r.next
  {
    var k: nat :| k <= |r.entries| && FirstFree(r.entries, r.next, handle, k);
    assert Probe(r.next, 0) == r.next;
    assert !InUse(r.entries, r.next);
  }

  ghost function Handles<S>(entries: seq<Entry<S>>): (r: set<int>)
    ensures |r| <= |entries|
    ensures forall h :: h in r <==> InUse(entries, h)
  {
    if entries == [] then {}
    else
      var rest := Handles(entries[1..]);
      assert forall h :: InUse(entries, h) <==> h == entries[0].handle || InUse(entries[1..], h) by {
        forall h ensures InUse(entries, h) <==> h == entries[0].handle || InUse(entries[1..], h) {
          if h == entries[0].handle { assert InUse(entries, h); }
          if InUse(entries[1..], h) {
            var i :| 0 <= i < |entries[1..]| && entries[1..][i].handle == h;
            assert entries[i + 1].handle == h;
          }
          if InUse(entries, h) && h != entries[0].handle {
            var i :| 0 <= i < |entries| && entries[i].handle == h;
            assert entries[1..][i - 1].handle == h;
          }
        }
      }
      {entries[0].handle} + rest
  }

  /** The candidates of the first k probes. */
  ghost function Tried(start: int, k: nat): (r: set<int>)
    requires 1 <= start <= LONG_MAX && k <= LONG_MAX
    ensures |r| == k
    ensures forall h :: h in r <==> exists j :: 0 <= j < k && h == Probe(start, j)
  {
    if k == 0 then {}
    else
      assert Probe(start, k - 1) !in Tried(start, k - 1);
      Tried(start, k - 1) + {Probe(start, k - 1)}
  }

  lemma SubsetSize<T>(a: set<T>, b: set<T>)
    requires a <= b
    ensures |a| <= |b|
  {
    if a != {} {
      var x :| x in a;
      SubsetSize(a - {x}, b - {x});
    }
  }

  /** Probes that all hit registered handles number at most the table size. */
  lemma ProbesBounded<S>(entries: seq<Entry<S>>, start: int, k: nat)
    requires 1 <= start <= LONG_MAX && k <= LONG_MAX
    requires forall j :: 0 <= j < k ==> InUse(entries, Probe(start, j))
    ensures k <= |entries|
  {
    SubsetSize(Tried(start, k), Handles(entries));
  }

  // ------------------------------------------------------------ locked sections

  /** Links a fresh record in front of the list. */
  function Registered<S>(r: Registry<S>, session: S, handle: int): Registry<S>
    requires 1 <= handle <= LONG_MAX
  {
    Registry(Successor(handle),
             [Entry(handle, session)] + r.entries,
             r.heap[session := Fields(handle, 0, false, false, true)])
  }

  function Available<S>(r: Registry<S>, session: S): bool {
    session in r.heap && var f := r.heap[session]; !f.released && !f.inUse && f.hasCodec
  }

  /** Takes the operation reference, or refuses. */
  function Acquired<S>(r: Registry<S>, handle: int): (Registry<S>, Option<S>) {
    if handle <= 0 then (r, None)
    else match Lookup(r, handle)
      case None => (r, None)
      case Some(s) =>
        if !Available(r, s) then (r, None)
        else
          var f := r.heap[s];
          (r.(heap := r.heap[s := f.(references := f.references + 1, inUse := true)]), Some(s))
  }

  /** Gives the reference back; the flag tells the caller to destroy the record. */
  function Dropped<S>(r: Registry<S>, session: S): (Registry<S>, bool)
    requires session in r.heap
  {
    var f := r.heap[session];
    var g := f.(references := if f.references > 0 then f.references - 1 else f.references, inUse := false);
    (r.(heap := r.heap[session := g]), g.released && g.references == 0)
  }

  /** Unlinks the handle; the record is returned when nobody holds it. */
  function Removed<S>(r: Registry<S>, handle: int): (Registry<S>, Option<S>) {
    if handle <= 0 then (r, None)
    else
      var i := Find(r.entries, handle);
      if i == |r.entries| then (r, None)
      else
        var s := r.entries[i].session;
        var unlinked := r.(entries := Without(r.entries, i));
        if s !in r.heap then (unlinked, None)
        else
          var f := r.heap[s];
          (unlinked.(heap := r.heap[s := f.(released := true)]), if f.references == 0 then Some(s) else None)
  }

  function Destroyed<S>(r: Registry<S>, session: S): Registry<S> {
    r.(heap := r.heap - {session})
  }

  // ------------------------------------------------------------------ invariant

  ghost predicate Listed<S>(r: Registry<S>, session: S) {
    exists i :: 0 <= i < |r.entries| && r.entries[i].session == session
  }

  ghost predicate WellFormed<S>(r: Registry<S>) {
    && 1 <= r.next <= LONG_MAX
    && (forall i :: 0 <= i < |r.entries| ==> EntryOk(r, r.entries[i]))
    && (forall i, j :: 0 <= i < j < |r.entries| ==>
          r.entries[i].handle != r.entries[j].handle && r.entries[i].session != r.entries[j].session)
    && (forall s :: s in r.heap ==> RecordOk(r, s))
  }

  ghost predicate EntryOk<S>(r: Registry<S>, e: Entry<S>) {
    && 1 <= e.handle <= LONG_MAX
    && e.session in r.heap
    && r.heap[e.session].handle == e.handle
    && !r.heap[e.session].released
  }

  ghost predicate RecordOk<S>(r: Registry<S>, s: S)
    requires s in r.heap
  {
    var f := r.heap[s];
    && 0 <= f.references <= 1
    && (f.inUse <==> f.references == 1)
    && f.hasCodec
    && (!f.released ==> Listed(r, s))
  }

  lemma EntryIsOk<S>(r: Registry<S>, i: nat)
    requires WellFormed(r) && i < |r.entries|
    ensures EntryOk(r, r.entries[i])
  {
  }

  lemma LookupEntry<S>(r: Registry<S>, i: nat)
    requires WellFormed(r) && i < |r.entries|
    ensures Lookup(r, r.entries[i].handle) == Some(r.entries[i].session)
  {
    FindAt(r.entries, i, r.entries[i].handle);
  }

  /** A record that is not released resolves through its own handle, and through no other. */
  lemma LiveResolves<S>(r: Registry<S>, s: S, handle: int)
    requires WellFormed(r) && s in r.heap
    ensures Lookup(r, handle) == Some(s) <==> !r.heap[s].released && handle == r.heap[s].handle
  {
    if !r.heap[s].released {
      assert RecordOk(r, s);
      var i :| 0 <= i < |r.entries| && r.entries[i].session == s;
      assert EntryOk(r, r.entries[i]);
      LookupEntry(r, i);
    }
    var j := Find(r.entries, handle);
    if j < |r.entries| {
      assert EntryOk(r, r.entries[j]);
    }
  }

  lemma RegisteredOk<S>(r: Registry<S>, s: S, handle: int)
    requires WellFormed(r) && s !in r.heap && Reserves(r, handle)
    ensures 1 <= handle <= LONG_MAX && WellFormed(Registered(r, s, handle))
    ensures Lookup(Registered(r, s, handle), handle) == Some(s)
    ensures forall h :: h != handle ==> Lookup(Registered(r, s, handle), h) == Lookup(r, h)
  {
    hide WellFormed;
    ReservesRange(r, handle);
    LinkedLookup(r.entries, Entry(handle, s));
    LinkedOk(r, s, handle);
  }

  lemma LinkedLookup<S>(entries: seq<Entry<S>>, e: Entry<S>)
    ensures var longer := [e] + entries;
      && Find(longer, e.handle) == 0
      && forall h :: h != e.handle ==> Find(longer, h) == 1 + Find(entries, h)
  {
    assert ([e] + entries)[1..] == entries;
  }

  lemma LinkedOk<S>(r: Registry<S>, s: S, handle: int)
    requires WellFormed(r) && s !in r.heap && 1 <= handle <= LONG_MAX && !InUse(r.entries, handle)
    ensures WellFormed(Registered(r, s, handle))
  {
    var r' := Registered(r, s, handle);
    forall i | 0 <= i < |r'.entries|
      ensures EntryOk(r', r'.entries[i])
      ensures i > 0 ==> r'.entries[i].handle != handle && r'.entries[i].session != s
    {
      if i > 0 { assert r'.entries[i] == r.entries[i - 1] && EntryOk(r, r.entries[i - 1]); }
    }
    forall t | t in r'.heap
      ensures RecordOk(r', t)
    {
      if t == s {
        assert r'.entries[0].session == s;
      } else {
        assert RecordOk(r, t);
        if !r.heap[t].released {
          var i :| 0 <= i < |r.entries| && r.entries[i].session == t;
          assert r'.entries[i + 1].session == t;
        }
      }
    }
  }

  lemma AcquiredOk<S>(r: Registry<S>, handle: int)
    requires WellFormed(r)
    ensures var (r', got) := Acquired(r, handle);
      && WellFormed(r') && r'.entries == r.entries && r'.next == r.next
      // Succeeds exactly for a registered handle whose record is idle.
      && (got.Some? <==> exists s :: Lookup(r, handle) == Some(s) && s in r.heap && !r.heap[s].inUse)
      && (got.None? ==> r' == r)
      && (got.Some? ==> got.value in r.heap && Lookup(r, handle) == got
                        && !r.heap[got.value].released && r.heap[got.value].references == 0
                        && r'.heap == r.heap[got.value := r.heap[got.value].(references := 1, inUse := true)])
  {
    var (r', got) := Acquired(r, handle);
    var i := Find(r.entries, handle);
    if i < |r.entries| {
      assert EntryOk(r, r.entries[i]);
      assert RecordOk(r, r.entries[i].session);
    }
    if got.Some? {
      SameListing(r, r');
    }
  }

  /** The invariant survives a change of one record's fields that keeps its listing. */
  lemma SameListing<S>(r: Registry<S>, r': Registry<S>)
    requires WellFormed(r)
    requires r'.entries == r.entries && r'.next == r.next && r'.heap.Keys == r.heap.Keys
    requires forall s :: s in r.heap ==>
      var f, g := r.heap[s], r'.heap[s];
      && g.handle == f.handle && g.released == f.released && g.hasCodec == f.hasCodec
      && 0 <= g.references <= 1 && (g.inUse <==> g.references == 1)
    ensures WellFormed(r')
  {
    forall i | 0 <= i < |r'.entries|
      ensures EntryOk(r', r'.entries[i])
    {
      assert EntryOk(r, r.entries[i]);
    }
    forall s | s in r'.heap
      ensures RecordOk(r', s)
    {
      assert RecordOk(r, s);
      if !r.heap[s].released {
        var i :| 0 <= i < |r.entries| && r.entries[i].session == s;
        assert r'.entries[i].session == s;
      }
    }
  }

  lemma DroppedOk<S>(r: Registry<S>, s: S)
    requires WellFormed(r) && s in r.heap
    ensures var (r', destroy) := Dropped(r, s);
      && WellFormed(r') && r'.entries == r.entries && r'.next == r.next
      && r'.heap == r.heap[s := r.heap[s].(references := 0, inUse := false)]
      && (destroy <==> r.heap[s].released)
  {
    assert RecordOk(r, s);
    SameListing(r, Dropped(r, s).0);
  }

  lemma RemovedOk<S>(r: Registry<S>, handle: int)
    requires WellFormed(r)
    ensures var (r', got) := Removed(r, handle);
      && WellFormed(r') && r'.next == r.next
      && Lookup(r', handle) == None
      && (forall h :: h != handle ==> Lookup(r', h) == Lookup(r, h))
      && (Lookup(r, handle) == None ==> r' == r && got == None)
      && (Lookup(r, handle).Some? ==>
            var s := Lookup(r, handle).value;
            && s in r.heap && !r.heap[s].released
            && r'.heap == r.heap[s := r.heap[s].(released := true)]
            && got == if r.heap[s].references == 0 then Some(s) else None)
  {
    hide WellFormed;
    var i := Find(r.entries, handle);
    if i < |r.entries| {
      EntryIsOk(r, i);
      UnlinkedOk(r, i);
      forall h | h != handle
        ensures Lookup(Removed(r, handle).0, h) == Lookup(r, h)
      {
        UnlinkKeepsLookup(r.entries, i, h);
      }
    }
  }

  function Without<T>(xs: seq<T>, i: nat): (r: seq<T>)
    requires i < |xs|
    ensures |r| == |xs| - 1
    ensures forall k :: 0 <= k < |r| ==> r[k] == xs[if k < i then k else k + 1]
  {
    xs[..i] + xs[i + 1..]
  }

  /** Taking entry i out and releasing its record keeps the invariant. */
  lemma UnlinkedOk<S>(r: Registry<S>, i: nat)
    requires WellFormed(r) && i < |r.entries|
    ensures var s := r.entries[i].session;
      && s in r.heap
      && WellFormed(Registry(r.next, Without(r.entries, i), r.heap[s := r.heap[s].(released := true)]))
    ensures forall k :: 0 <= k < |r.entries| - 1 ==> Without(r.entries, i)[k].handle != r.entries[i].handle
  {
    EntryIsOk(r, i);
    var s := r.entries[i].session;
    var r' := Registry(r.next, Without(r.entries, i), r.heap[s := r.heap[s].(released := true)]);
    forall k | 0 <= k < |r'.entries|
      ensures EntryOk(r', r'.entries[k])
    {
      EntryIsOk(r, if k < i then k else k + 1);
    }
    forall t | t in r'.heap
      ensures RecordOk(r', t)
    {
      StillListed(r, i, t);
    }
  }

  lemma StillListed<S>(r: Registry<S>, i: nat, t: S)
    requires WellFormed(r) && i < |r.entries| && t in r.heap
    ensures RecordOk(r, t)
    ensures !r.heap[t].released && t != r.entries[i].session ==>
      exists k :: 0 <= k < |r.entries| - 1 && Without(r.entries, i)[k].session == t
  {
    if !r.heap[t].released && t != r.entries[i].session {
      var k :| 0 <= k < |r.entries| && r.entries[k].session == t;
      assert Without(r.entries, i)[if k < i then k else k - 1].session == t;
    }
  }

  lemma UnlinkKeepsLookup<S>(entries: seq<Entry<S>>, i: nat, h: int)
    requires i < |entries| && entries[i].handle != h
    ensures var rest, f := Without(entries, i), Find(entries, h);
      Find(rest, h) == if f < i then f else f - 1
  {
    var rest, f := Without(entries, i), Find(entries, h);
    if f < |entries| {
      FindAt(rest, if f < i then f else f - 1, h);
    } else if Find(rest, h) < |rest| {
      assert false;
    }
  }

  lemma DestroyedOk<S>(r: Registry<S>, s: S)
    requires WellFormed(r) && s in r.heap && r.heap[s].released
    ensures WellFormed(Destroyed(r, s))
    ensures forall h :: Lookup(Destroyed(r, s), h) == Lookup(r, h)
  {
    var r' := Destroyed(r, s);
    forall i | 0 <= i < |r'.entries|
      ensures EntryOk(r', r'.entries[i])
    {
      assert EntryOk(r, r.entries[i]);
    }
    forall t | t in r'.heap
      ensures RecordOk(r', t)
    {
      assert RecordOk(r, t);
      if !r.heap[t].released {
        var i :| 0 <= i < |r.entries| && r.entries[i].session == t;
        assert r'.entries[i].session == t;
      }
    }
  }
}
