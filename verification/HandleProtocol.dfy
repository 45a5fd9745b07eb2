/**
  Every interleaving of native calls over one registry.

  A native call that holds a session is a *frame*. One step of the system is one
  locked section of one frame, or the destruction that a frame performs after it
  has left the lock. Calls made from inside a Java callback, and calls on other
  threads, are simply other frames, so no scheduling is assumed. Destroying frees
  the record; the model notices any later step that would touch freed memory.
 */
module HandleProtocol {
  import opened Arithmetic
  import opened HandleRegistry
  import opened Wrappers

  /**
    What a native call still has to do: give back the reference it took; unlink
    its own handle first (the encoder's finish call does both); or destroy the
    session that a locked section assigned to it.
   */
  datatype Frame = Holding(session: nat) | Finishing(session: nat, handle: int) | Owing(session: nat)

  /** `history` variables: sessions opened so far, sessions destroyed in order, counter wrap-arounds. */
  datatype State = State(
    registry: Registry<nat>,
    frames: map<nat, Frame>,
    opens: nat,
    destroyed: seq<nat>,
    wraps: nat,
    leaked: set<nat>,
    fault: bool)

  datatype Step =
    | Open(handle: int)
    | Acquire(frame: nat, handle: int)
    | AcquireToFinish(frame: nat, handle: int)
    | UnlinkOwn(frame: nat)
    | Drop(frame: nat)
    | Remove(frame: nat, handle: int)
    | Destroy(frame: nat)

  ghost predicate Enabled(s: State, step: Step) {
    match step
    case Open(handle) => |s.registry.entries| < LONG_MAX && Reserves(s.registry, handle) && 1 <= handle <= LONG_MAX
    case Acquire(f, _) => f !in s.frames
    case AcquireToFinish(f, _) => f !in s.frames
    case UnlinkOwn(f) => f in s.frames && s.frames[f].Finishing?
    case Drop(f) => f in s.frames && s.frames[f].Holding?
    case Remove(f, _) => f !in s.frames
    case Destroy(f) => f in s.frames && s.frames[f].Owing?
  }

  /** Another frame is between its acquire and its release. */
  ghost predicate HeldByOther(s: State, frame: nat, session: nat) {
    exists g :: g in s.frames && g != frame && s.frames[g].session == session
  }

  /** The handle leads to a record that is already freed. */
  ghost predicate Dangling(r: Registry<nat>, handle: int) {
    Lookup(r, handle).Some? && Lookup(r, handle).value !in r.heap
  }

  ghost function Next(s: State, step: Step): State
    requires Enabled(s, step)
  {
    match step
    case Open(handle) =>
      var r := Registered(s.registry, s.opens, handle);
      s.(registry := r, opens := s.opens + 1, wraps := s.wraps + if r.next <= s.registry.next then 1 else 0)
    case Acquire(f, handle) =>
      var (r, got) := Acquired(s.registry, handle);
      s.(registry := r,
         frames := match got { case Some(x) => s.frames[f := Holding(x)] case None => s.frames },
         fault := s.fault || Dangling(s.registry, handle))
    case AcquireToFinish(f, handle) =>
      var (r, got) := Acquired(s.registry, handle);
      s.(registry := r,
         frames := match got { case Some(x) => s.frames[f := Finishing(x, handle)] case None => s.frames },
         fault := s.fault || Dangling(s.registry, handle))
    case UnlinkOwn(f) =>
      // finishEncoder ignores what remove_encode_context returns.
      var (r, got) := Removed(s.registry, s.frames[f].handle);
      s.(registry := r,
         frames := s.frames[f := Holding(s.frames[f].session)],
         leaked := s.leaked + match got { case Some(x) => {x} case None => {} },
         fault := s.fault || Dangling(s.registry, s.frames[f].handle) || s.frames[f].session !in s.registry.heap)
    case Drop(f) =>
      var x := s.frames[f].session;
      if x !in s.registry.heap then s.(fault := true)
      else
        var (r, destroy) := Dropped(s.registry, x);
        s.(registry := r, frames := if destroy then s.frames[f := Owing(x)] else s.frames - {f})
    case Remove(f, handle) =>
      var (r, got) := Removed(s.registry, handle);
      s.(registry := r,
         frames := match got { case Some(x) => s.frames[f := Owing(x)] case None => s.frames },
         fault := s.fault || Dangling(s.registry, handle))
    case Destroy(f) =>
      var x := s.frames[f].session;
      s.(registry := Destroyed(s.registry, x),
         frames := s.frames - {f},
         destroyed := s.destroyed + [x],
         fault := s.fault || x !in s.registry.heap || HeldByOther(s, f, x))
  }

  ghost predicate Initial(s: State) {
    && 1 <= s.registry.next <= LONG_MAX
    && s == State(Registry(s.registry.next, [], map[]), map[], 0, [], 0, {}, false)
  }

  // ------------------------------------------------------------------ invariant

  ghost predicate Inv(s: State) {
    && !s.fault
    && WellFormed(s.registry)
    && FramesOk(s)
    && RecordsOwned(s)
    && HistoryOk(s)
    && (s.wraps == 0 ==> s.leaked == {} && CounterAhead(s.registry))
  }

  ghost predicate FramesOk(s: State) {
    && (forall f :: f in s.frames ==> FrameOk(s, s.frames[f]))
    // Every session is held, or owed, by at most one frame.
    && (forall f, g :: f in s.frames && g in s.frames && f != g ==> s.frames[f].session != s.frames[g].session)
  }

  ghost predicate FrameOk(s: State, frame: Frame) {
    && frame.session in s.registry.heap
    && frame.session !in s.leaked
    && var fields := s.registry.heap[frame.session];
    match frame
    case Holding(_) => fields.references == 1
    case Finishing(_, handle) => fields.references == 1 && fields.handle == handle
    case Owing(_) => fields.references == 0 && fields.released
  }

  /** The frame that holds or owes `session`. */
  ghost predicate Engaged(s: State, session: nat) {
    exists f :: f in s.frames && s.frames[f].session == session
  }

  /**
    A record with a reference has a frame that will drop it, and a released record
    without references has a frame that will destroy it, unless the address was thrown away.
   */
  ghost predicate RecordsOwned(s: State) {
    && s.leaked <= s.registry.heap.Keys
    && forall x :: x in s.registry.heap ==>
         var fields := s.registry.heap[x];
         && (fields.references == 1 ==> Engaged(s, x))
         && (fields.references == 0 && fields.released && x !in s.leaked ==> Engaged(s, x))
         && (x in s.leaked ==> fields.released && fields.references == 0)
  }

  /** Sessions are numbered in opening order; each is alive or in the log, once. */
  ghost predicate HistoryOk(s: State) {
    && (forall x: nat :: x < s.opens <==> x in s.registry.heap || x in s.destroyed)
    && (forall x :: x in s.registry.heap ==> x !in s.destroyed)
    && (forall i, j :: 0 <= i < j < |s.destroyed| ==> s.destroyed[i] != s.destroyed[j])
  }

  /** Until the counter wraps, no record's handle will be handed out again. */
  ghost predicate CounterAhead(r: Registry<nat>) {
    && (forall x :: x in r.heap ==> r.heap[x].handle < r.next)
    && (forall x, y :: x in r.heap && y in r.heap && x != y ==> r.heap[x].handle != r.heap[y].handle)
  }

  lemma InitialInv(s: State)
    requires Initial(s)
    ensures Inv(s)
  {
  }

  lemma OpenKeeps(s: State, handle: int)
    requires Inv(s) && Enabled(s, Open(handle))
    ensures Inv(Next(s, Open(handle)))
  {
    var s' := Next(s, Open(handle));
    RegisteredOk(s.registry, s.opens, handle);
    OpenFrames(s, handle);
    if s'.wraps == 0 {
      forall i | 0 <= i < |s.registry.entries|
        ensures s.registry.entries[i].handle < s.registry.next
      {
        EntryIsOk(s.registry, i);
      }
      FreshCounterReservesItself(s.registry, handle);
    }
    hide WellFormed, FramesOk, RecordsOwned;
  }

  lemma OpenFrames(s: State, handle: int)
    requires Inv(s) && Enabled(s, Open(handle))
    ensures var s' := Next(s, Open(handle));
      FramesOk(s') && RecordsOwned(s')
  {
    hide WellFormed, CounterAhead;
    var s' := Next(s, Open(handle));
    forall f | f in s'.frames
      ensures FrameOk(s', s'.frames[f])
    {
      assert FrameOk(s, s.frames[f]);
    }
    EngagedMore(s, s');
  }

  lemma NotDangling(s: State, handle: int)
    requires Inv(s)
    ensures !Dangling(s.registry, handle)
  {
    var i := Find(s.registry.entries, handle);
    if i < |s.registry.entries| { EntryIsOk(s.registry, i); }
  }

  lemma AcquireKeeps(s: State, frame: nat, handle: int)
    requires Inv(s) && frame !in s.frames
    ensures Inv(Next(s, Acquire(frame, handle))) && Inv(Next(s, AcquireToFinish(frame, handle)))
  {
    hide WellFormed;
    NotDangling(s, handle);
    AcquiredOk(s.registry, handle);
    var got := Acquired(s.registry, handle).1;
    if got.Some? {
      LiveResolves(s.registry, got.value, handle);
      TakeKeeps(s, frame, got.value, Holding(got.value));
      TakeKeeps(s, frame, got.value, Finishing(got.value, handle));
    }
  }

  /** Record x gets new fields, frame f new work: what each part of the invariant needs. */
  ghost function Changed(s: State, x: nat, fields: Fields, entries: seq<Entry<nat>>, frames: map<nat, Frame>): State {
    s.(registry := Registry(s.registry.next, entries, s.registry.heap[x := fields]), frames := frames)
  }

  /** History and counter only look at which records exist and at their handles. */
  lemma ChangedHistory(s: State, x: nat, fields: Fields, entries: seq<Entry<nat>>, frames: map<nat, Frame>)
    requires Inv(s) && x in s.registry.heap && fields.handle == s.registry.heap[x].handle
    ensures var s' := Changed(s, x, fields, entries, frames);
      && HistoryOk(s') && (s'.wraps == 0 ==> s'.leaked == {} && CounterAhead(s'.registry))
  {
    hide WellFormed, FramesOk, RecordsOwned;
  }

  /** Frame f starts (or changes) work on x, which no other frame is engaged with. */
  lemma ChangedFrames(s: State, x: nat, fields: Fields, entries: seq<Entry<nat>>, f: nat, work: Frame)
    requires Inv(s) && x in s.registry.heap
    requires forall g :: g in s.frames && g != f ==> s.frames[g].session != x
    requires work.session == x && FrameOk(Changed(s, x, fields, entries, s.frames[f := work]), work)
    ensures FramesOk(Changed(s, x, fields, entries, s.frames[f := work]))
  {
    hide WellFormed, RecordsOwned, HistoryOk, CounterAhead;
    var s' := Changed(s, x, fields, entries, s.frames[f := work]);
    forall g | g in s'.frames
      ensures FrameOk(s', s'.frames[g])
    {
      if g != f { assert FrameOk(s, s.frames[g]); }
    }
  }

  lemma ChangedRecords(s: State, x: nat, fields: Fields, entries: seq<Entry<nat>>, f: nat, work: Frame)
    requires Inv(s) && x in s.registry.heap && x !in s.leaked
    requires work.session == x && (f in s.frames ==> s.frames[f].session == x)
    ensures RecordsOwned(Changed(s, x, fields, entries, s.frames[f := work]))
  {
    hide WellFormed, FramesOk, HistoryOk, CounterAhead;
    var s' := Changed(s, x, fields, entries, s.frames[f := work]);
    EngagedMore(s, s');
    assert s'.frames[f].session == x;
  }

  /** Giving an idle, registered record to a new frame. */
  lemma TakeKeeps(s: State, frame: nat, x: nat, work: Frame)
    requires Inv(s) && frame !in s.frames && x in s.registry.heap
    requires s.registry.heap[x].references == 0 && !s.registry.heap[x].released
    requires work == Holding(x) || work == Finishing(x, s.registry.heap[x].handle)
    ensures var fields := s.registry.heap[x].(references := 1, inUse := true);
      Inv(Changed(s, x, fields, s.registry.entries, s.frames[frame := work]))
  {
    var fields := s.registry.heap[x].(references := 1, inUse := true);
    var s' := Changed(s, x, fields, s.registry.entries, s.frames[frame := work]);
    assert WellFormed(s'.registry) by { SameListing(s.registry, s'.registry); }
    IdleNotEngaged(s, x);
    hide WellFormed, FramesOk, RecordsOwned, HistoryOk, CounterAhead;
    ChangedHistory(s, x, fields, s.registry.entries, s'.frames);
    ChangedFrames(s, x, fields, s.registry.entries, frame, work);
    ChangedRecords(s, x, fields, s.registry.entries, frame, work);
  }

  lemma IdleNotEngaged(s: State, x: nat)
    requires Inv(s) && x in s.registry.heap
    requires s.registry.heap[x].references == 0 && !s.registry.heap[x].released
    ensures !Engaged(s, x) && x !in s.leaked
  {
    hide WellFormed, HistoryOk, CounterAhead;
    forall f | f in s.frames
      ensures s.frames[f].session != x
    {
      assert FrameOk(s, s.frames[f]);
    }
  }

  lemma EngagedMore(s: State, s': State)
    requires forall f :: f in s.frames ==> f in s'.frames && s'.frames[f].session == s.frames[f].session
    ensures forall x :: Engaged(s, x) ==> Engaged(s', x)
  {
    forall x | Engaged(s, x)
      ensures Engaged(s', x)
    {
      var f :| f in s.frames && s.frames[f].session == x;
      assert s'.frames[f].session == x;
    }
  }

  lemma DropKeeps(s: State, f: nat)
    requires Inv(s) && Enabled(s, Drop(f))
    ensures Inv(Next(s, Drop(f)))
  {
    var x := s.frames[f].session;
    assert FrameOk(s, s.frames[f]) && RecordOk(s.registry, x);
    var fields := s.registry.heap[x].(references := 0, inUse := false);
    var entries := s.registry.entries;
    DroppedOk(s.registry, x);
    if fields.released {
      hide WellFormed, RecordsOwned, HistoryOk, CounterAhead;
      ChangedHistory(s, x, fields, entries, s.frames[f := Owing(x)]);
      ChangedFrames(s, x, fields, entries, f, Owing(x));
      ChangedRecords(s, x, fields, entries, f, Owing(x));
    } else {
      ChangedHistory(s, x, fields, entries, s.frames - {f});
      LeaveFrames(s, x, fields, f);
      LeaveRecords(s, x, fields, f);
    }
  }

  /** Frame f is done with x, which stays registered and idle. */
  lemma LeaveFrames(s: State, x: nat, fields: Fields, f: nat)
    requires Inv(s) && f in s.frames && s.frames[f].session == x
    ensures FramesOk(Changed(s, x, fields, s.registry.entries, s.frames - {f}))
  {
    hide WellFormed, RecordsOwned, HistoryOk, CounterAhead;
    var s' := Changed(s, x, fields, s.registry.entries, s.frames - {f});
    forall g | g in s'.frames
      ensures FrameOk(s', s'.frames[g])
    {
      assert FrameOk(s, s.frames[g]);
    }
  }

  lemma LeaveRecords(s: State, x: nat, fields: Fields, f: nat)
    requires Inv(s) && f in s.frames && s.frames[f].session == x
    requires x in s.registry.heap && x !in s.leaked && fields.references == 0 && !fields.released
    ensures RecordsOwned(Changed(s, x, fields, s.registry.entries, s.frames - {f}))
  {
    hide WellFormed, FramesOk, HistoryOk, CounterAhead;
    var s' := Changed(s, x, fields, s.registry.entries, s.frames - {f});
    forall y | Engaged(s, y) && y != x
      ensures Engaged(s', y)
    {
      var g :| g in s.frames && s.frames[g].session == y;
      assert g in s'.frames;
    }
  }

  lemma RemoveKeeps(s: State, f: nat, handle: int)
    requires Inv(s) && f !in s.frames
    ensures Inv(Next(s, Remove(f, handle)))
  {
    hide Lookup, Find, Removed;
    NotDangling(s, handle);
    RemovedOk(s.registry, handle);
    if Lookup(s.registry, handle).Some? {
      var x := Lookup(s.registry, handle).value;
      assert RecordOk(s.registry, x);
      var fields := s.registry.heap[x].(released := true);
      var entries := Removed(s.registry, handle).0.entries;
      if fields.references == 0 {
        IdleNotEngaged(s, x);
        hide WellFormed, FramesOk, RecordsOwned, HistoryOk, CounterAhead;
        ChangedHistory(s, x, fields, entries, s.frames[f := Owing(x)]);
        ChangedFrames(s, x, fields, entries, f, Owing(x));
        ChangedRecords(s, x, fields, entries, f, Owing(x));
      } else {
        ReleaseHeld(s, x, entries);
        hide WellFormed, FramesOk, RecordsOwned, HistoryOk, CounterAhead;
        ChangedHistory(s, x, fields, entries, s.frames);
      }
    }
  }

  /** Unlinking a record that a frame still holds leaves it to that frame. */
  lemma ReleaseHeld(s: State, x: nat, entries: seq<Entry<nat>>)
    requires Inv(s) && x in s.registry.heap && s.registry.heap[x].references == 1
    ensures var s' := Changed(s, x, s.registry.heap[x].(released := true), entries, s.frames);
      FramesOk(s') && RecordsOwned(s')
  {
    var fields := s.registry.heap[x].(released := true);
    var g :| g in s.frames && s.frames[g].session == x;
    assert FrameOk(s, s.frames[g]);
    assert s.frames[g := s.frames[g]] == s.frames;
    ChangedFrames(s, x, fields, entries, g, s.frames[g]);
    ChangedRecords(s, x, fields, entries, g, s.frames[g]);
  }

  /** The finish call replaces its frame's work after it has unlinked its handle. */
  lemma Rework(s: State, f: nat)
    requires Inv(s) && f in s.frames && s.frames[f].Finishing?
    ensures Inv(s.(frames := s.frames[f := Holding(s.frames[f].session)]))
  {
    var x := s.frames[f].session;
    var fields := s.registry.heap[x];
    assert FrameOk(s, s.frames[f]);
    var s' := s.(frames := s.frames[f := Holding(x)]);
    assert s.registry.heap[x := fields] == s.registry.heap;
    assert s' == Changed(s, x, fields, s.registry.entries, s'.frames);
    hide WellFormed, RecordsOwned, HistoryOk, CounterAhead;
    ChangedFrames(s, x, fields, s.registry.entries, f, Holding(x));
    ChangedRecords(s, x, fields, s.registry.entries, f, Holding(x));
    ChangedHistory(s, x, fields, s.registry.entries, s'.frames);
  }

  lemma UnlinkOwnKeeps(s: State, f: nat)
    requires Inv(s) && Enabled(s, UnlinkOwn(f))
    ensures Inv(Next(s, UnlinkOwn(f)))
  {
    var handle := s.frames[f].handle;
    assert FrameOk(s, s.frames[f]);
    NotDangling(s, handle);
    RemovedOk(s.registry, handle);
    var (r, got) := Removed(s.registry, handle);
    if Lookup(s.registry, handle).Some? {
      LiveResolves(s.registry, Lookup(s.registry, handle).value, handle);
      hide WellFormed, FramesOk, RecordsOwned, HistoryOk, CounterAhead;
      UnlinkAny(s, f, Lookup(s.registry, handle).value);
      var unlinked := s.(registry := r, leaked := s.leaked + match got { case Some(y) => {y} case None => {} });
      Rework(unlinked, f);
    } else {
      Rework(s, f);
      assert Next(s, UnlinkOwn(f)).leaked == s.leaked;
    }
  }

  /** The unlink inside the finish call, whichever record y the handle leads to. */
  lemma UnlinkAny(s: State, f: nat, y: nat)
    requires Inv(s) && Enabled(s, UnlinkOwn(f))
    requires Lookup(s.registry, s.frames[f].handle) == Some(y)
    ensures var (r, got) := Removed(s.registry, s.frames[f].handle);
      Inv(s.(registry := r, leaked := s.leaked + match got { case Some(z) => {z} case None => {} }))
  {
    hide Lookup, Find, Removed;
    var handle := s.frames[f].handle;
    assert FrameOk(s, s.frames[f]);
    RemovedOk(s.registry, handle);
    LiveResolves(s.registry, y, handle);
    assert RecordOk(s.registry, y);
    var (r, got) := Removed(s.registry, handle);
    var fields := s.registry.heap[y].(released := true);
    hide WellFormed;
    ChangedHistory(s, y, fields, r.entries, s.frames);
    if got.Some? {
      assert y != s.frames[f].session;
      assert s.wraps > 0;
      hide FramesOk, RecordsOwned, HistoryOk, CounterAhead;
      ThrowAway(s, y, r.entries);
    } else {
      assert s.leaked + {} == s.leaked;
      hide FramesOk, RecordsOwned, HistoryOk, CounterAhead;
      ReleaseHeld(s, y, r.entries);
    }
  }

  /** Past a wrap-around the ignored result can be somebody else's idle record. */
  lemma ThrowAway(s: State, y: nat, entries: seq<Entry<nat>>)
    requires Inv(s) && y in s.registry.heap
    requires s.registry.heap[y].references == 0 && !s.registry.heap[y].released
    ensures var s' := Changed(s, y, s.registry.heap[y].(released := true), entries, s.frames).(leaked := s.leaked + {y});
      FramesOk(s') && RecordsOwned(s')
  {
    IdleNotEngaged(s, y);
    var s' := Changed(s, y, s.registry.heap[y].(released := true), entries, s.frames).(leaked := s.leaked + {y});
    forall g | g in s'.frames
      ensures FrameOk(s', s'.frames[g])
    {
      assert FrameOk(s, s.frames[g]);
    }
    EngagedMore(s, s');
  }

  lemma DestroyKeeps(s: State, f: nat)
    requires Inv(s) && Enabled(s, Destroy(f))
    ensures Inv(Next(s, Destroy(f)))
  {
    var x := s.frames[f].session;
    assert FrameOk(s, s.frames[f]);
    DestroyedOk(s.registry, x);
    hide WellFormed;
    FreeFrames(s, f);
    FreeRecords(s, f);
    FreeHistory(s, f);
    hide FramesOk, RecordsOwned, HistoryOk, CounterAhead;
  }

  lemma FreeHistory(s: State, f: nat)
    requires Inv(s) && Enabled(s, Destroy(f)) && s.frames[f].session in s.registry.heap
    ensures var s' := Next(s, Destroy(f));
      HistoryOk(s') && (s.wraps == 0 ==> CounterAhead(s'.registry))
  {
    hide WellFormed, FramesOk, RecordsOwned, HeldByOther;
    var s', x := Next(s, Destroy(f)), s.frames[f].session;
    forall y: nat
      ensures y in s'.destroyed <==> y in s.destroyed || y == x
    {
    }
  }

  lemma FreeFrames(s: State, f: nat)
    requires Inv(s) && Enabled(s, Destroy(f))
    ensures FramesOk(Next(s, Destroy(f)))
  {
    hide WellFormed, RecordsOwned, HistoryOk, CounterAhead;
    var s' := Next(s, Destroy(f));
    forall g | g in s'.frames
      ensures FrameOk(s', s'.frames[g])
    {
      assert FrameOk(s, s.frames[g]);
    }
  }

  lemma FreeRecords(s: State, f: nat)
    requires Inv(s) && Enabled(s, Destroy(f))
    ensures RecordsOwned(Next(s, Destroy(f)))
  {
    hide WellFormed, HistoryOk, CounterAhead;
    var s' := Next(s, Destroy(f));
    assert FrameOk(s, s.frames[f]);
    forall y | Engaged(s, y) && y != s.frames[f].session
      ensures Engaged(s', y)
    {
      var g :| g in s.frames && s.frames[g].session == y;
      assert g in s'.frames;
    }
  }

  lemma InvWellFormed(s: State)
    requires Inv(s)
    ensures WellFormed(s.registry)
  {
  }

  /** Every step keeps the invariant, whichever frame takes it. */
  lemma StepKeeps(s: State, step: Step)
    requires Inv(s) && Enabled(s, step)
    ensures Inv(Next(s, step))
  {
    match step
    case Open(handle) => OpenKeeps(s, handle);
    case Acquire(f, handle) => AcquireKeeps(s, f, handle);
    case AcquireToFinish(f, handle) => AcquireKeeps(s, f, handle);
    case UnlinkOwn(f) => UnlinkOwnKeeps(s, f);
    case Drop(f) => DropKeeps(s, f);
    case Remove(f, handle) => RemoveKeeps(s, f, handle);
    case Destroy(f) => DestroyKeeps(s, f);
  }

  // ---------------------------------------------------------------- locality

  /** The step concerns session x: through a handle that leads to it, or through a frame engaged with it. */
  ghost predicate Touches(s: State, step: Step, x: nat) {
    match step
    case Open(_) => false
    case Acquire(_, handle) => Lookup(s.registry, handle) == Some(x)
    case AcquireToFinish(_, handle) => Lookup(s.registry, handle) == Some(x)
    case UnlinkOwn(f) =>
      f in s.frames && (s.frames[f].session == x
                        || (s.frames[f].Finishing? && Lookup(s.registry, s.frames[f].handle) == Some(x)))
    case Drop(f) => f in s.frames && s.frames[f].session == x
    case Remove(_, handle) => Lookup(s.registry, handle) == Some(x)
    case Destroy(f) => f in s.frames && s.frames[f].session == x
  }

  /** A step that does not concern x leaves its record and its engagement alone. */
  lemma Untouched(s: State, step: Step, x: nat)
    requires Inv(s) && Enabled(s, step) && !Touches(s, step, x) && x < s.opens
    ensures var s' := Next(s, step);
      && (x in s'.registry.heap <==> x in s.registry.heap)
      && (x in s.registry.heap ==> s'.registry.heap[x] == s.registry.heap[x])
      && (x in s'.destroyed <==> x in s.destroyed)
      && (forall f :: f in s'.frames && s'.frames[f].session == x ==> f in s.frames && s.frames[f] == s'.frames[f])
      && (forall f :: f in s.frames && s.frames[f].session == x ==> f in s'.frames && s'.frames[f] == s.frames[f])
  {
    hide WellFormed, FramesOk, RecordsOwned, HistoryOk, CounterAhead, Reserves, Find;
    match step
    case Open(h) =>
    case Acquire(_, h) => AcquiredOk(s.registry, h);
    case AcquireToFinish(_, h) => AcquiredOk(s.registry, h);
    case UnlinkOwn(f) => RemovedOk(s.registry, s.frames[f].handle);
    case Drop(f) =>
    case Remove(_, h) => RemovedOk(s.registry, h);
    case Destroy(f) =>
  }

  /** No step gives a record another handle, brings one back, or lowers a history counter. */
  lemma HandlesStay(s: State, step: Step, x: nat)
    requires Inv(s) && Enabled(s, step) && x < s.opens
    ensures var s' := Next(s, step);
      && (x in s'.registry.heap ==> x in s.registry.heap && s'.registry.heap[x].handle == s.registry.heap[x].handle)
      && s.opens <= s'.opens && s.wraps <= s'.wraps
  {
    hide WellFormed, FramesOk, RecordsOwned, HistoryOk, CounterAhead, Reserves, Find;
  }

  /** A step on one frame leaves every other frame as it is. */
  lemma OtherFramesStay(s: State, step: Step, f: nat)
    requires Enabled(s, step) && (step.Open? || step.frame != f)
    ensures f in Next(s, step).frames <==> f in s.frames
    ensures f in s.frames ==> Next(s, step).frames[f] == s.frames[f]
  {
    hide Acquired, Removed, Dropped, Registered, Reserves, Lookup;
  }

  /** The session a frame is engaged with has left the table. */
  ghost predicate ReleasedFrame(s: State, f: nat) {
    f in s.frames && s.frames[f].session in s.registry.heap && s.registry.heap[s.frames[f].session].released
  }

  /** The locked sections never take a record's release back. */
  lemma SectionsKeepRelease(r: Registry<nat>, x: nat, handle: int)
    requires x in r.heap && r.heap[x].released
    ensures x in Acquired(r, handle).0.heap && Acquired(r, handle).0.heap[x].released
    ensures x in Removed(r, handle).0.heap && Removed(r, handle).0.heap[x].released
    ensures forall y :: y in r.heap ==> x in Dropped(r, y).0.heap && Dropped(r, y).0.heap[x].released
  {
    hide Lookup, Find, Without;
  }

  /** The handle that a step looks up, if it looks one up. */
  ghost function HandleUsed(s: State, step: Step): int
    requires Enabled(s, step)
  {
    match step
    case Acquire(_, h) => h
    case AcquireToFinish(_, h) => h
    case Remove(_, h) => h
    case UnlinkOwn(f) => s.frames[f].handle
    case _ => 0
  }

  /** Once released, a record stays released until it is freed. */
  lemma ReleasedStays(s: State, step: Step, x: nat)
    requires Inv(s) && Enabled(s, step) && x in s.registry.heap && s.registry.heap[x].released
    requires step.Destroy? ==> s.frames[step.frame].session != x
    ensures x in Next(s, step).registry.heap && Next(s, step).registry.heap[x].released
  {
    hide WellFormed, FramesOk, RecordsOwned, CounterAhead, Reserves, Find, Lookup, Acquired, Removed, Dropped;
    SectionsKeepRelease(s.registry, x, HandleUsed(s, step));
  }

  /** Nobody but its frame can free it. */
  lemma ReleasedFrameStays(s: State, step: Step, f: nat)
    requires Inv(s) && Enabled(s, step) && ReleasedFrame(s, f) && (step.Open? || step.frame != f)
    ensures ReleasedFrame(Next(s, step), f)
  {
    OtherFramesStay(s, step, f);
    if step.Destroy? {
      assert s.frames[step.frame].session != s.frames[f].session;
    }
    ReleasedStays(s, step, s.frames[f].session);
    hide Inv, Next, Enabled;
  }

  /** What becomes of the frame that takes a step. */
  lemma OwnFrameAfter(s: State, step: Step)
    requires Inv(s) && Enabled(s, step) && !step.Open?
    ensures var f, after := step.frame, Next(s, step).frames;
      match step
      case Acquire(_, _) => f in after ==> after[f].Holding?
      case AcquireToFinish(_, h) => f in after ==> after[f].Finishing? && after[f].handle == h
      case UnlinkOwn(_) => f in after && after[f].Holding? && ReleasedFrame(Next(s, step), f)
      case Drop(_) => (f in after ==> after[f].Owing?) && (ReleasedFrame(s, f) ==> f in after)
      case Remove(_, _) => f in after ==> after[f].Owing?
      case Destroy(_) => f !in after
      case _ => true
  {
    if step.Drop? { assert FrameOk(s, s.frames[step.frame]); }
    if step.UnlinkOwn? {
      var x := s.frames[step.frame].session;
      assert FrameOk(s, s.frames[step.frame]);
      RemovedOk(s.registry, s.frames[step.frame].handle);
      LiveResolves(Removed(s.registry, s.frames[step.frame].handle).0, x, s.frames[step.frame].handle);
    }
    hide WellFormed, FramesOk, RecordsOwned, HistoryOk, CounterAhead, Lookup, Find;
  }

  // -------------------------------------------------------------- whole runs

  ghost predicate Run(states: seq<State>, steps: seq<Step>) {
    && |states| == |steps| + 1
    && Initial(states[0])
    && forall i :: 0 <= i < |steps| ==> Enabled(states[i], steps[i]) && states[i + 1] == Next(states[i], steps[i])
  }

  lemma {:induction false} RunInv(states: seq<State>, steps: seq<Step>, i: nat)
    requires Run(states, steps) && i < |states|
    ensures Inv(states[i])
  {
    if i == 0 {
      InitialInv(states[0]);
    } else {
      hide Inv, Initial;
      RunInv(states, steps, i - 1);
      StepKeeps(states[i - 1], steps[i - 1]);
    }
  }

  /** Logs only grow, so what was destroyed once stays in the log. */
  lemma {:induction false} LogGrows(states: seq<State>, steps: seq<Step>, i: nat, j: nat)
    requires Run(states, steps) && i <= j < |states|
    ensures states[i].destroyed <= states[j].destroyed
    ensures states[i].wraps <= states[j].wraps
    ensures states[i].opens <= states[j].opens
    decreases j - i
  {
    if i < j {
      LogGrows(states, steps, i, j - 1);
      var step := steps[j - 1];
    }
  }

  /**
    In every interleaving no step touches freed memory, no session is destroyed
    twice, and a session is destroyed only while its destroyer is the only frame
    engaged with it. The two parts about runs follow from one invariant.
   */
  lemma DestroyedAtMostOnce(states: seq<State>, steps: seq<Step>, i: nat, j: nat)
    requires Run(states, steps) && i < j < |steps| && steps[i].Destroy? && steps[j].Destroy?
    ensures !states[|steps|].fault
    ensures states[i].frames[steps[i].frame].session != states[j].frames[steps[j].frame].session
    ensures !HeldByOther(states[i], steps[i].frame, states[i].frames[steps[i].frame].session)
    ensures forall k :: i < k < |states| ==> states[i].frames[steps[i].frame].session !in states[k].registry.heap
  {
    var x := states[i].frames[steps[i].frame].session;
    RunInv(states, steps, i);
    RunInv(states, steps, |steps|);
    forall k | i < k < |states|
      ensures x !in states[k].registry.heap
    {
      GoneForGood(states, steps, i, k);
    }
    RunInv(states, steps, j);
    assert FrameOk(states[j], states[j].frames[steps[j].frame]);
  }

  lemma GoneForGood(states: seq<State>, steps: seq<Step>, i: nat, k: nat)
    requires Run(states, steps) && i < |steps| && steps[i].Destroy? && i < k < |states|
    ensures states[i].frames[steps[i].frame].session !in states[k].registry.heap
  {
    var x := states[i].frames[steps[i].frame].session;
    assert x in states[i + 1].destroyed;
    LogGrows(states, steps, i + 1, k);
    RunInv(states, steps, k);
  }

  /** No step of any run touches a record that is already freed. */
  lemma NeverFaults(states: seq<State>, steps: seq<Step>, i: nat)
    requires Run(states, steps) && i < |states|
    ensures !states[i].fault
  {
    RunInv(states, steps, i);
  }

  /** A registry whose calls never finish an encoder loses nothing, however often its counter wraps. */
  lemma {:induction false} NothingLost(states: seq<State>, steps: seq<Step>, i: nat)
    requires Run(states, steps) && i < |states|
    requires forall k :: 0 <= k < i ==> !steps[k].AcquireToFinish?
    ensures states[i].leaked == {} && forall f :: f in states[i].frames ==> !states[i].frames[f].Finishing?
  {
    if i > 0 {
      NothingLost(states, steps, i - 1);
      hide Acquired, Removed, Dropped, Registered, Reserves, Lookup;
    }
  }

  /**
    A session that has left the table is the business of exactly one frame until it
    is freed: the one that still holds it, or the one that owes its destruction.
    Only an unlink in a finish call can break that.
   */
  lemma RemovedHasOneOwner(states: seq<State>, steps: seq<Step>, i: nat, x: nat)
    requires Run(states, steps) && i < |states| && x !in states[i].leaked
    requires x in states[i].registry.heap && states[i].registry.heap[x].released
    ensures exists f :: f in states[i].frames && states[i].frames[f].session == x
                        && (states[i].frames[f].Owing? <==> states[i].registry.heap[x].references == 0)
                        && forall g :: g in states[i].frames && states[i].frames[g].session == x ==> g == f
  {
    var s := states[i];
    RunInv(states, steps, i);
    assert RecordOk(s.registry, x);
    var f :| f in s.frames && s.frames[f].session == x;
    assert FrameOk(s, s.frames[f]);
  }

  /** The busy flag is the reference count, which never exceeds one. */
  lemma BusyFlag(states: seq<State>, steps: seq<Step>, i: nat, x: nat)
    requires Run(states, steps) && i < |states| && x in states[i].registry.heap
    ensures var fields := states[i].registry.heap[x];
      && 0 <= fields.references <= 1
      && (fields.inUse <==> fields.references == 1)
      && (fields.inUse <==> exists f :: f in states[i].frames && states[i].frames[f].session == x
                                        && !states[i].frames[f].Owing?)
  {
    var s := states[i];
    RunInv(states, steps, i);
    assert RecordOk(s.registry, x);
    if s.registry.heap[x].references == 1 {
      var f :| f in s.frames && s.frames[f].session == x;
      assert FrameOk(s, s.frames[f]);
      assert !s.frames[f].Owing?;
    }
    forall f | f in s.frames && s.frames[f].session == x && !s.frames[f].Owing?
      ensures s.registry.heap[x].references == 1
    {
      assert FrameOk(s, s.frames[f]);
    }
  }

  /** What library unload destroys: every session still in the table, once no call is running. */
  ghost function Unload(s: State): seq<nat> {
    s.destroyed + seq(|s.registry.entries|, i requires 0 <= i < |s.registry.entries| => s.registry.entries[i].session)
  }

  /** With no call in flight, unload completes the log: every session opened and not lost is destroyed exactly once. */
  lemma UnloadCompletes(states: seq<State>, steps: seq<Step>, i: nat)
    requires Run(states, steps) && i < |states| && states[i].frames == map[]
    ensures forall x: nat :: x < states[i].opens && x !in states[i].leaked <==> x in Unload(states[i])
    ensures forall a, b :: 0 <= a < b < |Unload(states[i])| ==> Unload(states[i])[a] != Unload(states[i])[b]
  {
    var s := states[i];
    RunInv(states, steps, i);
    var log, n := Unload(s), |s.destroyed|;
    forall k | n <= k < |log|
      ensures log[k] == s.registry.entries[k - n].session && log[k] in s.registry.heap && log[k] !in s.leaked
    {
      EntryIsOk(s.registry, k - n);
    }
    forall x: nat
      ensures x < s.opens && x !in s.leaked <==> x in log
    {
      if x in s.registry.heap && x !in s.leaked {
        assert RecordOk(s.registry, x);
        assert !Engaged(s, x);
        var k :| 0 <= k < |s.registry.entries| && s.registry.entries[k].session == x;
        assert log[n + k] == x;
      }
      if x in s.destroyed {
        var k :| 0 <= k < n && s.destroyed[k] == x;
        assert log[k] == x;
      }
    }
  }

  /** Before the counter wraps, a handle that was issued and no longer resolves never resolves again. */
  lemma {:induction false} StaleHandleStaysDead(states: seq<State>, steps: seq<Step>, i: nat, j: nat, handle: int)
    requires Run(states, steps) && i <= j < |states| && states[j].wraps == 0
    requires handle < states[i].registry.next && Lookup(states[i].registry, handle) == None
    ensures Lookup(states[j].registry, handle) == None
    ensures states[i].registry.next <= states[j].registry.next
    decreases j
  {
    hide Inv, Initial, Lookup, Next, Enabled;
    if i < j {
      LogGrows(states, steps, j - 1, j);
      StaleHandleStaysDead(states, steps, i, j - 1, handle);
      RunInv(states, steps, j - 1);
      DeadStep(states[j - 1], steps[j - 1], handle);
    }
  }

  lemma DeadStep(s: State, step: Step, handle: int)
    requires Inv(s) && Enabled(s, step) && Next(s, step).wraps == 0
    requires handle < s.registry.next && Lookup(s.registry, handle) == None
    ensures Lookup(Next(s, step).registry, handle) == None
    ensures s.registry.next <= Next(s, step).registry.next
  {
    hide FramesOk, RecordsOwned;
    match step
    case Open(h) =>
      RegisteredOk(s.registry, s.opens, h);
      forall i | 0 <= i < |s.registry.entries|
        ensures s.registry.entries[i].handle < s.registry.next
      {
        EntryIsOk(s.registry, i);
      }
      FreshCounterReservesItself(s.registry, h);
    case Acquire(_, h) => AcquiredOk(s.registry, h);
    case AcquireToFinish(_, h) => AcquiredOk(s.registry, h);
    case UnlinkOwn(f) => RemovedOk(s.registry, s.frames[f].handle);
    case Drop(f) =>
    case Remove(_, h) => RemovedOk(s.registry, h);
    case Destroy(f) =>
  }

  /**
    The finish call throws away what its unlink returns. That loses a session exactly
    when the handle has been reissued to another, idle session in the meantime.
   */
  lemma FinishLosesIff(s: State, f: nat)
    requires Inv(s) && Enabled(s, UnlinkOwn(f))
    ensures Next(s, UnlinkOwn(f)).leaked != s.leaked <==>
      exists y :: Lookup(s.registry, s.frames[f].handle) == Some(y) && y != s.frames[f].session
                  && s.registry.heap[y].references == 0
    ensures s.wraps == 0 ==> Next(s, UnlinkOwn(f)).leaked == {}
  {
    var handle := s.frames[f].handle;
    assert FrameOk(s, s.frames[f]);
    RemovedOk(s.registry, handle);
    UnlinkOwnKeeps(s, f);
    if Lookup(s.registry, handle).Some? {
      var y := Lookup(s.registry, handle).value;
      LiveResolves(s.registry, y, handle);
      assert y !in s.leaked;
      assert Removed(s.registry, handle).1.Some? ==> y in Next(s, UnlinkOwn(f)).leaked;
    }
  }

  // -------------------------------------------- what undisturbed calls do

  /** A call that takes an idle session and gives it back leaves no trace. */
  lemma AcquireThenDrop(s: State, frame: nat, handle: int, x: nat)
    requires Inv(s) && frame !in s.frames && handle > 0
    requires Lookup(s.registry, handle) == Some(x) && x in s.registry.heap && s.registry.heap[x].references == 0
    ensures Enabled(s, Acquire(frame, handle))
    ensures var taken := Next(s, Acquire(frame, handle));
      && taken.frames == s.frames[frame := Holding(x)]
      && Enabled(taken, Drop(frame)) && Next(taken, Drop(frame)) == s
  {
    var r := s.registry;
    NotDangling(s, handle);
    AcquiredOk(r, handle);
    assert RecordOk(r, x);
    hide Inv, WellFormed, Lookup, Find, Acquired;
    var taken := Next(s, Acquire(frame, handle));
    assert taken.registry.heap == r.heap[x := r.heap[x].(references := 1, inUse := true)];
    assert Dropped(taken.registry, x).0.heap == r.heap;
    assert taken.frames - {frame} == s.frames;
  }

  /**
    Removing an idle session and destroying it: its handle is dead, the log has it, everybody
    else's frames are as before.
   */
  lemma RemoveThenDestroy(s: State, frame: nat, handle: int, x: nat)
    requires Inv(s) && frame !in s.frames && handle > 0
    requires Lookup(s.registry, handle) == Some(x) && x in s.registry.heap && s.registry.heap[x].references == 0
    ensures Enabled(s, Remove(frame, handle))
    ensures var removed := Next(s, Remove(frame, handle));
      && removed.frames == s.frames[frame := Owing(x)]
      && Enabled(removed, Destroy(frame))
      && var gone := Next(removed, Destroy(frame));
      && gone.frames == s.frames && gone.destroyed == s.destroyed + [x]
      && x !in gone.registry.heap && Lookup(gone.registry, handle) == None && !gone.fault
  {
    hide Inv, Lookup, Next;
    RemovesIdle(s, frame, handle, x);
    StepKeeps(s, Remove(frame, handle));
    var removed := Next(s, Remove(frame, handle));
    DestroysOwed(removed, frame, handle, x);
    assert s.frames[frame := Owing(x)] - {frame} == s.frames;
  }

  lemma DestroysOwed(s: State, frame: nat, handle: int, x: nat)
    requires Inv(s) && frame in s.frames && s.frames[frame] == Owing(x) && Lookup(s.registry, handle) == None
    ensures Enabled(s, Destroy(frame))
    ensures var gone := Next(s, Destroy(frame));
      && gone.frames == s.frames - {frame} && gone.destroyed == s.destroyed + [x]
      && x !in gone.registry.heap && Lookup(gone.registry, handle) == None && !gone.fault
  {
    StepKeeps(s, Destroy(frame));
    NoFault(Next(s, Destroy(frame)));
    hide Inv, Lookup;
    LookupSame(s.registry, Destroyed(s.registry, x), handle);
  }

  lemma NoFault(s: State)
    requires Inv(s)
    ensures !s.fault
  {
  }

  lemma RemovesIdle(s: State, frame: nat, handle: int, x: nat)
    requires Inv(s) && frame !in s.frames && handle > 0
    requires Lookup(s.registry, handle) == Some(x) && x in s.registry.heap && s.registry.heap[x].references == 0
    ensures var removed := Next(s, Remove(frame, handle));
      && removed.frames == s.frames[frame := Owing(x)] && removed.destroyed == s.destroyed
      && Lookup(removed.registry, handle) == None
  {
    InvWellFormed(s);
    RemovedOk(s.registry, handle);
    hide Inv, WellFormed, Lookup, Find, Removed;
  }

  /**
    A finish call that finds its session idle takes it and unlinks the handle; the record is
    released and still its own.
   */
  lemma AcquireThenUnlink(s: State, frame: nat, handle: int, x: nat)
    requires Inv(s) && frame !in s.frames && handle > 0
    requires Lookup(s.registry, handle) == Some(x) && x in s.registry.heap && s.registry.heap[x].references == 0
    ensures Enabled(s, AcquireToFinish(frame, handle))
    ensures var taken := Next(s, AcquireToFinish(frame, handle));
      && taken.frames == s.frames[frame := Finishing(x, handle)]
      && Enabled(taken, UnlinkOwn(frame))
      && var unlinked := Next(taken, UnlinkOwn(frame));
      && Inv(unlinked) && unlinked.frames == s.frames[frame := Holding(x)] && ReleasedFrame(unlinked, frame)
      && unlinked.destroyed == s.destroyed && Lookup(unlinked.registry, handle) == None
  {
    hide Inv, Lookup, Next, ReleasedFrame;
    TakesToFinish(s, frame, handle, x);
    StepKeeps(s, AcquireToFinish(frame, handle));
    var taken := Next(s, AcquireToFinish(frame, handle));
    UnlinksOwn(taken, frame, handle, x);
    StepKeeps(taken, UnlinkOwn(frame));
    OwnFrameAfter(taken, UnlinkOwn(frame));
    assert taken.frames[frame := Holding(x)] == s.frames[frame := Holding(x)];
  }

  lemma TakesToFinish(s: State, frame: nat, handle: int, x: nat)
    requires Inv(s) && frame !in s.frames && handle > 0
    requires Lookup(s.registry, handle) == Some(x) && x in s.registry.heap && s.registry.heap[x].references == 0
    ensures var taken := Next(s, AcquireToFinish(frame, handle));
      && taken.frames == s.frames[frame := Finishing(x, handle)] && taken.destroyed == s.destroyed
  {
    InvWellFormed(s);
    AcquiredOk(s.registry, handle);
    assert RecordOk(s.registry, x);
    hide Inv, WellFormed, Lookup, Find, Acquired;
  }

  lemma UnlinksOwn(s: State, frame: nat, handle: int, x: nat)
    requires Inv(s) && frame in s.frames && s.frames[frame] == Finishing(x, handle)
    ensures var unlinked := Next(s, UnlinkOwn(frame));
      && unlinked.frames == s.frames[frame := Holding(x)] && unlinked.destroyed == s.destroyed
      && Lookup(unlinked.registry, handle) == None
  {
    InvWellFormed(s);
    RemovedOk(s.registry, handle);
    hide Inv, WellFormed, Lookup, Find, Removed;
  }

  /** Leaving a released session, its last holder destroys it. */
  lemma DropThenDestroy(s: State, frame: nat, handle: int, x: nat)
    requires Inv(s) && frame in s.frames && s.frames[frame] == Holding(x) && ReleasedFrame(s, frame)
    requires Lookup(s.registry, handle) == None
    ensures Enabled(s, Drop(frame))
    ensures var left := Next(s, Drop(frame));
      && left.frames == s.frames[frame := Owing(x)]
      && Enabled(left, Destroy(frame))
      && var gone := Next(left, Destroy(frame));
      && gone.frames == s.frames - {frame} && gone.destroyed == s.destroyed + [x]
      && Lookup(gone.registry, handle) == None && !gone.fault
  {
    hide Inv, Lookup, Next;
    LeavesReleased(s, frame, handle, x);
    StepKeeps(s, Drop(frame));
    var left := Next(s, Drop(frame));
    DestroysOwed(left, frame, handle, x);
    assert s.frames[frame := Owing(x)] - {frame} == s.frames - {frame};
  }

  lemma LeavesReleased(s: State, frame: nat, handle: int, x: nat)
    requires Inv(s) && frame in s.frames && s.frames[frame] == Holding(x) && ReleasedFrame(s, frame)
    ensures var left := Next(s, Drop(frame));
      && left.frames == s.frames[frame := Owing(x)] && left.destroyed == s.destroyed
      && Lookup(left.registry, handle) == Lookup(s.registry, handle)
  {
    assert FrameOk(s, s.frames[frame]);
    hide Inv, Lookup;
    LookupSame(s.registry, Next(s, Drop(frame)).registry, handle);
  }

  lemma LookupSame(r: Registry<nat>, r': Registry<nat>, handle: int)
    requires r'.entries == r.entries
    ensures Lookup(r', handle) == Lookup(r, handle)
  {
  }

  // ------------------------------------------------- a run past the wrap

  ghost predicate Reached(s: State) {
    exists states, steps :: Run(states, steps) && states[|steps|] == s
  }

  lemma ReachedStart(s: State)
    requires Initial(s)
    ensures Reached(s)
  {
    var states: seq<State>, steps: seq<Step> := [s], [];
    assert Run(states, steps) && states[|steps|] == s;
  }

  lemma ReachedStep(s: State, step: Step)
    requires Reached(s) && Enabled(s, step)
    ensures Reached(Next(s, step)) && Inv(s)
  {
    hide Inv, Initial, Next;
    var states, steps :| Run(states, steps) && states[|steps|] == s;
    RunInv(states, steps, |steps|);
    var longer, more := states + [Next(s, step)], steps + [step];
    assert Run(longer, more) && longer[|more|] == Next(s, step);
  }

  /** Session 0 has handle 1 and is inside its finish call; nothing else is alive. */
  ghost predicate Lingering(s: State, next: int) {
    && s.registry == Registry(next, [Entry(1, 0)], map[0 := Fields(1, 1, false, true, true)])
    && s.frames == map[0 := Finishing(0, 1)]
    && s.opens >= 1 && s.leaked == {}
  }

  lemma FirstOpened() returns (s: State)
    ensures Reached(s)
    ensures s == State(Registry(2, [Entry(1, 0)], map[0 := Fields(1, 0, false, false, true)]), map[], 1, [], 0, {}, false)
  {
    s := State(Registry(1, [], map[]), map[], 0, [], 0, {}, false);
    ReachedStart(s);
    hide Inv, Reached;
    assert FirstFree(s.registry.entries, 1, 1, 0) by { assert Probe(1, 0) == 1; }
    ReachedStep(s, Open(1));
    s := Next(s, Open(1));
    assert s.registry.entries == [Entry(1, 0)];
  }

  lemma Linger() returns (s: State)
    ensures Reached(s) && Lingering(s, 2)
  {
    hide Inv, Reached, Reserves, WellFormed;
    s := FirstOpened();
    assert Find(s.registry.entries, 1) == 0;
    assert Lookup(s.registry, 1) == Some(0);
    ReachedStep(s, AcquireToFinish(0, 1));
    s := Next(s, AcquireToFinish(0, 1));
  }

  /** Another session is opened, released and destroyed meanwhile: the counter has moved on. */
  lemma Churn(s: State, next: int) returns (t: State)
    requires 2 <= next <= LONG_MAX && Reached(s) && Lingering(s, next)
    ensures Reached(t) && Lingering(t, Successor(next))
  {
    hide Inv, Reached;
    var x := s.opens;
    assert FirstFree(s.registry.entries, next, next, 0) by { assert Probe(next, 0) == next; }
    ReachedStep(s, Open(next));
    t := Next(s, Open(next));
    assert Find(t.registry.entries, next) == 0;
    ReachedStep(t, Remove(1, next));
    t := Next(t, Remove(1, next));
    assert t.registry.entries == [Entry(1, 0)];
    assert t.frames == map[0 := Finishing(0, 1), 1 := Owing(x)];
    ReachedStep(t, Destroy(1));
    t := Next(t, Destroy(1));
    assert t.frames == map[0 := Finishing(0, 1)];
    assert t.registry.heap == map[0 := Fields(1, 1, false, true, true)];
  }

  lemma {:induction false} ChurnOn(s: State, next: int) returns (t: State)
    requires 2 <= next <= LONG_MAX && Reached(s) && Lingering(s, next)
    ensures Reached(t) && Lingering(t, 1)
    decreases LONG_MAX - next
  {
    hide Reached, Lingering;
    t := Churn(s, next);
    if next < LONG_MAX {
      t := ChurnOn(t, next + 1);
    }
  }

  /** A finish call that outlives a whole round of the handle counter does lose a session. */
  lemma FinishCanLoseAfterWrap()
    ensures exists states: seq<State>, steps: seq<Step> :: Run(states, steps) && states[|steps|].leaked != {}
  {
    var s := LoseAfterWrap();
    var states, steps :| Run(states, steps) && states[|steps|] == s;
  }

  lemma LoseAfterWrap() returns (s: State)
    ensures Reached(s) && s.leaked != {}
  {
    hide Inv, Reached;
    s := Linger();
    s := ChurnOn(s, 2);
    var x := s.opens;
    assert Find(s.registry.entries, 1) == 0;
    ReachedStep(s, Remove(1, 1));
    s := Next(s, Remove(1, 1));
    assert s.registry.entries == [] && s.registry.next == 1 && s.opens == x && s.frames == map[0 := Finishing(0, 1)];
    assert FirstFree(s.registry.entries, 1, 1, 0) by { assert Probe(1, 0) == 1; }
    ReachedStep(s, Open(1));
    s := Next(s, Open(1));
    assert s.registry.entries == [Entry(1, x)] && Find(s.registry.entries, 1) == 0;
    ReachedStep(s, UnlinkOwn(0));
    s := Next(s, UnlinkOwn(0));
    assert x in s.leaked;
  }
}
