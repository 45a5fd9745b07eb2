/** The atomic cell that holds the ownership token of one native handle. */
module HandleCleanup {
  class NativeHandleCleanup {
    /** The handle while its token is here, zero while somebody else has it. */
    var handle: int

    constructor (initialHandle: int)
      ensures handle == initialHandle
    {
      handle := initialHandle;
    }

    method ClaimHandle() returns (claimed: int)
      modifies this
      ensures claimed == old(handle) && handle == 0
    {
      claimed := handle;
      handle := 0;
    }

    method RestoreHandle(claimed: int) returns (restored: bool)
      modifies this
      ensures restored <==> claimed != 0 && old(handle) == 0
      ensures handle == if restored then claimed else old(handle)
    {
      if claimed == 0 {
        return false;
      }
      restored := handle == 0;
      if restored {
        handle := claimed;
      }
    }
  }
}

/**
  The reusable decoding session of the JVM side: what each of its synchronized
  sections does to the session's own state, and the object that does it.
 */
module DecodingSession {
  import opened Wrappers
  import opened HandleCleanup

  datatype Phase = Active | Decoding | Closed | Failed

  /** `cell` is the value of the cleanup object's handle cell. */
  datatype Session = Session(phase: Phase, closeRequested: bool, cell: int)

  function Claimed(s: Session): (Session, int) {
    (s.(cell := 0), s.cell)
  }

  /** None when the call must be refused; otherwise the handle to decode with. */
  function DecodeBegun(s: Session): (Session, Option<int>) {
    if s.phase != Active || s.cell == 0 then (s, None) else (s.(phase := Decoding), Some(s.cell))
  }

  /** After a successful decode: the handle to release now, or zero. */
  function DecodeFinished(s: Session): (Session, int) {
    if s.phase != Decoding then (s, 0)
    else if s.closeRequested then Claimed(s.(closeRequested := false, phase := Closed))
    else (s.(phase := Active), 0)
  }

  /** After a failed decode: the handle to release now, or zero. */
  function DecodeFailed(s: Session): (Session, int) {
    if s.phase == Closed || s.phase == Failed || s.cell == 0 then (s.(closeRequested := false), 0)
    else Claimed(s.(closeRequested := false, phase := Failed))
  }

  function CloseBegun(s: Session): (Session, int) {
    match s.phase
    case Active => Claimed(s.(phase := Closed))
    case Decoding => (s.(closeRequested := true), 0)
    case _ => Claimed(s)
  }

  /** Compare-and-set of a token that could not be released. */
  function Restored(s: Session, token: int): Session {
    if token != 0 && s.cell == 0 then s.(cell := token) else s
  }

  class NativeFlacDecodingSession {
    var phase: Phase
    var closeRequested: bool
    const cleanup: NativeHandleCleanup

    constructor (initialHandle: int)
      ensures View() == Session(Active, false, initialHandle) && fresh(cleanup)
    {
      phase, closeRequested := Active, false;
      cleanup := new NativeHandleCleanup(initialHandle);
    }

    ghost function View(): Session
      reads this, cleanup
    {
      Session(phase, closeRequested, cleanup.handle)
    }

    method BeginDecode() returns (handle: Option<int>)
      modifies this
      ensures handle == if old(phase) == Active && cleanup.handle != 0 then Some(cleanup.handle) else None
      ensures (View(), handle) == DecodeBegun(old(View()))
    {
      var currentHandle := cleanup.handle;
      if phase != Active || currentHandle == 0 {
        return None;
      }
      phase := Decoding;
      handle := Some(currentHandle);
    }

    method FinishDecode() returns (toRelease: int)
      modifies this, cleanup
      ensures old(phase) == Decoding ==>
        if old(closeRequested) then phase == Closed && !closeRequested && toRelease == old(cleanup.handle) && cleanup.handle == 0
        else phase == Active && toRelease == 0 && cleanup.handle == old(cleanup.handle)
      ensures (View(), toRelease) == DecodeFinished(old(View()))
    {
      if phase != Decoding {
        toRelease := 0;
      } else if closeRequested {
        closeRequested, phase := false, Closed;
        toRelease := cleanup.ClaimHandle();
      } else {
        phase := Active;
        toRelease := 0;
      }
    }

    method ReleaseAfterFailure() returns (toRelease: int)
      modifies this, cleanup
      ensures old(phase) == Decoding && old(cleanup.handle) != 0 ==>
        phase == Failed && !closeRequested && toRelease == old(cleanup.handle) && cleanup.handle == 0
      ensures (View(), toRelease) == DecodeFailed(old(View()))
    {
      if phase == Closed || phase == Failed || cleanup.handle == 0 {
        closeRequested := false;
        toRelease := 0;
      } else {
        closeRequested, phase := false, Failed;
        toRelease := cleanup.ClaimHandle();
      }
    }

    method Close() returns (toRelease: int)
      modifies this, cleanup
      ensures old(phase) == Decoding ==> toRelease == 0 && closeRequested && cleanup.handle == old(cleanup.handle)
      ensures old(phase) != Decoding ==> toRelease == old(cleanup.handle) && cleanup.handle == 0
      ensures (View(), toRelease) == CloseBegun(old(View()))
    {
      match phase
      case Active =>
        phase := Closed;
        toRelease := cleanup.ClaimHandle();
      case Decoding =>
        closeRequested := true;
        toRelease := 0;
      case _ =>
        toRelease := cleanup.ClaimHandle();
    }

    /** The release call's exception path: hand the token back for a later attempt. */
    method ReleaseFailed(token: int)
      modifies cleanup
      ensures View() == Restored(old(View()), token)
    {
      var restored := cleanup.RestoreHandle(token);
    }
  }
}

/**
  One decoding session and everything that can happen to it: decode and close
  calls on any threads, the cleaner, and all other users of the native registry.
 */
module DecodingProtocol {
  import opened Wrappers
  import opened HandleRegistry
  import Native = HandleProtocol
  import opened DecodingSession

  /**
    Where a JVM call stands. A decode call enters the native decoder, leaves it and
    then runs its finally block; `Releasing` calls have the token in hand.
   */
  datatype Call =
    | Begun
    | InNative
    | NativeOwing(ok: bool)
    | Returned(ok: bool)
    | Releasing(token: int, cleaner: bool)
    | Destroying(cleaner: bool)
    | ReleaseThrew(token: int)
    | ReleaseDone

  /** `lost` records that the cleaner's own release threw, which it has to swallow. */
  datatype State = State(
    native: Native.State,
    handle: int,
    session: nat,
    jvm: Session,
    calls: map<nat, Call>,
    cleanerArmed: bool,
    unreachable: bool,
    released: bool,
    lost: bool)

  datatype Step =
    | Foreign(step: Native.Step)
    | BeginDecode(call: nat)
    | HandlerThrows(call: nat)
    | EnterNative(call: nat)
    | LeaveNative(call: nat, ok: bool)
    | DestroyInDecode(call: nat)
    | EndDecode(call: nat)
    | Close(call: nat)
    | Release(call: nat)
    | ReleaseFails(call: nat)
    | DestroyReleased(call: nat)
    | Restore(call: nat)
    | CleanNow(call: nat)
    | OwnerUnreachable
    | CleanerRuns(call: nat)

  /** Other users of the registry act through their own frames and their own handles. */
  ghost predicate ForeignOk(s: State, step: Native.Step) {
    match step
    case Open(_) => true
    case Acquire(f, h) => f !in s.calls && (s.released || h != s.handle)
    case Drop(f) => f !in s.calls
    case Remove(f, h) => f !in s.calls && (s.released || h != s.handle)
    case Destroy(f) => f !in s.calls
    case AcquireToFinish(_, _) => false
    case UnlinkOwn(_) => false
  }

  ghost predicate NewCall(s: State, c: nat) {
    c !in s.calls && c !in s.native.frames
  }

  ghost predicate At(s: State, c: nat, call: Call) {
    c in s.calls && s.calls[c] == call
  }

  ghost predicate Enabled(s: State, step: Step) {
    match step
    case Foreign(n) => Native.Enabled(s.native, n) && ForeignOk(s, n)
    case BeginDecode(c) => NewCall(s, c) && !s.unreachable
    case HandlerThrows(c) => At(s, c, Begun)
    case EnterNative(c) => At(s, c, Begun) && Native.Enabled(s.native, Native.Acquire(c, s.handle))
    case LeaveNative(c, ok) => At(s, c, InNative) && Native.Enabled(s.native, Native.Drop(c))
    case DestroyInDecode(c) => c in s.calls && s.calls[c].NativeOwing? && Native.Enabled(s.native, Native.Destroy(c))
    case EndDecode(c) => c in s.calls && s.calls[c].Returned?
    case Close(c) => NewCall(s, c) && !s.unreachable
    case Release(c) => c in s.calls && s.calls[c].Releasing? && Native.Enabled(s.native, Native.Remove(c, s.calls[c].token))
    case ReleaseFails(c) => c in s.calls && s.calls[c].Releasing?
    case DestroyReleased(c) => c in s.calls && s.calls[c].Destroying? && Native.Enabled(s.native, Native.Destroy(c))
    case Restore(c) => c in s.calls && s.calls[c].ReleaseThrew?
    case CleanNow(c) => At(s, c, ReleaseDone)
    // Every call keeps the session reachable until it returns.
    case OwnerUnreachable => s.calls == map[]
    case CleanerRuns(c) => NewCall(s, c) && s.unreachable && s.cleanerArmed
  }

  /** The call goes on with the token it claimed, or is over when it claimed nothing. */
  function WithToken(s: State, c: nat, jvm: Session, token: int, cleaner: bool): State {
    s.(jvm := jvm, calls := if token != 0 then s.calls[c := Releasing(token, cleaner)] else s.calls - {c})
  }

  ghost function Next(s: State, step: Step): State
    requires Enabled(s, step)
  {
    match step
    case Foreign(n) => s.(native := Native.Next(s.native, n))
    case BeginDecode(c) =>
      var (jvm, got) := DecodeBegun(s.jvm);
      if got.None? then s else s.(jvm := jvm, calls := s.calls[c := Begun])
    case HandlerThrows(c) => s.(calls := s.calls[c := Returned(false)])
    case EnterNative(c) =>
      var native := Native.Next(s.native, Native.Acquire(c, s.handle));
      s.(native := native, calls := s.calls[c := if c in native.frames then InNative else Returned(false)])
    case LeaveNative(c, ok) =>
      var native := Native.Next(s.native, Native.Drop(c));
      s.(native := native, calls := s.calls[c := if c in native.frames then NativeOwing(ok) else Returned(ok)])
    case DestroyInDecode(c) =>
      s.(native := Native.Next(s.native, Native.Destroy(c)), calls := s.calls[c := Returned(s.calls[c].ok)])
    case EndDecode(c) =>
      var (jvm, token) := if s.calls[c].ok then DecodeFinished(s.jvm) else DecodeFailed(s.jvm);
      WithToken(s, c, jvm, token, false)
    case Close(c) =>
      var (jvm, token) := CloseBegun(s.jvm);
      WithToken(s, c, jvm, token, false)
    case Release(c) =>
      var cleaner := s.calls[c].cleaner;
      var native := Native.Next(s.native, Native.Remove(c, s.calls[c].token));
      s.(native := native, released := true,
         calls := if c in native.frames then s.calls[c := Destroying(cleaner)] else AfterRelease(s.calls, c, cleaner))
    case ReleaseFails(c) =>
      if s.calls[c].cleaner then s.(calls := s.calls - {c}, lost := true)
      else s.(calls := s.calls[c := ReleaseThrew(s.calls[c].token)])
    case DestroyReleased(c) =>
      s.(native := Native.Next(s.native, Native.Destroy(c)), calls := AfterRelease(s.calls, c, s.calls[c].cleaner))
    case Restore(c) => s.(jvm := Restored(s.jvm, s.calls[c].token), calls := s.calls - {c})
    case CleanNow(c) =>
      // Cleanable.clean() runs the action unless it ran before.
      var (jvm, token) := Claimed(s.jvm);
      if !s.cleanerArmed then s.(calls := s.calls - {c})
      else WithToken(s.(cleanerArmed := false), c, jvm, token, true)
    case OwnerUnreachable => s.(unreachable := true)
    case CleanerRuns(c) =>
      var (jvm, token) := Claimed(s.jvm);
      WithToken(s.(cleanerArmed := false), c, jvm, token, true)
  }

  function AfterRelease(calls: map<nat, Call>, c: nat, cleaner: bool): map<nat, Call> {
    if cleaner then calls - {c} else calls[c := ReleaseDone]
  }

  /** A session just opened over a registry that is in use elsewhere. */
  ghost predicate Initial(s: State) {
    && Native.Inv(s.native) && NoFinish(s.native)
    && s.handle > 0 && Lookup(s.native.registry, s.handle) == Some(s.session)
    && s.session in s.native.registry.heap && s.native.registry.heap[s.session].references == 0
    && s.jvm == Session(Active, false, s.handle)
    && s.calls == map[] && s.cleanerArmed && !s.unreachable && !s.released && !s.lost
  }

  /** The decoder registry has no calls of the encoder's finish kind. */
  ghost predicate NoFinish(n: Native.State) {
    forall f :: f in n.frames ==> !n.frames[f].Finishing?
  }

  // ------------------------------------------------------------------ invariant

  predicate IsDecode(call: Call) {
    call.Begun? || call.InNative? || call.NativeOwing? || call.Returned?
  }

  predicate HasToken(call: Call) {
    call.Releasing? || call.ReleaseThrew?
  }

  ghost predicate SomeDecode(s: State) {
    exists c :: c in s.calls && IsDecode(s.calls[c])
  }

  ghost predicate SomeToken(s: State) {
    exists c :: c in s.calls && HasToken(s.calls[c])
  }

  /** The token is in the cell, in one call's hands, spent on a release, or lost; never in two places. */
  ghost predicate TokenOk(s: State) {
    && s.handle > 0 && (s.jvm.cell == 0 || s.jvm.cell == s.handle)
    && (s.jvm.cell != 0 ==> !SomeToken(s) && !s.released && !s.lost)
    && (SomeToken(s) ==> !s.released && !s.lost)
    && !(s.released && s.lost)
    && (s.jvm.cell == 0 && !SomeToken(s) ==> s.released || s.lost)
    && (forall c :: c in s.calls && HasToken(s.calls[c]) ==> s.calls[c].token == s.handle)
    && (forall c :: c in s.calls && s.calls[c] == ReleaseDone ==> s.released)
    && (forall c, d :: c in s.calls && d in s.calls && HasToken(s.calls[c]) && HasToken(s.calls[d]) ==> c == d)
  }

  ghost predicate PhaseOk(s: State) {
    && (s.jvm.phase == Decoding <==> SomeDecode(s))
    && (forall c, d :: c in s.calls && d in s.calls && IsDecode(s.calls[c]) && IsDecode(s.calls[d]) ==> c == d)
    && (s.jvm.phase == Decoding ==> s.jvm.cell == s.handle)
    && (s.jvm.phase == Active && !s.unreachable ==> s.jvm.cell == s.handle)
    && (s.jvm.closeRequested ==> s.jvm.phase == Decoding)
    && (s.unreachable ==> forall c :: c in s.calls ==>
          s.calls[c] == Destroying(true) || s.calls[c] == Releasing(s.handle, true))
    && (forall c :: c in s.calls ==> !s.calls[c].NativeOwing?)
  }

  /** What a call's own native frame is, while the call lives. */
  ghost predicate FrameMatches(s: State, c: nat)
    requires c in s.calls
  {
    match s.calls[c]
    case InNative => c in s.native.frames && s.native.frames[c] == Native.Holding(s.session)
    case Destroying(_) => c in s.native.frames && s.native.frames[c] == Native.Owing(s.session)
    case _ => c !in s.native.frames
  }

  ghost predicate NativeOk(s: State) {
    && s.session < s.native.opens
    && (forall c :: c in s.calls ==> FrameMatches(s, c))
    && (forall f :: f in s.native.frames && s.native.frames[f].session == s.session ==> f in s.calls)
    && (!s.released ==> Lookup(s.native.registry, s.handle) == Some(s.session))
    && (s.released && s.session in s.native.registry.heap ==> s.native.registry.heap[s.session].released)
    && (s.released ==> s.session in s.native.destroyed || exists c :: c in s.calls && s.calls[c].Destroying?)
    && (forall c :: c in s.calls && s.calls[c].Destroying? ==> s.released)
  }

  ghost predicate Inv(s: State) {
    Native.Inv(s.native) && NoFinish(s.native) && TokenOk(s) && PhaseOk(s) && NativeOk(s)
  }

  // -------------------------------------------------- what native calls meet

  /** While the token is unspent the record is registered; with no call inside native code it is idle. */
  lemma RegisteredAndIdle(s: State)
    requires Inv(s) && !s.released
    ensures s.session in s.native.registry.heap && !s.native.registry.heap[s.session].released
    ensures s.native.registry.heap[s.session].handle == s.handle
    ensures (forall c :: c in s.calls ==> !s.calls[c].InNative?) ==>
      s.native.registry.heap[s.session].references == 0 && !Native.Engaged(s.native, s.session)
  {
    hide TokenOk, PhaseOk;
    var r := s.native.registry;
    var i := Find(r.entries, s.handle);
    EntryIsOk(r, i);
    assert RecordOk(r, s.session);
    if forall c :: c in s.calls ==> !s.calls[c].InNative? {
      forall f | f in s.native.frames
        ensures s.native.frames[f].session != s.session
      {
      }
    }
  }

  /**
    A decode call that has begun always finds its handle registered and idle, so
    the native decoder is entered.
   */
  lemma DecodeEntersNative(s: State, c: nat)
    requires Inv(s) && Enabled(s, EnterNative(c))
    ensures var got := Acquired(s.native.registry, s.handle).1;
      got == Some(s.session) && Next(s, EnterNative(c)).calls == s.calls[c := InNative]
    ensures Next(s, EnterNative(c)).native.frames == s.native.frames[c := Native.Holding(s.session)]
  {
    DecodeHoldsCell(s, c);
    assert forall d :: d in s.calls ==> !s.calls[d].InNative?;
    RegisteredAndIdle(s);
    AcquiredOk(s.native.registry, s.handle);
    assert RecordOk(s.native.registry, s.session);
  }

  lemma DecodeHoldsCell(s: State, c: nat)
    requires Inv(s) && c in s.calls && IsDecode(s.calls[c])
    ensures s.jvm.phase == Decoding && s.jvm.cell == s.handle && !s.released && !s.lost && !s.unreachable
    ensures forall d :: d in s.calls && IsDecode(s.calls[d]) ==> d == c
  {
    hide Native.Inv, NativeOk;
    assert SomeDecode(s);
  }

  /** Leaving the native decoder never leaves the session's destruction to the decode call. */
  lemma DecodeLeavesNative(s: State, c: nat, ok: bool)
    requires Inv(s) && Enabled(s, LeaveNative(c, ok))
    ensures Next(s, LeaveNative(c, ok)).calls == s.calls[c := Returned(ok)]
    ensures Next(s, LeaveNative(c, ok)).native.frames == s.native.frames - {c}
    ensures Next(s, LeaveNative(c, ok)).native.registry.entries == s.native.registry.entries
  {
    DecodeHoldsCell(s, c);
    RegisteredAndIdle(s);
    assert FrameMatches(s, c);
    DroppedOk(s.native.registry, s.session);
  }

  /** A release unlinks the record and becomes its only destroyer. */
  lemma ReleaseUnlinks(s: State, c: nat)
    requires Inv(s) && Enabled(s, Release(c))
    ensures s.calls[c].token == s.handle && !s.released
    ensures var s' := Next(s, Release(c));
      && s'.calls == s.calls[c := Destroying(s.calls[c].cleaner)]
      && s'.native.frames == s.native.frames[c := Native.Owing(s.session)]
      && s.session in s'.native.registry.heap && s'.native.registry.heap[s.session].released
  {
    ReleaseHasToken(s, c);
    RegisteredAndIdle(s);
    Native.InvWellFormed(s.native);
    assert Lookup(s.native.registry, s.handle) == Some(s.session) && s.handle > 0;
    hide Native.Inv, WellFormed, TokenOk, PhaseOk, NativeOk, Lookup, Find, Removed;
    RemovedOk(s.native.registry, s.handle);
  }

  /** The token in a releasing call's hand is the session's own, unspent, and no decode is under way. */
  lemma ReleaseHasToken(s: State, c: nat)
    requires Inv(s) && c in s.calls && s.calls[c].Releasing?
    ensures s.calls[c].token == s.handle && !s.released
    ensures forall d :: d in s.calls ==> !IsDecode(s.calls[d])
  {
    hide Native.Inv, NativeOk, NoFinish;
    assert SomeToken(s) by { assert HasToken(s.calls[c]); }
    assert !SomeDecode(s);
  }

  // --------------------------------------------------------- steps keep it

  /** The synchronized sections of decode and close. */
  predicate Synchronized(step: Step) {
    step.BeginDecode? || step.HandlerThrows? || step.EndDecode? || step.Close?
  }

  /** What happens to the token outside the lock, without entering native code. */
  predicate TokenMove(step: Step) {
    step.ReleaseFails? || step.Restore? || step.CleanNow? || step.CleanerRuns?
  }

  predicate OutsideNative(call: Call) {
    !call.InNative? && !call.Destroying?
  }

  /** A call that has no native frame before or after cannot disturb the native side. */
  lemma QuietKeepsNative(s: State, s': State, c: nat)
    requires NativeOk(s) && c !in s.native.frames
    requires s'.native == s.native && s'.handle == s.handle && s'.session == s.session && s'.released == s.released
    requires forall d :: d != c ==> (d in s.calls <==> d in s'.calls) && (d in s.calls ==> s.calls[d] == s'.calls[d])
    requires c in s.calls ==> OutsideNative(s.calls[c])
    requires c in s'.calls ==> OutsideNative(s'.calls[c])
    ensures NativeOk(s')
  {
    forall d | d in s'.calls
      ensures FrameMatches(s', d)
    {
      if d in s.calls { assert FrameMatches(s, d); }
    }
    if s.released && s.session !in s.native.destroyed {
      var d :| d in s.calls && s.calls[d].Destroying?;
      assert d in s'.calls && s'.calls[d].Destroying?;
    }
  }

  lemma QuietCall(s: State, c: nat)
    requires NativeOk(s) && c in s.calls && OutsideNative(s.calls[c])
    ensures c !in s.native.frames
  {
    assert FrameMatches(s, c);
  }

  lemma JvmKeepsNative(s: State, step: Step)
    requires Inv(s) && Enabled(s, step) && (Synchronized(step) || TokenMove(step))
    ensures Next(s, step).native == s.native && NativeOk(Next(s, step))
  {
    hide Native.Inv, TokenOk, PhaseOk, NativeOk, NoFinish, Lookup;
    if Synchronized(step) {
      SynchronizedKeepsNative(s, step);
    } else {
      TokenMoveKeepsNative(s, step);
    }
  }

  lemma SynchronizedKeepsNative(s: State, step: Step)
    requires NativeOk(s) && Enabled(s, step) && Synchronized(step)
    ensures Next(s, step).native == s.native && NativeOk(Next(s, step))
  {
    hide NativeOk, Lookup;
    if step.call in s.calls { QuietCall(s, step.call); }
    QuietKeepsNative(s, Next(s, step), step.call);
  }

  lemma TokenMoveKeepsNative(s: State, step: Step)
    requires NativeOk(s) && Enabled(s, step) && TokenMove(step)
    ensures Next(s, step).native == s.native && NativeOk(Next(s, step))
  {
    hide NativeOk, Lookup;
    if step.call in s.calls { QuietCall(s, step.call); }
    QuietKeepsNative(s, Next(s, step), step.call);
  }

  /** Somebody but c holds the token; somebody but c is decoding. */
  ghost predicate TokenElsewhere(s: State, c: nat) {
    exists d :: d in s.calls && d != c && HasToken(s.calls[d])
  }

  ghost predicate DecodeElsewhere(s: State, c: nat) {
    exists d :: d in s.calls && d != c && IsDecode(s.calls[d])
  }

  lemma OneCall(s: State, c: nat)
    ensures SomeToken(s) <==> TokenElsewhere(s, c) || (c in s.calls && HasToken(s.calls[c]))
    ensures SomeDecode(s) <==> DecodeElsewhere(s, c) || (c in s.calls && IsDecode(s.calls[c]))
  {
  }

  /** Only call c changed. */
  lemma OthersStay(s: State, s': State, c: nat)
    requires forall d :: d != c ==> (d in s.calls <==> d in s'.calls) && (d in s.calls ==> s.calls[d] == s'.calls[d])
    ensures TokenElsewhere(s, c) <==> TokenElsewhere(s', c)
    ensures DecodeElsewhere(s, c) <==> DecodeElsewhere(s', c)
    ensures SomeToken(s) <==> TokenElsewhere(s, c) || (c in s.calls && HasToken(s.calls[c]))
    ensures SomeDecode(s) <==> DecodeElsewhere(s, c) || (c in s.calls && IsDecode(s.calls[c]))
    ensures SomeToken(s') <==> TokenElsewhere(s', c) || (c in s'.calls && HasToken(s'.calls[c]))
    ensures SomeDecode(s') <==> DecodeElsewhere(s', c) || (c in s'.calls && IsDecode(s'.calls[c]))
  {
    OneCall(s, c);
    OneCall(s', c);
    if DecodeElsewhere(s', c) {
      var d :| d in s'.calls && d != c && IsDecode(s'.calls[d]);
      assert d in s.calls;
    }
    if DecodeElsewhere(s, c) {
      var d :| d in s.calls && d != c && IsDecode(s.calls[d]);
      assert d in s'.calls;
    }
    if TokenElsewhere(s', c) {
      var d :| d in s'.calls && d != c && HasToken(s'.calls[d]);
      assert d in s.calls;
    }
    if TokenElsewhere(s, c) {
      var d :| d in s.calls && d != c && HasToken(s.calls[d]);
      assert d in s'.calls;
    }
  }

  lemma SynchronizedKeepsToken(s: State, step: Step)
    requires Inv(s) && Enabled(s, step) && Synchronized(step)
    ensures TokenOk(Next(s, step))
  {
    hide Native.Inv, Native.Next, Native.Enabled, NativeOk, NoFinish, SomeDecode, SomeToken, ForeignOk;
    var s' := Next(s, step);
    OthersStay(s, s', step.call);
  }

  lemma SynchronizedKeepsPhase(s: State, step: Step)
    requires Inv(s) && Enabled(s, step) && Synchronized(step)
    ensures PhaseOk(Next(s, step))
  {
    hide Native.Inv, Native.Next, Native.Enabled, NativeOk, NoFinish, SomeDecode, SomeToken, ForeignOk;
    var s' := Next(s, step);
    OthersStay(s, s', step.call);
  }

  lemma TokenMoveKeepsToken(s: State, step: Step)
    requires Inv(s) && Enabled(s, step) && TokenMove(step)
    ensures TokenOk(Next(s, step))
  {
    hide Native.Inv, Native.Next, Native.Enabled, NativeOk, NoFinish, SomeDecode, SomeToken, ForeignOk;
    var s' := Next(s, step);
    OthersStay(s, s', step.call);
  }

  lemma TokenMoveKeepsPhase(s: State, step: Step)
    requires Inv(s) && Enabled(s, step) && TokenMove(step)
    ensures PhaseOk(Next(s, step))
  {
    hide Native.Inv, Native.Next, Native.Enabled, NativeOk, NoFinish, SomeDecode, SomeToken, ForeignOk;
    var s' := Next(s, step);
    OthersStay(s, s', step.call);
  }

  lemma UnreachableKeeps(s: State)
    requires Inv(s) && Enabled(s, OwnerUnreachable)
    ensures Inv(Next(s, OwnerUnreachable))
  {
    hide Native.Inv, NoFinish;
    var s' := Next(s, OwnerUnreachable);
    OneCall(s, 0);
    OneCall(s', 0);
  }

  // ---------------------------------------------------- steps of native code

  /** The native side after a step that leaves our record and our frames alone. */
  lemma NativeMovedOn(s: State, s': State)
    requires NativeOk(s) && Native.Inv(s.native) && Native.Inv(s'.native)
    requires s' == s.(native := s'.native) && s.native.opens <= s'.native.opens
    requires forall c :: c in s.calls ==>
      (c in s.native.frames <==> c in s'.native.frames) && (c in s.native.frames ==> s.native.frames[c] == s'.native.frames[c])
    requires forall f :: f in s'.native.frames && s'.native.frames[f].session == s.session ==>
      f in s.native.frames && s.native.frames[f].session == s.session
    requires s.session in s'.native.registry.heap <==> s.session in s.native.registry.heap
    requires s.session in s.native.registry.heap ==>
      s'.native.registry.heap[s.session] == s.native.registry.heap[s.session]
    requires s.session in s.native.destroyed ==> s.session in s'.native.destroyed
    ensures NativeOk(s')
  {
    forall c | c in s'.calls
      ensures FrameMatches(s', c)
    {
      assert FrameMatches(s, c);
    }
    Native.InvWellFormed(s.native);
    Native.InvWellFormed(s'.native);
    hide Native.Inv;
    if !s.released {
      var i := Find(s.native.registry.entries, s.handle);
      EntryIsOk(s.native.registry, i);
      LiveResolves(s.native.registry, s.session, s.handle);
      LiveResolves(s'.native.registry, s.session, s.handle);
    }
  }

  /** Nothing another user of the registry may do concerns our session. */
  lemma ForeignElsewhere(s: State, n: Native.Step)
    requires Inv(s) && Native.Enabled(s.native, n) && ForeignOk(s, n)
    ensures !Native.Touches(s.native, n, s.session)
  {
    hide TokenOk, PhaseOk, NoFinish;
    var r := s.native.registry;
    if n.Acquire? || n.Remove? {
      var i := Find(r.entries, n.handle);
      if i < |r.entries| {
        EntryIsOk(r, i);
        if !s.released { assert n.handle != s.handle; LiveResolves(r, s.session, s.handle); LiveResolves(r, s.session, n.handle); }
      }
    }
  }

  /** A foreign step changes no frame of ours and starts no finish call. */
  lemma ForeignFrames(s: State, n: Native.Step)
    requires NoFinish(s.native) && Native.Enabled(s.native, n) && ForeignOk(s, n)
    ensures var native := Native.Next(s.native, n);
      && NoFinish(native) && s.native.opens <= native.opens
      && forall c :: c in s.calls ==>
        (c in s.native.frames <==> c in native.frames) && (c in s.native.frames ==> s.native.frames[c] == native.frames[c])
  {
    hide Acquired, Removed, Dropped, Registered, Reserves, Lookup;
  }

  lemma ForeignKeeps(s: State, n: Native.Step)
    requires Inv(s) && Native.Enabled(s.native, n) && ForeignOk(s, n)
    ensures Inv(Next(s, Foreign(n)))
  {
    ForeignElsewhere(s, n);
    var s' := Next(s, Foreign(n));
    Native.StepKeeps(s.native, n);
    ForeignFrames(s, n);
    assert s.session < s.native.opens;
    Native.Untouched(s.native, n, s.session);
    SameJvm(s, s');
    hide Native.Inv, Native.Next, Native.Touches, NativeOk, TokenOk, PhaseOk, NoFinish;
    NativeMovedOn(s, s');
  }

  /** Token and phase do not look at native code. */
  lemma SameJvm(s: State, s': State)
    requires TokenOk(s) && PhaseOk(s) && s' == s.(native := s'.native)
    ensures TokenOk(s') && PhaseOk(s')
  {
    OthersStay(s, s', 0);
  }

  /** Call c and its own frame moved together; every other call and frame stayed. */
  lemma OwnFrameMoved(s: State, s': State, c: nat)
    requires NativeOk(s) && !s.released && c in s'.calls && FrameMatches(s', c)
    requires s'.session == s.session && s'.handle == s.handle && s'.native.opens == s.native.opens
    requires forall d :: d != c ==> (d in s.calls <==> d in s'.calls) && (d in s.calls ==> s.calls[d] == s'.calls[d])
    requires forall d :: d != c ==>
      (d in s.native.frames <==> d in s'.native.frames) && (d in s.native.frames ==> s.native.frames[d] == s'.native.frames[d])
    requires s'.calls[c].Destroying? <==> s'.released
    requires !s'.released ==> Lookup(s'.native.registry, s.handle) == Some(s.session)
    requires s.session in s'.native.registry.heap && (s'.released ==> s'.native.registry.heap[s.session].released)
    ensures NativeOk(s')
  {
    forall d | d in s'.calls
      ensures FrameMatches(s', d)
    {
      if d != c { assert FrameMatches(s, d); }
    }
  }

  /** How a call moves on when its native call returns, seen from the JVM side. */
  ghost predicate CallMoved(s: State, s': State, c: nat) {
    && s' == s.(native := s'.native, calls := s'.calls, released := s'.released)
    && c in s.calls
    && (forall d :: d != c ==> (d in s.calls <==> d in s'.calls) && (d in s.calls ==> s.calls[d] == s'.calls[d]))
    && match s.calls[c]
       case Releasing(_, cleaner) => s'.released && c in s'.calls && s'.calls[c] == Destroying(cleaner)
       case Destroying(cleaner) => s.released && s'.released && s'.calls == AfterRelease(s.calls, c, cleaner)
       case Begun => c in s'.calls && s'.calls[c].InNative? && s'.released == s.released
       case InNative => c in s'.calls && s'.calls[c].Returned? && s'.released == s.released
       case _ => false
  }

  lemma CallMovedKeepsJvm(s: State, s': State, c: nat)
    requires TokenOk(s) && PhaseOk(s) && CallMoved(s, s', c)
    ensures TokenOk(s') && PhaseOk(s')
  {
    hide SomeToken, SomeDecode;
    OthersStay(s, s', c);
  }

  /** What the three moves of a call's own native frame leave on the native side. */
  ghost predicate NativeSideOk(s: State) {
    Native.Inv(s.native) && NoFinish(s.native) && NativeOk(s)
  }

  lemma EnterNativeSide(s: State, c: nat)
    requires Inv(s) && Enabled(s, EnterNative(c))
    ensures NativeSideOk(Next(s, EnterNative(c)))
  {
    hide Native.Inv, WellFormed, Acquired, NativeOk, TokenOk, PhaseOk;
    var s' := Next(s, EnterNative(c));
    DecodeHoldsCell(s, c);
    DecodeEntersNative(s, c);
    Native.StepKeeps(s.native, Native.Acquire(c, s.handle));
    Native.InvWellFormed(s.native);
    AcquiredOk(s.native.registry, s.handle);
    OwnFrameMoved(s, s', c);
  }

  lemma LeaveNativeSide(s: State, c: nat, ok: bool)
    requires Inv(s) && Enabled(s, LeaveNative(c, ok))
    ensures NativeSideOk(Next(s, LeaveNative(c, ok)))
  {
    hide Native.Inv, TokenOk, PhaseOk;
    var s' := Next(s, LeaveNative(c, ok));
    DecodeHoldsCell(s, c);
    DecodeLeavesNative(s, c, ok);
    Native.StepKeeps(s.native, Native.Drop(c));
    RegisteredAndIdle(s);
    assert FrameMatches(s, c);
    hide NativeOk;
    OwnFrameMoved(s, s', c);
  }

  lemma ReleaseNativeSide(s: State, c: nat)
    requires Inv(s) && Enabled(s, Release(c))
    ensures NativeSideOk(Next(s, Release(c)))
  {
    hide Native.Inv, Removed, NativeOk, TokenOk, PhaseOk;
    var s' := Next(s, Release(c));
    ReleaseUnlinks(s, c);
    Native.StepKeeps(s.native, Native.Remove(c, s.handle));
    OwnFrameMoved(s, s', c);
  }

  lemma EnterKeeps(s: State, c: nat)
    requires Inv(s) && Enabled(s, EnterNative(c))
    ensures Inv(Next(s, EnterNative(c)))
  {
    hide Native.Inv, Native.Next, NoFinish, NativeOk, TokenOk, PhaseOk;
    EnterNativeSide(s, c);
    DecodeEntersNative(s, c);
    CallMovedKeepsJvm(s, Next(s, EnterNative(c)), c);
  }

  lemma LeaveKeeps(s: State, c: nat, ok: bool)
    requires Inv(s) && Enabled(s, LeaveNative(c, ok))
    ensures Inv(Next(s, LeaveNative(c, ok)))
  {
    hide Native.Inv, Native.Next, NoFinish, NativeOk, TokenOk, PhaseOk;
    LeaveNativeSide(s, c, ok);
    DecodeLeavesNative(s, c, ok);
    CallMovedKeepsJvm(s, Next(s, LeaveNative(c, ok)), c);
  }

  lemma ReleaseKeeps(s: State, c: nat)
    requires Inv(s) && Enabled(s, Release(c))
    ensures Inv(Next(s, Release(c)))
  {
    hide Native.Inv, Native.Next, NoFinish, NativeOk, TokenOk, PhaseOk;
    ReleaseNativeSide(s, c);
    ReleaseUnlinks(s, c);
    CallMovedKeepsJvm(s, Next(s, Release(c)), c);
  }

  lemma DestroyFrames(s: State, c: nat)
    requires Inv(s) && Enabled(s, DestroyReleased(c))
    ensures var s' := Next(s, DestroyReleased(c));
      && Native.Inv(s'.native) && NoFinish(s'.native) && NativeOk(s')
      && s.session in s'.native.destroyed
  {
    hide TokenOk, PhaseOk, Native.Inv;
    var s' := Next(s, DestroyReleased(c));
    assert FrameMatches(s, c);
    Native.StepKeeps(s.native, Native.Destroy(c));
    assert s.native.destroyed + [s.session] == s'.native.destroyed;
    forall d | d in s'.calls
      ensures FrameMatches(s', d)
    {
      if d != c { assert FrameMatches(s, d); }
    }
  }

  lemma DestroyingIsReleased(s: State, c: nat)
    requires NativeOk(s) && c in s.calls && s.calls[c].Destroying?
    ensures s.released
  {
  }

  lemma DestroyKeeps(s: State, c: nat)
    requires Inv(s) && Enabled(s, DestroyReleased(c))
    ensures Inv(Next(s, DestroyReleased(c)))
  {
    hide Native.Inv, Native.Next, NoFinish, NativeOk, TokenOk, PhaseOk;
    DestroyFrames(s, c);
    DestroyingIsReleased(s, c);
    CallMovedKeepsJvm(s, Next(s, DestroyReleased(c)), c);
  }

  /** Every step, of every call and of every other user of the registry, keeps the invariant. */
  lemma StepKeeps(s: State, step: Step)
    requires Inv(s) && Enabled(s, step)
    ensures Inv(Next(s, step))
  {
    match step
    case Foreign(n) => ForeignKeeps(s, n);
    case EnterNative(c) => EnterKeeps(s, c);
    case LeaveNative(c, ok) => LeaveKeeps(s, c, ok);
    case DestroyInDecode(c) =>
    case Release(c) => ReleaseKeeps(s, c);
    case DestroyReleased(c) => DestroyKeeps(s, c);
    case OwnerUnreachable => UnreachableKeeps(s);
    case _ =>
      JvmKeepsNative(s, step);
      if Synchronized(step) {
        SynchronizedKeepsToken(s, step);
        SynchronizedKeepsPhase(s, step);
      } else {
        TokenMoveKeepsToken(s, step);
        TokenMoveKeepsPhase(s, step);
      }
  }

  // -------------------------------------------------------------- whole runs

  ghost predicate Run(states: seq<State>, steps: seq<Step>) {
    && |states| == |steps| + 1
    && Initial(states[0])
    && forall i :: 0 <= i < |steps| ==> Enabled(states[i], steps[i]) && states[i + 1] == Next(states[i], steps[i])
  }

  lemma InitialInv(s: State)
    requires Initial(s)
    ensures Inv(s)
  {
    Native.InvWellFormed(s.native);
    var i := Find(s.native.registry.entries, s.handle);
    EntryIsOk(s.native.registry, i);
    assert RecordOk(s.native.registry, s.session);
    Native.IdleNotEngaged(s.native, s.session);
  }

  lemma {:induction false} RunInv(states: seq<State>, steps: seq<Step>, i: nat)
    requires Run(states, steps) && i < |states|
    ensures Inv(states[i])
  {
    hide Inv, Initial, Next, Enabled;
    if i == 0 {
      InitialInv(states[0]);
    } else {
      RunInv(states, steps, i - 1);
      StepKeeps(states[i - 1], steps[i - 1]);
    }
  }

  /** The four places the ownership token can be in. */
  datatype Place = InCell | WithCall(call: nat) | Spent | Lost

  ghost predicate TokenAt(s: State, p: Place) {
    match p
    case InCell => s.jvm.cell == s.handle
    case WithCall(c) => c in s.calls && HasToken(s.calls[c])
    case Spent => s.released
    case Lost => s.lost
  }

  /** In every reachable state the token is in exactly one place. */
  lemma TokenInOnePlace(states: seq<State>, steps: seq<Step>, i: nat) returns (p: Place)
    requires Run(states, steps) && i < |states|
    ensures TokenAt(states[i], p)
    ensures forall q :: TokenAt(states[i], q) ==> q == p
  {
    RunInv(states, steps, i);
    hide Native.Inv, NativeOk, PhaseOk;
    var s := states[i];
    if s.released { p := Spent; }
    else if s.lost { p := Lost; }
    else if s.jvm.cell == s.handle { p := InCell; }
    else {
      var c :| c in s.calls && HasToken(s.calls[c]);
      p := WithCall(c);
    }
  }

  /**
    Whenever a decode call reaches the native decoder, the handle resolves to the
    session and the session is idle, so the native call is accepted.
   */
  lemma NativeAlwaysAccepts(states: seq<State>, steps: seq<Step>, i: nat)
    requires Run(states, steps) && i < |steps| && steps[i].EnterNative?
    ensures Acquired(states[i].native.registry, states[i].handle).1 == Some(states[i].session)
    ensures At(states[i + 1], steps[i].call, InNative)
  {
    RunInv(states, steps, i);
    DecodeEntersNative(states[i], steps[i].call);
  }

  /**
    A decode call is let in exactly when the session is active; it keeps the token in the
    cell. Refused, it changes nothing.
   */
  lemma BeginAnswer(s: State, c: nat)
    requires Inv(s) && Enabled(s, BeginDecode(c))
    ensures At(Next(s, BeginDecode(c)), c, Begun) <==> s.jvm.phase == Active
    ensures Next(s, BeginDecode(c)) ==
      if s.jvm.phase == Active then s.(jvm := Session(Decoding, false, s.handle), calls := s.calls[c := Begun]) else s
  {
    hide Native.Inv, NativeOk, Native.Next, Native.Enabled;
  }

  /**
    A close takes the token wherever it is at rest, leaves a request during a decode, and has
    nothing to do otherwise.
   */
  lemma CloseAnswer(s: State, c: nat)
    requires Inv(s) && Enabled(s, Close(c))
    ensures var s' := Next(s, Close(c));
      match s.jvm.phase
      case Active => s' == s.(jvm := Session(Closed, false, 0), calls := s.calls[c := Releasing(s.handle, false)])
      case Decoding => s' == s.(jvm := Session(Decoding, true, s.handle))
      case _ =>
        if s.jvm.cell == s.handle then s' == s.(jvm := s.jvm.(cell := 0), calls := s.calls[c := Releasing(s.handle, false)])
        else s' == s
  {
    hide Native.Inv, NativeOk, Native.Next, Native.Enabled;
    assert s.calls - {c} == s.calls;
  }

  /** The steps can be taken one after the other, and lead there. */
  ghost predicate Leads(s: State, steps: seq<Step>, end: State)
    decreases |steps|
  {
    if steps == [] then s == end else Enabled(s, steps[0]) && Leads(Next(s, steps[0]), steps[1..], end)
  }

  lemma LeadsOn(s: State, step: Step, rest: seq<Step>, end: State)
    requires Enabled(s, step) && Leads(Next(s, step), rest, end)
    ensures Leads(s, [step] + rest, end)
  {
    assert ([step] + rest)[1..] == rest;
  }

  lemma {:induction false} LeadsFurther(s: State, steps: seq<Step>, middle: State, more: seq<Step>, end: State)
    requires Leads(s, steps, middle) && Leads(middle, more, end)
    ensures Leads(s, steps + more, end)
    decreases |steps|
  {
    hide Enabled, Next;
    if steps == [] {
      assert steps + more == more;
    } else {
      LeadsFurther(Next(s, steps[0]), steps[1..], middle, more, end);
      assert (steps + more)[1..] == steps[1..] + more;
    }
  }

  lemma {:induction false} LeadsKeeps(s: State, steps: seq<Step>, end: State)
    requires Inv(s) && Leads(s, steps, end)
    ensures Inv(end)
    decreases |steps|
  {
    hide Inv, Enabled, Next;
    if steps != [] {
      StepKeeps(s, steps[0]);
      LeadsKeeps(Next(s, steps[0]), steps[1..], end);
    }
  }

  /** From an opened session such a path is a run. */
  lemma {:induction false} LeadsIsRun(s: State, steps: seq<Step>, end: State) returns (states: seq<State>)
    requires Leads(s, steps, end)
    ensures |states| == |steps| + 1 && states[0] == s && states[|steps|] == end
    ensures forall i :: 0 <= i < |steps| ==> Enabled(states[i], steps[i]) && states[i + 1] == Next(states[i], steps[i])
    ensures Initial(s) ==> Run(states, steps)
    decreases |steps|
  {
    hide Initial;
    if steps == [] {
      states := [s];
    } else {
      var rest := LeadsIsRun(Next(s, steps[0]), steps[1..], end);
      states := [s] + rest;
      forall i | 0 <= i < |steps|
        ensures Enabled(states[i], steps[i]) && states[i + 1] == Next(states[i], steps[i])
      {
        if i > 0 {
          assert states[i] == rest[i - 1] && states[i + 1] == rest[i] && steps[i] == steps[1..][i - 1];
        }
      }
    }
  }

  ghost function GoodDecode(c: nat): seq<Step> {
    [BeginDecode(c), EnterNative(c), LeaveNative(c, true), EndDecode(c)]
  }

  /** A good decode of an active session runs through and leaves everything as it was: the session can be used again. */
  lemma GoodDecodeIsNeutral(s: State, c: nat)
    requires Inv(s) && NewCall(s, c) && !s.unreachable && s.jvm.phase == Active
    ensures Leads(s, GoodDecode(c), s)
  {
    hide Inv, Enabled, Next, Leads;
    var begun := DecodeBegins(s, c);
    var inside := NativeTrip(begun, c);
    DecodeEnds(s, c);
    var returned := begun.(calls := begun.calls[c := Returned(true)]);
    NothingLeads(s);
    LeadsOn(returned, EndDecode(c), [], s);
    assert [EndDecode(c)] + [] == [EndDecode(c)];
    LeadsOn(inside, LeaveNative(c, true), [EndDecode(c)], s);
    LeadsOn(begun, EnterNative(c), [LeaveNative(c, true)] + [EndDecode(c)], s);
    LeadsOn(s, BeginDecode(c), [EnterNative(c)] + ([LeaveNative(c, true)] + [EndDecode(c)]), s);
    assert [BeginDecode(c)] + ([EnterNative(c)] + ([LeaveNative(c, true)] + [EndDecode(c)])) == GoodDecode(c);
  }

  lemma NothingLeads(s: State)
    ensures Leads(s, [], s)
  {
  }

  lemma DecodeBegins(s: State, c: nat) returns (begun: State)
    requires Inv(s) && NewCall(s, c) && !s.unreachable && s.jvm.phase == Active
    ensures s.jvm == Session(Active, false, s.handle)
    ensures Enabled(s, BeginDecode(c)) && begun == Next(s, BeginDecode(c)) && Inv(begun)
    ensures begun == s.(jvm := Session(Decoding, false, s.handle), calls := s.calls[c := Begun])
  {
    BeginAnswer(s, c);
    StepKeeps(s, BeginDecode(c));
    begun := Next(s, BeginDecode(c));
    hide Native.Inv, NativeOk, Native.Next, Native.Enabled;
  }

  /** In and out of the native decoder: the registry and its frames are as before. */
  lemma NativeTrip(s: State, c: nat) returns (inside: State)
    requires Inv(s) && At(s, c, Begun)
    ensures Enabled(s, EnterNative(c)) && inside == Next(s, EnterNative(c))
    ensures Enabled(inside, LeaveNative(c, true))
    ensures Next(inside, LeaveNative(c, true)) == s.(calls := s.calls[c := Returned(true)])
  {
    IdleForDecode(s, c);
    hide Inv, Native.Inv, Native.Next, Native.Enabled, Lookup;
    Native.AcquireThenDrop(s.native, c, s.handle, s.session);
    inside := Next(s, EnterNative(c));
    assert s.calls[c := InNative][c := Returned(true)] == s.calls[c := Returned(true)];
  }

  lemma IdleForDecode(s: State, c: nat)
    requires Inv(s) && At(s, c, Begun)
    ensures Native.Inv(s.native) && c !in s.native.frames && s.handle > 0
    ensures Lookup(s.native.registry, s.handle) == Some(s.session)
    ensures s.session in s.native.registry.heap && s.native.registry.heap[s.session].references == 0
  {
    DecodeHoldsCell(s, c);
    assert FrameMatches(s, c);
    assert forall d :: d in s.calls ==> !s.calls[d].InNative?;
    RegisteredAndIdle(s);
  }

  lemma DecodeEnds(s: State, c: nat)
    requires Inv(s) && NewCall(s, c) && s.jvm == Session(Active, false, s.handle)
    ensures var returned := s.(jvm := Session(Decoding, false, s.handle), calls := s.calls[c := Begun][c := Returned(true)]);
      Enabled(returned, EndDecode(c)) && Next(returned, EndDecode(c)) == s
  {
    hide Inv;
    assert s.calls[c := Begun][c := Returned(true)] - {c} == s.calls;
  }

  ghost function ReleaseAll(c: nat): seq<Step> {
    [Release(c), DestroyReleased(c), CleanNow(c)]
  }

  /** A call with the token in hand destroys the native session and is done, and the cleaner with it. */
  lemma ReleaseDestroys(s: State, c: nat) returns (end: State)
    requires Inv(s) && At(s, c, Releasing(s.handle, false))
    ensures Leads(s, ReleaseAll(c), end)
    ensures end.calls == s.calls - {c} && end.jvm == s.jvm.(cell := 0) && end.released && !end.cleanerArmed
    ensures end.native.destroyed == s.native.destroyed + [s.session] && end.native.frames == s.native.frames
    ensures Lookup(end.native.registry, s.handle) == None && end.session == s.session
  {
    hide Inv, Leads, Enabled, Next, Lookup;
    var destroying, done := ReleaseSteps(s, c, false);
    end := CleanerSpent(s, done, c);
    NothingLeads(end);
    LeadsOn(done, CleanNow(c), [], end);
    assert [CleanNow(c)] + [] == [CleanNow(c)];
    LeadsOn(destroying, DestroyReleased(c), [CleanNow(c)], end);
    LeadsOn(s, Release(c), [DestroyReleased(c)] + [CleanNow(c)], end);
    assert [Release(c)] + ([DestroyReleased(c)] + [CleanNow(c)]) == ReleaseAll(c);
  }

  lemma ReleaseSteps(s: State, c: nat, cleaner: bool) returns (destroying: State, done: State)
    requires Inv(s) && At(s, c, Releasing(s.handle, cleaner))
    ensures Enabled(s, Release(c)) && destroying == Next(s, Release(c))
    ensures Enabled(destroying, DestroyReleased(c)) && done == Next(destroying, DestroyReleased(c))
    ensures done == s.(native := done.native, released := true, calls := AfterRelease(s.calls, c, cleaner))
    ensures done.native.destroyed == s.native.destroyed + [s.session] && done.native.frames == s.native.frames
    ensures Lookup(done.native.registry, s.handle) == None
  {
    hide Inv, Native.Inv, Native.Next, Native.Enabled, Lookup, AfterRelease;
    IdleForRelease(s, c, cleaner);
    Native.RemoveThenDestroy(s.native, c, s.handle, s.session);
    destroying := Next(s, Release(c));
    done := Next(destroying, DestroyReleased(c));
    SameAfterRelease(s.calls, c, cleaner);
  }

  lemma SameAfterRelease(calls: map<nat, Call>, c: nat, cleaner: bool)
    ensures AfterRelease(calls[c := Destroying(cleaner)], c, cleaner) == AfterRelease(calls, c, cleaner)
  {
    assert calls[c := Destroying(cleaner)][c := ReleaseDone] == calls[c := ReleaseDone];
    assert calls[c := Destroying(cleaner)] - {c} == calls - {c};
  }

  lemma IdleForRelease(s: State, c: nat, cleaner: bool)
    requires Inv(s) && At(s, c, Releasing(s.handle, cleaner))
    ensures Native.Inv(s.native) && c !in s.native.frames && s.handle > 0
    ensures Lookup(s.native.registry, s.handle) == Some(s.session)
    ensures s.session in s.native.registry.heap && s.native.registry.heap[s.session].references == 0
  {
    ReleaseHasToken(s, c);
    assert FrameMatches(s, c);
    RegisteredAndIdle(s);
  }

  lemma CleanerSpent(s: State, done: State, c: nat) returns (end: State)
    requires Inv(s) && At(s, c, Releasing(s.handle, false))
    requires done == s.(native := done.native, released := true, calls := s.calls[c := ReleaseDone])
    ensures Enabled(done, CleanNow(c)) && end == Next(done, CleanNow(c))
    ensures end == done.(calls := s.calls - {c}, jvm := s.jvm.(cell := 0), cleanerArmed := false)
  {
    hide Native.Inv, NativeOk, Native.Next, Native.Enabled;
    assert SomeToken(s) by { assert HasToken(s.calls[c]); }
    end := Next(done, CleanNow(c));
    assert s.calls[c := ReleaseDone] - {c} == s.calls - {c};
  }

  /** The cleaner takes whatever token is in the cell, once. */
  lemma CleanerAnswer(s: State, c: nat)
    requires Inv(s) && Enabled(s, CleanerRuns(c))
    ensures Next(s, CleanerRuns(c)) ==
      s.(cleanerArmed := false, jvm := s.jvm.(cell := 0),
         calls := if s.jvm.cell == s.handle then s.calls[c := Releasing(s.handle, true)] else s.calls)
  {
    hide Native.Inv, NativeOk, Native.Next, Native.Enabled;
    assert s.calls - {c} == s.calls;
  }

  /** A session that was dropped without a close is destroyed by the cleaner. */
  lemma ForgottenIsDestroyed(s: State, c: nat) returns (end: State)
    requires Inv(s) && Enabled(s, CleanerRuns(c)) && s.jvm.cell == s.handle
    ensures Leads(s, [CleanerRuns(c), Release(c), DestroyReleased(c)], end)
    ensures end.calls == s.calls && end.released && !end.lost
    ensures end.native.destroyed == s.native.destroyed + [s.session] && end.native.frames == s.native.frames
  {
    hide Inv, Leads, Enabled, Next, Lookup;
    CleanerAnswer(s, c);
    StepKeeps(s, CleanerRuns(c));
    CellMeansKept(s, c);
    var taken := Next(s, CleanerRuns(c));
    var destroying, done := ReleaseSteps(taken, c, true);
    end := done;
    NothingLeads(end);
    LeadsOn(destroying, DestroyReleased(c), [], end);
    LeadsOn(taken, Release(c), [DestroyReleased(c)] + [], end);
    LeadsOn(s, CleanerRuns(c), [Release(c)] + ([DestroyReleased(c)] + []), end);
    assert [CleanerRuns(c)] + ([Release(c)] + ([DestroyReleased(c)] + [])) == [CleanerRuns(c), Release(c), DestroyReleased(c)];
  }

  lemma CellMeansKept(s: State, c: nat)
    requires Inv(s) && Enabled(s, CleanerRuns(c)) && s.jvm.cell == s.handle
    ensures !s.lost && s.calls[c := Releasing(s.handle, true)] - {c} == s.calls
  {
    hide Native.Inv, NativeOk;
  }

  /** From every opened session: two decodes and a close, and the native session is destroyed, once. */
  lemma DecodeTwiceThenClose(s: State, c: nat) returns (end: State)
    requires Initial(s) && c !in s.native.frames
    ensures Leads(s, GoodDecode(c) + (GoodDecode(c) + ([Close(c)] + ReleaseAll(c))), end)
    ensures end.jvm == Session(Closed, false, 0) && end.calls == map[]
    ensures end.native.destroyed == s.native.destroyed + [s.session]
  {
    InitialInv(s);
    var closing := Next(s, Close(c));
    CloseAnswer(s, c);
    StepKeeps(s, Close(c));
    hide Inv, Initial, Leads, Enabled, Next, Lookup;
    end := ReleaseDestroys(closing, c);
    LeadsOn(s, Close(c), ReleaseAll(c), end);
    GoodDecodeIsNeutral(s, c);
    LeadsFurther(s, GoodDecode(c), s, [Close(c)] + ReleaseAll(c), end);
    LeadsFurther(s, GoodDecode(c), s, GoodDecode(c) + ([Close(c)] + ReleaseAll(c)), end);
    assert map[c := Releasing(s.handle, false)] - {c} == map[];
  }

  /** A close that arrives during a decode is carried out by the decode call, however that ends. */
  lemma CloseDuringDecode(s: State, c: nat)
    requires Inv(s) && Enabled(s, EndDecode(c)) && s.jvm.closeRequested
    ensures At(Next(s, EndDecode(c)), c, Releasing(s.handle, false))
    ensures Next(s, EndDecode(c)).jvm == Session(if s.calls[c].ok then Closed else Failed, false, 0)
  {
    hide Native.Inv, NativeOk;
    DecodeHoldsCell(s, c);
  }

  /** A failed decode always gives the session up; a good one keeps it unless a close is waiting. */
  lemma DecodeOutcome(s: State, c: nat)
    requires Inv(s) && Enabled(s, EndDecode(c))
    ensures var s' := Next(s, EndDecode(c));
      if s.calls[c].ok && !s.jvm.closeRequested
      then s'.jvm == Session(Active, false, s.handle) && c !in s'.calls
      else At(s', c, Releasing(s.handle, false)) && s'.jvm.phase in {Closed, Failed} && s'.jvm.cell == 0
  {
    hide Native.Inv, NativeOk;
    DecodeHoldsCell(s, c);
  }

  /** After a release that threw, the token is back in the cell and the next close retries. */
  lemma FailedReleaseCanBeRetried(s: State, c: nat, d: nat)
    requires Inv(s) && Enabled(s, Restore(c)) && d != c && d !in s.calls && d !in s.native.frames
    ensures var s1 := Next(s, Restore(c));
      && s1.jvm.cell == s.handle && s1.jvm.phase in {Closed, Failed}
      && Enabled(s1, Close(d)) && At(Next(s1, Close(d)), d, Releasing(s.handle, false))
  {
    hide Native.Inv, NativeOk;
    assert SomeToken(s) && HasToken(s.calls[c]);
    assert s.jvm.cell == 0 && !s.unreachable;
  }

  /**
    With no call running and no token in the cell, the record has been destroyed, once,
    exactly if the token was not lost.
   */
  lemma ClosedMeansDestroyed(states: seq<State>, steps: seq<Step>, i: nat)
    requires Run(states, steps) && i < |states| && states[i].calls == map[]
    requires states[i].jvm.cell == 0
    ensures states[i].session in states[i].native.destroyed <==> !states[i].lost
    ensures states[i].lost ==> Lookup(states[i].native.registry, states[i].handle) == Some(states[i].session)
    ensures forall a, b :: 0 <= a < b < |states[i].native.destroyed| ==>
      states[i].native.destroyed[a] != states[i].native.destroyed[b]
  {
    RunInv(states, steps, i);
    var s := states[i];
    assert !SomeToken(s);
    if s.lost {
      RegisteredAndIdle(s);
    }
    hide WellFormed;
  }

  /** The token is lost exactly when the release fails that the cleaner makes. */
  lemma LosesIff(s: State, step: Step)
    requires Inv(s) && Enabled(s, step) && !s.lost
    ensures Next(s, step).lost <==> step.ReleaseFails? && s.calls[step.call].cleaner
  {
    hide Inv;
  }

  /**
    A lost token never comes back: the record stays registered and is destroyed by nothing but
    the library's unload.
   */
  lemma {:induction false} LostForGood(states: seq<State>, steps: seq<Step>, i: nat, j: nat)
    requires Run(states, steps) && i <= j < |states| && states[i].lost
    ensures states[j].lost && Lookup(states[j].native.registry, states[j].handle) == Some(states[j].session)
    ensures states[j].session !in states[j].native.destroyed
    ensures states[j].session in Native.Unload(states[j].native)
    decreases j
  {
    if i < j {
      LostForGood(states, steps, i, j - 1);
      LostStays(states[j - 1], steps[j - 1]);
    }
    RunInv(states, steps, j);
    LostIsRegistered(states[j]);
  }

  lemma LostStays(s: State, step: Step)
    requires Enabled(s, step) && s.lost
    ensures Next(s, step).lost
  {
  }

  lemma LostIsRegistered(s: State)
    requires Inv(s) && s.lost
    ensures Lookup(s.native.registry, s.handle) == Some(s.session)
    ensures s.session !in s.native.destroyed && s.session in Native.Unload(s.native)
  {
    RegisteredAndIdle(s);
    var i := Find(s.native.registry.entries, s.handle);
    assert Native.Unload(s.native)[|s.native.destroyed| + i] == s.session;
  }

  /**
    It does happen, to every session: the owner goes away without a close, the cleaner runs,
    and its release throws.
   */
  lemma LostIsReached(s: State, c: nat)
    requires Initial(s) && c !in s.native.frames
    ensures exists states: seq<State>, steps: seq<Step> ::
      Run(states, steps) && states[0] == s
      && steps == [OwnerUnreachable, CleanerRuns(c), ReleaseFails(c)] && states[|steps|].lost
  {
    hide Native.Inv, NoFinish;
    var gone := Next(s, OwnerUnreachable);
    var cleaning := Next(gone, CleanerRuns(c));
    var states := [s, gone, cleaning, Next(cleaning, ReleaseFails(c))];
    var steps := [OwnerUnreachable, CleanerRuns(c), ReleaseFails(c)];
    assert Run(states, steps) && states[|steps|].lost;
  }

  /** The registry's deferred destruction and the second run of the cleaner are never needed by a session. */
  lemma NeverDeferred(states: seq<State>, steps: seq<Step>, i: nat)
    requires Run(states, steps) && i < |steps|
    ensures !steps[i].DestroyInDecode?
    ensures steps[i].CleanNow? ==> states[i].jvm.cell == 0
    ensures steps[i].Restore? ==> states[i + 1].jvm.cell == states[i].handle
    ensures steps[i].EndDecode? ==> states[i].jvm.phase == Decoding && states[i].jvm.cell == states[i].handle
  {
    RunInv(states, steps, i);
    var s, step := states[i], steps[i];
    hide Native.Inv, NativeOk;
    if step.Restore? { assert HasToken(s.calls[step.call]) && SomeToken(s); }
    if step.EndDecode? { DecodeHoldsCell(s, step.call); }
  }
}
