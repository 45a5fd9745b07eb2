/**
  The encoding session of the JVM side. Every public call runs under one lock from
  start to end, so a session has at most one call in progress; calls made from
  inside a callback come from that call's own thread and find its phase.
 */
module EncodingSession {
  import opened HandleCleanup

  datatype Phase = Active | Writing | Finishing | Finished | Failed

  datatype Session = Session(phase: Phase, cell: int)

  /** What a finish call does after it has looked at the phase. */
  datatype Finish = Nothing | Refused | Finalise(token: int) | Abandon(token: int) | OwnershipLost

  function WriteBegun(s: Session): (Session, bool) {
    if s.phase != Active || s.cell == 0 then (s, false) else (s.(phase := Writing), true)
  }

  function WriteFailed(s: Session): (Session, int) {
    (Session(Failed, 0), s.cell)
  }

  function FinishBegun(s: Session): (Session, Finish) {
    match s.phase
    case Finished => (s, Nothing)
    case Finishing => (s, Nothing)
    case Failed => (s.(cell := 0), if s.cell != 0 then Abandon(s.cell) else Nothing)
    case Writing => (s, Refused)
    case Active => (Session(Finishing, 0), if s.cell != 0 then Finalise(s.cell) else OwnershipLost)
  }

  function Restored(s: Session, token: int): Session {
    if token != 0 && s.cell == 0 then s.(cell := token) else s
  }

  /** A callback that calls back into its own session is refused or ignored and changes nothing. */
  lemma ReentryIsHarmless(s: Session)
    requires s.phase == Writing || s.phase == Finishing
    ensures WriteBegun(s) == (s, false)
    ensures FinishBegun(s) == (s, if s.phase == Writing then Refused else Nothing)
  {
  }

  class NativeFlacEncodingSession {
    var phase: Phase
    const cleanup: NativeHandleCleanup

    constructor (initialHandle: int)
      ensures View() == Session(Active, initialHandle) && fresh(cleanup)
    {
      phase := Active;
      cleanup := new NativeHandleCleanup(initialHandle);
    }

    ghost function View(): Session
      reads this, cleanup
    {
      Session(phase, cleanup.handle)
    }

    /** The entry of writeInterleaved, up to the native call. */
    method BeginWrite() returns (accepted: bool)
      modifies this
      ensures accepted <==> old(phase) == Active && cleanup.handle != 0
      ensures phase == if accepted then Writing else old(phase)
      ensures (View(), accepted) == WriteBegun(old(View()))
    {
      accepted := phase == Active && cleanup.handle != 0;
      if accepted {
        phase := Writing;
      }
    }

    /** The failure path of writeInterleaved, up to the release. */
    method FailWrite() returns (toRelease: int)
      modifies this, cleanup
      ensures phase == Failed && cleanup.handle == 0 && toRelease == old(cleanup.handle)
      ensures (View(), toRelease) == WriteFailed(old(View()))
    {
      toRelease := cleanup.ClaimHandle();
      phase := Failed;
    }

    /** The entry of finish, up to the native call. */
    method BeginFinish() returns (action: Finish)
      modifies this, cleanup
      ensures action.Finalise? || action.Abandon? ==> action.token == old(cleanup.handle) && cleanup.handle == 0
      ensures action.Finalise? <==> old(phase) == Active && old(cleanup.handle) != 0
      ensures action.Abandon? <==> old(phase) == Failed && old(cleanup.handle) != 0
      ensures action.Refused? <==> old(phase) == Writing
      ensures (View(), action) == FinishBegun(old(View()))
    {
      match phase {
        case Finished => return Nothing;
        case Finishing => return Nothing;
        case Failed =>
          var failedHandle := cleanup.ClaimHandle();
          return if failedHandle != 0 then Abandon(failedHandle) else Nothing;
        case Writing => return Refused;
        case Active => phase := Finishing;
      }
      var currentHandle := cleanup.ClaimHandle();
      action := if currentHandle != 0 then Finalise(currentHandle) else OwnershipLost;
    }

    method ReleaseFailed(token: int)
      modifies cleanup
      ensures View() == Restored(old(View()), token)
    {
      var restored := cleanup.RestoreHandle(token);
    }
  }
}

/**
  One encoding session among arbitrary other users of the native encoder registry.
  Those may do anything, also with this session's own handle: write, finish and
  release it behind the session's back.
 */
module EncodingProtocol {
  import opened Wrappers
  import opened HandleRegistry
  import Native = HandleProtocol
  import opened EncodingSession

  /** The native call (or the wait for one) that the session's current call is at. */
  datatype Call =
    | Idle
    | WriteReady
    | WriteInside
    | WriteOwing(ok: bool)
    | WriteReturned(ok: bool)
    | FinishReady(token: int)
    | FinishInside(token: int)
    | FinishUnlinked(token: int)
    | FinishOwing(token: int, ok: bool)
    | FinishReturned(token: int, ok: bool)
    | Releasing(token: int, cleaner: bool)
    | Destroying(cleaner: bool)
    | ReleaseThrew(token: int)
    | ReleaseDone

  /** `frame` is the native frame of the current call; `spent`: the handle was unlinked by this session. */
  datatype State = State(
    native: Native.State,
    handle: int,
    session: nat,
    jvm: Session,
    call: Call,
    frame: nat,
    cleanerArmed: bool,
    unreachable: bool,
    spent: bool,
    lost: bool)

  datatype Step =
    | Foreign(step: Native.Step)
    | Write(frame: nat)
    | WriteEnter
    | WriteLeave(ok: bool)
    | WriteDestroy
    | WriteEnd
    | Finish(frame: nat)
    | FinishEnter
    | FinishUnlink
    | FinishLeave(ok: bool)
    | FinishDestroy
    | FinishEnd
    | Release
    | ReleaseFails
    | DestroyReleased
    | Restore
    | CleanNow
    | OwnerUnreachable
    | CleanerRuns(frame: nat)

  /** A foreign step does not run on the frame of the session's current call. */
  ghost predicate ForeignOk(s: State, step: Native.Step) {
    s.call == Idle || step.Open? || step.frame != s.frame
  }

  ghost predicate Enabled(s: State, step: Step) {
    match step
    case Foreign(n) => Native.Enabled(s.native, n) && ForeignOk(s, n)
    case Write(f) => s.call == Idle && !s.unreachable && f !in s.native.frames
    case WriteEnter => s.call == WriteReady && Native.Enabled(s.native, Native.Acquire(s.frame, s.jvm.cell))
    case WriteLeave(_) => s.call == WriteInside && Native.Enabled(s.native, Native.Drop(s.frame))
    case WriteDestroy => s.call.WriteOwing? && Native.Enabled(s.native, Native.Destroy(s.frame))
    case WriteEnd => s.call.WriteReturned?
    case Finish(f) => s.call == Idle && !s.unreachable && f !in s.native.frames
    case FinishEnter => s.call.FinishReady? && Native.Enabled(s.native, Native.AcquireToFinish(s.frame, s.call.token))
    case FinishUnlink => s.call.FinishInside? && Native.Enabled(s.native, Native.UnlinkOwn(s.frame))
    case FinishLeave(_) => s.call.FinishUnlinked? && Native.Enabled(s.native, Native.Drop(s.frame))
    case FinishDestroy => s.call.FinishOwing? && Native.Enabled(s.native, Native.Destroy(s.frame))
    case FinishEnd => s.call.FinishReturned?
    case Release => s.call.Releasing? && Native.Enabled(s.native, Native.Remove(s.frame, s.call.token))
    case ReleaseFails => s.call.Releasing?
    case DestroyReleased => s.call.Destroying? && Native.Enabled(s.native, Native.Destroy(s.frame))
    case Restore => s.call.ReleaseThrew?
    case CleanNow => s.call == ReleaseDone
    case OwnerUnreachable => s.call == Idle
    case CleanerRuns(f) => s.call == Idle && s.unreachable && s.cleanerArmed && f !in s.native.frames
  }

  function AfterRelease(cleaner: bool): Call {
    if cleaner then Idle else ReleaseDone
  }

  /** Runs the cleanup action: releases what is in the cell, if anything is. */
  function CleanerTakes(s: State): State {
    s.(cleanerArmed := false, jvm := s.jvm.(cell := 0),
       call := if s.jvm.cell != 0 then Releasing(s.jvm.cell, true) else Idle)
  }

  ghost function Next(s: State, step: Step): State
    requires Enabled(s, step)
  {
    match step
    case Foreign(n) => s.(native := Native.Next(s.native, n))
    case Write(f) =>
      var (jvm, accepted) := WriteBegun(s.jvm);
      if accepted then s.(jvm := jvm, call := WriteReady, frame := f) else s
    case WriteEnter =>
      var native := Native.Next(s.native, Native.Acquire(s.frame, s.jvm.cell));
      s.(native := native, call := if s.frame in native.frames then WriteInside else WriteReturned(false))
    case WriteLeave(ok) =>
      var native := Native.Next(s.native, Native.Drop(s.frame));
      s.(native := native, call := if s.frame in native.frames then WriteOwing(ok) else WriteReturned(ok))
    case WriteDestroy =>
      s.(native := Native.Next(s.native, Native.Destroy(s.frame)), call := WriteReturned(s.call.ok))
    case WriteEnd =>
      if s.call.ok then s.(jvm := s.jvm.(phase := Active), call := Idle)
      else
        var (jvm, token) := WriteFailed(s.jvm);
        s.(jvm := jvm, call := if token != 0 then Releasing(token, false) else ReleaseDone)
    case Finish(f) =>
      var (jvm, action) := FinishBegun(s.jvm);
      (match action
       case Finalise(token) => s.(jvm := jvm, call := FinishReady(token), frame := f)
       case Abandon(token) => s.(jvm := jvm, call := Releasing(token, false), frame := f)
       case _ => s.(jvm := jvm))
    case FinishEnter =>
      var native := Native.Next(s.native, Native.AcquireToFinish(s.frame, s.call.token));
      s.(native := native,
         call := if s.frame in native.frames then FinishInside(s.call.token) else FinishReturned(s.call.token, false))
    case FinishUnlink =>
      s.(native := Native.Next(s.native, Native.UnlinkOwn(s.frame)), call := FinishUnlinked(s.call.token), spent := true)
    case FinishLeave(ok) =>
      var native := Native.Next(s.native, Native.Drop(s.frame));
      s.(native := native,
         call := if s.frame in native.frames then FinishOwing(s.call.token, ok) else FinishReturned(s.call.token, ok))
    case FinishDestroy =>
      s.(native := Native.Next(s.native, Native.Destroy(s.frame)), call := FinishReturned(s.call.token, s.call.ok))
    case FinishEnd =>
      if s.call.ok then s.(jvm := s.jvm.(phase := Finished), call := ReleaseDone)
      else s.(jvm := s.jvm.(phase := Failed), call := Releasing(s.call.token, false))
    case Release =>
      var native := Native.Next(s.native, Native.Remove(s.frame, s.call.token));
      s.(native := native, spent := true,
         call := if s.frame in native.frames then Destroying(s.call.cleaner) else AfterRelease(s.call.cleaner))
    case ReleaseFails =>
      if s.call.cleaner then s.(call := Idle, lost := true) else s.(call := ReleaseThrew(s.call.token))
    case DestroyReleased =>
      s.(native := Native.Next(s.native, Native.Destroy(s.frame)), call := AfterRelease(s.call.cleaner))
    case Restore => s.(jvm := Restored(s.jvm, s.call.token), call := Idle)
    case CleanNow => if s.cleanerArmed then CleanerTakes(s) else s.(call := Idle)
    case OwnerUnreachable => s.(unreachable := true)
    case CleanerRuns(f) => CleanerTakes(s.(frame := f))
  }

  ghost predicate Initial(s: State) {
    && Native.Inv(s.native)
    && s.handle > 0 && Lookup(s.native.registry, s.handle) == Some(s.session)
    && (s.native.wraps == 0 ==> s.handle < s.native.registry.next)
    && s.jvm == Session(Active, s.handle)
    && s.call == Idle && s.cleanerArmed && !s.unreachable && !s.spent && !s.lost
  }

  // ------------------------------------------------------------------ invariant

  /** The token is in the cell, with the current call, spent, or lost with a cleaner failure. */
  ghost predicate TokenOk(s: State) {
    && s.handle > 0
    && (s.jvm.cell == 0 || s.jvm.cell == s.handle)
    && (s.unreachable ==> s.call == Idle || s.call.Releasing? || s.call.Destroying?)
    && CallOk(s)
  }

  /** The phases a session can be in between calls. */
  predicate AtRest(phase: Phase) {
    phase == Active || phase == Finished || phase == Failed
  }

  /** Phase and token at each point of a call. */
  ghost predicate CallOk(s: State) {
    match s.call
    case Idle =>
      && (s.jvm.cell == 0 ==> s.spent || s.lost)
      && AtRest(s.jvm.phase)
      && (s.jvm.phase == Active && !s.unreachable ==> s.jvm.cell == s.handle)
      && (s.jvm.phase == Finished ==> s.jvm.cell == 0)
    case WriteReady => s.jvm == Session(Writing, s.handle)
    case WriteInside => s.jvm == Session(Writing, s.handle)
    case WriteOwing(_) => s.jvm == Session(Writing, s.handle)
    case WriteReturned(_) => s.jvm == Session(Writing, s.handle)
    case FinishReady(t) => s.jvm == Session(Finishing, 0) && t == s.handle
    case FinishInside(t) => s.jvm == Session(Finishing, 0) && t == s.handle
    case FinishUnlinked(t) => s.jvm == Session(Finishing, 0) && t == s.handle && s.spent
    case FinishOwing(t, _) => s.jvm == Session(Finishing, 0) && t == s.handle && s.spent
    case FinishReturned(t, ok) => s.jvm == Session(Finishing, 0) && t == s.handle && (ok ==> s.spent)
    case Releasing(t, cleaner) =>
      s.jvm.cell == 0 && t == s.handle && AtRest(s.jvm.phase) && (cleaner || s.jvm.phase == Failed) && (cleaner <==> s.unreachable)
    case Destroying(cleaner) =>
      s.jvm.cell == 0 && s.spent && AtRest(s.jvm.phase) && (cleaner || s.jvm.phase == Failed) && (cleaner <==> s.unreachable)
    case ReleaseThrew(t) => s.jvm == Session(Failed, 0) && t == s.handle && !s.unreachable
    case ReleaseDone =>
      s.jvm.cell == 0 && s.spent && (s.jvm.phase == Failed || s.jvm.phase == Finished) && !s.unreachable
  }

  /** The kind of native frame that belongs to each point of a call. */
  ghost predicate FrameOk(s: State) {
    if s.frame in s.native.frames then
      var own := s.native.frames[s.frame];
      match s.call
      case Idle => true
      case WriteInside => own.Holding?
      case WriteOwing(_) => own.Owing?
      case FinishInside(token) => own.Finishing? && own.handle == token
      case FinishUnlinked(_) => own.Holding? && Native.ReleasedFrame(s.native, s.frame)
      case FinishOwing(_, _) => own.Owing?
      case Destroying(_) => own.Owing?
      case _ => false
    else
      !s.call.WriteInside? && !s.call.WriteOwing? && !s.call.FinishInside? && !s.call.FinishUnlinked?
      && !s.call.FinishOwing? && !s.call.Destroying?
  }

  /** The session's handle: issued, its own record's, and dead once this session has unlinked it. */
  ghost predicate HandleOk(s: State) {
    && s.session < s.native.opens
    && (s.session in s.native.registry.heap ==> s.native.registry.heap[s.session].handle == s.handle)
    && (s.native.wraps == 0 ==>
          && s.handle < s.native.registry.next
          && (s.spent ==> Lookup(s.native.registry, s.handle) == None))
  }

  ghost predicate Inv(s: State) {
    Native.Inv(s.native) && TokenOk(s) && FrameOk(s) && HandleOk(s)
  }

  /** The native step a step of the session consists of, if any. */
  function NativePart(s: State, step: Step): Option<Native.Step> {
    match step
    case Foreign(n) => Some(n)
    case WriteEnter => Some(Native.Acquire(s.frame, s.jvm.cell))
    case WriteLeave(_) => Some(Native.Drop(s.frame))
    case WriteDestroy => Some(Native.Destroy(s.frame))
    case FinishEnter => if s.call.FinishReady? then Some(Native.AcquireToFinish(s.frame, s.call.token)) else None
    case FinishUnlink => Some(Native.UnlinkOwn(s.frame))
    case FinishLeave(_) => Some(Native.Drop(s.frame))
    case FinishDestroy => Some(Native.Destroy(s.frame))
    case Release => if s.call.Releasing? then Some(Native.Remove(s.frame, s.call.token)) else None
    case DestroyReleased => Some(Native.Destroy(s.frame))
    case _ => None
  }

  lemma NativePartIsNext(s: State, step: Step)
    requires Enabled(s, step)
    ensures var n := NativePart(s, step);
      && (n.Some? ==> Native.Enabled(s.native, n.value) && Next(s, step).native == Native.Next(s.native, n.value))
      && (n.None? ==> Next(s, step).native == s.native)
  {
    hide Native.Next, Native.Enabled;
  }

  lemma StepKeepsNative(s: State, step: Step)
    requires Inv(s) && Enabled(s, step)
    ensures Native.Inv(Next(s, step).native)
  {
    hide Native.Inv, Native.Next, Native.Enabled, TokenOk, FrameOk, HandleOk;
    NativePartIsNext(s, step);
    if NativePart(s, step).Some? { Native.StepKeeps(s.native, NativePart(s, step).value); }
  }

  /** Unlinking leaves the handle dead. */
  lemma UnlinkKillsHandle(n: Native.State, step: Native.Step, handle: int)
    requires Native.Inv(n) && Native.Enabled(n, step)
    requires (step.UnlinkOwn? && n.frames[step.frame].handle == handle) || (step.Remove? && step.handle == handle)
    ensures Lookup(Native.Next(n, step).registry, handle) == None
  {
    Native.InvWellFormed(n);
    hide Native.Inv, WellFormed, Lookup, Removed;
    RemovedOk(n.registry, handle);
  }

  lemma NativeCounterGrows(n: Native.State, step: Native.Step)
    requires Native.Enabled(n, step) && Native.Next(n, step).wraps == n.wraps
    ensures n.registry.next <= Native.Next(n, step).registry.next
  {
    hide Lookup, Find, Reserves;
  }

  lemma StepKeepsHandle(s: State, step: Step)
    requires Inv(s) && Enabled(s, step)
    ensures HandleOk(Next(s, step))
  {
    hide Native.Inv, Native.Next, Lookup, WellFormed;
    NativePartIsNext(s, step);
    var n := NativePart(s, step);
    if n.Some? {
      Native.HandlesStay(s.native, n.value, s.session);
      if Native.Next(s.native, n.value).wraps == 0 {
        NativeCounterGrows(s.native, n.value);
        if s.spent {
          Native.DeadStep(s.native, n.value, s.handle);
        }
        if step.FinishUnlink? || step.Release? {
          UnlinkKillsHandle(s.native, n.value, s.handle);
        }
      }
    }
  }

  predicate OfWrite(step: Step) {
    step.Write? || step.WriteEnter? || step.WriteLeave? || step.WriteDestroy? || step.WriteEnd?
  }

  predicate OfFinish(step: Step) {
    step.Finish? || step.FinishEnter? || step.FinishUnlink? || step.FinishLeave? || step.FinishDestroy? || step.FinishEnd?
  }

  lemma StepKeepsFrame(s: State, step: Step)
    requires Inv(s) && Enabled(s, step) && !step.Foreign?
    ensures FrameOk(Next(s, step))
  {
    hide Inv, Enabled, Next, FrameOk;
    if OfWrite(step) {
      WriteKeepsFrame(s, step);
    } else if OfFinish(step) {
      FinishKeepsFrame(s, step);
    } else {
      ReleaseKeepsFrame(s, step);
    }
  }

  lemma WriteKeepsFrame(s: State, step: Step)
    requires Inv(s) && Enabled(s, step) && OfWrite(step)
    ensures FrameOk(Next(s, step))
  {
    hide Native.Inv, Native.Next, Native.Enabled, HandleOk, TokenOk;
    NativePartIsNext(s, step);
    var n := NativePart(s, step);
    if n.Some? { Native.OwnFrameAfter(s.native, n.value); }
  }

  lemma FinishKeepsFrame(s: State, step: Step)
    requires Inv(s) && Enabled(s, step) && OfFinish(step)
    ensures FrameOk(Next(s, step))
  {
    hide Native.Inv, Native.Next, Native.Enabled, HandleOk, TokenOk;
    NativePartIsNext(s, step);
    var n := NativePart(s, step);
    if n.Some? { Native.OwnFrameAfter(s.native, n.value); }
  }

  lemma ReleaseKeepsFrame(s: State, step: Step)
    requires Inv(s) && Enabled(s, step) && !step.Foreign? && !OfWrite(step) && !OfFinish(step)
    ensures FrameOk(Next(s, step))
  {
    hide Native.Inv, Native.Next, Native.Enabled, HandleOk, TokenOk;
    NativePartIsNext(s, step);
    var n := NativePart(s, step);
    if n.Some? { Native.OwnFrameAfter(s.native, n.value); }
  }

  lemma StepKeepsToken(s: State, step: Step)
    requires Inv(s) && Enabled(s, step) && !step.Foreign?
    ensures TokenOk(Next(s, step))
  {
    hide Native.Inv, Native.Next, Native.Enabled, HandleOk, FrameOk, ForeignOk;
  }

  lemma ForeignKeepsCall(s: State, n: Native.Step)
    requires Inv(s) && Enabled(s, Foreign(n))
    ensures TokenOk(Next(s, Foreign(n))) && FrameOk(Next(s, Foreign(n)))
  {
    hide Native.Inv, Native.Next, HandleOk;
    if !s.call.Idle? {
      Native.OtherFramesStay(s.native, n, s.frame);
      if s.call.FinishUnlinked? && s.frame in s.native.frames { Native.ReleasedFrameStays(s.native, n, s.frame); }
    }
  }

  /** Every step of the session and of everybody else keeps the invariant. */
  lemma StepKeeps(s: State, step: Step)
    requires Inv(s) && Enabled(s, step)
    ensures Inv(Next(s, step))
  {
    StepKeepsNative(s, step);
    StepKeepsHandle(s, step);
    if step.Foreign? {
      ForeignKeepsCall(s, step.step);
    } else {
      StepKeepsToken(s, step);
      StepKeepsFrame(s, step);
    }
  }

  // -------------------------------------------------------------- whole runs

  ghost predicate Run(states: seq<State>, steps: seq<Step>) {
    && |states| == |steps| + 1
    && Initial(states[0])
    && forall i :: 0 <= i < |steps| ==> Enabled(states[i], steps[i]) && states[i + 1] == Next(states[i], steps[i])
  }

  lemma InitialInv(s: State)
    requires Initial(s)
    ensures Inv(s)
  {
    Native.InvWellFormed(s.native);
    var i := Find(s.native.registry.entries, s.handle);
    EntryIsOk(s.native.registry, i);
  }

  lemma {:induction false} RunInv(states: seq<State>, steps: seq<Step>, i: nat)
    requires Run(states, steps) && i < |states|
    ensures Inv(states[i])
  {
    hide Inv, Initial, Next, Enabled;
    if i == 0 {
      InitialInv(states[0]);
    } else {
      RunInv(states, steps, i - 1);
      StepKeeps(states[i - 1], steps[i - 1]);
    }
  }

  /**
    A session at rest without its token (finished, or failed and released) has had its
    native context destroyed exactly once, as soon as no foreign call is still inside
    it; in every interleaving, before the handle counter wraps.
   */
  lemma DestroyedExactlyOnce(states: seq<State>, steps: seq<Step>, i: nat)
    requires Run(states, steps) && i < |states| && states[i].native.wraps == 0
    requires states[i].call == Idle && states[i].jvm.cell == 0 && !states[i].lost
    requires !Native.Engaged(states[i].native, states[i].session)
    ensures states[i].session in states[i].native.destroyed
    ensures forall a, b :: 0 <= a < b < |states[i].native.destroyed| ==>
      states[i].native.destroyed[a] != states[i].native.destroyed[b]
    ensures !states[i].native.fault
  {
    RunInv(states, steps, i);
    var s := states[i];
    assert s.spent;
    if s.session in s.native.registry.heap {
      LiveResolves(s.native.registry, s.session, s.handle);
    }
  }

  /** As with a decoder, the token is lost exactly when the release fails that the cleaner makes. */
  lemma LosesIff(s: State, step: Step)
    requires Enabled(s, step) && !s.lost
    ensures Next(s, step).lost <==> step.ReleaseFails? && s.call.cleaner
  {
  }

  /**
    When the native finish has consumed the handle and then fails, the fallback release
    of the same handle changes nothing: no record is unlinked and none is destroyed again.
   */
  lemma FallbackAfterFinishIsHarmless(s: State)
    requires Inv(s) && s.spent && s.native.wraps == 0 && Enabled(s, Release)
    ensures Next(s, Release).native.registry == s.native.registry
    ensures Next(s, Release).native.frames == s.native.frames
    ensures Next(s, Release).call == AfterRelease(s.call.cleaner)
  {
    Native.InvWellFormed(s.native);
    hide Native.Inv, WellFormed, Lookup, Removed, TokenOk, FrameOk, Find;
    RemovedOk(s.native.registry, s.handle);
  }

  /** The finish call that has unlinked its handle destroys the context itself, whether finishing worked or not. */
  lemma FinisherDestroys(s: State, ok: bool)
    requires Inv(s) && Enabled(s, FinishLeave(ok))
    ensures Next(s, FinishLeave(ok)).call == FinishOwing(s.call.token, ok)
  {
    hide Native.Inv, HandleOk, Native.Next;
    Native.OwnFrameAfter(s.native, Native.Drop(s.frame));
  }

  /** A failed write or finish always goes on to a release, and leaves no token in the cell meanwhile. */
  lemma FailureReleases(s: State, step: Step)
    requires Inv(s) && Enabled(s, step)
    requires step == WriteEnd || step == FinishEnd
    requires !s.call.ok
    ensures Next(s, step).call == Releasing(s.handle, false) && Next(s, step).jvm == Session(Failed, 0)
  {
    hide Native.Inv, HandleOk;
  }

  /** The "lost ownership" check of finish never fails, and a failed session retries only its release. */
  lemma FinishChoices(s: State, f: nat)
    requires Inv(s) && Enabled(s, Finish(f))
    ensures FinishBegun(s.jvm).1 ==
      if s.jvm.phase == Active then Finalise(s.handle)
      else if s.jvm.phase == Failed && s.jvm.cell == s.handle then Abandon(s.handle)
      else Nothing
  {
    hide Native.Inv, HandleOk;
  }

  // ------------------------------------------------------- what calls answer

  /**
    A write is let in exactly when the session is active; it keeps the token in the cell.
    Refused, it changes nothing.
   */
  lemma WriteAnswer(s: State, f: nat)
    requires Inv(s) && Enabled(s, Write(f))
    ensures Next(s, Write(f)).call == WriteReady <==> s.jvm.phase == Active
    ensures Next(s, Write(f)) ==
      if s.jvm.phase == Active then s.(jvm := Session(Writing, s.handle), call := WriteReady, frame := f) else s
  {
    hide Native.Inv, HandleOk, Native.Next, Native.Enabled;
  }

  /** A good write leaves the session active with its token; a failed one gives it up and goes on to the release. */
  lemma WriteEndAnswer(s: State)
    requires Inv(s) && Enabled(s, WriteEnd)
    ensures Next(s, WriteEnd) ==
      if s.call.ok then s.(jvm := Session(Active, s.handle), call := Idle)
      else s.(jvm := Session(Failed, 0), call := Releasing(s.handle, false))
  {
    hide Native.Inv, HandleOk, Native.Next, Native.Enabled;
  }

  /**
    A finish call takes the token of an active session to finalise it, that of a failed one to
    release it, and ignores the rest.
   */
  lemma FinishAnswer(s: State, f: nat)
    requires Inv(s) && Enabled(s, Finish(f))
    ensures Next(s, Finish(f)) ==
      if s.jvm.phase == Active then s.(jvm := Session(Finishing, 0), call := FinishReady(s.handle), frame := f)
      else if s.jvm == Session(Failed, s.handle) then
        s.(jvm := Session(Failed, 0), call := Releasing(s.handle, false), frame := f)
      else s
  {
    hide Native.Inv, HandleOk, Native.Next, Native.Enabled;
  }

  /** A good finish is final; a failed one leaves a failed session and goes on to the fallback release. */
  lemma FinishEndAnswer(s: State)
    requires Inv(s) && Enabled(s, FinishEnd)
    ensures Next(s, FinishEnd) ==
      if s.call.ok then s.(jvm := Session(Finished, 0), call := ReleaseDone)
      else s.(jvm := Session(Failed, 0), call := Releasing(s.handle, false))
  {
    hide Native.Inv, HandleOk, Native.Next, Native.Enabled;
  }

  /** How a native write or finish ended is what the session's call goes on with. */
  lemma ResultIsKept(s: State, ok: bool)
    requires Inv(s)
    ensures Enabled(s, WriteLeave(ok)) ==> Next(s, WriteLeave(ok)).call in {WriteOwing(ok), WriteReturned(ok)}
    ensures Enabled(s, WriteDestroy) ==> Next(s, WriteDestroy).call == WriteReturned(s.call.ok)
    ensures Enabled(s, FinishDestroy) ==> Next(s, FinishDestroy).call == FinishReturned(s.handle, s.call.ok)
  {
    hide Native.Inv, Native.Next, Native.Enabled, HandleOk;
  }

  /** A native call that finds no idle session under the handle is a failed one. */
  lemma NotLetIn(s: State)
    requires Inv(s) && Acquired(s.native.registry, s.handle).1.None?
    ensures Enabled(s, WriteEnter) ==> Next(s, WriteEnter).call == WriteReturned(false)
    ensures Enabled(s, FinishEnter) ==> Next(s, FinishEnter).call == FinishReturned(s.handle, false)
  {
    hide Native.Inv, HandleOk, Acquired;
  }

  /** The cleaner takes whatever token is in the cell, once. */
  lemma CleanerAnswer(s: State, f: nat)
    requires Inv(s) && Enabled(s, CleanerRuns(f))
    ensures Next(s, CleanerRuns(f)) ==
      s.(frame := f, cleanerArmed := false, jvm := Session(s.jvm.phase, 0),
         call := if s.jvm.cell == s.handle then Releasing(s.handle, true) else Idle)
    ensures !Enabled(Next(s, CleanerRuns(f)), CleanerRuns(f))
  {
    hide Native.Inv, HandleOk, Native.Next, Native.Enabled;
  }

  /**
    After a release that threw, the failed session has its token back, and the next finish
    call retries the release.
   */
  lemma FailedReleaseCanBeRetried(s: State, f: nat)
    requires Inv(s) && Enabled(s, Restore) && f !in s.native.frames
    ensures var s1 := Next(s, Restore);
      && s1.jvm == Session(Failed, s.handle) && s1.call == Idle
      && Enabled(s1, Finish(f)) && Next(s1, Finish(f)).call == Releasing(s.handle, false)
  {
    hide Native.Inv, HandleOk, Native.Next, Native.Enabled;
  }

  // ------------------------------------------------ runs that go to the end

  /** The steps can be taken one after the other, and lead there. */
  ghost predicate Leads(s: State, steps: seq<Step>, end: State)
    decreases |steps|
  {
    if steps == [] then s == end else Enabled(s, steps[0]) && Leads(Next(s, steps[0]), steps[1..], end)
  }

  lemma LeadsOn(s: State, step: Step, rest: seq<Step>, end: State)
    requires Enabled(s, step) && Leads(Next(s, step), rest, end)
    ensures Leads(s, [step] + rest, end)
  {
    assert ([step] + rest)[1..] == rest;
  }

  lemma {:induction false} LeadsFurther(s: State, steps: seq<Step>, middle: State, more: seq<Step>, end: State)
    requires Leads(s, steps, middle) && Leads(middle, more, end)
    ensures Leads(s, steps + more, end)
    decreases |steps|
  {
    hide Enabled, Next;
    if steps == [] {
      assert steps + more == more;
    } else {
      LeadsFurther(Next(s, steps[0]), steps[1..], middle, more, end);
      assert (steps + more)[1..] == steps[1..] + more;
    }
  }

  lemma LeadsStep(s: State, steps: seq<Step>, middle: State, step: Step)
    requires Leads(s, steps, middle) && Enabled(middle, step)
    ensures Leads(s, steps + [step], Next(middle, step))
  {
    var end := Next(middle, step);
    assert Leads(end, [], end);
    LeadsOn(middle, step, [], end);
    assert [step] + [] == [step];
    LeadsFurther(s, steps, middle, [step], end);
  }

  /** From an opened session such a path is a run. */
  lemma {:induction false} LeadsIsRun(s: State, steps: seq<Step>, end: State) returns (states: seq<State>)
    requires Leads(s, steps, end)
    ensures |states| == |steps| + 1 && states[0] == s && states[|steps|] == end
    ensures forall i :: 0 <= i < |steps| ==> Enabled(states[i], steps[i]) && states[i + 1] == Next(states[i], steps[i])
    ensures Initial(s) ==> Run(states, steps)
    decreases |steps|
  {
    hide Initial;
    if steps == [] {
      states := [s];
    } else {
      var rest := LeadsIsRun(Next(s, steps[0]), steps[1..], end);
      states := [s] + rest;
      forall i | 0 <= i < |steps|
        ensures Enabled(states[i], steps[i]) && states[i + 1] == Next(states[i], steps[i])
      {
        if i > 0 {
          assert states[i] == rest[i - 1] && states[i + 1] == rest[i] && steps[i] == steps[1..][i - 1];
        }
      }
    }
  }

  /** An open session between two calls, with nobody inside its native record. */
  ghost predicate Ready(s: State, f: nat) {
    && Inv(s) && s.call == Idle && s.jvm.phase == Active && !s.unreachable && f !in s.native.frames
    && Lookup(s.native.registry, s.handle) == Some(s.session)
    && s.session in s.native.registry.heap && s.native.registry.heap[s.session].references == 0
  }

  ghost function GoodWrite(f: nat): seq<Step> {
    [Write(f), WriteEnter, WriteLeave(true), WriteEnd]
  }

  /** A good write runs through and leaves everything as it was: the session can be used again. */
  lemma GoodWriteIsNeutral(s: State, f: nat)
    requires Ready(s, f)
    ensures Leads(s, GoodWrite(f), s.(frame := f)) && Ready(s.(frame := f), f)
  {
    hide Ready, Leads, Enabled, Next;
    var begun := WriteBegins(s, f);
    var inside, returned := WriteTrip(s, begun, f);
    NothingLeads(s);
    LeadsStep(s, [], s, Write(f));
    LeadsStep(s, [] + [Write(f)], begun, WriteEnter);
    LeadsStep(s, [] + [Write(f)] + [WriteEnter], inside, WriteLeave(true));
    LeadsStep(s, [] + [Write(f)] + [WriteEnter] + [WriteLeave(true)], returned, WriteEnd);
    assert [] + [Write(f)] + [WriteEnter] + [WriteLeave(true)] + [WriteEnd] == GoodWrite(f);
  }

  lemma NothingLeads(s: State)
    ensures Leads(s, [], s)
  {
  }

  lemma WriteBegins(s: State, f: nat) returns (begun: State)
    requires Ready(s, f)
    ensures Enabled(s, Write(f)) && begun == Next(s, Write(f)) && s.jvm == Session(Active, s.handle) && s.handle > 0
    ensures begun == s.(jvm := Session(Writing, s.handle), call := WriteReady, frame := f)
  {
    WriteAnswer(s, f);
    begun := Next(s, Write(f));
    hide Native.Inv, HandleOk, Native.Next, Native.Enabled, Lookup;
  }

  /** In and out of the native encoder: the registry and its frames are as before. */
  lemma WriteTrip(s: State, begun: State, f: nat) returns (inside: State, returned: State)
    requires Ready(s, f) && s.jvm == Session(Active, s.handle) && s.handle > 0
    requires begun == s.(jvm := Session(Writing, s.handle), call := WriteReady, frame := f)
    ensures Enabled(begun, WriteEnter) && inside == Next(begun, WriteEnter)
    ensures Enabled(inside, WriteLeave(true)) && returned == Next(inside, WriteLeave(true))
    ensures Enabled(returned, WriteEnd) && Next(returned, WriteEnd) == s.(frame := f)
    ensures Ready(s.(frame := f), f)
  {
    hide Native.Inv, HandleOk, Native.Next, Native.Enabled, Lookup;
    Native.AcquireThenDrop(s.native, f, s.handle, s.session);
    inside := Next(begun, WriteEnter);
    returned := Next(inside, WriteLeave(true));
    SameHandle(s, s.(frame := f));
  }

  lemma SameHandle(s: State, s': State)
    requires HandleOk(s) && s' == s.(frame := s'.frame)
    ensures HandleOk(s')
  {
  }

  ghost function GoodFinish(f: nat): seq<Step> {
    [Finish(f), FinishEnter, FinishUnlink, FinishLeave(true), FinishDestroy, FinishEnd, CleanNow]
  }

  /** A good finish destroys the native context, takes its handle out of the table and leaves a finished session. */
  lemma GoodFinishCompletes(s: State, f: nat) returns (end: State)
    requires Ready(s, f)
    ensures Leads(s, GoodFinish(f), end)
    ensures end.jvm == Session(Finished, 0) && end.call == Idle && end.spent && !end.cleanerArmed
    ensures end.native.destroyed == s.native.destroyed + [s.session] && end.native.frames == s.native.frames
    ensures Lookup(end.native.registry, s.handle) == None && end.session == s.session && !end.native.fault
  {
    hide Ready, Native.Inv, Native.ReleasedFrame, Leads, Enabled, Next, Lookup;
    var unlinked := FinishUnlinks(s, f);
    var done := FinishFrees(unlinked, f);
    end := FinishWindsUp(done);
    assert unlinked.native.frames - {f} == s.native.frames by { FrameFree(s, f); }
    LeadsFurther(s, [Finish(f), FinishEnter, FinishUnlink], unlinked, [FinishLeave(true), FinishDestroy], done);
    LeadsFurther(s, [Finish(f), FinishEnter, FinishUnlink] + [FinishLeave(true), FinishDestroy], done,
                 [FinishEnd, CleanNow], end);
    assert GoodFinish(f) ==
      [Finish(f), FinishEnter, FinishUnlink] + [FinishLeave(true), FinishDestroy] + [FinishEnd, CleanNow];
  }

  lemma FrameFree(s: State, f: nat)
    requires Ready(s, f)
    ensures f !in s.native.frames
  {
  }

  lemma FinishBegins(s: State, f: nat)
    requires Ready(s, f)
    ensures Enabled(s, Finish(f)) && s.handle > 0
    ensures Next(s, Finish(f)) == s.(jvm := Session(Finishing, 0), call := FinishReady(s.handle), frame := f)
  {
    FinishAnswer(s, f);
    hide Native.Inv, HandleOk, Native.Next, Native.Enabled, Lookup;
  }

  lemma NativeReady(s: State, f: nat)
    requires Ready(s, f) && s.handle > 0
    ensures var n := s.native; Native.Inv(n) && f !in n.frames && Native.Enabled(n, Native.AcquireToFinish(f, s.handle))
    ensures var taken := Native.Next(s.native, Native.AcquireToFinish(f, s.handle));
      && taken.frames == s.native.frames[f := Native.Finishing(s.session, s.handle)]
      && Native.Enabled(taken, Native.UnlinkOwn(f))
      && var unlinked := Native.Next(taken, Native.UnlinkOwn(f));
      && Native.Inv(unlinked) && unlinked.frames == s.native.frames[f := Native.Holding(s.session)]
      && Native.ReleasedFrame(unlinked, f)
      && unlinked.destroyed == s.native.destroyed && Lookup(unlinked.registry, s.handle) == None
  {
    hide Native.Inv, Native.Next, Native.ReleasedFrame, Lookup, HandleOk, TokenOk, FrameOk;
    Native.AcquireThenUnlink(s.native, f, s.handle, s.session);
  }

  lemma FinishUnlinks(s: State, f: nat) returns (unlinked: State)
    requires Ready(s, f)
    ensures Leads(s, [Finish(f), FinishEnter, FinishUnlink], unlinked)
    ensures unlinked == s.(native := unlinked.native, jvm := Session(Finishing, 0), call := FinishUnlinked(s.handle),
                           frame := f, spent := true)
    ensures Native.Inv(unlinked.native) && Native.ReleasedFrame(unlinked.native, f)
    ensures unlinked.native.frames == s.native.frames[f := Native.Holding(s.session)]
    ensures unlinked.native.destroyed == s.native.destroyed && Lookup(unlinked.native.registry, s.handle) == None
  {
    hide Ready, Native.Inv, Native.Next, Native.Enabled, Native.ReleasedFrame, Leads, Lookup;
    FinishBegins(s, f);
    NativeReady(s, f);
    var begun := Next(s, Finish(f));
    NothingLeads(s);
    LeadsStep(s, [], s, Finish(f));
    var inside := Next(begun, FinishEnter);
    LeadsStep(s, [] + [Finish(f)], begun, FinishEnter);
    unlinked := Next(inside, FinishUnlink);
    LeadsStep(s, [] + [Finish(f)] + [FinishEnter], inside, FinishUnlink);
    assert [] + [Finish(f)] + [FinishEnter] + [FinishUnlink] == [Finish(f), FinishEnter, FinishUnlink];
  }

  lemma FinishFrees(s: State, f: nat) returns (done: State)
    requires s.call == FinishUnlinked(s.handle) && s.frame == f && Native.Inv(s.native)
    requires f in s.native.frames && s.native.frames[f] == Native.Holding(s.session)
    requires Native.ReleasedFrame(s.native, f) && Lookup(s.native.registry, s.handle) == None
    ensures Leads(s, [FinishLeave(true), FinishDestroy], done)
    ensures done == s.(native := done.native, call := FinishReturned(s.handle, true))
    ensures done.native.frames == s.native.frames - {f} && done.native.destroyed == s.native.destroyed + [s.session]
    ensures Lookup(done.native.registry, s.handle) == None && !done.native.fault
  {
    hide Native.Inv, Native.Next, Native.Enabled, Leads, Lookup;
    Native.DropThenDestroy(s.native, f, s.handle, s.session);
    var owing := Next(s, FinishLeave(true));
    done := Next(owing, FinishDestroy);
    NothingLeads(s);
    LeadsStep(s, [], s, FinishLeave(true));
    LeadsStep(s, [] + [FinishLeave(true)], owing, FinishDestroy);
    assert [] + [FinishLeave(true)] + [FinishDestroy] == [FinishLeave(true), FinishDestroy];
  }

  lemma FinishWindsUp(s: State) returns (end: State)
    requires s.call == FinishReturned(s.handle, true) && s.jvm.cell == 0
    ensures Leads(s, [FinishEnd, CleanNow], end)
    ensures end == s.(jvm := Session(Finished, 0), call := Idle, cleanerArmed := false)
  {
    hide Native.Next, Native.Enabled, Leads;
    var ended := Next(s, FinishEnd);
    end := Next(ended, CleanNow);
    NothingLeads(s);
    LeadsStep(s, [], s, FinishEnd);
    LeadsStep(s, [] + [FinishEnd], ended, CleanNow);
    assert [] + [FinishEnd] + [CleanNow] == [FinishEnd, CleanNow];
  }

  /** A forgotten session is destroyed by the cleaner. */
  lemma ForgottenIsDestroyed(s: State, f: nat) returns (end: State)
    requires Inv(s) && Enabled(s, CleanerRuns(f)) && s.jvm.cell == s.handle
    requires Lookup(s.native.registry, s.handle) == Some(s.session)
    requires s.session in s.native.registry.heap && s.native.registry.heap[s.session].references == 0
    ensures Leads(s, [CleanerRuns(f), Release, DestroyReleased], end)
    ensures end.call == Idle && end.jvm == Session(s.jvm.phase, 0) && end.spent && end.lost == s.lost
    ensures end.native.destroyed == s.native.destroyed + [s.session] && end.native.frames == s.native.frames
  {
    hide Inv, Native.Inv, Enabled, Next, Leads, Lookup;
    var taken := CleanerBegins(s, f);
    var destroying, gone := ReleaseSteps(taken, true);
    end := gone;
    NothingLeads(s);
    LeadsStep(s, [], s, CleanerRuns(f));
    LeadsStep(s, [] + [CleanerRuns(f)], taken, Release);
    LeadsStep(s, [] + [CleanerRuns(f)] + [Release], destroying, DestroyReleased);
    assert [] + [CleanerRuns(f)] + [Release] + [DestroyReleased] == [CleanerRuns(f), Release, DestroyReleased];
  }

  lemma CleanerBegins(s: State, f: nat) returns (taken: State)
    requires Inv(s) && Enabled(s, CleanerRuns(f)) && s.jvm.cell == s.handle
    ensures taken == Next(s, CleanerRuns(f)) && s.handle > 0 && Native.Inv(s.native) && f !in s.native.frames
    ensures taken == s.(frame := f, cleanerArmed := false, jvm := Session(s.jvm.phase, 0), call := Releasing(s.handle, true))
  {
    hide HandleOk, FrameOk, Native.Inv, Native.Next, Native.Enabled;
    CleanerAnswer(s, f);
    taken := Next(s, CleanerRuns(f));
  }

  /** Release and destruction of a session that nobody is inside. */
  lemma ReleaseSteps(s: State, cleaner: bool) returns (destroying: State, gone: State)
    requires Native.Inv(s.native) && s.handle > 0 && s.frame !in s.native.frames
    requires s.call == Releasing(s.handle, cleaner) && Lookup(s.native.registry, s.handle) == Some(s.session)
    requires s.session in s.native.registry.heap && s.native.registry.heap[s.session].references == 0
    ensures Enabled(s, Release) && destroying == Next(s, Release)
    ensures Enabled(destroying, DestroyReleased) && gone == Next(destroying, DestroyReleased)
    ensures gone == s.(native := gone.native, call := AfterRelease(cleaner), spent := true)
    ensures gone.native.destroyed == s.native.destroyed + [s.session] && gone.native.frames == s.native.frames
  {
    hide Native.Inv, Native.Next, Native.Enabled, Lookup;
    Native.RemoveThenDestroy(s.native, s.frame, s.handle, s.session);
    destroying := Next(s, Release);
    gone := Next(destroying, DestroyReleased);
  }

  /** A failed write destroys the session's context, once, and is done. */
  lemma FailedWriteDestroys(s: State) returns (end: State)
    requires Inv(s) && s.call == WriteReturned(false)
    requires Lookup(s.native.registry, s.handle) == Some(s.session)
    requires s.session in s.native.registry.heap && s.native.registry.heap[s.session].references == 0
    ensures Leads(s, [WriteEnd, Release, DestroyReleased, CleanNow], end)
    ensures end.call == Idle && end.jvm == Session(Failed, 0) && end.spent && !end.cleanerArmed
    ensures end.native.destroyed == s.native.destroyed + [s.session] && end.native.frames == s.native.frames
  {
    hide Inv, Native.Inv, Enabled, Next, Leads, Lookup;
    var failed := WriteFails(s);
    var destroying, gone := ReleaseSteps(failed, false);
    end := CleanerIsSpent(gone);
    NothingLeads(s);
    LeadsStep(s, [], s, WriteEnd);
    LeadsStep(s, [] + [WriteEnd], failed, Release);
    LeadsStep(s, [] + [WriteEnd] + [Release], destroying, DestroyReleased);
    LeadsStep(s, [] + [WriteEnd] + [Release] + [DestroyReleased], gone, CleanNow);
    assert [] + [WriteEnd] + [Release] + [DestroyReleased] + [CleanNow] == [WriteEnd, Release, DestroyReleased, CleanNow];
  }

  lemma WriteFails(s: State) returns (failed: State)
    requires Inv(s) && s.call == WriteReturned(false)
    ensures Enabled(s, WriteEnd) && failed == Next(s, WriteEnd)
    ensures failed == s.(jvm := Session(Failed, 0), call := Releasing(s.handle, false))
    ensures s.handle > 0 && Native.Inv(s.native) && s.frame !in s.native.frames
  {
    hide HandleOk, Native.Inv, Native.Next, Native.Enabled;
    failed := Next(s, WriteEnd);
  }

  lemma CleanerIsSpent(s: State) returns (end: State)
    requires s.call == ReleaseDone && s.jvm.cell == 0
    ensures Enabled(s, CleanNow) && end == Next(s, CleanNow)
    ensures end == s.(call := Idle, cleanerArmed := false)
  {
    end := Next(s, CleanNow);
  }

  /**
    From every opened session that nobody else is inside: two writes and a finish, and the
    context is destroyed, once.
   */
  lemma WriteTwiceThenFinish(s: State, f: nat) returns (end: State)
    requires Initial(s) && f !in s.native.frames
    requires s.session in s.native.registry.heap && s.native.registry.heap[s.session].references == 0
    ensures Leads(s, GoodWrite(f) + (GoodWrite(f) + GoodFinish(f)), end)
    ensures end.jvm == Session(Finished, 0) && end.call == Idle
    ensures end.native.destroyed == s.native.destroyed + [s.session] && end.native.frames == s.native.frames
  {
    InitialInv(s);
    assert Ready(s, f);
    hide Inv, Initial, Ready, Leads;
    var again := s.(frame := f);
    GoodWriteIsNeutral(s, f);
    GoodWriteIsNeutral(again, f);
    end := GoodFinishCompletes(again, f);
    assert again.(frame := f) == again;
    LeadsFurther(again, GoodWrite(f), again, GoodFinish(f), end);
    LeadsFurther(s, GoodWrite(f), again, GoodWrite(f) + GoodFinish(f), end);
  }

  /**
    In every interleaving, while the session's own native frame works on its record,
    which is the only time its callbacks run, a call made into the session from there
    is refused or ignored and changes nothing.
   */
  lemma CallbacksChangeNothing(states: seq<State>, steps: seq<Step>, i: nat)
    requires Run(states, steps) && i < |states|
    requires states[i].call != Idle && states[i].frame in states[i].native.frames
    requires !states[i].native.frames[states[i].frame].Owing?
    ensures WriteBegun(states[i].jvm) == (states[i].jvm, false)
    ensures FinishBegun(states[i].jvm).0 == states[i].jvm
    ensures FinishBegun(states[i].jvm).1 == if states[i].call.WriteInside? then Refused else Nothing
  {
    RunInv(states, steps, i);
    hide Native.Inv, HandleOk;
    ReentryIsHarmless(states[i].jvm);
  }
}
