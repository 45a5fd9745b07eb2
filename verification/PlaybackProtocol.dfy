/**
 * The playback session: control threads request seeks, pauses and a close
 * under a monitor, one worker opens, reads and drains, and every locked
 * section is one step.
 */
module PlaybackSession {
  import opened Arithmetic
  import opened Wrappers

  datatype State = NEW | LOADING | PLAYING | PAUSED | DRAINING | ENDED | FAILED | CLOSED

  predicate IsTerminal(state: State) {
    state in {ENDED, FAILED, CLOSED}
  }

  /** What the monitor protects. */
  datatype Monitor = Monitor(state: State, pauseRequested: bool, closeRequested: bool, pendingSeekFrame: Option<nat>,
                             seekRevision: nat)

  function Initial(): Monitor {
    Monitor(NEW, false, false, None, 0)
  }

  predicate Controllable(m: Monitor) {
    m.state != NEW && !IsTerminal(m.state) && !m.closeRequested
  }

  /** A request for a position; past the last revision it fails half-way, with the frame already stored. */
  function Requested(m: Monitor, frame: nat): Monitor {
    var stored := m.(pendingSeekFrame := Some(frame));
    if m.seekRevision >= LONG_MAX then stored else stored.(seekRevision := m.seekRevision + 1, state := LOADING)
  }

  /** What the worker sees when it asks for its next input. */
  datatype Take = TakeNothing | TakeMissing | TakeRequest(frame: nat, revision: nat)

  function TakeOf(m: Monitor): Take {
    if m.closeRequested then TakeNothing
    else if m.pendingSeekFrame.None? then TakeMissing
    else TakeRequest(m.pendingSeekFrame.value, m.seekRevision)
  }

  function Taken(m: Monitor): Monitor {
    if TakeOf(m).TakeRequest? then m.(pendingSeekFrame := None, state := LOADING) else m
  }

  predicate Superseded(m: Monitor, revision: nat) {
    m.closeRequested || m.seekRevision != revision
  }

  datatype Decision = Stop | Reposition | Rest | Proceed

  /** The decision at the head of the worker's loop. */
  function InspectionOf(m: Monitor): Decision {
    if m.closeRequested then Stop
    else if m.pendingSeekFrame.Some? then Reposition
    else if m.pauseRequested then Rest
    else Proceed
  }

  function Inspected(m: Monitor): Monitor {
    match InspectionOf(m)
    case Rest => m.(state := PAUSED)
    case Proceed => m.(state := PLAYING)
    case _ => m
  }

  /** At the end of the decoded stream: drain unless something else is asked for. */
  function AtEnd(m: Monitor): Monitor {
    match InspectionOf(m)
    case Rest => m.(state := PAUSED)
    case Proceed => m.(state := DRAINING)
    case _ => m
  }

  predicate StillWaiting(m: Monitor) {
    !m.closeRequested && m.pauseRequested && m.pendingSeekFrame.None?
  }

  /** The worker's last word. */
  function Published(m: Monitor, failed: bool, naturalEnd: bool): Monitor {
    if m.closeRequested then m
    else if failed then m.(state := FAILED)
    else if naturalEnd then m.(state := ENDED)
    else m
  }

  class JavaSoundPlaybackSession {
    var state: State
    var pauseRequested: bool
    var closeRequested: bool
    var pendingSeekFrame: Option<nat>
    var seekRevision: nat

    function Model(): Monitor
      reads this
    {
      Monitor(state, pauseRequested, closeRequested, pendingSeekFrame, seekRevision)
    }

    constructor ()
      ensures Model() == Initial()
    {
      state, pauseRequested, closeRequested, pendingSeekFrame, seekRevision := NEW, false, false, None, 0;
    }

    method Start(frame: nat, paused: bool) returns (accepted: bool)
      modifies this
      ensures accepted <==> old(state) == NEW && old(seekRevision) < LONG_MAX
      ensures Model() == if old(state) == NEW then Requested(old(Model()).(pauseRequested := paused), frame)
                         else old(Model())
    {
      if state != NEW {
        return false;
      }
      pauseRequested := paused;
      accepted := Request(frame);
    }

    method Request(frame: nat) returns (accepted: bool)
      modifies this
      ensures accepted <==> old(seekRevision) < LONG_MAX
      ensures Model() == Requested(old(Model()), frame)
    {
      pendingSeekFrame := Some(frame);
      if seekRevision >= LONG_MAX {
        return false;
      }
      seekRevision := seekRevision + 1;
      state := LOADING;
      return true;
    }

    method SeekTo(frame: nat) returns (accepted: bool)
      modifies this
      ensures accepted <==> Controllable(old(Model())) && old(seekRevision) < LONG_MAX
      ensures Model() == if Controllable(old(Model())) then Requested(old(Model()), frame) else old(Model())
    {
      if state == NEW || IsTerminal(state) || closeRequested {
        return false;
      }
      accepted := Request(frame);
    }

    method SetPause(paused: bool) returns (accepted: bool)
      modifies this
      ensures accepted <==> Controllable(old(Model()))
      ensures Model() == if accepted then old(Model()).(pauseRequested := paused) else old(Model())
    {
      if state == NEW || IsTerminal(state) || closeRequested {
        return false;
      }
      pauseRequested := paused;
      return true;
    }

    /** The first locked section of close. */
    method BeginClose() returns (proceeds: bool)
      modifies this
      ensures proceeds <==> old(state) != CLOSED
      ensures Model() == if proceeds then old(Model()).(closeRequested := true) else old(Model())
    {
      if state == CLOSED {
        return false;
      }
      closeRequested := true;
      return true;
    }

    /** The last locked section of close. */
    method EndClose()
      modifies this
      ensures Model() == old(Model()).(state := CLOSED)
    {
      state := CLOSED;
    }

    method TakeRequested() returns (take: Take)
      modifies this
      ensures take.TakeRequest? <==> !closeRequested && old(pendingSeekFrame).Some?
      ensures take.TakeRequest? ==>
        take == TakeRequest(old(pendingSeekFrame).value, seekRevision) && pendingSeekFrame == None && state == LOADING
      ensures take == TakeOf(old(Model())) && Model() == Taken(old(Model()))
    {
      if closeRequested {
        return TakeNothing;
      }
      match pendingSeekFrame
      case None =>
        return TakeMissing;
      case Some(frame) =>
        pendingSeekFrame := None;
        state := LOADING;
        return TakeRequest(frame, seekRevision);
    }

    method Inspect() returns (decision: Decision)
      modifies this
      ensures decision.Rest? || decision.Proceed? <==> !closeRequested && pendingSeekFrame.None?
      ensures state == if closeRequested || pendingSeekFrame.Some? then old(state) else if pauseRequested then PAUSED else PLAYING
      ensures decision == InspectionOf(old(Model())) && Model() == Inspected(old(Model()))
    {
      if closeRequested {
        return Stop;
      }
      var seekPending := pendingSeekFrame.Some?;
      if !seekPending {
        state := if pauseRequested then PAUSED else PLAYING;
      }
      return if seekPending then Reposition else if pauseRequested then Rest else Proceed;
    }

    method EndOfStream() returns (decision: Decision)
      modifies this
      ensures decision.Rest? || decision.Proceed? <==> !closeRequested && pendingSeekFrame.None?
      ensures state == if closeRequested || pendingSeekFrame.Some? then old(state) else if pauseRequested then PAUSED else DRAINING
      ensures decision == InspectionOf(old(Model())) && Model() == AtEnd(old(Model()))
    {
      if closeRequested {
        return Stop;
      }
      if pendingSeekFrame.Some? {
        return Reposition;
      }
      if pauseRequested {
        state := PAUSED;
        return Rest;
      }
      state := DRAINING;
      return Proceed;
    }

    method Publish(failed: bool, naturalEnd: bool)
      modifies this
      ensures state == if closeRequested || !(failed || naturalEnd) then old(state) else if failed then FAILED else ENDED
      ensures Model() == Published(old(Model()), failed, naturalEnd)
    {
      if !closeRequested {
        if failed {
          state := FAILED;
        } else if naturalEnd {
          state := ENDED;
        }
      }
    }
  }
}

/** All interleavings of the control threads and the worker. */
module PlaybackProtocol {
  import opened Arithmetic
  import opened PlaybackSession
  import opened Wrappers

  /** Where the worker is between two locked sections. */
  datatype Place =
    | NotStarted
    | Asking
    | Opening(frame: nat, revision: nat)
    | LoopHead
    | Releasing
    | Reading
    | AtStreamEnd
    | Draining
    | Drained
    | Waiting
    | CleaningUp
    | Publishing
    | Gone

  /** The input the worker has open, and for which request it was opened. */
  datatype Input = Input(frame: nat, revision: nat)

  /** `latest` and `drainedFor` only record history. */
  datatype System = System(m: Monitor, at: Place, input: Option<Input>, failed: bool, naturalEnd: bool,
                           latest: nat, drainedFor: Option<Input>)

  datatype Step =
    | Start(frame: nat, paused: bool)
    | Seek(frame: nat)
    | SetPause(paused: bool)
    | BeginClose
    | EndClose
    | Ask
    | Open(fails: bool, closesBadly: bool)
    | Inspect
    | Release(fails: bool)
    | Read(endOfStream: bool, fails: bool)
    | StreamEnd
    | Drain(fails: bool)
    | AfterDrain
    | Wake(interrupted: bool)
    | CleanUp(fails: bool)
    | Publish

  function Begin(): System {
    System(Initial(), NotStarted, None, false, false, 0, None)
  }

  predicate Enabled(s: System, step: Step) {
    match step
    case Start(_, _) => true
    case Seek(_) => true
    case SetPause(_) => true
    case BeginClose => true
    case EndClose => s.m.closeRequested
    case Ask => s.at == Asking
    case Open(_, _) => s.at.Opening?
    case Inspect => s.at == LoopHead
    case Release(_) => s.at == Releasing
    case Read(_, _) => s.at == Reading
    case StreamEnd => s.at == AtStreamEnd
    case Drain(_) => s.at == Draining
    case AfterDrain => s.at == Drained
    case Wake(interrupted) => s.at == Waiting && if interrupted then s.m.closeRequested else !StillWaiting(s.m)
    case CleanUp(_) => s.at == CleaningUp
    case Publish => s.at == Publishing
  }

  function Failing(s: System): System {
    s.(at := CleaningUp, failed := true)
  }

  /** An accepted request; only a started session has a worker to serve it. */
  function Requesting(s: System, frame: nat): System {
    s.(m := PlaybackSession.Requested(s.m, frame), latest := frame)
  }

  function Next(s: System, step: Step): System
    requires Enabled(s, step)
  {
    match step
    case Start(frame, paused) =>
      if s.m.state != NEW then s else
        var requested := Requesting(s.(m := s.m.(pauseRequested := paused)), frame);
        if s.m.seekRevision < LONG_MAX then requested.(at := Asking) else requested
    case Seek(frame) => if Controllable(s.m) then Requesting(s, frame) else s
    case SetPause(paused) => if Controllable(s.m) then s.(m := s.m.(pauseRequested := paused)) else s
    case BeginClose => if s.m.state == CLOSED then s else s.(m := s.m.(closeRequested := true))
    case EndClose => s.(m := s.m.(state := CLOSED))
    case Ask =>
      var taken := s.(m := Taken(s.m), input := None);
      (match TakeOf(s.m)
       case TakeNothing => taken.(at := CleaningUp)
       case TakeMissing => Failing(taken)
       case TakeRequest(frame, revision) => taken.(at := Opening(frame, revision)))
    case Open(fails, closesBadly) =>
      if fails then Failing(s)
      else if Superseded(s.m, s.at.revision) then if closesBadly then Failing(s) else s.(at := Asking)
      else s.(at := LoopHead, input := Some(Input(s.at.frame, s.at.revision)))
    case Inspect =>
      var inspected := s.(m := Inspected(s.m));
      (match InspectionOf(s.m)
       case Stop => inspected.(at := CleaningUp)
       case Reposition => inspected.(at := Releasing)
       case Rest => inspected.(at := Waiting)
       case Proceed => inspected.(at := Reading))
    case Release(fails) => if fails then Failing(s) else s.(at := Asking)
    case Read(endOfStream, fails) =>
      if fails then Failing(s) else s.(at := if endOfStream then AtStreamEnd else LoopHead)
    case StreamEnd =>
      var ended := s.(m := AtEnd(s.m));
      (match InspectionOf(s.m)
       case Stop => ended.(at := CleaningUp)
       case Reposition => ended.(at := LoopHead)
       case Rest => ended.(at := Waiting)
       case Proceed => ended.(at := Draining))
    case Drain(fails) => if fails then Failing(s) else s.(at := Drained)
    case AfterDrain =>
      (match InspectionOf(s.m)
       case Stop => s.(at := CleaningUp)
       case Proceed => s.(at := CleaningUp, naturalEnd := true, drainedFor := s.input)
       case _ => s.(at := LoopHead))
    case Wake(interrupted) => if interrupted then Failing(s) else s.(at := LoopHead)
    case CleanUp(fails) => s.(at := Publishing, failed := s.failed || fails)
    case Publish => s.(m := Published(s.m, s.failed, s.naturalEnd), at := Gone)
  }

  predicate Finishing(at: Place) {
    at in {CleaningUp, Publishing, Gone}
  }

  /** Places where the worker has an input open. */
  predicate Playing(at: Place) {
    at in {LoopHead, Releasing, Reading, AtStreamEnd, Draining, Drained, Waiting}
  }

  /** What the state says about the worker. */
  ghost predicate Lifecycle(s: System) {
    && (s.m.state == CLOSED ==> s.m.closeRequested)
    && (s.m.state == NEW ==> s.at == NotStarted && s.m.seekRevision == 0)
    && (s.at == NotStarted ==> s.m.state in {NEW, CLOSED} && !s.failed && !s.naturalEnd)
    && (s.failed || s.naturalEnd ==> Finishing(s.at))
    && (Finishing(s.at) ==> s.m.closeRequested || s.failed || s.naturalEnd)
    && (s.m.state in {ENDED, FAILED} ==> s.at == Gone)
    && (s.m.state == ENDED ==> s.naturalEnd && !s.failed)
    && (s.at == Gone && !s.m.closeRequested ==> IsTerminal(s.m.state))
    && (s.naturalEnd ==> s.drainedFor.Some?)
  }

  /** What is open, or being opened, belongs to the newest request unless a newer one is pending. */
  ghost predicate Current(s: System) {
    && (s.m.pendingSeekFrame.Some? ==> s.m.pendingSeekFrame.value == s.latest)
    && (s.at == Asking ==> s.m.pendingSeekFrame.Some? || s.m.closeRequested)
    && (s.at == Releasing ==> s.m.pendingSeekFrame.Some?)
    && (s.at.Opening? && s.m.pendingSeekFrame.None? ==> s.at == Opening(s.latest, s.m.seekRevision))
    && (Playing(s.at) ==>
          s.input.Some? && (s.m.pendingSeekFrame.None? ==> s.input == Some(Input(s.latest, s.m.seekRevision))))
  }

  ghost predicate Inv(s: System) {
    Lifecycle(s) && Current(s)
  }

  lemma BeginInv()
    ensures Inv(Begin())
  {
  }

  lemma KeepsLifecycle(s: System, step: Step)
    requires Inv(s) && Enabled(s, step)
    ensures Lifecycle(Next(s, step))
  {
  }

  lemma KeepsCurrent(s: System, step: Step)
    requires Inv(s) && Enabled(s, step)
    ensures Current(Next(s, step))
  {
  }

  ghost predicate Run(s: System, steps: seq<Step>)
    decreases |steps|
  {
    steps == [] || (Enabled(s, steps[0]) && Run(Next(s, steps[0]), steps[1..]))
  }

  ghost function After(s: System, steps: seq<Step>): System
    requires Run(s, steps)
    decreases |steps|
  {
    if steps == [] then s else After(Next(s, steps[0]), steps[1..])
  }

  /** Every interleaving keeps the invariant. */
  lemma {:induction false} RunInv(s: System, steps: seq<Step>)
    requires Inv(s) && Run(s, steps)
    ensures Inv(After(s, steps))
    decreases |steps|
  {
    if steps != [] {
      KeepsLifecycle(s, steps[0]);
      KeepsCurrent(s, steps[0]);
      RunInv(Next(s, steps[0]), steps[1..]);
    }
  }

  /** The worker never asks for an input without a request being there. */
  lemma RequestIsThere(steps: seq<Step>)
    requires Run(Begin(), steps) && After(Begin(), steps).at == Asking
    ensures TakeOf(After(Begin(), steps).m) != TakeMissing
  {
    BeginInv();
    RunInv(Begin(), steps);
  }

  /** Whenever the worker goes on playing or rests, its input was opened for the newest accepted request. */
  lemma PlaysNewestRequest(steps: seq<Step>)
    requires Run(Begin(), steps)
    ensures var s := After(Begin(), steps);
      s.at == LoopHead && InspectionOf(s.m) in {Rest, Proceed} ==>
        s.input == Some(Input(s.latest, s.m.seekRevision))
  {
    BeginInv();
    RunInv(Begin(), steps);
  }

  predicate ByWorker(step: Step) {
    !(step.Start? || step.Seek? || step.SetPause? || step.BeginClose? || step.EndClose?)
  }

  /** Once a close has begun, the worker leaves the state alone for the rest of every run. */
  lemma {:induction false} SilentAfterClose(s: System, steps: seq<Step>)
    requires Run(s, steps) && s.m.closeRequested
    requires forall i :: 0 <= i < |steps| ==> ByWorker(steps[i])
    ensures After(s, steps).m == s.m
    decreases |steps|
  {
    if steps != [] {
      SilentAfterClose(Next(s, steps[0]), steps[1..]);
    }
  }

  /** How far the worker is from its end once a close has begun. */
  function Distance(at: Place): nat {
    match at
    case Gone => 0
    case Publishing => 1
    case CleaningUp => 2
    case LoopHead => 3
    case Asking => 3
    case AtStreamEnd => 3
    case Drained => 3
    case _ => 4
  }

  /** After a close has begun, every worker step brings it closer to its end: at most four are left. */
  lemma CloseEndsWorker(s: System, step: Step)
    requires Enabled(s, step) && s.m.closeRequested && ByWorker(step)
    ensures Distance(Next(s, step).at) < Distance(s.at) <= 4
  {
  }

  /** CLOSED is final. */
  lemma {:induction false} ClosedForGood(s: System, steps: seq<Step>)
    requires Inv(s) && Run(s, steps) && s.m.state == CLOSED
    ensures After(s, steps).m.state == CLOSED
    decreases |steps|
  {
    if steps != [] {
      KeepsLifecycle(s, steps[0]);
      KeepsCurrent(s, steps[0]);
      ClosedForGood(Next(s, steps[0]), steps[1..]);
    }
  }

  /** ENDED and FAILED can only be followed by CLOSED. */
  lemma {:induction false} TerminalOnlyCloses(s: System, steps: seq<Step>)
    requires Inv(s) && Run(s, steps) && IsTerminal(s.m.state)
    ensures After(s, steps).m.state in {s.m.state, CLOSED}
    decreases |steps|
  {
    if s.m.state == CLOSED {
      ClosedForGood(s, steps);
    } else if steps != [] {
      KeepsLifecycle(s, steps[0]);
      KeepsCurrent(s, steps[0]);
      TerminalOnlyCloses(Next(s, steps[0]), steps[1..]);
    }
  }

  /** ENDED is the worker's last word, after a complete drain and a cleanup without failure. */
  lemma EndedAfterDrain(s: System, step: Step)
    requires Inv(s) && Enabled(s, step) && s.m.state != ENDED && Next(s, step).m.state == ENDED
    ensures step == Publish && s.naturalEnd && !s.failed && s.drainedFor.Some? && !s.m.closeRequested
  {
  }

  /** The natural end is declared only with nothing newer requested: what drained was the newest request so far. */
  lemma NaturalEndIsNewest(s: System, step: Step)
    requires Inv(s) && Enabled(s, step) && !s.naturalEnd && Next(s, step).naturalEnd
    ensures step == AfterDrain && !s.m.pauseRequested && !s.m.closeRequested
    ensures Next(s, step).drainedFor == Some(Input(s.latest, s.m.seekRevision))
  {
  }

  /** Without a close the worker never goes without saying how it ended. */
  lemma WorkerReports(steps: seq<Step>)
    requires Run(Begin(), steps)
    ensures var s := After(Begin(), steps);
      s.at == Gone && !s.m.closeRequested ==>
        s.m.state == if s.failed then FAILED else ENDED
  {
    BeginInv();
    RunInv(Begin(), steps);
    LastWord(Begin(), steps);
  }

  lemma {:induction false} LastWord(s: System, steps: seq<Step>)
    requires Inv(s) && Run(s, steps)
    requires s.at == Gone && !s.m.closeRequested ==> s.m.state == if s.failed then FAILED else ENDED
    ensures var e := After(s, steps);
      e.at == Gone && !e.m.closeRequested ==> e.m.state == if e.failed then FAILED else ENDED
    decreases |steps|
  {
    if steps != [] {
      KeepsLifecycle(s, steps[0]);
      KeepsCurrent(s, steps[0]);
      LastWord(Next(s, steps[0]), steps[1..]);
    }
  }

  // ------------------------------------------------------- what steps answer

  /** What start, seek, pause and resume do, and to which sessions. */
  lemma ControlAnswers(s: System, frame: nat, paused: bool)
    ensures s.m.seekRevision < LONG_MAX ==>
      Next(s, Seek(frame)) ==
        if s.m.state in {LOADING, PLAYING, PAUSED, DRAINING} && !s.m.closeRequested
        then s.(m := Monitor(LOADING, s.m.pauseRequested, false, Some(frame), s.m.seekRevision + 1), latest := frame) else s
    ensures s.m.seekRevision >= LONG_MAX ==>
      Next(s, Seek(frame)) ==
        if s.m.state in {LOADING, PLAYING, PAUSED, DRAINING} && !s.m.closeRequested
        then s.(m := s.m.(pendingSeekFrame := Some(frame)), latest := frame) else s
    ensures Next(s, SetPause(paused)) ==
      if s.m.state in {LOADING, PLAYING, PAUSED, DRAINING} && !s.m.closeRequested
      then s.(m := s.m.(pauseRequested := paused)) else s
    ensures s.m.seekRevision < LONG_MAX ==>
      Next(s, Start(frame, paused)) ==
        if s.m.state == NEW
        then s.(m := Monitor(LOADING, paused, s.m.closeRequested, Some(frame), s.m.seekRevision + 1), at := Asking,
                latest := frame)
        else s
  {
  }

  /** The worker takes the pending request and shows LOADING, unless a close came first. */
  lemma AskAnswer(s: System)
    requires Inv(s) && Enabled(s, Ask)
    ensures Next(s, Ask) ==
      if s.m.closeRequested then s.(at := CleaningUp, input := None)
      else s.(m := s.m.(pendingSeekFrame := None, state := LOADING), input := None,
              at := Opening(s.latest, s.m.seekRevision))
  {
  }

  /** What was opened is played exactly if no newer request and no close came meanwhile. */
  lemma OpenAnswer(s: System, closesBadly: bool)
    requires s.at.Opening?
    ensures Next(s, Open(false, closesBadly)) ==
      if !s.m.closeRequested && s.m.seekRevision == s.at.revision
      then s.(at := LoopHead, input := Some(Input(s.at.frame, s.at.revision)))
      else if closesBadly then s.(at := CleaningUp, failed := true) else s.(at := Asking)
  {
  }

  /**
   * At the head of its loop the worker rests and shows PAUSED, or goes on and shows PLAYING,
   * as the pause request says.
   */
  lemma InspectAnswer(s: System)
    requires Enabled(s, Inspect)
    ensures Next(s, Inspect) ==
      if s.m.closeRequested then s.(at := CleaningUp)
      else if s.m.pendingSeekFrame.Some? then s.(at := Releasing)
      else if s.m.pauseRequested then s.(at := Waiting, m := s.m.(state := PAUSED))
      else s.(at := Reading, m := s.m.(state := PLAYING))
  {
  }

  /**
   * At the end of the stream it rests and shows PAUSED, or drains and shows DRAINING; a drain
   * that nothing interrupts is the natural end.
   */
  lemma StreamEndAnswer(s: System)
    ensures Enabled(s, StreamEnd) ==>
      Next(s, StreamEnd) ==
        if s.m.closeRequested then s.(at := CleaningUp)
        else if s.m.pendingSeekFrame.Some? then s.(at := LoopHead)
        else if s.m.pauseRequested then s.(at := Waiting, m := s.m.(state := PAUSED))
        else s.(at := Draining, m := s.m.(state := DRAINING))
    ensures Enabled(s, AfterDrain) ==>
      Next(s, AfterDrain) ==
        if s.m.closeRequested then s.(at := CleaningUp)
        else if s.m.pendingSeekFrame.Some? || s.m.pauseRequested then s.(at := LoopHead)
        else s.(at := CleaningUp, naturalEnd := true, drainedFor := s.input)
  {
  }

  /** A resting worker stays at rest exactly until it is resumed, sent elsewhere or closed. */
  lemma RestsUntilCommand(s: System)
    requires s.at == Waiting
    ensures (exists step :: ByWorker(step) && Enabled(s, step)) <==>
      s.m.closeRequested || !s.m.pauseRequested || s.m.pendingSeekFrame.Some?
  {
    if s.m.closeRequested || !s.m.pauseRequested || s.m.pendingSeekFrame.Some? {
      assert ByWorker(Wake(false)) && Enabled(s, Wake(false));
    }
  }

  // ---------------------------------------------------- what listeners see

  /** The published state and the worker's place belong together, as long as no seek and no close has come since. */
  ghost predicate Shown(s: System) {
    !s.m.closeRequested ==>
      && (s.m.pendingSeekFrame.None? ==>
            match s.at
            case Opening(_, _) => s.m.state == LOADING
            case LoopHead => s.m.state in {LOADING, PLAYING, PAUSED, DRAINING}
            case Reading => s.m.state == PLAYING
            case AtStreamEnd => s.m.state == PLAYING
            case Draining => s.m.state == DRAINING
            case Drained => s.m.state == DRAINING
            case Waiting => s.m.state == PAUSED
            case _ => true)
      && (s.m.pendingSeekFrame.Some? && s.m.seekRevision < LONG_MAX && !Finishing(s.at) ==> s.m.state in {NEW, LOADING})
  }

  lemma KeepsShown(s: System, step: Step)
    requires Inv(s) && Shown(s) && Enabled(s, step)
    ensures Shown(Next(s, step))
  {
  }

  lemma {:induction false} RunShown(s: System, steps: seq<Step>)
    requires Inv(s) && Shown(s) && Run(s, steps)
    ensures Shown(After(s, steps))
    decreases |steps|
  {
    if steps != [] {
      KeepsLifecycle(s, steps[0]);
      KeepsCurrent(s, steps[0]);
      KeepsShown(s, steps[0]);
      RunShown(Next(s, steps[0]), steps[1..]);
    }
  }

  /**
   * In every run, while no close is requested: a waiting request shows LOADING (as
   * long as revisions last); with none waiting, an opening worker shows LOADING, a
   * reading one PLAYING, a draining one DRAINING and a resting one PAUSED.
   */
  lemma StateAgrees(steps: seq<Step>)
    requires Run(Begin(), steps) && !After(Begin(), steps).m.closeRequested
    ensures var s := After(Begin(), steps);
      && (s.m.pendingSeekFrame.None? ==>
            && (s.at.Opening? ==> s.m.state == LOADING)
            && (s.at in {Reading, AtStreamEnd} ==> s.m.state == PLAYING)
            && (s.at in {Draining, Drained} ==> s.m.state == DRAINING)
            && (s.at == Waiting ==> s.m.state == PAUSED))
      && (s.m.pendingSeekFrame.Some? && s.m.seekRevision < LONG_MAX && !Finishing(s.at) ==> s.m.state == LOADING)
  {
    BeginInv();
    RunInv(Begin(), steps);
    RunShown(Begin(), steps);
    RunPending(Begin(), steps);
  }

  /** Before the start nothing is pending. */
  lemma {:induction false} RunPending(s: System, steps: seq<Step>)
    requires Inv(s) && Run(s, steps)
    requires s.m.state == NEW ==> s.m.pendingSeekFrame.None?
    ensures After(s, steps).m.state == NEW ==> After(s, steps).m.pendingSeekFrame.None?
    decreases |steps|
  {
    if steps != [] {
      KeepsLifecycle(s, steps[0]);
      KeepsCurrent(s, steps[0]);
      RunPending(Next(s, steps[0]), steps[1..]);
    }
  }

  /** What the natural end was declared for: the newest request, unless a newer one is left pending. */
  ghost predicate Served(s: System) {
    s.naturalEnd ==>
      && s.drainedFor.Some? && s.drainedFor.value.revision <= s.m.seekRevision
      && (s.m.pendingSeekFrame.None? ==> s.drainedFor == Some(Input(s.latest, s.m.seekRevision)))
      && (s.m.pendingSeekFrame.Some? && s.m.seekRevision < LONG_MAX ==>
            s.drainedFor.value.revision < s.m.seekRevision)
  }

  lemma KeepsServed(s: System, step: Step)
    requires Inv(s) && Served(s) && Enabled(s, step)
    ensures Served(Next(s, step))
  {
  }

  lemma {:induction false} RunServed(s: System, steps: seq<Step>)
    requires Inv(s) && Served(s) && Run(s, steps)
    ensures Inv(After(s, steps)) && Served(After(s, steps))
    decreases |steps|
  {
    if steps != [] {
      KeepsLifecycle(s, steps[0]);
      KeepsCurrent(s, steps[0]);
      KeepsServed(s, steps[0]);
      RunServed(Next(s, steps[0]), steps[1..]);
    }
  }

  /** A session that ended played its newest accepted request to the end exactly if no request is left over. */
  lemma EndedServedLatestIff(steps: seq<Step>)
    requires Run(Begin(), steps)
    requires After(Begin(), steps).m.state == ENDED && After(Begin(), steps).m.seekRevision < LONG_MAX
    ensures var s := After(Begin(), steps);
      s.drainedFor == Some(Input(s.latest, s.m.seekRevision)) <==> s.m.pendingSeekFrame.None?
  {
    BeginInv();
    RunServed(Begin(), steps);
  }

  /** A request that is pending when the worker is past its last look at it is taken up in no run. */
  lemma {:induction false} LateSeekIsNeverServed(s: System, steps: seq<Step>)
    requires Inv(s) && Run(s, steps) && Finishing(s.at) && s.m.pendingSeekFrame.Some?
    ensures var e := After(s, steps);
      && Finishing(e.at) && e.m.pendingSeekFrame.Some?
      && e.input == s.input && e.naturalEnd == s.naturalEnd && e.drainedFor == s.drainedFor
    decreases |steps|
  {
    if steps != [] {
      KeepsLifecycle(s, steps[0]);
      KeepsCurrent(s, steps[0]);
      LateSeekIsNeverServed(Next(s, steps[0]), steps[1..]);
    }
  }

  ghost predicate NoSeek(steps: seq<Step>) {
    forall i :: 0 <= i < |steps| ==> !steps[i].Seek?
  }

  /** Nothing is pending once the natural end is declared. */
  predicate NothingLeft(s: System) {
    s.naturalEnd ==> s.m.pendingSeekFrame.None?
  }

  lemma SettledStep(s: System, step: Step)
    requires Enabled(s, step) && !step.Seek? && s.m.state != NEW
    requires s.naturalEnd ==> Finishing(s.at)
    ensures var e := Next(s, step);
      && e.latest == s.latest && e.m.seekRevision == s.m.seekRevision && e.m.state != NEW
      && (NothingLeft(s) ==> NothingLeft(e))
  {
  }

  /** Without further seeks the newest request stays the newest, and a natural end leaves nothing pending. */
  lemma {:induction false} SettledWithoutSeek(s: System, steps: seq<Step>)
    requires Inv(s) && Run(s, steps) && NoSeek(steps) && s.m.state != NEW
    ensures var e := After(s, steps); e.latest == s.latest && e.m.seekRevision == s.m.seekRevision
    ensures NothingLeft(s) ==> NothingLeft(After(s, steps))
    decreases |steps|
  {
    hide Next, Enabled, NothingLeft, Current;
    if steps != [] {
      KeepsLifecycle(s, steps[0]);
      KeepsCurrent(s, steps[0]);
      SettledStep(s, steps[0]);
      SettledWithoutSeek(Next(s, steps[0]), steps[1..]);
    }
  }

  /**
   * When the session ends after an accepted seek that no other follows, what it
   * played to the end is that seek exactly if the worker had not yet left its
   * loop when the seek was accepted.
   */
  lemma SeekServedIff(before: seq<Step>, frame: nat, rest: seq<Step>)
    requires Run(Begin(), before)
    requires Controllable(After(Begin(), before).m) && After(Begin(), before).m.seekRevision < LONG_MAX
    requires Run(Next(After(Begin(), before), Seek(frame)), rest) && NoSeek(rest)
    requires After(Next(After(Begin(), before), Seek(frame)), rest).m.state == ENDED
    ensures var s := After(Begin(), before);
      After(Next(s, Seek(frame)), rest).drainedFor == Some(Input(frame, s.m.seekRevision + 1)) <==> !Finishing(s.at)
  {
    BeginInv();
    RunServed(Begin(), before);
    var s := After(Begin(), before);
    var sought := Next(s, Seek(frame));
    KeepsLifecycle(s, Seek(frame));
    KeepsCurrent(s, Seek(frame));
    KeepsServed(s, Seek(frame));
    RunServed(sought, rest);
    SettledWithoutSeek(sought, rest);
    if Finishing(s.at) {
      LateSeekIsNeverServed(sought, rest);
    }
  }

  /**
   * One schedule of the unserved kind: the seek comes while the worker cleans up
   * after the natural end, the cleanup succeeds, and ENDED is published over it.
   */
  lemma SeekOvertakenByEnd(s: System, frame: nat)
    requires Inv(s) && s.at == CleaningUp && s.naturalEnd && !s.failed && !s.m.closeRequested
    requires s.m.seekRevision < LONG_MAX
    ensures Controllable(s.m)
    ensures var steps := [Seek(frame), CleanUp(false), Publish];
      && Run(s, steps)
      && After(s, steps).m.state == ENDED && After(s, steps).m.pendingSeekFrame == Some(frame)
      && After(s, steps).at == Gone
  {
    var sought := Next(s, Seek(frame));
    var cleaned := Next(sought, CleanUp(false));
    OneStep(cleaned, Publish, []);
    OneStep(sought, CleanUp(false), [Publish]);
    OneStep(s, Seek(frame), [CleanUp(false)] + [Publish]);
    assert [Seek(frame)] + ([CleanUp(false)] + [Publish]) == [Seek(frame), CleanUp(false), Publish];
  }

  /** A worker that was started into a close: it opens nothing and reports nothing. */
  predicate Stillborn(s: System) {
    && s.m.closeRequested && s.m.state in {LOADING, CLOSED}
    && s.at in {Asking, CleaningUp, Publishing, Gone}
    && s.input.None? && s.m.pendingSeekFrame.Some?
  }

  lemma {:induction false} StillbornForGood(s: System, steps: seq<Step>)
    requires Stillborn(s) && Run(s, steps)
    ensures Stillborn(After(s, steps))
    decreases |steps|
  {
    if steps != [] {
      StillbornForGood(Next(s, steps[0]), steps[1..]);
    }
  }

  /**
   * `start` does not look at a close request: between the two halves of a close
   * of a new session it is accepted and leaves LOADING behind, but no run from
   * there opens an input, and only the close itself changes the state again.
   */
  lemma StartIntoClose(frame: nat, paused: bool, steps: seq<Step>)
    requires Run(Next(Next(Begin(), BeginClose), Start(frame, paused)), steps)
    ensures var s := Next(Next(Begin(), BeginClose), Start(frame, paused));
      s.m.state == LOADING && s.at == Asking
    ensures var e := After(Next(Next(Begin(), BeginClose), Start(frame, paused)), steps);
      e.input.None? && e.m.pendingSeekFrame == Some(frame) && e.m.state in {LOADING, CLOSED}
  {
    var s := Next(Next(Begin(), BeginClose), Start(frame, paused));
    StillbornForGood(s, steps);
    RequestStaysAfterClose(s, steps);
  }

  lemma {:induction false} RequestStaysAfterClose(s: System, steps: seq<Step>)
    requires s.m.closeRequested && s.m.state != NEW && Run(s, steps)
    ensures After(s, steps).m.pendingSeekFrame == s.m.pendingSeekFrame
    decreases |steps|
  {
    if steps != [] {
      RequestStaysAfterClose(Next(s, steps[0]), steps[1..]);
    }
  }

  lemma OneStep(s: System, step: Step, rest: seq<Step>)
    requires Enabled(s, step) && Run(Next(s, step), rest)
    ensures Run(s, [step] + rest) && After(s, [step] + rest) == After(Next(s, step), rest)
  {
    assert ([step] + rest)[1..] == rest;
  }

  /** Such a moment is reached: a session that is started, opened, read to its end and drained. */
  lemma NaturalEndIsReached()
    ensures exists steps :: Run(Begin(), steps) && QuietEnd(After(Begin(), steps))
  {
    PlayOut();
    var steps := [Inspect, Read(true, false), StreamEnd, Drain(false), AfterDrain];
    var ready := Next(Next(Next(Begin(), Start(0, false)), Ask), Open(false, false));
    OneStep(Next(Next(Begin(), Start(0, false)), Ask), Open(false, false), steps);
    OneStep(Next(Begin(), Start(0, false)), Ask, [Open(false, false)] + steps);
    OneStep(Begin(), Start(0, false), [Ask] + ([Open(false, false)] + steps));
  }

  predicate QuietEnd(s: System) {
    s.at == CleaningUp && s.naturalEnd && !s.failed && !s.m.closeRequested
  }

  lemma PlayOut()
    ensures var ready := System(Monitor(LOADING, false, false, None, 1), LoopHead, Some(Input(0, 1)), false, false, 0, None);
      var steps := [Inspect, Read(true, false), StreamEnd, Drain(false), AfterDrain];
      Run(ready, steps) && QuietEnd(After(ready, steps))
  {
    DrainOut();
    var ready := System(Monitor(LOADING, false, false, None, 1), LoopHead, Some(Input(0, 1)), false, false, 0, None);
    var playing := Next(ready, Inspect);
    OneStep(playing, Read(true, false), [StreamEnd, Drain(false), AfterDrain]);
    OneStep(ready, Inspect, [Read(true, false)] + [StreamEnd, Drain(false), AfterDrain]);
    assert [Inspect] + ([Read(true, false)] + [StreamEnd, Drain(false), AfterDrain])
        == [Inspect, Read(true, false), StreamEnd, Drain(false), AfterDrain];
  }

  lemma DrainOut()
    ensures var ended := System(Monitor(PLAYING, false, false, None, 1), AtStreamEnd, Some(Input(0, 1)), false, false, 0, None);
      var steps := [StreamEnd, Drain(false), AfterDrain];
      Run(ended, steps) && QuietEnd(After(ended, steps))
  {
    var ended := System(Monitor(PLAYING, false, false, None, 1), AtStreamEnd, Some(Input(0, 1)), false, false, 0, None);
    var draining := Next(ended, StreamEnd);
    var drained := Next(draining, Drain(false));
    OneStep(drained, AfterDrain, []);
    OneStep(draining, Drain(false), [AfterDrain]);
    OneStep(ended, StreamEnd, [Drain(false)] + [AfterDrain]);
    assert [StreamEnd] + ([Drain(false)] + [AfterDrain]) == [StreamEnd, Drain(false), AfterDrain];
  }
}
