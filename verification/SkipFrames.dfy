/** Skipping decoded PCM frames, with a read-and-discard fallback. */
module SkipFrames {
  import opened Arithmetic
  import opened Wrappers

  const DISCARD_BUFFER_BYTES := 8192

  /**
   * How the stream behaves at its next call: how far a skip or read gets, or that
   * it throws, and whether a newer seek is there. Past the script it stands still.
   */
  datatype Turn = Turn(progress: int, throws: bool, superseded: bool)

  datatype Result =
    | Skipped(frames: int)
    | Superseded
    | BadArgument
    | TargetTooLarge
    | SourceThrew
    | NoProgress
    | InsideFrame

  /** The largest whole number of frames, but at least one. */
  function AlignedBufferSize(preferred: nat, frameSize: nat): (size: nat)
    requires frameSize > 0
    ensures size >= frameSize && (size == frameSize || size <= preferred) && preferred < size + frameSize
  {
    var aligned := preferred - preferred % frameSize;
    assert aligned == preferred / frameSize * frameSize;
    assert preferred / frameSize >= 1 ==> aligned >= frameSize;
    if aligned == 0 then frameSize else aligned
  }

  /** A whole number of frames fits the discard buffer. */
  lemma AlignedIsWhole(preferred: nat, frameSize: nat)
    requires frameSize > 0
    ensures AlignedBufferSize(preferred, frameSize) % frameSize == 0
  {
    var quotient := preferred / frameSize;
    assert preferred == quotient * frameSize + preferred % frameSize;
    MultipleIsWhole(quotient, frameSize);
    MultipleIsWhole(1, frameSize);
  }

  function At(turns: seq<Turn>): Turn {
    if turns == [] then Turn(0, false, false) else turns[0]
  }

  function Later(turns: seq<Turn>): seq<Turn> {
    if turns == [] then [] else turns[1..]
  }

  /** An InputStream of `length` bytes under arbitrary short skips and reads. */
  class PcmStream {
    const length: nat
    var position: nat
    var turns: seq<Turn>

    constructor (length: nat, turns: seq<Turn>)
      ensures this.length == length && position == 0 && this.turns == turns
    {
      this.length, position, this.turns := length, 0, turns;
    }

    /** Whether a newer seek or a close has come in. */
    method Cancelled() returns (cancelled: bool)
      modifies `turns
      ensures cancelled == At(old(turns)).superseded && turns == Later(old(turns))
    {
      cancelled := At(turns).superseded;
      turns := Later(turns);
    }

    /** InputStream.skip: any progress up to the request, none, or even a negative answer. */
    method Skip(request: nat) returns (skipped: int, threw: bool)
      requires position <= length
      modifies `turns, `position
      ensures turns == Later(old(turns)) && threw == At(old(turns)).throws
      ensures !threw ==> skipped == Min(Min(At(old(turns)).progress, request), length - old(position))
      ensures threw ==> skipped == 0
      ensures position == old(position) + if skipped > 0 then skipped else 0
    {
      var turn := At(turns);
      turns := Later(turns);
      if turn.throws {
        return 0, true;
      }
      skipped := Min(Min(turn.progress, request), length - position);
      if skipped > 0 {
        position := position + skipped;
      }
      return skipped, false;
    }

    /** InputStream.read into the discard buffer: -1 only at the end of the stream. */
    method Read(capacity: nat, request: nat) returns (read: int, threw: bool)
      requires position <= length && 0 < request <= capacity
      modifies `turns, `position
      ensures turns == Later(old(turns)) && threw == At(old(turns)).throws
      ensures !threw ==> read == ReadAnswer(At(old(turns)), request, length - old(position))
      ensures position == old(position) + if !threw && read > 0 then read else 0
    {
      var turn := At(turns);
      turns := Later(turns);
      if turn.throws {
        return 0, true;
      }
      read := ReadAnswer(turn, request, length - position);
      if read > 0 {
        position := position + read;
      }
      return read, false;
    }
  }

  function ReadAnswer(turn: Turn, request: nat, available: nat): int {
    if available == 0 then -1
    else if turn.progress <= 0 then 0
    else Min(Min(turn.progress, request), available)
  }

  /** One turn of the loop: it moves on, sees the end of the stream, or gives up. */
  datatype Move = Moved(progress: nat, rest: seq<Turn>) | AtEnd | GaveUp(result: Result)

  function MoveOf(turns: seq<Turn>, available: nat, remaining: nat, frameSize: nat): (move: Move)
    requires frameSize > 0 && remaining > 0
    ensures move.Moved? ==> 0 < move.progress <= available && move.progress < remaining + frameSize
    ensures move.AtEnd? ==> available == 0
    ensures move.GaveUp? ==> move.result in {Superseded, SourceThrew, NoProgress}
  {
    var skip, afterSkip := At(Later(turns)), Later(Later(turns));
    var discardBytes := AlignedBufferSize(DISCARD_BUFFER_BYTES, frameSize);
    var skipped := Min(Min(skip.progress, Min(remaining, discardBytes)), available);
    var read := ReadAnswer(At(afterSkip), AlignedBufferSize(Min(remaining, discardBytes), frameSize), available);
    if At(turns).superseded then GaveUp(Superseded)
    else if skip.throws then GaveUp(SourceThrew)
    else if skipped > 0 then Moved(skipped, afterSkip)
    else if At(afterSkip).throws then GaveUp(SourceThrew)
    else if read == -1 then AtEnd
    else if read == 0 then GaveUp(NoProgress)
    else Moved(read, Later(afterSkip))
  }

  /** How the loop ends: what is left of the target, negative when a read went past it, and why it ended early. */
  function Skipping(turns: seq<Turn>, available: nat, remaining: int, frameSize: nat): (end: (int, Option<Result>))
    requires frameSize > 0
    decreases if remaining > 0 then remaining else 0
  {
    if remaining <= 0 then (remaining, None) else
    match MoveOf(turns, available, remaining, frameSize)
    case AtEnd => (remaining, None)
    case GaveUp(result) => (remaining, Some(result))
    case Moved(progress, rest) => Skipping(rest, available - progress, remaining - progress, frameSize)
  }

  /**
   * Terminates however the stream behaves. On a normal return the stream has
   * advanced by exactly the returned frames, never past the target, and short
   * of it only at the end of the stream.
   */
  method SkipPcmFrames(input: PcmStream, frameSize: int, targetFrames: int) returns (result: Result)
    requires input.position <= input.length
    modifies input
    ensures old(input.position) <= input.position <= input.length
    ensures result.BadArgument? <==> frameSize <= 0 || targetFrames < 0
    ensures result.TargetTooLarge? <==> frameSize > 0 && targetFrames >= 0 && targetFrames * frameSize > LONG_MAX
    ensures result.BadArgument? || result.TargetTooLarge? ==> input.position == old(input.position)
    ensures result.Skipped? ==>
      && 0 <= result.frames <= targetFrames
      && input.position - old(input.position) == result.frames * frameSize
      && (result.frames < targetFrames ==> input.position == input.length)
    ensures frameSize > 0 && targetFrames >= 0 && targetFrames * frameSize <= LONG_MAX ==>
      var end := Skipping(old(input.turns), old(input.length - input.position), targetFrames * frameSize, frameSize);
      result == if end.1.Some? then end.1.value else FramesOf(targetFrames * frameSize - end.0, frameSize)
    ensures result.InsideFrame? ==>
      && (input.position - old(input.position)) % frameSize != 0
      && (input.position == input.length || input.position - old(input.position) > targetFrames * frameSize)
  {
    hide FramesOf;
    if frameSize <= 0 || targetFrames < 0 {
      return BadArgument;
    }
    if targetFrames * frameSize > LONG_MAX {
      return TargetTooLarge;
    }
    var targetBytes := targetFrames * frameSize;
    var remaining, early := SkipBytes(input, frameSize, targetBytes);
    if early.Some? {
      return early.value;
    }
    result := FramesOf(targetBytes - remaining, frameSize);
    FramesConsumed(targetBytes - remaining, targetFrames, frameSize);
  }

  /** The final check and division. */
  function FramesOf(consumed: int, frameSize: nat): (result: Result)
    requires frameSize > 0
    ensures result.InsideFrame? || result.Skipped?
  {
    if consumed % frameSize != 0 then InsideFrame else Skipped(consumed / frameSize)
  }

  /** The body of the loop. */
  method SkipTurn(input: PcmStream, frameSize: nat, remaining: nat) returns (move: Move)
    requires input.position <= input.length && frameSize > 0 && remaining > 0
    modifies input
    ensures move == MoveOf(old(input.turns), old(input.length - input.position), remaining, frameSize)
    ensures input.position == old(input.position) + if move.Moved? then move.progress else 0
    ensures move.Moved? ==> move.rest == input.turns
  {
    hide AlignedBufferSize;
    var discardBytes := AlignedBufferSize(DISCARD_BUFFER_BYTES, frameSize);
    var cancelled := input.Cancelled();
    if cancelled {
      return GaveUp(Superseded);
    }
    var skipped, skipThrew := input.Skip(Min(remaining, discardBytes));
    if skipThrew {
      return GaveUp(SourceThrew);
    }
    if skipped > 0 {
      return Moved(skipped, input.turns);
    }
    var requested := AlignedBufferSize(Min(remaining, discardBytes), frameSize);
    var read, readThrew := input.Read(discardBytes, requested);
    if readThrew {
      return GaveUp(SourceThrew);
    }
    if read == -1 {
      return AtEnd;
    }
    if read == 0 {
      return GaveUp(NoProgress);
    }
    return Moved(read, input.turns);
  }

  /** The loop, in step with Skipping. */
  method SkipBytes(input: PcmStream, frameSize: nat, targetBytes: nat) returns (remaining: int, early: Option<Result>)
    requires input.position <= input.length && frameSize > 0
    modifies input
    ensures old(input.position) <= input.position <= input.length
    ensures input.position - old(input.position) == targetBytes - remaining
    ensures early.Some? ==> early.value in {Superseded, SourceThrew, NoProgress}
    ensures early.None? ==> 0 < remaining + frameSize && (remaining > 0 ==> input.position == input.length)
    ensures (remaining, early) == Skipping(old(input.turns), old(input.length - input.position), targetBytes, frameSize)
  {
    hide MoveOf;
    remaining := targetBytes;
    while remaining > 0
      invariant old(input.position) <= input.position <= input.length
      invariant input.position - old(input.position) == targetBytes - remaining
      invariant 0 < remaining + frameSize
      invariant Skipping(input.turns, input.length - input.position, remaining, frameSize)
             == Skipping(old(input.turns), old(input.length - input.position), targetBytes, frameSize)
      decreases remaining
    {
      var move := SkipTurn(input, frameSize, remaining);
      match move
      case AtEnd =>
        return remaining, None;
      case GaveUp(result) =>
        return remaining, Some(result);
      case Moved(progress, _) =>
        remaining := remaining - progress;
    }
    return remaining, None;
  }

  /**
   * What one turn does: a newer seek comes first, then the skip, and only when that
   * gets nowhere the read, which alone sees the end and alone complains of no progress.
   */
  lemma TurnOutcome(turns: seq<Turn>, available: nat, remaining: nat, frameSize: nat)
    requires frameSize > 0 && remaining > 0
    ensures var move := MoveOf(turns, available, remaining, frameSize);
      var skip, read := At(Later(turns)), At(Later(Later(turns)));
      if At(turns).superseded then move == GaveUp(Superseded)
      else if skip.throws then move == GaveUp(SourceThrew)
      else if skip.progress > 0 && available > 0 then
        move.Moved? && move.progress <= skip.progress && move.progress <= remaining
      else if read.throws then move == GaveUp(SourceThrew)
      else if available == 0 then move == AtEnd
      else if read.progress <= 0 then move == GaveUp(NoProgress)
      else move.Moved? && move.progress <= read.progress
  {
    hide AlignedBufferSize;
    assert AlignedBufferSize(DISCARD_BUFFER_BYTES, frameSize) > 0;
    assert AlignedBufferSize(Min(remaining, AlignedBufferSize(DISCARD_BUFFER_BYTES, frameSize)), frameSize) > 0;
  }

  /** The stream gets somewhere at its next so many calls, never throws, and nothing newer is asked for. */
  ghost predicate Willing(turns: seq<Turn>, calls: nat) {
    |turns| >= calls && forall i :: 0 <= i < |turns| ==> turns[i].progress > 0 && !turns[i].throws && !turns[i].superseded
  }

  /** On such a stream the loop reaches the target, or the end of the stream if that comes first. */
  lemma {:induction false} WillingStreamIsSkipped(turns: seq<Turn>, available: nat, remaining: nat, frameSize: nat)
    requires frameSize > 0 && Willing(turns, 3 * remaining)
    ensures Skipping(turns, available, remaining, frameSize) == (remaining - Min(remaining, available), None)
    decreases remaining
  {
    hide MoveOf;
    if remaining > 0 {
      TurnOutcome(turns, available, remaining, frameSize);
      RestOfTurn(turns, available, remaining, frameSize);
      var move := MoveOf(turns, available, remaining, frameSize);
      if move.Moved? {
        WillingStreamIsSkipped(move.rest, available - move.progress, remaining - move.progress, frameSize);
      }
    }
  }

  /** A turn uses up at most three calls. */
  lemma RestOfTurn(turns: seq<Turn>, available: nat, remaining: nat, frameSize: nat)
    requires frameSize > 0 && remaining > 0 && |turns| >= 3
    ensures var move := MoveOf(turns, available, remaining, frameSize);
      move.Moved? ==> move.rest == turns[2..] || move.rest == turns[3..]
  {
  }

  /**
   * The turn that reads past the target: less than a frame is left, the skip is
   * refused, and the fallback read, rounded up to a frame, gets more than is left.
   */
  predicate PastTarget(turns: seq<Turn>, available: nat, remaining: int, frameSize: nat) {
    var skip, read := At(Later(turns)), At(Later(Later(turns)));
    && 0 < remaining < frameSize && remaining < available
    && !At(turns).superseded
    && !skip.throws && skip.progress <= 0
    && !read.throws && read.progress > remaining
  }

  /** Some turn that the loop reaches reads past the target. */
  predicate OverReads(turns: seq<Turn>, available: nat, remaining: int, frameSize: nat)
    requires frameSize > 0
    decreases if remaining > 0 then remaining else 0
  {
    remaining > 0 &&
    (PastTarget(turns, available, remaining, frameSize) ||
     match MoveOf(turns, available, remaining, frameSize)
     case Moved(progress, rest) => OverReads(rest, available - progress, remaining - progress, frameSize)
     case _ => false)
  }

  /** One turn goes past the target exactly under its guard. */
  lemma MovePastIff(turns: seq<Turn>, available: nat, remaining: nat, frameSize: nat)
    requires frameSize > 0 && remaining > 0
    ensures var move := MoveOf(turns, available, remaining, frameSize);
      PastTarget(turns, available, remaining, frameSize) <==> move.Moved? && move.progress > remaining
  {
    hide AlignedBufferSize;
    assert AlignedBufferSize(DISCARD_BUFFER_BYTES, frameSize) > 0;
    RoundedDown(remaining, frameSize);
  }

  /** The request of the fallback read is rounded up only when less than a frame is left. */
  lemma RoundedDown(remaining: nat, frameSize: nat)
    requires frameSize > 0
    ensures var request := AlignedBufferSize(Min(remaining, AlignedBufferSize(DISCARD_BUFFER_BYTES, frameSize)), frameSize);
      if remaining < frameSize then request == frameSize else request <= remaining
  {
    hide AlignedBufferSize;
    assert AlignedBufferSize(DISCARD_BUFFER_BYTES, frameSize) >= frameSize;
  }

  /** The loop ends past the target exactly if it over-reads, and short of it without cause only at the stream's end. */
  lemma {:induction false} SkippingEnds(turns: seq<Turn>, available: nat, remaining: nat, frameSize: nat)
    requires frameSize > 0
    ensures var end := Skipping(turns, available, remaining, frameSize);
      && 0 < end.0 + frameSize && end.0 <= remaining && remaining - end.0 <= available
      && (end.1.None? && end.0 > 0 ==> remaining - end.0 == available)
      && (end.0 < 0 <==> OverReads(turns, available, remaining, frameSize))
      && (end.0 < 0 ==> end.1.None?)
    decreases remaining
  {
    hide MoveOf, PastTarget;
    if remaining > 0 {
      MovePastIff(turns, available, remaining, frameSize);
      var move := MoveOf(turns, available, remaining, frameSize);
      if move.Moved? && move.progress <= remaining {
        SkippingEnds(move.rest, available - move.progress, remaining - move.progress, frameSize);
      }
    }
  }

  /**
   * When the loop ends normally, it reports a broken frame exactly if it read past
   * the target or the stream itself ends inside a frame before the target.
   */
  lemma InsideFrameExactly(turns: seq<Turn>, available: nat, targetFrames: nat, frameSize: nat)
    requires frameSize > 0
    requires Skipping(turns, available, targetFrames * frameSize, frameSize).1.None?
    ensures var end := Skipping(turns, available, targetFrames * frameSize, frameSize);
      FramesOf(targetFrames * frameSize - end.0, frameSize).InsideFrame? <==>
        || OverReads(turns, available, targetFrames * frameSize, frameSize)
        || (available < targetFrames * frameSize && available % frameSize != 0)
  {
    hide Skipping, OverReads;
    var target := targetFrames * frameSize;
    SkippingEnds(turns, available, target, frameSize);
    MultipleIsWhole(targetFrames, frameSize);
    var end := Skipping(turns, available, target, frameSize);
    if end.0 < 0 {
      NothingBetween(targetFrames, target - end.0, frameSize);
    }
  }

  /** So a stream of whole frames is reported as broken exactly if the loop over-reads. */
  lemma SoundStreamBrokenIff(turns: seq<Turn>, available: nat, targetFrames: nat, frameSize: nat)
    requires frameSize > 0 && available % frameSize == 0
    requires Skipping(turns, available, targetFrames * frameSize, frameSize).1.None?
    ensures var end := Skipping(turns, available, targetFrames * frameSize, frameSize);
      FramesOf(targetFrames * frameSize - end.0, frameSize).InsideFrame? <==>
        OverReads(turns, available, targetFrames * frameSize, frameSize)
  {
    InsideFrameExactly(turns, available, targetFrames, frameSize);
  }

  /** A stream that moves in whole frames and ends with one. */
  ghost predicate Framed(turns: seq<Turn>, available: nat, frameSize: nat)
    requires frameSize > 0
  {
    && available % frameSize == 0
    && forall i :: 0 <= i < |turns| ==> turns[i].progress % frameSize == 0
  }

  /** On such a stream the loop never stops inside a frame. */
  lemma {:induction false} FramedNeverInside(turns: seq<Turn>, available: nat, remaining: int, frameSize: nat)
    requires frameSize > 0 && remaining % frameSize == 0
    requires Framed(turns, available, frameSize)
    ensures Skipping(turns, available, remaining, frameSize).0 % frameSize == 0
    decreases if remaining > 0 then remaining else 0
  {
    hide MoveOf;
    if remaining > 0 {
      FramedMove(turns, available, remaining, frameSize);
      var move := MoveOf(turns, available, remaining, frameSize);
      if move.Moved? {
        LessWhole(available, move.progress, frameSize);
        LessWhole(remaining, move.progress, frameSize);
        FramedNeverInside(move.rest, available - move.progress, remaining - move.progress, frameSize);
      }
    }
  }

  lemma FramedMove(turns: seq<Turn>, available: nat, remaining: nat, frameSize: nat)
    requires frameSize > 0 && remaining > 0 && remaining % frameSize == 0
    requires Framed(turns, available, frameSize)
    ensures var move := MoveOf(turns, available, remaining, frameSize);
      move.Moved? ==> move.progress % frameSize == 0 && Framed(move.rest, available, frameSize)
  {
    hide AlignedBufferSize;
    AlignedIsWhole(DISCARD_BUFFER_BYTES, frameSize);
    AlignedIsWhole(Min(remaining, AlignedBufferSize(DISCARD_BUFFER_BYTES, frameSize)), frameSize);
    NothingIsWhole(frameSize);
    assert At(Later(turns)).progress % frameSize == 0 && At(Later(Later(turns))).progress % frameSize == 0;
  }

  lemma NothingIsWhole(frameSize: nat)
    requires frameSize > 0
    ensures 0 % frameSize == 0
  {
  }

  /** So a stream that moves in whole frames is never reported as broken inside one. */
  lemma FramedStreamIsSound(turns: seq<Turn>, available: nat, targetFrames: nat, frameSize: nat)
    requires frameSize > 0 && Framed(turns, available, frameSize)
    ensures var end := Skipping(turns, available, targetFrames * frameSize, frameSize);
      FramesOf(targetFrames * frameSize - end.0, frameSize) != InsideFrame
  {
    hide Skipping;
    MultipleIsWhole(targetFrames, frameSize);
    FramedNeverInside(turns, available, targetFrames * frameSize, frameSize);
    LessWhole(targetFrames * frameSize, Skipping(turns, available, targetFrames * frameSize, frameSize).0, frameSize);
  }

  /** A skip of half a frame, then a refused one, then a full read: a sound stream is reported as broken. */
  lemma OverReadFails()
    ensures var turns := [Turn(0, false, false), Turn(2, false, false), Turn(0, false, false), Turn(0, false, false), Turn(4, false, false)];
      && Skipping(turns, 100, 4, 4) == (-2, None)
      && FramesOf(4 - (-2), 4) == InsideFrame
  {
  }

  /** Consumed bytes in whole frames cannot be more than the target: the fallback over-reads by less than a frame. */
  lemma FramesConsumed(consumed: nat, targetFrames: nat, frameSize: nat)
    requires frameSize > 0 && consumed < targetFrames * frameSize + frameSize
    ensures FramesOf(consumed, frameSize).Skipped? ==>
      && var frames := FramesOf(consumed, frameSize).frames;
      && 0 <= frames <= targetFrames && consumed == frames * frameSize
      && (frames < targetFrames ==> consumed < targetFrames * frameSize)
    ensures FramesOf(consumed, frameSize).InsideFrame? ==>
      consumed % frameSize != 0 && consumed != targetFrames * frameSize
  {
    MultipleIsWhole(targetFrames, frameSize);
    var frames := consumed / frameSize;
    assert consumed == frames * frameSize + consumed % frameSize;
    TimesMonotone(targetFrames + 1, frames, frameSize);
    TimesMonotone(frames + 1, targetFrames, frameSize);
    ProductSum(targetFrames, 1, frameSize);
    ProductSum(frames, 1, frameSize);
  }
}
