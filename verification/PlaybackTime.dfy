/** Overflow-saturating frame and time arithmetic of the playback session. */
module PlaybackTime {
  import opened Arithmetic
  import opened Wrappers

  const MICROS := 1_000_000

  /** value * numerator / denominator on longs; any overflow on the way gives the largest long. */
  function ScaleNonNegative(value: nat, numerator: nat, denominator: nat): (r: int)
    requires numerator > 0 && denominator > 0
    ensures 0 <= r <= LONG_MAX
  {
    var quotient, remainder := value / denominator, value % denominator;
    TimesPositive(quotient, numerator);
    TimesPositive(remainder, numerator);
    AddedExact(quotient * numerator, remainder * numerator, denominator)
  }

  /** The checked sum of the two products. */
  function AddedExact(whole: nat, carry: nat, denominator: nat): (r: int)
    requires denominator > 0
    ensures 0 <= r <= LONG_MAX
  {
    if whole > LONG_MAX || carry > LONG_MAX || whole + carry / denominator > LONG_MAX then LONG_MAX
    else whole + carry / denominator
  }

  lemma AddedExactly(whole: nat, carry: nat, denominator: nat)
    requires denominator > 0
    ensures AddedExact(whole, carry, denominator) == Min(whole + carry / denominator, LONG_MAX)
       <==> carry <= LONG_MAX || whole + carry / denominator >= LONG_MAX
  {
  }

  lemma TimesPositive(a: nat, b: nat)
    ensures a * b >= 0
  {
  }

  /** The exact scaled value. */
  function Exact(value: nat, numerator: nat, denominator: nat): (r: nat)
    requires numerator > 0 && denominator > 0
  {
    TimesPositive(value, numerator);
    value * numerator / denominator
  }

  lemma QuotientUnique(a: int, b: int, q: int)
    requires b > 0 && q * b <= a < q * b + b
    ensures a / b == q
  {
    var d := a / b;
    assert a == d * b + a % b;
    var gap := d - q;
    assert gap * b == a - a % b - q * b;
    assert gap >= 1 ==> gap * b >= b;
    assert gap <= -1 ==> (gap + 1) * b <= 0;
  }

  lemma QuotientBounds(a: int, b: int)
    requires b > 0
    ensures a / b * b <= a < a / b * b + b
  {
    assert a == a / b * b + a % b;
  }

  lemma QuotientMonotone(a: int, b: int, c: int)
    requires a <= b && c > 0
    ensures a / c <= b / c
  {
    QuotientBounds(a, c);
    QuotientBounds(b, c);
    var gap := a / c - b / c;
    assert gap * c == a / c * c - b / c * c;
    assert gap >= 1 ==> gap * c >= c;
  }

  /** Splitting off the whole part first does not change the exact quotient. */
  lemma SplitExact(value: nat, numerator: nat, denominator: nat)
    requires numerator > 0 && denominator > 0
    ensures Exact(value, numerator, denominator)
         == value / denominator * numerator + value % denominator * numerator / denominator
  {
    var quotient, remainder := value / denominator, value % denominator;
    assert value == quotient * denominator + remainder;
    var part := remainder * numerator / denominator;
    QuotientBounds(remainder * numerator, denominator);
    assert value * numerator == quotient * numerator * denominator + remainder * numerator by {
      assert value * numerator == (quotient * denominator + remainder) * numerator;
      assert quotient * denominator * numerator == quotient * numerator * denominator;
    }
    assert (quotient * numerator + part) * denominator == quotient * numerator * denominator + part * denominator;
    QuotientUnique(value * numerator, denominator, quotient * numerator + part);
  }

  /** Scaling is exact up to saturation, except when only the partial product of the remainder overflows. */
  lemma ScaleExactly(value: nat, numerator: nat, denominator: nat)
    requires numerator > 0 && denominator > 0
    ensures ScaleNonNegative(value, numerator, denominator) == Min(Exact(value, numerator, denominator), LONG_MAX)
       <==> value % denominator * numerator <= LONG_MAX || Exact(value, numerator, denominator) >= LONG_MAX
  {
    hide AddedExact, Exact;
    SplitExact(value, numerator, denominator);
    var quotient, remainder := value / denominator, value % denominator;
    TimesPositive(quotient, numerator);
    TimesPositive(remainder, numerator);
    AddedExactly(quotient * numerator, remainder * numerator, denominator);
  }

  /** Two 31-bit rates never overflow in the remainder: scaling at rates rounded to an int is exact. */
  lemma IntRatesScaleExactly(value: nat, numerator: nat, denominator: nat)
    requires 0 < numerator <= INT_MAX && 0 < denominator <= INT_MAX
    ensures ScaleNonNegative(value, numerator, denominator) == Min(Exact(value, numerator, denominator), LONG_MAX)
  {
    hide ScaleNonNegative, Exact;
    var remainder := value % denominator;
    TimesMonotone(remainder, INT_MAX, numerator);
    TimesMonotone(numerator, INT_MAX, INT_MAX);
    ScaleExactly(value, numerator, denominator);
  }

  /** The exception is real: a small value at two 40-bit rates saturates although its exact result is small. */
  lemma WideRatesSaturate()
    ensures ScaleNonNegative(0x80_0000_0000, 0x100_0000_0000, 0x100_0000_0000) == LONG_MAX
    ensures Exact(0x80_0000_0000, 0x100_0000_0000, 0x100_0000_0000) == 0x80_0000_0000
  {
  }

  lemma ExactMonotone(smaller: nat, larger: nat, numerator: nat, denominator: nat)
    requires smaller <= larger && numerator > 0 && denominator > 0
    ensures Exact(smaller, numerator, denominator) <= Exact(larger, numerator, denominator)
  {
    assert (larger - smaller) * numerator >= 0;
    assert larger * numerator == smaller * numerator + (larger - smaller) * numerator;
    QuotientMonotone(smaller * numerator, larger * numerator, denominator);
  }

  lemma ScaleMonotone(smaller: nat, larger: nat, numerator: nat, denominator: nat)
    requires smaller <= larger
    requires 0 < numerator <= INT_MAX && 0 < denominator <= INT_MAX
    ensures ScaleNonNegative(smaller, numerator, denominator) <= ScaleNonNegative(larger, numerator, denominator)
  {
    IntRatesScaleExactly(smaller, numerator, denominator);
    IntRatesScaleExactly(larger, numerator, denominator);
    ExactMonotone(smaller, larger, numerator, denominator);
  }

  /** Math.round of a usable float rate: an int, and zero for rates below one half. */
  predicate IsRate(rate: nat) {
    0 < rate <= INT_MAX
  }

  function FramesToMicros(frames: nat, rate: nat): (micros: int)
    requires IsRate(rate)
    ensures 0 <= micros <= LONG_MAX
  {
    ScaleNonNegative(frames, MICROS, rate)
  }

  function MicrosToFrames(micros: nat, rate: nat): (frames: int)
    requires IsRate(rate)
    ensures 0 <= frames <= LONG_MAX
  {
    ScaleNonNegative(micros, rate, MICROS)
  }

  /** How many frames a trip through microseconds can lose. */
  function Loss(rate: nat): nat
    requires IsRate(rate)
  {
    (rate + MICROS - 2) / MICROS
  }

  function RoundTrip(frames: nat, rate: nat): (back: int)
    requires IsRate(rate)
    ensures 0 <= back <= LONG_MAX
  {
    MicrosToFrames(FramesToMicros(frames, rate), rate)
  }

  /** The frames that the largest long of microseconds stands for. */
  function LongestTrack(rate: nat): nat
    requires IsRate(rate)
  {
    Exact(LONG_MAX, rate, MICROS)
  }

  /**
   * Frames to microseconds and back never gains a frame. It loses at most Loss of
   * them exactly if the count is no longer than the longest track and that loss.
   */
  lemma FramesRoundTrip(frames: nat, rate: nat)
    requires IsRate(rate) && frames <= LONG_MAX
    ensures RoundTrip(frames, rate) <= frames
    ensures frames - Loss(rate) <= RoundTrip(frames, rate) <==> frames <= LongestTrack(rate) + Loss(rate)
  {
    hide ScaleNonNegative, Exact, Loss;
    var exact := Exact(frames, MICROS, rate);
    var micros := FramesToMicros(frames, rate);
    IntRatesScaleExactly(frames, MICROS, rate);
    IntRatesScaleExactly(micros, rate, MICROS);
    ExactRoundTrip(frames, rate);
    ExactMonotone(micros, exact, rate, MICROS);
    ExactMonotone(micros, LONG_MAX, rate, MICROS);
  }

  /** Without saturation the loss is bounded for every count. */
  lemma ExactRoundTrip(frames: nat, rate: nat)
    requires IsRate(rate)
    ensures frames - Loss(rate) <= Exact(Exact(frames, MICROS, rate), rate, MICROS) <= frames
  {
    var micros := Exact(frames, MICROS, rate);
    QuotientBounds(frames * MICROS, rate);
    TimesPositive(micros, rate);
    QuotientMonotone(micros * rate, frames * MICROS, MICROS);
    QuotientUnique(frames * MICROS, MICROS, frames);
    QuotientMonotone(frames * MICROS - (rate - 1), micros * rate, MICROS);
    LowerEnd(frames, rate);
  }

  /** The bound does end: as many frames as a long can count, at 44.1 kHz, come back a million short and more. */
  lemma LongestCountLosesMore()
    ensures RoundTrip(LONG_MAX, 44_100) < LONG_MAX - 1_000_000
  {
  }

  lemma LowerEnd(frames: nat, rate: nat)
    requires IsRate(rate)
    ensures (frames * MICROS - (rate - 1)) / MICROS == frames - Loss(rate)
  {
    QuotientBounds(rate + MICROS - 2, MICROS);
    QuotientUnique(frames * MICROS - (rate - 1), MICROS, frames - Loss(rate));
  }

  /** Up to one frame per microsecond, at most one frame is lost. */
  lemma OneFrameLost(rate: nat)
    requires IsRate(rate) && rate <= MICROS
    ensures Loss(rate) <= 1
  {
  }

  /** The track as the session knows it. */
  datatype Track = Track(sourceRate: nat, playbackRate: nat, totalSourceFrames: Option<nat>)

  predicate ValidTrack(track: Track) {
    && IsRate(track.sourceRate) && IsRate(track.playbackRate)
    && (track.totalSourceFrames.Some? ==> track.totalSourceFrames.value <= LONG_MAX)
  }

  function Duration(track: Track): Option<int>
    requires ValidTrack(track)
  {
    if track.totalSourceFrames.None? then None
    else Some(FramesToMicros(track.totalSourceFrames.value, track.sourceRate))
  }

  function ClampDuration(track: Track, micros: int): int
    requires ValidTrack(track)
  {
    var nonNegative := if micros < 0 then 0 else micros;
    if Duration(track).None? then nonNegative else Min(nonNegative, Duration(track).value)
  }

  function ClampSourceFrame(track: Track, frame: int): int {
    var nonNegative := if frame < 0 then 0 else frame;
    if track.totalSourceFrames.None? then nonNegative else Min(nonNegative, track.totalSourceFrames.value)
  }

  /** The source frame that is heard after so many frames were written; `queued` of them are not heard yet. */
  function HeardFrame(track: Track, segmentStart: nat, writtenFrames: nat, queued: nat): (frame: nat)
    requires ValidTrack(track)
    ensures frame <= LONG_MAX
  {
    var audible := if queued <= writtenFrames then writtenFrames - queued else 0;
    Min(segmentStart + ScaleNonNegative(audible, track.sourceRate, track.playbackRate), LONG_MAX)
  }

  /** The reported position of that frame. */
  function Position(track: Track, segmentStart: nat, writtenFrames: nat, queued: nat): (micros: int)
    requires ValidTrack(track)
  {
    ClampDuration(track, FramesToMicros(HeardFrame(track, segmentStart, writtenFrames, queued), track.sourceRate))
  }

  /** A reported position lies inside the track, grows with what is written, and never runs ahead of the queue. */
  lemma PositionInTrack(track: Track, segmentStart: nat, writtenFrames: nat, later: nat, queued: nat)
    requires ValidTrack(track) && writtenFrames <= later
    ensures 0 <= Position(track, segmentStart, writtenFrames, queued)
    ensures Duration(track).Some? ==> Position(track, segmentStart, writtenFrames, queued) <= Duration(track).value
    ensures Position(track, segmentStart, writtenFrames, queued) <= Position(track, segmentStart, later, queued)
    ensures Position(track, segmentStart, writtenFrames, queued) <= Position(track, segmentStart, writtenFrames, 0)
  {
    var shorter := if queued <= writtenFrames then writtenFrames - queued else 0;
    var longer := if queued <= later then later - queued else 0;
    PositionMonotone(track, segmentStart, shorter, longer);
    PositionMonotone(track, segmentStart, shorter, writtenFrames);
  }

  lemma PositionMonotone(track: Track, segmentStart: nat, fewer: nat, more: nat)
    requires ValidTrack(track) && fewer <= more
    ensures Position(track, segmentStart, fewer, 0) <= Position(track, segmentStart, more, 0)
  {
    hide ScaleNonNegative, Exact;
    ScaleMonotone(fewer, more, track.sourceRate, track.playbackRate);
    ScaleMonotone(HeardFrame(track, segmentStart, fewer, 0), HeardFrame(track, segmentStart, more, 0), MICROS,
                  track.sourceRate);
  }

  /** The reported position, written out: the segment's start and the part heard of what was written, as time. */
  lemma PositionIs(track: Track, segmentStart: nat, writtenFrames: nat, queued: nat)
    requires ValidTrack(track)
    ensures var audible := if queued <= writtenFrames then writtenFrames - queued else 0;
      var heard := Min(segmentStart + audible * track.sourceRate / track.playbackRate, LONG_MAX);
      var micros := Min(heard * 1_000_000 / track.sourceRate, LONG_MAX);
      Position(track, segmentStart, writtenFrames, queued) ==
        match track.totalSourceFrames
        case None => micros
        case Some(total) => Min(micros, Min(total * 1_000_000 / track.sourceRate, LONG_MAX))
  {
    hide ScaleNonNegative;
    var audible := if queued <= writtenFrames then writtenFrames - queued else 0;
    TimesPositive(audible, track.sourceRate);
    IntRatesScaleExactly(audible, track.sourceRate, track.playbackRate);
    FramesAsTime(HeardFrame(track, segmentStart, writtenFrames, queued), track.sourceRate);
    if track.totalSourceFrames.Some? {
      FramesAsTime(track.totalSourceFrames.value, track.sourceRate);
    }
  }

  /** Frames as microseconds and back, rounded down and kept to a long. */
  lemma FramesAsTime(count: nat, rate: nat)
    requires IsRate(rate)
    ensures FramesToMicros(count, rate) == Min(count * 1_000_000 / rate, LONG_MAX)
    ensures MicrosToFrames(count, rate) == Min(Exact(count, rate, 1_000_000), LONG_MAX)
  {
    hide ScaleNonNegative;
    IntRatesScaleExactly(count, MICROS, rate);
    IntRatesScaleExactly(count, rate, MICROS);
  }

  /**
   * Before anything is heard the position is the frame the segment starts at; at equal rates
   * it advances frame by frame.
   */
  lemma PositionStartsAtSegment(track: Track, segmentStart: nat, writtenFrames: nat, queued: nat)
    requires ValidTrack(track) && segmentStart <= LONG_MAX
    ensures writtenFrames <= queued ==>
      Position(track, segmentStart, writtenFrames, queued) == ClampDuration(track, FramesToMicros(segmentStart, track.sourceRate))
    ensures track.sourceRate == track.playbackRate && queued <= writtenFrames && segmentStart + writtenFrames <= LONG_MAX ==>
      Position(track, segmentStart, writtenFrames, queued)
        == ClampDuration(track, FramesToMicros(segmentStart + (writtenFrames - queued), track.sourceRate))
  {
    hide ScaleNonNegative, Exact;
    var audible := if queued <= writtenFrames then writtenFrames - queued else 0;
    IntRatesScaleExactly(audible, track.sourceRate, track.playbackRate);
    EqualRates(audible, track.sourceRate);
    NothingScaled(track.sourceRate, track.playbackRate);
  }

  lemma EqualRates(value: nat, rate: nat)
    requires rate > 0
    ensures Exact(value, rate, rate) == value
  {
    MultipleIsWhole(value, rate);
  }

  lemma NothingScaled(numerator: nat, denominator: nat)
    requires numerator > 0 && denominator > 0
    ensures Exact(0, numerator, denominator) == 0
  {
  }

  /** The position clamped to the duration is the position of the frame clamped to the track. */
  lemma PositionOfFrame(track: Track, segmentStart: nat, writtenFrames: nat, queued: nat)
    requires ValidTrack(track)
    ensures var frame := ClampSourceFrame(track, HeardFrame(track, segmentStart, writtenFrames, queued));
      0 <= frame <= LONG_MAX
      && Position(track, segmentStart, writtenFrames, queued) == FramesToMicros(frame, track.sourceRate)
  {
    hide ScaleNonNegative, HeardFrame;
    var heard := HeardFrame(track, segmentStart, writtenFrames, queued);
    if track.totalSourceFrames.Some? {
      var total := track.totalSourceFrames.value;
      ScaleMonotone(Min(heard, total), if heard <= total then total else heard, MICROS, track.sourceRate);
    }
  }

  /**
   * Seeking to a reported position never goes past the frame that was heard, and
   * comes back to within Loss of it exactly if that frame is within the longest
   * track and the loss.
   */
  lemma SeekToReported(track: Track, segmentStart: nat, writtenFrames: nat, queued: nat)
    requires ValidTrack(track)
    ensures var frame := ClampSourceFrame(track, HeardFrame(track, segmentStart, writtenFrames, queued));
      var micros := Position(track, segmentStart, writtenFrames, queued);
      && micros >= 0
      && var target := ClampSourceFrame(track, MicrosToFrames(micros, track.sourceRate));
      && target <= frame
      && (frame - Loss(track.sourceRate) <= target <==>
            frame <= LongestTrack(track.sourceRate) + Loss(track.sourceRate))
  {
    hide HeardFrame, Position, FramesToMicros, MicrosToFrames, Loss, LongestTrack;
    PositionOfFrame(track, segmentStart, writtenFrames, queued);
    FramesRoundTrip(ClampSourceFrame(track, HeardFrame(track, segmentStart, writtenFrames, queued)), track.sourceRate);
  }

  /**
   * Right after seeking to a reported position the new report is never later, and
   * earlier by no more than the length of one source frame, rounded up.
   */
  lemma ReportAfterSeek(track: Track, segmentStart: nat, writtenFrames: nat, queued: nat, stillQueued: nat)
    requires ValidTrack(track)
    ensures var reported := Position(track, segmentStart, writtenFrames, queued);
      && reported >= 0
      && var target := ClampSourceFrame(track, MicrosToFrames(reported, track.sourceRate));
      && target >= 0
      && Position(track, target, 0, stillQueued) <= reported
      && reported <= Position(track, target, 0, stillQueued) + (1_000_000 + track.sourceRate - 1) / track.sourceRate
  {
    hide HeardFrame, Position, FramesToMicros, MicrosToFrames, ClampDuration;
    var rate := track.sourceRate;
    var frame := ClampSourceFrame(track, HeardFrame(track, segmentStart, writtenFrames, queued));
    PositionOfFrame(track, segmentStart, writtenFrames, queued);
    var reported := Position(track, segmentStart, writtenFrames, queued);
    FramesRoundTrip(frame, rate);
    var target := ClampSourceFrame(track, MicrosToFrames(reported, rate));
    assert target == MicrosToFrames(reported, rate) <= frame;
    PositionStartsAtSegment(track, target, 0, stillQueued);
    InsideDuration(track, target);
    TimeAgain(frame, rate);
  }

  /** Time to frames and back to time loses less than a frame's length. */
  lemma TimeAgain(frame: nat, rate: nat)
    requires IsRate(rate) && frame <= LONG_MAX
    ensures var reported := FramesToMicros(frame, rate); var again := FramesToMicros(MicrosToFrames(reported, rate), rate);
      again <= reported <= again + (MICROS + rate - 1) / rate
  {
    hide ScaleNonNegative, Exact;
    var reported := FramesToMicros(frame, rate);
    FramesAsTime(frame, rate);
    FramesAsTime(reported, rate);
    FramesRoundTrip(frame, rate);
    var target := MicrosToFrames(reported, rate);
    FramesAsTime(target, rate);
    ScaleMonotone(target, frame, MICROS, rate);
    ExactIs(frame, rate);
    ExactMonotone(reported, Exact(frame, MICROS, rate), rate, MICROS);
    ExactRoundTrip(frame, rate);
    assert target == Exact(reported, rate, MICROS);
    LowerTime(reported, rate);
    ExactIs(target, rate);
  }

  lemma ExactIs(count: nat, rate: nat)
    requires rate > 0
    ensures Exact(count, MICROS, rate) == count * 1_000_000 / rate
  {
  }

  lemma LowerTime(micros: nat, rate: nat)
    requires IsRate(rate)
    ensures micros <= Exact(Exact(micros, rate, MICROS), MICROS, rate) + (MICROS + rate - 1) / rate
  {
    var target := Exact(micros, rate, MICROS);
    var again := Exact(target, MICROS, rate);
    var step := (MICROS + rate - 1) / rate;
    QuotientBounds(micros * rate, MICROS);
    QuotientBounds(target * MICROS, rate);
    QuotientBounds(MICROS + rate - 1, rate);
    var gap := micros - again - step;
    assert gap * rate == micros * rate - again * rate - step * rate;
    assert gap >= 1 ==> gap * rate >= rate;
  }

  /** A frame inside the track is inside its duration. */
  lemma InsideDuration(track: Track, frame: nat)
    requires ValidTrack(track) && frame == ClampSourceFrame(track, frame)
    ensures ClampDuration(track, FramesToMicros(frame, track.sourceRate)) == FramesToMicros(frame, track.sourceRate)
  {
    hide ScaleNonNegative;
    if track.totalSourceFrames.Some? {
      ScaleMonotone(frame, track.totalSourceFrames.value, MICROS, track.sourceRate);
    }
  }

  /** The relative seek on longs, with its two guards against overflow. */
  function RelativeTarget(current: int, delta: int): int
    requires 0 <= current <= LONG_MAX && -LONG_MAX - 1 <= delta <= LONG_MAX
  {
    var target :=
      if delta > 0 && current > LONG_MAX - delta then LONG_MAX
      else if delta == -LONG_MAX - 1 || (delta < 0 && current < -delta) then 0
      else current + delta;
    if target < 0 then 0 else target
  }

  /** It is the true sum, kept between zero and the largest long. */
  lemma RelativeSeek(current: int, delta: int)
    requires 0 <= current <= LONG_MAX && -LONG_MAX - 1 <= delta <= LONG_MAX
    ensures RelativeTarget(current, delta) == Min(if current + delta < 0 then 0 else current + delta, LONG_MAX)
  {
  }
}
