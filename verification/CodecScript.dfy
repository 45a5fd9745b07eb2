/**
 * libFLAC as the wrapper meets it: a script of blocks, silent steps and faults,
 * and the plain frame sequence that the script stands for.
 */
module CodecScript {
  import opened Arithmetic
  import opened Interleaving
  import opened PlainStream

  const MAX_CHANNELS := 8
  const MAX_BLOCK_SIZE := 65535

  /** What one process_single call does; the end of the script is end of stream. */
  datatype Event<T> =
    | Block(buffer: seq<seq<T>>, frames: nat)
    | Silent
    | Fault(cause: Failure)

  /** The failures a script can stop with. */
  predicate ScriptFailure(cause: Failure) {
    cause in {SourceThrew, DecoderFailed, DecoderAborted, OutOfMemory, BlockTooLarge}
  }

  /** Those, and a stream that ends short; the callbacks' own defensive failures are not among them. */
  predicate CodecFailure(cause: Failure) {
    ScriptFailure(cause) || cause == FrameCountMismatch
  }

  /** libFLAC's side: blocks have STREAMINFO's channel count and full channels. */
  ghost predicate Honest<T>(upcoming: seq<Event<T>>, channels: nat) {
    forall i :: 0 <= i < |upcoming| ==> HonestEvent(upcoming[i], channels)
  }

  ghost predicate HonestEvent<T>(event: Event<T>, channels: nat) {
    match event
    case Block(buffer, frames) => |buffer| == channels && Rectangular(buffer, frames)
    case Silent => true
    case Fault(cause) => cause in {SourceThrew, DecoderFailed, DecoderAborted, OutOfMemory}
  }

  /** The interleaved samples in so many frames. */
  function Samples(frames: nat, channels: nat): nat {
    frames * channels
  }

  predicate TooLarge(channels: nat, frames: nat) {
    channels == 0 || frames == 0 || Samples(frames, channels) > INT_MAX
  }

  /** The frames delivered before the script ends or fails. */
  ghost function Ahead<T>(upcoming: seq<Event<T>>, channels: nat): (rows: seq<seq<T>>)
    requires Honest(upcoming, channels)
    ensures IsFrames(rows, channels)
  {
    if upcoming == [] then [] else
    match upcoming[0]
    case Block(buffer, frames) =>
      if TooLarge(channels, frames) then [] else Rows(buffer, frames) + Ahead(upcoming[1..], channels)
    case Silent => Ahead(upcoming[1..], channels)
    case Fault(_) => []
  }

  ghost function StopOf<T>(upcoming: seq<Event<T>>, channels: nat): Stop {
    if upcoming == [] then Finished else
    match upcoming[0]
    case Block(_, frames) =>
      if TooLarge(channels, frames) then Failing(BlockTooLarge) else StopOf(upcoming[1..], channels)
    case Silent => StopOf(upcoming[1..], channels)
    case Fault(cause) => Failing(cause)
  }

  /** Block sizes and channel counts that a FLAC frame can have (section 9.1 of RFC 9639). */
  ghost predicate Legal<T>(upcoming: seq<Event<T>>, channels: nat) {
    && 1 <= channels <= MAX_CHANNELS
    && forall i :: 0 <= i < |upcoming| && upcoming[i].Block? ==> 1 <= upcoming[i].frames <= MAX_BLOCK_SIZE
  }

  /** A script ends by itself, or stops at its first fault or oversized block, which no legal frame is. */
  lemma {:induction false} StopCause<T>(upcoming: seq<Event<T>>, channels: nat)
    requires Honest(upcoming, channels)
    ensures StopOf(upcoming, channels).Failing? ==> ScriptFailure(StopOf(upcoming, channels).cause)
    ensures StopOf(upcoming, channels) == Failing(BlockTooLarge) ==> !Legal(upcoming, channels)
    ensures StopOf(upcoming, channels) == Finished <==>
      forall i :: 0 <= i < |upcoming| ==> !Stops(upcoming[i], channels)
  {
    hide Samples;
    if upcoming != [] {
      assert HonestEvent(upcoming[0], channels);
      StopCause(upcoming[1..], channels);
      assert forall i :: 0 < i < |upcoming| ==> upcoming[1..][i - 1] == upcoming[i];
      if Legal(upcoming, channels) && upcoming[0].Block? {
        NeverTooLarge(channels, upcoming[0].frames);
      }
    }
  }

  predicate Stops<T>(event: Event<T>, channels: nat) {
    event.Fault? || (event.Block? && TooLarge(channels, event.frames))
  }

  /** No block of a legal size and channel count is too large for one JVM array. */
  lemma NeverTooLarge(channels: nat, frames: nat)
    requires 1 <= channels <= MAX_CHANNELS && 1 <= frames <= MAX_BLOCK_SIZE
    ensures !TooLarge(channels, frames) && Samples(frames, channels) <= INT_MAX
  {
    TimesMonotone(channels, MAX_CHANNELS, frames);
  }

  lemma AheadEmpty<T>(channels: nat)
    ensures Honest<T>([], channels) && Ahead<T>([], channels) == [] && StopOf<T>([], channels) == Finished
  {
  }

  lemma AheadStep<T>(upcoming: seq<Event<T>>, channels: nat)
    requires upcoming != [] && Honest(upcoming, channels)
    ensures HonestEvent(upcoming[0], channels) && Honest(upcoming[1..], channels)
    ensures upcoming[0].Silent? ==>
      && Ahead(upcoming, channels) == Ahead(upcoming[1..], channels)
      && StopOf(upcoming, channels) == StopOf(upcoming[1..], channels)
    ensures upcoming[0].Fault? ==>
      Ahead(upcoming, channels) == [] && StopOf(upcoming, channels) == Failing(upcoming[0].cause)
    ensures upcoming[0].Block? && TooLarge(channels, upcoming[0].frames) ==>
      Ahead(upcoming, channels) == [] && StopOf(upcoming, channels) == Failing(BlockTooLarge)
    ensures upcoming[0].Block? && !TooLarge(channels, upcoming[0].frames) ==>
      && Ahead(upcoming, channels)
         == Rows(upcoming[0].buffer, upcoming[0].frames) + Ahead(upcoming[1..], channels)
      && StopOf(upcoming, channels) == StopOf(upcoming[1..], channels)
  {
    assert HonestEvent(upcoming[0], channels);
  }
}
