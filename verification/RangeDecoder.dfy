/**
 * Reusable decoder sessions: seek, crop to the requested range in the write
 * callback, and check the count of frames at the end of the stream and in the JVM.
 */
module RangeDecoder {
  import opened Arithmetic
  import opened CodecScript
  import opened Interleaving
  import opened PlainStream
  import opened Wrappers

  /** One PCM callback, with the position the JVM wrapper gives it. */
  datatype Chunk<T> = Chunk(samples: seq<T>, frames: nat, firstFrameIndex: nat)

  /** The chunks are consecutive non-empty pieces of `rows`, which start at frame `first`. */
  ghost predicate Tiles<T>(chunks: seq<Chunk<T>>, rows: seq<seq<T>>, first: nat)
    decreases |chunks|
  {
    if chunks == [] then rows == [] else
      var last := chunks[|chunks| - 1];
      && 0 < last.frames <= |rows|
      && var split := |rows| - last.frames;
      && last.samples == Flat(rows[split..])
      && last.firstFrameIndex == first + split
      && Tiles(chunks[..|chunks| - 1], rows[..split], first)
  }

  ghost function Joined<T>(chunks: seq<Chunk<T>>): seq<T> {
    if chunks == [] then [] else Joined(chunks[..|chunks| - 1]) + chunks[|chunks| - 1].samples
  }

  /** Chunks that tile some frames hold exactly their samples, gap-free and in order. */
  lemma {:induction false} TilesJoin<T>(chunks: seq<Chunk<T>>, rows: seq<seq<T>>, first: nat)
    requires Tiles(chunks, rows, first)
    ensures Joined(chunks) == Flat(rows)
    ensures chunks != [] ==> chunks[0].firstFrameIndex == first
    ensures forall i :: 0 <= i < |chunks| - 1 ==>
      chunks[i].firstFrameIndex + chunks[i].frames == chunks[i + 1].firstFrameIndex
    decreases |chunks|
  {
    if chunks != [] {
      var last := |chunks| - 1;
      var split := |rows| - chunks[last].frames;
      TilesJoin(chunks[..last], rows[..split], first);
      FlatAppend(rows[..split], rows[split..]);
      assert rows[..split] + rows[split..] == rows;
      if last > 0 {
        assert chunks[..last][last - 1] == chunks[last - 1];
        forall i | 0 <= i < last - 1
          ensures chunks[i].firstFrameIndex + chunks[i].frames == chunks[i + 1].firstFrameIndex
        {
          assert chunks[..last][i] == chunks[i] && chunks[..last][i + 1] == chunks[i + 1];
        }
      }
    }
  }

  lemma TilesGrow<T>(chunks: seq<Chunk<T>>, rows: seq<seq<T>>, first: nat, more: seq<seq<T>>)
    requires Tiles(chunks, rows, first) && more != []
    ensures Tiles(chunks + [Chunk(Flat(more), |more|, first + |rows|)], rows + more, first)
  {
    hide Flat, Tiles;
    assert (rows + more)[..|rows|] == rows && (rows + more)[|rows|..] == more;
    TilesSnoc(chunks, Chunk(Flat(more), |more|, first + |rows|), rows + more, first);
  }

  lemma TilesSnoc<T>(chunks: seq<Chunk<T>>, last: Chunk<T>, rows: seq<seq<T>>, first: nat)
    requires 0 < last.frames <= |rows|
    requires last.samples == Flat(rows[|rows| - last.frames..])
    requires last.firstFrameIndex == first + |rows| - last.frames
    requires Tiles(chunks, rows[..|rows| - last.frames], first)
    ensures Tiles(chunks + [last], rows, first)
  {
    hide Flat;
    assert (chunks + [last])[..|chunks|] == chunks;
  }

  /** STREAMINFO's total, where known, bounds what a range may and must deliver. */
  predicate CountAccepted(total: nat, first: nat, maxFrames: Option<nat>, frames: nat) {
    && (maxFrames.Some? ==> frames <= maxFrames.value)
    && (total == 0 || (first <= total && frames == Cropped(total - first, maxFrames)))
  }

  /** So many frames, but no more than the limit. */
  function Cropped(frames: nat, maxFrames: Option<nat>): nat {
    if maxFrames.Some? && maxFrames.value < frames then maxFrames.value else frames
  }

  /** The check at physical end of stream. */
  predicate EndCountMet(total: nat, first: nat, emitted: nat) {
    total == 0 || first >= total || emitted >= total - first
  }

  /** The JVM bookkeeping around the caller's handler. */
  class SummaryTrackingConsumer<T> {
    const channels: nat
    const totalSamples: nat
    const firstFrameIndex: nat
    const maxFrames: Option<nat>
    /** How many chunks the handler takes before it throws, if it ever does. */
    const patience: Option<nat>

    var totalFrames: nat
    var completed: bool
    var chunks: seq<Chunk<T>>

    constructor (channels: nat, totalSamples: nat, firstFrameIndex: nat, maxFrames: Option<nat>,
                 patience: Option<nat>)
      ensures Fresh() && this.channels == channels && this.totalSamples == totalSamples
      ensures this.firstFrameIndex == firstFrameIndex && this.maxFrames == maxFrames && this.patience == patience
    {
      this.channels, this.totalSamples := channels, totalSamples;
      this.firstFrameIndex, this.maxFrames, this.patience := firstFrameIndex, maxFrames, patience;
      totalFrames, completed, chunks := 0, false, [];
    }

    predicate Fresh()
      reads this
    {
      totalFrames == 0 && !completed && chunks == []
    }

    method OnPcmInterleaved(samples: seq<T>, frames: nat) returns (threw: bool)
      modifies this`totalFrames, this`chunks
      ensures !threw ==>
        && totalFrames == old(totalFrames) + frames
        && chunks == old(chunks) + [Chunk(samples, frames, firstFrameIndex + old(totalFrames))]
      ensures threw ==> chunks == old(chunks)
      ensures threw <==>
        || old(completed) || |samples| != Samples(frames, channels) || |samples| > INT_MAX
        || Overflows(old(totalFrames), frames)
        || patience == Some(|old(chunks)|)
    {
      if completed || firstFrameIndex + totalFrames > LONG_MAX {
        return true;
      }
      if Samples(frames, channels) > INT_MAX || |samples| != Samples(frames, channels) {
        return true;
      }
      if totalFrames + frames > LONG_MAX {
        return true;
      }
      var chunk := Chunk(samples, frames, firstFrameIndex + totalFrames);
      totalFrames := totalFrames + frames;
      if patience == Some(|chunks|) {
        return true;
      }
      chunks := chunks + [chunk];
      return false;
    }

    predicate Overflows(framesBefore: nat, frames: nat) {
      firstFrameIndex + framesBefore > LONG_MAX || framesBefore + frames > LONG_MAX
    }

    method OnComplete() returns (threw: bool)
      modifies this`completed
      ensures completed
      ensures threw <==>
        || (maxFrames.Some? && totalFrames > maxFrames.value)
        || (totalSamples > 0 && firstFrameIndex > totalSamples)
        || (totalSamples > 0 && firstFrameIndex <= totalSamples &&
            totalFrames != if maxFrames.Some? then Min(maxFrames.value, totalSamples - firstFrameIndex)
                           else totalSamples - firstFrameIndex)
      ensures threw <==> !CountAccepted(totalSamples, firstFrameIndex, maxFrames, totalFrames)
    {
      completed := true;
      if maxFrames.Some? && totalFrames > maxFrames.value {
        return true;
      }
      if totalSamples == 0 {
        return false;
      }
      var available := totalSamples - firstFrameIndex;
      if available < 0 {
        return true;
      }
      var expected := if maxFrames.Some? && maxFrames.value <= available then maxFrames.value else available;
      return expected != totalFrames;
    }
  }

  /** The answer of seek_absolute; a seek may hand over the first block, cut to the target, by itself. */
  datatype Seek<T> =
    | SeekFailed(cause: Failure)
    | Sought(script: seq<Event<T>>, early: bool)

  /** What a seek to `first` promises about a stream whose frames are `all`. */
  ghost predicate SeekKept<T>(seek: Seek<T>, all: seq<seq<T>>, first: int, channels: nat) {
    seek.Sought? ==>
      && Honest(seek.script, channels) && Legal(seek.script, channels)
      && (seek.early ==> seek.script != [] && seek.script[0].Block?)
      && 0 <= first <= |all|
      && Ahead(seek.script, channels) <= all[first..]
      && (StopOf(seek.script, channels) == Finished ==> Ahead(seek.script, channels) == all[first..])
  }

  /** The frames [first, first + limit) of a stream, as far as it has them. */
  ghost function Slice<T>(all: seq<seq<T>>, first: nat, limit: Option<nat>): seq<seq<T>>
    requires first <= |all|
  {
    all[first..first + Cropped(|all| - first, limit)]
  }

  /** Whether the native side reports success, given how many frames were in reach and how they ended. */
  predicate NativeCompletes(total: nat, first: nat, maxFrames: Option<nat>, frames: nat, stop: Stop) {
    match maxFrames
    case Some(limit) => frames >= limit || (stop == Finished && EndCountMet(total, first, frames))
    case None => stop == Failing(DecoderAborted) || (stop == Finished && EndCountMet(total, first, frames))
  }

  class DecodeContext<T(0)> {
    const channels: nat
    const totalSamples: nat
    const consumer: SummaryTrackingConsumer<T>

    var upcoming: seq<Event<T>>
    var firstSample: nat
    var rangeLimited: bool
    var maxFrames: nat
    var emitted: nat
    var rangeComplete: bool
    ghost var delivered: seq<seq<T>>

    constructor (channels: nat, totalSamples: nat, consumer: SummaryTrackingConsumer<T>)
      ensures this.channels == channels && this.totalSamples == totalSamples && this.consumer == consumer
    {
      this.channels, this.totalSamples, this.consumer := channels, totalSamples, consumer;
      upcoming, firstSample, rangeLimited, maxFrames, emitted, rangeComplete := [], 0, false, 0, 0, false;
      delivered := [];
    }

    /** Native and JVM counts agree with what the handler has. */
    ghost predicate InStep()
      reads `firstSample, `rangeLimited, `maxFrames, `emitted, `rangeComplete, `delivered, consumer
    {
      && 1 <= channels <= MAX_CHANNELS && consumer.channels == channels
      && !consumer.completed && consumer.firstFrameIndex == firstSample
      && Tiles(consumer.chunks, delivered, firstSample)
      && consumer.totalFrames == emitted == |delivered|
      && (rangeLimited ==> emitted <= maxFrames)
      && (rangeComplete ==> rangeLimited && emitted == maxFrames)
    }

    /** The handler threw at the chunk it got next, or a frame index would leave the Long range. */
    ghost predicate Interrupted(frames: nat)
      reads `firstSample, consumer`chunks
    {
      consumer.patience == Some(|consumer.chunks|) || firstSample + frames > LONG_MAX
    }

    /** Wherever a decode over `whole` stopped, what went out is a front part of the range, in contiguous chunks. */
    ghost predicate Emitted(whole: seq<seq<T>>)
      reads `firstSample, `rangeLimited, `maxFrames, `delivered, consumer`chunks
    {
      Tiles(consumer.chunks, delivered, firstSample) && delivered <= whole[..Cropped(|whole|, Limit())]
    }

    ghost function Limit(): Option<nat>
      reads `rangeLimited, `maxFrames
    {
      if rangeLimited then Some(maxFrames) else None
    }

    /** libFLAC's write callback: crops the block to what the range still wants. */
    method WriteCallback(buffer: seq<seq<T>>, frames: nat) returns (failure: Option<Failure>)
      requires InStep() && !rangeComplete
      requires |buffer| == channels && Rectangular(buffer, frames) && 1 <= frames <= MAX_BLOCK_SIZE
      modifies this`emitted, this`rangeComplete, this`delivered, consumer`totalFrames, consumer`chunks
      ensures failure.Some? ==>
        && failure.value == ConsumerThrew && Interrupted(old(emitted) + frames)
        && delivered == old(delivered) && Tiles(consumer.chunks, delivered, firstSample)
      ensures failure.None? ==>
        && InStep()
        && var kept := if rangeLimited && maxFrames - old(emitted) < frames then maxFrames - old(emitted) else frames;
        && delivered == old(delivered) + Rows(buffer, frames)[..kept]
        && (rangeComplete <==> rangeLimited && emitted == maxFrames)
    {
      hide Tiles, Flat, Rows, Samples;
      var outputFrames := frames;
      if rangeLimited {
        var remaining: nat := maxFrames - emitted;
        if remaining == 0 {
          rangeComplete := true;
          return None;
        }
        if remaining < outputFrames {
          outputFrames := remaining;
        }
      }
      failure := Emit(buffer, outputFrames, frames);
      if failure.None? && rangeLimited && emitted >= maxFrames {
        rangeComplete := true;
      }
    }

    /** Hands the first `outputFrames` frames of a block to the JVM. */
    method Emit(buffer: seq<seq<T>>, outputFrames: nat, ghost frames: nat) returns (failure: Option<Failure>)
      requires InStep() && !rangeComplete
      requires |buffer| == channels && Rectangular(buffer, frames)
      requires 1 <= outputFrames <= frames <= MAX_BLOCK_SIZE
      requires rangeLimited ==> emitted + outputFrames <= maxFrames
      modifies this`emitted, this`delivered, consumer`totalFrames, consumer`chunks
      ensures failure.Some? ==>
        && failure.value == ConsumerThrew && Interrupted(old(emitted) + frames)
        && delivered == old(delivered) && Tiles(consumer.chunks, delivered, firstSample)
      ensures failure.None? ==>
        InStep() && delivered == old(delivered) + Rows(buffer, frames)[..outputFrames]
    {
      hide Tiles, Flat, Rows, Interleave, TooLarge, Samples;
      NeverTooLarge(channels, outputFrames);
      if TooLarge(channels, outputFrames) {
        failure := Some(BlockTooLarge);
      } else {
        var interleaved := InterleaveBlock(buffer, outputFrames);
        BlockPrefix(buffer, frames, outputFrames);
        ghost var more := Rows(buffer, frames)[..outputFrames];
        TilesGrow(consumer.chunks, delivered, firstSample, more);
        var threw := consumer.OnPcmInterleaved(interleaved[..], outputFrames);
        failure := if threw then Some(ConsumerThrew) else None;
        if !threw {
          emitted := emitted + outputFrames;
          delivered := delivered + more;
        }
      }
    }

    /** A decode under way over `whole`: either all of the range is out, or the rest is still ahead. */
    ghost predicate Midway(whole: seq<seq<T>>, stop: Stop)
      reads this, consumer
    {
      && InStep() && Honest(upcoming, channels) && Legal(upcoming, channels)
      && if rangeComplete then maxFrames <= |whole| && delivered == whole[..maxFrames]
         else
           && delivered + Ahead(upcoming, channels) == whole && StopOf(upcoming, channels) == stop
           && (rangeLimited ==> emitted < maxFrames)
    }

    /** One scripted event of a process call; None at the end of the script. */
    method TakeEvent(ghost whole: seq<seq<T>>, ghost stop: Stop) returns (state: Option<Option<Failure>>)
      requires Midway(whole, stop) && !rangeComplete
      modifies this`upcoming, this`emitted, this`rangeComplete, this`delivered
      modifies consumer`totalFrames, consumer`chunks
      ensures |upcoming| <= |old(upcoming)|
      ensures state.None? ==> Midway(whole, stop) && !rangeComplete && stop == Finished && delivered == whole
      ensures state == Some(None) ==> Midway(whole, stop) && |upcoming| < |old(upcoming)|
      ensures state.Some? && state.value.Some? ==>
        if state.value.value == ConsumerThrew then Interrupted(|whole|) && Emitted(whole)
        else
          && InStep() && !rangeComplete && (rangeLimited ==> emitted < maxFrames)
          && delivered == whole && stop == Failing(state.value.value)
    {
      hide Tiles, Flat, Rows, Ahead, StopOf, Samples, TooLarge;
      if upcoming == [] {
        AheadEmpty<T>(channels);
        return None;
      }
      var event := upcoming[0];
      AheadStep(upcoming, channels);
      upcoming := upcoming[1..];
      match event
      case Silent =>
        return Some(None);
      case Fault(cause) =>
        return Some(Some(cause));
      case Block(buffer, frames) =>
        NeverTooLarge(channels, frames);
        var failure := WriteCallback(buffer, frames);
        return Some(failure);
    }

    /** What process_decode_stream promises about a decode over `whole`. */
    ghost predicate Processed(failure: Option<Failure>, whole: seq<seq<T>>, stop: Stop)
      reads `firstSample, `rangeLimited, `maxFrames, `emitted, `rangeComplete, `delivered, consumer
    {
      var completes := NativeCompletes(totalSamples, firstSample, Limit(), |whole|, stop);
      if failure.None? then
        completes && InStep() && delivered == whole[..Cropped(|whole|, Limit())]
      else Emitted(whole) && (!completes || Interrupted(|whole|))
    }

    /** The unbounded branch: libFLAC runs to the end of the stream or to an aborted state. */
    method ProcessUntilEndOfStream(ghost whole: seq<seq<T>>, ghost stop: Stop) returns (failure: Option<Failure>)
      requires Midway(whole, stop) && !rangeLimited
      modifies this`upcoming, this`emitted, this`rangeComplete, this`delivered
      modifies consumer`totalFrames, consumer`chunks
      ensures Processed(failure, whole, stop)
    {
      hide Tiles, Ahead, StopOf, Honest, Legal;
      var state := RunScript(whole, stop);
      if state.Some? {
        return if state.value == DecoderAborted then None else state;
      }
      return if EndCountMet(totalSamples, firstSample, emitted) then None else Some(FrameCountMismatch);
    }

    /** Takes events until the script ends or fails. */
    method RunScript(ghost whole: seq<seq<T>>, ghost stop: Stop) returns (failure: Option<Failure>)
      requires Midway(whole, stop) && !rangeLimited
      modifies this`upcoming, this`emitted, this`rangeComplete, this`delivered
      modifies consumer`totalFrames, consumer`chunks
      ensures failure.None? ==> InStep() && !rangeComplete && stop == Finished && delivered == whole
      ensures failure.Some? ==>
        if failure.value == ConsumerThrew then Interrupted(|whole|) && Emitted(whole)
        else InStep() && delivered == whole && stop == Failing(failure.value)
    {
      hide Tiles, Ahead, StopOf, Honest, Legal;
      while true
        invariant Midway(whole, stop)
        decreases |upcoming|
      {
        var state := TakeEvent(whole, stop);
        if state.None? {
          return None;
        }
        if state.value.Some? {
          return state.value;
        }
      }
    }

    /** The bounded branch: one event at a time until the range is out. */
    method ProcessRange(ghost whole: seq<seq<T>>, ghost stop: Stop) returns (failure: Option<Failure>)
      requires Midway(whole, stop) && rangeLimited
      modifies this`upcoming, this`emitted, this`rangeComplete, this`delivered
      modifies consumer`totalFrames, consumer`chunks
      ensures Processed(failure, whole, stop)
    {
      hide Tiles, Ahead, StopOf, Honest, Legal;
      while !rangeComplete
        invariant Midway(whole, stop)
        decreases |upcoming|
      {
        var state := TakeEvent(whole, stop);
        if state.None? {
          return if EndCountMet(totalSamples, firstSample, emitted) then None else Some(FrameCountMismatch);
        }
        if state.value.Some? {
          return state.value;
        }
      }
      return None;
    }

    /** Seeks, and lets the seek hand over its early block. */
    method SeekAbsolute(seek: Seek<T>) returns (failure: Option<Failure>)
      requires InStep() && !rangeComplete && delivered == [] && (rangeLimited ==> maxFrames > 0)
      requires seek.Sought? ==>
        && Honest(seek.script, channels) && Legal(seek.script, channels)
        && (seek.early ==> seek.script != [] && seek.script[0].Block?)
      modifies this`upcoming, this`emitted, this`rangeComplete, this`delivered
      modifies consumer`totalFrames, consumer`chunks
      ensures failure.None? ==>
        seek.Sought? && Midway(Ahead(seek.script, channels), StopOf(seek.script, channels))
      ensures failure.Some? && seek.Sought? ==>
        Interrupted(|Ahead(seek.script, channels)|) && Emitted(Ahead(seek.script, channels))
      ensures seek.SeekFailed? ==> consumer.chunks == old(consumer.chunks)
    {
      hide Tiles, Ahead, StopOf, Rows;
      if seek.SeekFailed? {
        return Some(seek.cause);
      }
      upcoming := seek.script;
      ghost var whole, stop := Ahead(seek.script, channels), StopOf(seek.script, channels);
      assert delivered + whole == whole;
      if seek.early {
        var event := upcoming[0];
        AheadStep(upcoming, channels);
        upcoming := upcoming[1..];
        NeverTooLarge(channels, event.frames);
        failure := WriteCallback(event.buffer, event.frames);
      } else {
        failure := None;
      }
    }

    /** prepare_decode_context and configure_decode_range. */
    method Prepare(first: nat, limit: Option<nat>)
      requires consumer.Fresh() && consumer.channels == channels && consumer.firstFrameIndex == first
      requires 1 <= channels <= MAX_CHANNELS
      modifies this
      ensures InStep() && delivered == [] && firstSample == first && Limit() == limit
      ensures rangeComplete <==> limit == Some(0)
    {
      firstSample, rangeLimited, emitted := first, limit.Some?, 0;
      maxFrames := if limit.Some? then limit.value else 0;
      rangeComplete := limit == Some(0);
      delivered := [];
    }

    /** What the handler has got is a front part of these frames, whether or not the decode completed. */
    ghost predicate EmittedOf(rows: seq<seq<T>>, first: nat)
      reads `delivered, consumer`chunks
    {
      delivered <= rows && Tiles(consumer.chunks, delivered, first)
    }

    /** The consumer was made for this call. */
    ghost predicate Serves(all: seq<seq<T>>, seek: Seek<T>, first: int, limit: Option<nat>)
      reads consumer
    {
      && 1 <= channels <= MAX_CHANNELS
      && SeekKept(seek, all, first, channels)
      && consumer.Fresh() && consumer.channels == channels && consumer.totalSamples == totalSamples
      && (first >= 0 ==> consumer.firstFrameIndex == first) && consumer.maxFrames == limit
    }

    /** A bounded decode through a reusable session: `decodeDecoderRange` with the JVM checks around it. */
    method DecodeRange(first: int, max: int, seek: Seek<T>, ghost all: seq<seq<T>>) returns (outcome: Outcome)
      requires Serves(all, seek, first, if max < 0 then None else Some(max))
      modifies this, consumer
      ensures first < 0 || max < 0 || first + max > LONG_MAX ==> outcome == Rejected(BadArgument) && consumer.chunks == []
      ensures first >= 0 && max >= 0 && first + max <= LONG_MAX && Flawless(all, seek) ==>
        && outcome == Completed && consumer.completed
        && Tiles(consumer.chunks, all[first..Min(first + max, |all|)], first)
      ensures first >= 0 && max >= 0 && first + max <= LONG_MAX ==>
        && (totalSamples > 0 && first > totalSamples ==> outcome == Rejected(RangeAfterStream) && consumer.chunks == [])
        && (totalSamples > 0 && first == totalSamples ==> outcome == Completed && consumer.chunks == [])
        && (max == 0 && (totalSamples == 0 || first <= totalSamples) ==> outcome == Completed && consumer.chunks == [])
      ensures RangeLegal(first, max) && Trivial(first, max) ==>
        outcome == Completed && consumer.completed && consumer.chunks == []
      ensures RangeLegal(first, max) && !Trivial(first, max) && outcome.Completed? ==>
        && seek.Sought? && consumer.completed
        && Tiles(consumer.chunks, Slice(all, first, Some(max)), first)
        && CountAccepted(totalSamples, first, Some(max), Cropped(|all| - first, Some(max)))
      ensures RangeLegal(first, max) && !Trivial(first, max) && !(totalSamples > 0 && first > totalSamples)
              && outcome.Rejected? ==>
        || seek.SeekFailed? || consumer.patience == Some(|consumer.chunks|) || |all| > LONG_MAX
        || !NativeCompletes(totalSamples, first, Some(max), |Ahead(seek.script, channels)|,
                            StopOf(seek.script, channels))
        || !CountAccepted(totalSamples, first, Some(max), Cropped(|all| - first, Some(max)))
      ensures RangeLegal(first, max) && !Trivial(first, max) && seek.Sought? ==>
        EmittedOf(Slice(all, first, Some(max)), first)
      ensures seek.SeekFailed? ==> consumer.chunks == []
    {
      hide Tiles, Ahead, StopOf, Honest, Legal;
      if !RangeLegal(first, max) {
        return Rejected(BadArgument);
      }
      Prepare(first, Some(max));
      if totalSamples > 0 && first > totalSamples {
        return Rejected(RangeAfterStream);
      }
      if rangeComplete || (totalSamples > 0 && first == totalSamples) {
        var threw := consumer.OnComplete();
        assert Flawless(all, seek) ==> all[first..Min(first + max, |all|)] == delivered;
        return if threw then Rejected(FrameCountMismatch) else Completed;
      }
      outcome := RunDecode(seek);
      if seek.Sought? {
        SliceOf(all, seek, first, Some(max), channels, totalSamples);
        FlawlessCounts(totalSamples, first, Some(max), |all|);
        assert first + Cropped(|all| - first, Some(max)) == Min(first + max, |all|);
      }
    }

    /** An unbounded decode from a frame on: `decodeDecoderFrom` with the JVM checks around it. */
    method DecodeFrom(first: int, seek: Seek<T>, ghost all: seq<seq<T>>) returns (outcome: Outcome)
      requires Serves(all, seek, first, None)
      modifies this, consumer
      ensures first < 0 ==> outcome == Rejected(BadArgument) && consumer.chunks == []
      ensures first >= 0 && Flawless(all, seek) ==>
        outcome == Completed && consumer.completed && Tiles(consumer.chunks, all[first..], first)
      ensures first >= 0 && outcome.Completed? ==>
        && seek.Sought? && consumer.completed
        && var reached := |Ahead(seek.script, channels)|;
        && first + reached <= |all| && Tiles(consumer.chunks, all[first..first + reached], first)
        && CountAccepted(totalSamples, first, None, reached)
        && (StopOf(seek.script, channels) == Finished ==> Tiles(consumer.chunks, all[first..], first))
      ensures first >= 0 && outcome.Rejected? ==>
        || seek.SeekFailed? || consumer.patience == Some(|consumer.chunks|) || |all| > LONG_MAX
        || !NativeCompletes(totalSamples, first, None, |Ahead(seek.script, channels)|, StopOf(seek.script, channels))
        || !CountAccepted(totalSamples, first, None, |Ahead(seek.script, channels)|)
      ensures first >= 0 && seek.Sought? ==> EmittedOf(all[first..], first)
      ensures seek.SeekFailed? ==> consumer.chunks == []
    {
      hide Tiles, Ahead, StopOf, Honest, Legal;
      if first < 0 {
        return Rejected(BadArgument);
      }
      Prepare(first, None);
      outcome := RunDecode(seek);
      if seek.Sought? {
        ghost var whole := Ahead(seek.script, channels);
        assert whole[..|whole|] == whole;
        SliceOf(all, seek, first, None, channels, totalSamples);
        FlawlessCounts(totalSamples, first, None, |all|);
        assert Flawless(all, seek) ==> whole == all[first..] && |whole| == |all| - first;
      }
    }

    /** The seek works, the stream ends by itself and is as long as it declares, and the handler takes every chunk. */
    ghost predicate Flawless(all: seq<seq<T>>, seek: Seek<T>) {
      && seek.Sought? && StopOf(seek.script, channels) == Finished
      && (totalSamples == 0 || totalSamples == |all|) && |all| <= LONG_MAX && consumer.patience.None?
    }

    predicate RangeLegal(first: int, max: int) {
      first >= 0 && max >= 0 && max <= LONG_MAX - first
    }

    /** The ranges answered without a seek. */
    predicate Trivial(first: int, max: int) {
      (max == 0 && (totalSamples == 0 || first <= totalSamples)) || (totalSamples > 0 && first == totalSamples)
    }

    /** Seek, process, complete. */
    method RunDecode(seek: Seek<T>) returns (outcome: Outcome)
      requires InStep() && !rangeComplete && delivered == [] && Limit() == consumer.maxFrames
      requires rangeLimited ==> maxFrames > 0
      requires consumer.totalSamples == totalSamples
      requires seek.Sought? ==>
        && Honest(seek.script, channels) && Legal(seek.script, channels)
        && (seek.early ==> seek.script != [] && seek.script[0].Block?)
      modifies this`upcoming, this`emitted, this`rangeComplete, this`delivered, consumer
      ensures outcome.Completed? ==>
        && seek.Sought? && consumer.completed
        && var whole := Ahead(seek.script, channels);
        && NativeCompletes(totalSamples, firstSample, Limit(), |whole|, StopOf(seek.script, channels))
        && Tiles(consumer.chunks, whole[..Cropped(|whole|, Limit())], firstSample)
        && CountAccepted(totalSamples, firstSample, Limit(), Cropped(|whole|, Limit()))
      ensures outcome.Rejected? && seek.Sought? ==>
        && var whole := Ahead(seek.script, channels);
        || Interrupted(|whole|)
        || !NativeCompletes(totalSamples, firstSample, Limit(), |whole|, StopOf(seek.script, channels))
        || !CountAccepted(totalSamples, firstSample, Limit(), Cropped(|whole|, Limit()))
      ensures seek.Sought? ==> Emitted(Ahead(seek.script, channels))
      ensures seek.SeekFailed? ==> consumer.chunks == old(consumer.chunks)
    {
      hide Tiles, Ahead, StopOf, Honest, Legal;
      var failure := SeekAbsolute(seek);
      if failure.Some? {
        return Rejected(failure.value);
      }
      ghost var whole, stop := Ahead(seek.script, channels), StopOf(seek.script, channels);
      if rangeLimited {
        failure := ProcessRange(whole, stop);
      } else {
        failure := ProcessUntilEndOfStream(whole, stop);
      }
      if failure.Some? {
        return Rejected(failure.value);
      }
      var threw := consumer.OnComplete();
      return if threw then Rejected(FrameCountMismatch) else Completed;
    }
  }

  datatype Outcome = Completed | Rejected(cause: Failure)

  /** What a completed decode emitted is the slice the caller asked for. */
  lemma SliceOf<T>(all: seq<seq<T>>, seek: Seek<T>, first: nat, limit: Option<nat>, channels: nat, total: nat)
    requires seek.Sought? && SeekKept(seek, all, first, channels)
    ensures var whole := Ahead(seek.script, channels);
      && first + |whole| <= |all|
      && (NativeCompletes(total, first, limit, |whole|, StopOf(seek.script, channels)) && limit.Some? ==>
            && whole[..Cropped(|whole|, limit)] == Slice(all, first, limit)
            && Cropped(|whole|, limit) == Cropped(|all| - first, limit))
      && (StopOf(seek.script, channels) == Finished ==> whole == Slice(all, first, None) == all[first..])
      && whole == all[first..first + |whole|]
  {
  }

  /** A stream as long as it declares passes the native and the JVM checks of every range that starts inside it. */
  lemma FlawlessCounts(total: nat, first: nat, limit: Option<nat>, length: nat)
    ensures first <= length && (total == 0 || total == length) ==>
      && NativeCompletes(total, first, limit, length - first, Finished)
      && CountAccepted(total, first, limit, Cropped(length - first, limit))
  {
  }

  lemma BlockPrefix<T>(buffer: seq<seq<T>>, frames: nat, kept: nat)
    requires Rectangular(buffer, frames) && kept <= frames
    ensures Interleave(buffer, kept) == Flat(Rows(buffer, frames)[..kept])
    ensures |Interleave(buffer, kept)| == Samples(kept, |buffer|)
  {
    FlatRows(buffer, kept);
    assert Rows(buffer, frames)[..kept] == Rows(buffer, kept);
  }

  /**
   * For a bounded range that is not answered at once, over a stream that ends by
   * itself: the native side succeeds exactly when the stream has the whole range or
   * all it declares; the JVM count check then fails exactly when the stream is longer
   * than it declares and the range reaches past the declared end.
   */
  lemma RangeCountExact(total: nat, first: nat, limit: nat, length: nat)
    requires first <= length && limit > 0 && (total == 0 || first < total)
    ensures NativeCompletes(total, first, Some(limit), length - first, Finished) <==>
      total == 0 || length >= Min(first + limit, total)
    ensures NativeCompletes(total, first, Some(limit), length - first, Finished) ==>
      (CountAccepted(total, first, Some(limit), Cropped(length - first, Some(limit))) <==>
         total == 0 || length <= total || first + limit <= total)
  {
  }

  /** Unbounded decodes are refused whenever the stream is not exactly as long as it declares. */
  lemma UnboundedCountExact(total: nat, first: nat, length: nat)
    requires first <= length
    ensures NativeCompletes(total, first, None, length - first, Finished)
         && CountAccepted(total, first, None, length - first)
       <==> total == 0 || length == total
  {
  }

  /**
   * An aborted decoder that raised no exception is a success on the native side.
   * The JVM count check lets it through exactly when the total is unknown, however
   * little was decoded, or when it is met to the frame.
   */
  lemma AbortedAcceptedIff(total: nat, first: nat, reached: nat)
    ensures NativeCompletes(total, first, None, reached, Failing(DecoderAborted))
         && CountAccepted(total, first, None, reached)
       <==> total == 0 || first + reached == total
  {
  }

  /** Twelve frames declared as ten: a native success that the JVM refuses. */
  lemma OverlongRangeRefused()
    ensures NativeCompletes(10, 5, Some(6), 7, Finished)
    ensures !CountAccepted(10, 5, Some(6), Cropped(7, Some(6)))
  {
  }
}
