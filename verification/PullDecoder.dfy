/**
 * The pull decoder: libFLAC hands over whole blocks, the JVM reads any number
 * of frames at a time, and the undrained rest of a block stays pending.
 */
module PullDecoder {
  import opened Arithmetic
  import opened ArrayRegions
  import opened CodecScript
  import opened Interleaving
  import opened PlainStream
  import opened Wrappers

  datatype Processed = Advanced | EndOfStream | Unsuccessful(cause: Failure)

  class PullDecoder<T(0)> {
    const channels: nat
    const totalSamples: nat

    var upcoming: seq<Event<T>>
    var pending: array?<T>
    var offset: nat
    var output: array?<T>
    var requested: nat
    var written: nat
    var endOfStream: bool
    var emitted: nat
    ghost var held: seq<seq<T>>

    ghost predicate Valid()
      reads `upcoming, `pending, `offset, `held, `endOfStream, `emitted, pending
    {
      && Honest(upcoming, channels)
      && PendingHeld()
      && (endOfStream ==> upcoming == [] && pending == null && CountMet(totalSamples, emitted))
    }

    /** The pending buffer holds whole frames from its offset on. */
    ghost predicate PendingHeld()
      reads `pending, `offset, `held, pending
    {
      if pending == null then held == [] else
      && held != [] && IsFrames(held, channels) && channels > 0
      && offset <= pending.Length
      && pending[offset..] == Flat(held)
    }

    ghost function View(): (flow: Flow<seq<T>>)
      requires Honest(upcoming, channels)
      reads `upcoming, `held, `emitted
    {
      Flow(held + Ahead(upcoming, channels), StopOf(upcoming, channels), emitted)
    }

    constructor (channels: nat, totalSamples: nat, upcoming: seq<Event<T>>)
      requires Honest(upcoming, channels)
      ensures Valid() && this.channels == channels && this.totalSamples == totalSamples
      ensures View() == Flow(Ahead(upcoming, channels), StopOf(upcoming, channels), 0)
    {
      this.channels, this.totalSamples, this.upcoming := channels, totalSamples, upcoming;
      pending, offset, output := null, 0, null;
      requested, written, endOfStream, emitted := 0, 0, false, 0;
      held := [];
    }

    ghost function Copied(): nat
      requires written <= requested
      reads this
    {
      if |held| <= requested - written then |held| else requested - written
    }

    /** Copies the pending frames the current read can still take. */
    method DrainPending() returns (failure: Option<Failure>)
      requires PendingHeld()
      requires output != null && output != pending && written <= requested
      requires Samples(written, channels) <= output.Length
      modifies this`pending, this`offset, this`written, this`emitted, this`held, output
      ensures PendingHeld() && (pending == null || pending == old(pending))
      ensures failure.None? || failure == Some(OutputOverrun)
      ensures Samples(requested, channels) <= output.Length ==> failure.None?
      ensures failure.None? ==> Drained(old(held), old(written), old(emitted), old(Copied()))
      ensures failure.None? ==>
        Patched(output[..], old(output[..]), Samples(old(written), channels), Flat(old(held)[..old(Copied())]))
    {
      hide Flat, IsFrames, Patched, Samples;
      FlatEmpty<T>();
      PatchNothing(output[..], Samples(written, channels));
      assert held[..0] == [];
      if pending != null {
        SamplesOf(held, channels);
      }
      if pending == null || offset >= pending.Length {
        pending, held := null, [];
        return None;
      }
      if requested == written {
        return None;
      }
      failure := CopyPending();
    }

    method CopyPending() returns (failure: Option<Failure>)
      requires PendingHeld() && pending != null
      requires output != null && output != pending && written < requested
      requires Samples(written, channels) <= output.Length
      modifies this`pending, this`offset, this`written, this`emitted, this`held, output
      ensures PendingHeld() && (pending == null || pending == old(pending))
      ensures failure.None? || failure == Some(OutputOverrun)
      ensures Samples(requested, channels) <= output.Length ==> failure.None?
      ensures failure.None? ==> Drained(old(held), old(written), old(emitted), old(Copied()))
      ensures failure.None? ==>
        Patched(output[..], old(output[..]), Samples(old(written), channels), Flat(old(held)[..old(Copied())]))
    {
      hide Flat, IsFrames, Patched, Samples;
      SamplesOf(held, channels);
      var remainingRequest := requested - written;
      var availableFrames := (pending.Length - offset) / channels;
      var copyFrames := if availableFrames < remainingRequest then availableFrames else remainingRequest;
      var copySamples := Samples(copyFrames, channels);
      var outputOffset := Samples(written, channels);
      SamplesAdd(written, copyFrames, requested, channels);
      if outputOffset + copySamples > output.Length {
        return Some(OutputOverrun);
      }
      SamplesCut(held, channels, copyFrames);
      assert pending[offset..][..copySamples] == pending[offset..offset + copySamples];
      CopyRegion(pending, offset, output, outputOffset, copySamples);
      Advance(copyFrames, copySamples);
      return None;
    }

    ghost predicate Drained(heldBefore: seq<seq<T>>, writtenBefore: nat, emittedBefore: nat, copied: nat)
      requires copied <= |heldBefore|
      reads `pending, `written, `emitted, `held, `requested
    {
      && held == heldBefore[copied..]
      && written == writtenBefore + copied
      && emitted == emittedBefore + copied
      && (written < requested ==> pending == null)
    }

    method Advance(copyFrames: nat, copySamples: nat)
      requires PendingHeld() && pending != null
      requires copyFrames <= |held| && copySamples == Samples(copyFrames, channels) <= |Flat(held)|
      requires Flat(held)[copySamples..] == Flat(held[copyFrames..])
      modifies this`pending, this`offset, this`written, this`emitted, this`held
      ensures PendingHeld() && (pending == null || pending == old(pending))
      ensures held == old(held)[copyFrames..]
      ensures written == old(written) + copyFrames && emitted == old(emitted) + copyFrames
    {
      hide Flat;
      ghost var before := pending[offset..];
      offset := offset + copySamples;
      written := written + copyFrames;
      emitted := emitted + copyFrames;
      held := held[copyFrames..];
      assert pending[offset..] == before[copySamples..];
      SamplesOf(held, channels);
      if offset >= pending.Length {
        pending := null;
      }
    }

    /** libFLAC's write callback: the whole block becomes pending, then its requested prefix is drained. */
    method WriteCallback(buffer: seq<seq<T>>, frames: nat) returns (failure: Option<Failure>)
      requires |buffer| == channels && Rectangular(buffer, frames)
      requires PendingHeld()
      requires output != null && written <= requested && Samples(requested, channels) <= output.Length
      modifies this`pending, this`offset, this`written, this`emitted, this`held, output
      ensures PendingHeld() && (pending == null || pending == old(pending) || fresh(pending))
      ensures failure == Some(BlockTooLarge) <==> channels == 0 || frames == 0 || frames * channels > INT_MAX
      ensures failure == (if TooLarge(channels, frames) then Some(BlockTooLarge)
                          else if old(pending) != null then Some(StillPending) else None)
      ensures failure.Some? ==>
        && held == old(held) && written == old(written) && emitted == old(emitted)
        && pending == old(pending) && output[..] == old(output[..])
      ensures failure.None? ==>
        && old(written) <= written <= requested
        && var copied := written - old(written);
        && copied <= frames
        && (written < requested ==> pending == null)
        && held == Rows(buffer, frames)[copied..]
        && emitted == old(emitted) + copied
        && Patched(output[..], old(output[..]), Samples(old(written), channels), Flat(Rows(buffer, frames)[..copied]))
    {
      assert TooLarge(channels, frames) <==> channels == 0 || frames == 0 || frames * channels > INT_MAX;
      hide Flat, Interleave, Samples;
      if TooLarge(channels, frames) {
        return Some(BlockTooLarge);
      }
      if pending != null {
        return Some(StillPending);
      }
      SamplesAdd(written, 0, requested, channels);
      var interleaved := InterleaveBlock(buffer, frames);
      FlatRows(buffer, frames);
      pending, offset := interleaved, 0;
      held := Rows(buffer, frames);
      failure := DrainPending();
    }

    /** One process_single call on the next scripted event. */
    method ProcessSingle() returns (processed: Processed)
      requires Valid() && !endOfStream && pending == null
      requires output != null && written < requested && Samples(requested, channels) <= output.Length
      modifies this`upcoming, this`pending, this`offset, this`written, this`emitted, this`held, output
      ensures Valid() && (pending == null || fresh(pending))
      ensures processed.EndOfStream? ==>
        && old(View().remaining) == [] && old(View().stop) == Finished && upcoming == []
        && View() == old(View())
      ensures processed.Unsuccessful? ==>
        && old(View().remaining) == [] && old(View().stop) == Failing(processed.cause)
      ensures !processed.Advanced? ==>
        written == old(written) && emitted == old(emitted) && pending == null && output[..] == old(output[..])
      ensures processed.Advanced? ==>
        && |upcoming| < |old(upcoming)|
        && old(written) <= written <= requested
        && Grown(old(View()), written - old(written))
        && Patched(output[..], old(output[..]), Samples(old(written), channels),
                   Flat(old(View()).remaining[..written - old(written)]))
    {
      hide Flat, Honest, Ahead, StopOf, IsFrames, Rows, TooLarge, Patched, Samples;
      SamplesAdd(written, 0, requested, channels);
      ghost var before := View();
      FlatEmpty<T>();
      if upcoming == [] {
        AheadEmpty<T>(channels);
        return EndOfStream;
      }
      var event := upcoming[0];
      AheadStep(upcoming, channels);
      upcoming := upcoming[1..];
      match event
      case Silent =>
        PatchNothing(output[..], Samples(written, channels));
        return Advanced;
      case Fault(cause) =>
        return Unsuccessful(cause);
      case Block(buffer, frames) =>
        var failure := ReceiveBlock(buffer, frames, before);
        return if failure.Some? then Unsuccessful(failure.value) else Advanced;
    }

    /** The block in the write callback was the front of the flow. */
    method ReceiveBlock(buffer: seq<seq<T>>, frames: nat, ghost before: Flow<seq<T>>) returns (failure: Option<Failure>)
      requires |buffer| == channels && Rectangular(buffer, frames)
      requires Honest(upcoming, channels) && PendingHeld() && pending == null
      requires output != null && written < requested && Samples(requested, channels) <= output.Length
      requires Samples(written, channels) <= output.Length
      requires !TooLarge(channels, frames) ==>
        before == Flow(Rows(buffer, frames) + Ahead(upcoming, channels), StopOf(upcoming, channels), emitted)
      modifies this`pending, this`offset, this`written, this`emitted, this`held, output
      ensures PendingHeld() && (pending == null || fresh(pending))
      ensures failure == if TooLarge(channels, frames) then Some(BlockTooLarge) else None
      ensures failure.Some? ==>
        written == old(written) && emitted == old(emitted) && pending == null && output[..] == old(output[..])
      ensures failure.None? ==>
        && old(written) <= written <= requested
        && Grown(before, written - old(written))
        && Patched(output[..], old(output[..]), Samples(old(written), channels),
                   Flat(before.remaining[..written - old(written)]))
    {
      hide Flat, Ahead, StopOf, Rows, Samples, Patched, IsFrames;
      failure := WriteCallback(buffer, frames);
      if failure.None? {
        AfterFront(before, Rows(buffer, frames), Ahead(upcoming, channels), written - old(written));
      }
    }

    /** The arguments a read refuses before it touches the decoder. */
    predicate Refused(capacity: nat, maxFrames: int) {
      maxFrames < 0 || (maxFrames > 0 &&
                        (channels == 0 || Samples(maxFrames, channels) > INT_MAX || capacity < Samples(maxFrames, channels)))
    }

    /**
     * One JVM read. Whatever the block boundaries, the answer is that of the
     * plain frame sequence, and the defensive branches of the callbacks never fire.
     */
    method ReadInterleaved(samples: array<T>, maxFrames: int) returns (result: ReadResult)
      requires Valid() && pending != samples
      modifies this, samples
      ensures Valid() && (pending == null || pending == old(pending) || fresh(pending))
      ensures result == Threw(BadArgument) <==>
        maxFrames < 0
        || (maxFrames > 0 && (channels == 0 || maxFrames * channels > INT_MAX || samples.Length < maxFrames * channels))
      ensures Refused(samples.Length, maxFrames) ==>
        result == Threw(BadArgument) && View() == old(View()) && samples[..] == old(samples[..])
      ensures maxFrames == 0 ==> result == Count(0) && View() == old(View()) && samples[..] == old(samples[..])
      ensures maxFrames > 0 && !Refused(samples.Length, maxFrames) ==>
        && var reply := Serve(old(View()), totalSamples, maxFrames);
        && result == reply.result
        && (result.Threw? ==> CodecFailure(result.cause))
        && (result.Count? || old(View()).stop == Finished ==> View() == reply.flow)
        && (result.Count? ==> Patched(samples[..], old(samples[..]), 0, Flat(reply.delivered)))
    {
      hide Flat, Honest, Ahead, StopOf, IsFrames, PendingHeld;
      if maxFrames < 0 {
        return Threw(BadArgument);
      }
      if maxFrames == 0 {
        return Count(0);
      }
      if channels == 0 || Samples(maxFrames, channels) > INT_MAX || samples.Length < Samples(maxFrames, channels) {
        return Threw(BadArgument);
      }
      result := ReadFrames(samples, maxFrames);
    }

    method ReadFrames(samples: array<T>, maxFrames: nat) returns (result: ReadResult)
      requires Valid() && pending != samples
      requires maxFrames > 0 && Samples(maxFrames, channels) <= samples.Length
      modifies this, samples
      ensures Valid() && (pending == null || pending == old(pending) || fresh(pending))
      ensures
        && var reply := Serve(old(View()), totalSamples, maxFrames);
        && result == reply.result
        && (result.Threw? ==> CodecFailure(result.cause))
        && (result.Count? || old(View()).stop == Finished ==> View() == reply.flow)
        && (result.Count? ==> Patched(samples[..], old(samples[..]), 0, Flat(reply.delivered)))
    {
      hide Flat, IsFrames, PendingHeld, Patched, Ahead, StopOf, Serve, After, Samples;
      ghost var start, original := View(), samples[..];
      BeginRead(samples, maxFrames);
      while written < requested && !endOfStream
        invariant Reading(start, original)
        invariant pending == null || pending == old(pending) || fresh(pending)
        invariant output == samples && requested == maxFrames
        decreases |upcoming|, !endOfStream
      {
        var failure := Pump(start, original);
        if failure.Some? {
          ServeFailure(start, totalSamples, maxFrames);
          output := null;
          return Threw(failure.value);
        }
      }
      ServeSuccess(start, totalSamples, maxFrames, written);
      output := null;
      return Count(if written > 0 then written else if endOfStream then -1 else 0);
    }

    /** A read in progress: what the flow had at the start is split between the array and the decoder. */
    ghost predicate Reading(start: Flow<seq<T>>, original: seq<T>)
      reads `upcoming, `pending, `offset, `held, `endOfStream, `emitted, `output, `requested, `written, pending, output
    {
      && Valid() && output != null && output != pending
      && written <= requested && Samples(requested, channels) <= output.Length
      && Grown(start, written)
      && Patched(output[..], original, 0, Flat(start.remaining[..written]))
      && IsFrames(start.remaining, channels)
      && (endOfStream ==> Healthy(start, totalSamples) && written == |start.remaining|)
    }

    /** One turn of the read loop. */
    method Pump(ghost start: Flow<seq<T>>, ghost original: seq<T>) returns (failure: Option<Failure>)
      requires Reading(start, original) && written < requested && !endOfStream
      modifies this`upcoming, this`pending, this`offset, this`written, this`emitted, this`held, this`endOfStream, output
      ensures pending == null || fresh(pending)
      ensures failure.None? ==> Reading(start, original)
      ensures failure.None? ==> |upcoming| < |old(upcoming)| || (endOfStream && |upcoming| == |old(upcoming)|)
      ensures failure.Some? ==>
        && Valid() && |start.remaining| < requested
        && if start.stop.Failing? then
             && failure.value == start.stop.cause
             && CodecFailure(failure.value)
           else
             && failure.value == FrameCountMismatch && !Healthy(start, totalSamples)
             && Grown(start, |start.remaining|)
    {
      hide Flat, PendingHeld, Patched, Ahead, StopOf, Samples, After;
      ghost var soFar, between, script, view := written, output[..], upcoming, View();
      SamplesAdd(soFar, 0, requested, channels);
      AfterParts(start, soFar);
      var processed := ProcessSingle();
      match processed
      case Advanced =>
        AfterAfter(start, soFar, written - soFar);
        PatchFrames(original, between, output[..], start.remaining, soFar, written, channels);
        return None;
      case Unsuccessful(cause) =>
        StopCause(script, channels);
        return Some(cause);
      case EndOfStream =>
        if !CountMet(totalSamples, emitted) {
          return Some(FrameCountMismatch);
        }
        endOfStream := true;
        return None;
    }

    /** Points the callbacks at the caller's array and empties what is pending into it. */
    method BeginRead(samples: array<T>, maxFrames: nat)
      requires Valid() && pending != samples
      requires maxFrames > 0 && Samples(maxFrames, channels) <= samples.Length
      modifies this`output, this`requested, this`pending, this`offset, this`written, this`emitted, this`held, samples
      ensures pending == null || pending == old(pending)
      ensures output == samples && requested == maxFrames
      ensures Reading(old(View()), old(samples[..]))
    {
      hide Flat, IsFrames, PendingHeld, Patched, Ahead, StopOf, Samples, After;
      output, requested, written := samples, maxFrames, 0;
      SamplesAdd(0, 0, maxFrames, channels);
      ghost var drained := held;
      HeldFrames();
      if endOfStream {
        Ended();
      }
      var failure := DrainPending();
      AfterFront(old(View()), drained, Ahead(upcoming, channels), written);
    }

    lemma HeldFrames()
      requires Honest(upcoming, channels) && PendingHeld()
      ensures IsFrames(View().remaining, channels)
    {
    }

    lemma Ended()
      requires Valid() && endOfStream
      ensures View() == Flow([], Finished, emitted) && Healthy(View(), totalSamples) && held == []
    {
    }

    /** `copied` frames have left the front of the flow, and a read still short has nothing pending. */
    ghost predicate Grown(before: Flow<seq<T>>, copied: nat)
      reads `upcoming, `held, `emitted, `written, `requested, `pending
    {
      && copied <= |before.remaining| && Honest(upcoming, channels)
      && (written < requested ==> pending == null)
      && View() == After(before, copied)
    }
  }

  /** Two stretches of the same frames, one behind the other. */
  lemma PatchFrames<T>(original: seq<T>, between: seq<T>, after: seq<T>, rows: seq<seq<T>>,
                       soFar: nat, written: nat, channels: nat)
    requires soFar <= written <= |rows| && IsFrames(rows, channels)
    requires Patched(between, original, 0, Flat(rows[..soFar]))
    requires Patched(after, between, Samples(soFar, channels), Flat(rows[soFar..][..written - soFar]))
    ensures Patched(after, original, 0, Flat(rows[..written]))
  {
    hide Flat, Patched;
    FlatLength(rows[..soFar], channels);
    FlatAppend(rows[..soFar], rows[soFar..][..written - soFar]);
    assert rows[..soFar] + rows[soFar..][..written - soFar] == rows[..written];
    PatchTwice(original, between, after, 0, Flat(rows[..soFar]), Flat(rows[soFar..][..written - soFar]));
  }

  lemma SamplesOf<T>(rows: seq<seq<T>>, channels: nat)
    requires IsFrames(rows, channels)
    ensures |Flat(rows)| == Samples(|rows|, channels)
    ensures channels > 0 ==> (rows == [] <==> Flat(rows) == [])
    ensures channels > 0 ==> Samples(|rows|, channels) / channels == |rows|
  {
    hide Flat;
    FlatLength(rows, channels);
    FlatEmpty<T>();
    if channels > 0 {
      QuotientOf(|rows|, channels);
      TimesMonotone(1, |rows|, channels);
    }
  }

  lemma SamplesCut<T>(rows: seq<seq<T>>, channels: nat, k: nat)
    requires IsFrames(rows, channels) && k <= |rows|
    ensures Samples(k, channels) <= |Flat(rows)|
    ensures Flat(rows)[..Samples(k, channels)] == Flat(rows[..k])
    ensures Flat(rows)[Samples(k, channels)..] == Flat(rows[k..])
  {
    FlatCut(rows, channels, k);
  }

  lemma SamplesAdd(first: nat, second: nat, bound: nat, channels: nat)
    ensures Samples(first + second, channels) == Samples(first, channels) + Samples(second, channels)
    ensures first + second <= bound ==> Samples(first + second, channels) <= Samples(bound, channels)
  {
    TimesMonotone(first + second, bound, channels);
  }

  lemma FlatEmpty<T>()
    ensures Flat<T>([]) == []
  {
  }

  lemma QuotientOf(quotient: nat, divisor: nat)
    requires divisor > 0
    ensures quotient * divisor / divisor == quotient
  {
    var product := quotient * divisor;
    assert product == product / divisor * divisor + product % divisor;
    TimesMonotone(product / divisor + 1, quotient, divisor);
    TimesMonotone(quotient + 1, product / divisor, divisor);
  }
}
