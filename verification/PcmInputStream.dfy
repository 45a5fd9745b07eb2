/** The Java Sound byte stream over a pull decoding session. */
module PcmInputStream {
  import opened Arithmetic
  import opened ArrayRegions
  import opened Interleaving
  import opened PcmCodec
  import opened PlainStream

  const CHUNK_FRAMES := 1024

  /** One answer of the session to a positive read; after the script it answers -1. */
  datatype Turn = Delivered(frames: nat, samples: seq<Sample>) | NoFrames | Fails

  datatype Filled = More | Ended | Failed

  /** The session keeps its contract: between one and the requested number of whole frames. */
  ghost predicate Kept(turns: seq<Turn>, channels: nat) {
    forall i :: 0 <= i < |turns| ==> KeptTurn(turns[i], channels)
  }

  ghost predicate KeptTurn(turn: Turn, channels: nat) {
    turn.Delivered? ==> 1 <= turn.frames <= CHUNK_FRAMES && |turn.samples| == turn.frames * channels
  }

  /** The samples the session still delivers before it ends or fails. */
  ghost function SamplesAhead(turns: seq<Turn>): seq<Sample> {
    if turns == [] || !turns[0].Delivered? then [] else turns[0].samples + SamplesAhead(turns[1..])
  }

  ghost function StopOf(turns: seq<Turn>): Stop {
    if turns == [] then Finished else if turns[0].Delivered? then StopOf(turns[1..]) else Failing(SourceThrew)
  }

  lemma NothingAhead(octets: nat)
    requires 1 <= octets <= 4
    ensures SamplesAhead([]) == [] && StopOf([]) == Finished && EncodedAll([], octets) == []
  {
  }

  lemma {:induction false} OnlySourceFails(turns: seq<Turn>)
    ensures StopOf(turns) in {Finished, Failing(SourceThrew)}
  {
    if turns != [] {
      OnlySourceFails(turns[1..]);
    }
  }

  class FlacPcmInputStream {
    const channels: nat
    const octets: nat
    const sampleBuffer: array<Sample>
    const byteBuffer: array<Byte>

    var upcoming: seq<Turn>
    var bytePosition: nat
    var byteLimit: nat
    var eof: bool
    var closed: bool
    ghost var delivered: nat

    ghost predicate Valid()
      reads `upcoming, `bytePosition, `byteLimit, `eof
    {
      && 1 <= channels && 1 <= octets <= 4 && Kept(upcoming, channels)
      && sampleBuffer.Length == CHUNK_FRAMES * channels
      && byteBuffer.Length == sampleBuffer.Length * octets
      && bytePosition <= byteLimit <= byteBuffer.Length
      && (eof ==> upcoming == [] && bytePosition == byteLimit)
    }

    /** Everything the stream has still to deliver. */
    ghost function BytesLeft(): seq<Byte>
      requires Valid()
      reads `upcoming, `bytePosition, `byteLimit, `eof, byteBuffer
    {
      byteBuffer[bytePosition..byteLimit] + EncodedAll(SamplesAhead(upcoming), octets)
    }

    ghost function View(): Flow<Byte>
      requires Valid()
      reads `upcoming, `bytePosition, `byteLimit, `eof, `delivered, byteBuffer
    {
      Flow(BytesLeft(), StopOf(upcoming), delivered)
    }

    constructor (channels: nat, bitsPerSample: nat, upcoming: seq<Turn>)
      requires 1 <= channels <= 8 && 4 <= bitsPerSample <= 32 && Kept(upcoming, channels)
      ensures Valid() && !closed && fresh(sampleBuffer) && fresh(byteBuffer)
      ensures this.channels == channels && octets == (bitsPerSample + 7) / 8 && this.upcoming == upcoming
      ensures View() == Flow(EncodedAll(SamplesAhead(upcoming), octets), StopOf(upcoming), 0)
    {
      this.channels, this.octets := channels, (bitsPerSample + 7) / 8;
      this.upcoming := upcoming;
      sampleBuffer := new Sample[CHUNK_FRAMES * channels];
      byteBuffer := new Byte[CHUNK_FRAMES * channels * ((bitsPerSample + 7) / 8)];
      bytePosition, byteLimit, eof, closed, delivered := 0, 0, false, false, 0;
    }

    /** session.readInterleaved: fills the sample buffer, or reports -1, 0 or an exception. */
    method ReadInterleaved() returns (frames: int, threw: bool)
      requires Valid()
      modifies `upcoming, sampleBuffer
      ensures Valid() == old(Valid()) && Kept(upcoming, channels)
      ensures threw ==> StopOf(old(upcoming)) == Failing(SourceThrew) && SamplesAhead(old(upcoming)) == []
      ensures !threw && frames == 0 ==> StopOf(old(upcoming)) == Failing(SourceThrew) && SamplesAhead(old(upcoming)) == []
      ensures !threw && frames < 0 ==> frames == -1 && old(upcoming) == [] && upcoming == []
      ensures !threw && frames > 0 ==>
        && frames <= CHUNK_FRAMES && frames * channels <= sampleBuffer.Length
        && |upcoming| < |old(upcoming)|
        && SamplesAhead(old(upcoming)) == sampleBuffer[..frames * channels] + SamplesAhead(upcoming)
        && StopOf(upcoming) == StopOf(old(upcoming))
    {
      if upcoming == [] {
        return -1, false;
      }
      var turn := upcoming[0];
      assert KeptTurn(turn, channels);
      upcoming := upcoming[1..];
      match turn
      case Fails =>
        return 0, true;
      case NoFrames =>
        return 0, false;
      case Delivered(count, samples) =>
        TimesMonotone(count, CHUNK_FRAMES, channels);
        forall i | 0 <= i < |samples| {
          sampleBuffer[i] := samples[i];
        }
        return count, false;
    }

    /** Converts the next chunk to bytes. */
    method FillByteBuffer() returns (filled: Filled)
      requires Valid() && bytePosition == byteLimit
      modifies `upcoming, `bytePosition, `byteLimit, `eof, sampleBuffer, byteBuffer
      ensures Valid()
      ensures filled.More? ==>
        && bytePosition < byteLimit && |upcoming| < |old(upcoming)|
        && View() == old(View())
      ensures filled.Ended? ==> View() == old(View()) && View().remaining == [] && View().stop == Finished
      ensures filled.Failed? ==> old(View()).remaining == [] && old(View()).stop == Failing(SourceThrew)
    {
      hide SamplesAhead, StopOf, EncodedAll;
      NothingAhead(octets);
      if eof {
        return Ended;
      }
      var frames, threw := ReadInterleaved();
      if threw {
        return Failed;
      }
      if frames == -1 {
        eof := true;
        return Ended;
      }
      if frames == 0 {
        return Failed;
      }
      var samples := frames * channels;
      EncodeSamples(samples);
      bytePosition, byteLimit := 0, samples * octets;
      EncodedAppend(sampleBuffer[..samples], SamplesAhead(upcoming), octets);
      return More;
    }

    /** The conversion loop of fillByteBuffer. */
    method EncodeSamples(samples: nat)
      requires 1 <= octets <= 4 && samples <= sampleBuffer.Length && byteBuffer.Length == sampleBuffer.Length * octets
      modifies byteBuffer
      ensures samples * octets <= byteBuffer.Length
      ensures byteBuffer[..samples * octets] == EncodedAll(sampleBuffer[..samples], octets)
    {
      TimesMonotone(samples, sampleBuffer.Length, octets);
      var outputOffset := 0;
      for sampleIndex := 0 to samples
        invariant outputOffset == sampleIndex * octets
        invariant outputOffset <= byteBuffer.Length
        invariant byteBuffer[..outputOffset] == EncodedAll(sampleBuffer[..sampleIndex], octets)
      {
        TimesMonotone(sampleIndex + 1, sampleBuffer.Length, octets);
        WriteLittleEndianSample(sampleBuffer[sampleIndex], octets, byteBuffer, outputOffset);
        assert sampleBuffer[..sampleIndex + 1][..sampleIndex] == sampleBuffer[..sampleIndex];
        outputOffset := outputOffset + octets;
      }
    }

    /** Closing is final: no later read delivers anything. */
    method Close()
      modifies `closed
      ensures closed
    {
      closed := true;
    }

    /** Objects.checkFromIndexSize. */
    predicate InBounds(size: nat, from: int, length: int) {
      from >= 0 && length >= 0 && from + length <= size
    }

    /** InputStream.read on the decoded bytes: the answer of the plain byte sequence. */
    method Read(buffer: array<Byte>, from: int, length: int) returns (result: ReadResult)
      requires Valid() && buffer != byteBuffer
      modifies this, sampleBuffer, byteBuffer, buffer
      ensures Valid() && closed == old(closed)
      ensures closed ==> result == Threw(SourceThrew)
      ensures result == Threw(BadArgument) <==> !closed && (from < 0 || length < 0 || from + length > buffer.Length)
      ensures !closed && InBounds(buffer.Length, from, length) && length == 0 ==> result == Count(0)
      ensures closed || !InBounds(buffer.Length, from, length) || length == 0 ==>
        View() == old(View()) && buffer[..] == old(buffer[..])
      ensures !closed && InBounds(buffer.Length, from, length) && length > 0 ==>
        && var reply := Serve(old(View()), 0, length);
        && result == reply.result
        && (result.Count? ==> View() == reply.flow && Patched(buffer[..], old(buffer[..]), from, reply.delivered))
    {
      hide SamplesAhead, StopOf, EncodedAll, Patched;
      if closed {
        return Threw(SourceThrew);
      }
      if !InBounds(buffer.Length, from, length) {
        return Threw(BadArgument);
      }
      if length == 0 {
        return Count(0);
      }
      OnlySourceFails(upcoming);
      result := ReadBytes(buffer, from, length);
    }

    method ReadBytes(buffer: array<Byte>, from: nat, length: nat) returns (result: ReadResult)
      requires Valid() && buffer != byteBuffer && from + length <= buffer.Length && length > 0
      modifies `upcoming, `bytePosition, `byteLimit, `eof, `delivered, sampleBuffer, byteBuffer, buffer
      ensures Valid()
      ensures
        && var reply := Serve(old(View()), 0, length);
        && result == reply.result
        && (result.Count? ==> View() == reply.flow && Patched(buffer[..], old(buffer[..]), from, reply.delivered))
    {
      hide SamplesAhead, StopOf, EncodedAll, Patched;
      ghost var start, original := View(), buffer[..];
      var copied := 0;
      PatchNothing(buffer[..], from);
      AfterNothing(start);
      while copied < length
        invariant Valid() && copied <= length && copied <= |start.remaining|
        invariant View() == After(start, copied)
        invariant Patched(buffer[..], original, from, start.remaining[..copied])
        decreases |upcoming| + (if bytePosition < byteLimit then 1 else 0), length - copied
      {
        if bytePosition == byteLimit {
          var filled := FillByteBuffer();
          if filled.Failed? {
            return Threw(SourceThrew);
          }
          if filled.Ended? {
            break;
          }
        }
        copied := CopyBytes(buffer, from, length, copied, start, original);
      }
      ServeSuccess(start, 0, length, copied);
      return Count(if copied == 0 then -1 else copied);
    }

    /** Moves what fits from the byte buffer to the caller. */
    method CopyBytes(buffer: array<Byte>, from: nat, length: nat, copied: nat, ghost start: Flow<Byte>,
                     ghost original: seq<Byte>)
      returns (copiedNow: nat)
      requires Valid() && buffer != byteBuffer && from + length <= buffer.Length
      requires copied < length && bytePosition < byteLimit && copied <= |start.remaining|
      requires View() == After(start, copied)
      requires Patched(buffer[..], original, from, start.remaining[..copied])
      modifies `bytePosition, `delivered, buffer
      ensures Valid() && copied < copiedNow <= length && copiedNow <= |start.remaining|
      ensures bytePosition == byteLimit || copiedNow == length
      ensures View() == After(start, copiedNow)
      ensures Patched(buffer[..], original, from, start.remaining[..copiedNow])
    {
      hide SamplesAhead, StopOf, EncodedAll, Patched, After, BytesLeft;
      var available := byteLimit - bytePosition;
      var bytesToCopy := if length - copied < available then length - copied else available;
      ghost var between, view := buffer[..], View();
      HandOut(buffer, from + copied, bytesToCopy);
      AfterAfter(start, copied, bytesToCopy);
      AfterMore(start, copied, bytesToCopy);
      PatchTwice(original, between, buffer[..], from, start.remaining[..copied], view.remaining[..bytesToCopy]);
      copiedNow := copied + bytesToCopy;
    }

    /** The copy itself: the next bytes of the view leave it. */
    method HandOut(buffer: array<Byte>, at: nat, count: nat)
      requires Valid() && buffer != byteBuffer && at + count <= buffer.Length && count <= byteLimit - bytePosition
      modifies `bytePosition, `delivered, buffer
      ensures Valid() && bytePosition == old(bytePosition) + count
      ensures count <= |old(View()).remaining| && View() == After(old(View()), count)
      ensures Patched(buffer[..], old(buffer[..]), at, old(View()).remaining[..count])
    {
      hide SamplesAhead, StopOf, EncodedAll, Patched;
      ghost var held, view := byteBuffer[bytePosition..byteLimit], View();
      AfterFront(view, held, EncodedAll(SamplesAhead(upcoming), octets), count);
      assert held[..count] == byteBuffer[bytePosition..bytePosition + count];
      CopyRegion(byteBuffer, bytePosition, buffer, at, count);
      bytePosition := bytePosition + count;
      delivered := delivered + count;
      assert byteBuffer[bytePosition..byteLimit] == held[count..];
    }
  }

  method WriteLittleEndianSample(sample: Sample, octets: nat, output: array<Byte>, offset: nat)
    requires 1 <= octets <= 4 && offset + octets <= output.Length
    modifies output
    ensures output[..offset + octets] == old(output[..offset]) + Encoded(sample, octets)
  {
    for byteIndex := 0 to octets
      invariant output[..offset] == old(output[..offset])
      invariant output[offset..offset + byteIndex] == Encoded(sample, octets)[..byteIndex]
    {
      output[offset + byteIndex] := LowByte(ShiftRightSigned(sample, byteIndex));
    }
  }
}
