/** PCM bytes under short reads become interleaved samples, and chunks for the encoder. */
module PcmSampleReader {
  import opened Arithmetic
  import opened ArrayRegions
  import opened Interleaving
  import opened PcmCodec
  import opened PcmValues
  import opened PlainStream
  import opened Wrappers

  const BUFFER_FRAMES := 1024

  /** What the audio input still holds: bytes that may arrive in any pieces, empty reads, and failures. */
  datatype Piece = Bytes(data: seq<Byte>) | NoBytes | Throws

  ghost predicate Kept(pieces: seq<Piece>) {
    forall i :: 0 <= i < |pieces| && pieces[i].Bytes? ==> pieces[i].data != []
  }

  ghost function Content(pieces: seq<Piece>): seq<Byte> {
    if pieces == [] || !pieces[0].Bytes? then [] else pieces[0].data + Content(pieces[1..])
  }

  ghost function StopOf(pieces: seq<Piece>): Stop {
    if pieces == [] then Finished else if pieces[0].Bytes? then StopOf(pieces[1..]) else Failing(SourceThrew)
  }

  /** The pieces once so many bytes have been taken out of the first. */
  function Left(pieces: seq<Piece>, count: nat): seq<Piece>
    requires pieces != [] && pieces[0].Bytes? && count <= |pieces[0].data|
  {
    if count == |pieces[0].data| then pieces[1..] else [Bytes(pieces[0].data[count..])] + pieces[1..]
  }

  lemma PieceTaken(pieces: seq<Piece>, count: nat)
    requires pieces != [] && pieces[0].Bytes? && count <= |pieces[0].data|
    ensures Kept(pieces) ==> Kept(Left(pieces, count))
    ensures count <= |Content(pieces)| && Content(pieces)[..count] == pieces[0].data[..count]
    ensures Content(Left(pieces, count)) == Content(pieces)[count..]
    ensures StopOf(Left(pieces, count)) == StopOf(pieces)
  {
    hide Content, StopOf;
    FirstPiece(pieces);
    var cut := [Bytes(pieces[0].data[count..])] + pieces[1..];
    FirstPiece(cut);
    assert cut[1..] == pieces[1..];
  }

  lemma NoContent()
    ensures Content([]) == [] && StopOf([]) == Finished
  {
  }

  /** The bytes in so many frames. */
  function ByteLength(frames: nat, layout: Layout, channels: nat): nat {
    frames * (layout.octets * channels)
  }

  lemma ByteLengthSum(frames: nat, count: nat, layout: Layout, channels: nat)
    ensures ByteLength(frames + count, layout, channels)
         == ByteLength(frames, layout, channels) + ByteLength(count, layout, channels)
  {
    ProductSum(frames, count, layout.octets * channels);
  }

  /** Bytes of whole frames as samples. */
  ghost function FrameSamples(bytes: seq<Byte>, layout: Layout, channels: nat, frames: nat): (r: seq<Sample>)
    requires Supported(layout) && |bytes| == ByteLength(frames, layout, channels)
    ensures |r| == frames * channels
  {
    FrameBytes(frames, layout.octets, channels);
    DecodedAll(bytes, layout, frames * channels)
  }

  lemma FrameBytes(frames: nat, octets: nat, channels: nat)
    ensures frames * (octets * channels) == frames * channels * octets
  {
  }

  class PcmSampleReader {
    const layout: Layout
    const channels: nat
    const frameSize: nat
    const frameBuffer: array<Byte>

    var pieces: seq<Piece>
    ghost var consumed: nat

    ghost predicate Valid()
      reads `pieces
    {
      && Supported(layout) && 1 <= channels <= 8 && frameSize == layout.octets * channels
      && frameBuffer.Length == BUFFER_FRAMES * frameSize
      && Kept(pieces)
    }

    ghost function View(): Flow<Byte>
      reads `pieces, `consumed
    {
      Flow(Content(pieces), StopOf(pieces), consumed)
    }

    constructor (layout: Layout, channels: nat, pieces: seq<Piece>)
      requires Supported(layout) && 1 <= channels <= 8 && Kept(pieces)
      ensures Valid() && fresh(frameBuffer)
      ensures this.layout == layout && this.channels == channels && this.pieces == pieces && consumed == 0
    {
      this.layout, this.channels, this.pieces := layout, channels, pieces;
      frameSize := layout.octets * channels;
      frameBuffer := new Byte[BUFFER_FRAMES * (layout.octets * channels)];
      consumed := 0;
    }

    /** input.read: some bytes, at most as many as asked for, or -1, 0, or an exception. */
    method InputRead(from: nat, length: nat) returns (read: int, threw: bool)
      requires Kept(pieces) && length > 0 && from + length <= frameBuffer.Length
      modifies `pieces, `consumed, frameBuffer
      ensures Kept(pieces)
      ensures threw || read == 0 ==> old(View()).remaining == [] && old(View()).stop == Failing(SourceThrew)
      ensures !threw && read < 0 ==>
        && read == -1 && View() == old(View()) && frameBuffer[..] == old(frameBuffer[..])
        && View().remaining == [] && View().stop == Finished
      ensures !threw && read > 0 ==>
        && read <= length && read <= |old(View()).remaining|
        && View() == After(old(View()), read)
        && Patched(frameBuffer[..], old(frameBuffer[..]), from, old(View()).remaining[..read])
    {
      hide Content, StopOf, Left;
      NoContent();
      if pieces == [] {
        return -1, false;
      }
      var piece := pieces[0];
      var rest := pieces[1..];
      FirstPiece(pieces);
      match piece
      case Throws =>
        pieces := rest;
        return 0, true;
      case NoBytes =>
        pieces := rest;
        return 0, false;
      case Bytes(data) =>
        var count := if |data| <= length then |data| else length;
        forall i | 0 <= i < count {
          frameBuffer[from + i] := data[i];
        }
        PieceTaken(pieces, count);
        pieces := Left(pieces, count);
        consumed := consumed + count;
        return count, false;
    }

    /** Repeats short reads until the frames are complete or the input ends. */
    method ReadBytesForFrames(bytesWanted: nat) returns (result: ReadResult)
      requires Valid() && 0 < bytesWanted <= frameBuffer.Length
      modifies `pieces, `consumed, frameBuffer
      ensures Valid()
      ensures
        && var reply := Serve(old(View()), 0, bytesWanted);
        && result == reply.result
        && (result.Count? ==>
              && View() == reply.flow && |reply.delivered| <= frameBuffer.Length
              && frameBuffer[..|reply.delivered|] == reply.delivered)
    {
      hide Content, StopOf;
      ghost var start := View();
      var total := 0;
      AfterNothing(start);
      while total < bytesWanted
        invariant Valid() && total <= bytesWanted && total <= |start.remaining|
        invariant View() == After(start, total)
        invariant frameBuffer[..total] == start.remaining[..total]
        decreases bytesWanted - total
      {
        ghost var soFar := frameBuffer[..];
        var read, threw := InputRead(total, bytesWanted - total);
        if threw || read == 0 {
          return Threw(SourceThrew);
        }
        if read == -1 {
          ServeSuccess(start, 0, bytesWanted, total);
          return Count(if total == 0 then -1 else total);
        }
        AfterAfter(start, total, read);
        AfterMore(start, total, read);
        assert frameBuffer[..total + read] == frameBuffer[..total] + frameBuffer[total..total + read];
        total := total + read;
      }
      ServeSuccess(start, 0, bytesWanted, total);
      return Count(total);
    }

    /** How much one readFrames call asks of the input. */
    function BytesWanted(maxFrames: nat): nat {
      Min(maxFrames, BUFFER_FRAMES) * frameSize
    }

    /** Whole frames from the input as samples; a partial frame at the end is an error. */
    method ReadFrames(output: array<Sample>, maxFrames: int) returns (result: ReadResult)
      requires Valid()
      modifies `pieces, `consumed, frameBuffer, output
      ensures Valid()
      ensures maxFrames < 0 || output.Length < maxFrames * channels ==>
        result == Threw(BadArgument) && View() == old(View()) && output[..] == old(output[..])
      ensures maxFrames == 0 ==> result == Count(0) && View() == old(View()) && output[..] == old(output[..])
      ensures maxFrames > 0 && maxFrames * channels <= output.Length ==>
        Answered(result, Serve(old(View()), 0, BytesWanted(maxFrames)), output, old(output[..]))
      ensures maxFrames > 0 && result.Count? ==> result.count <= Min(maxFrames, BUFFER_FRAMES)
      ensures maxFrames > 0 && maxFrames * channels <= output.Length && old(View()).stop == Finished ==>
        var left := |old(View()).remaining|;
        result ==
          if left == 0 then Count(-1)
          else if Min(maxFrames, 1024) * frameSize <= left then Count(Min(maxFrames, 1024))
          else if left % frameSize == 0 then Count(left / frameSize)
          else Threw(PartialFrame)
    {
      if maxFrames < 0 {
        return Threw(BadArgument);
      }
      if output.Length < maxFrames * channels {
        return Threw(BadArgument);
      }
      if maxFrames == 0 {
        return Count(0);
      }
      ghost var start := View();
      hide Content, StopOf, Patched, FrameSamples;
      result := ReadWholeFrames(output, maxFrames);
      if start.stop == Finished {
        FiniteAnswer(start, Min(maxFrames, BUFFER_FRAMES), frameSize);
      }
    }

    /** The samples are those of the bytes the plain input stream hands out. */
    ghost predicate Answered(result: ReadResult, reply: Reply<Byte>, output: array<Sample>, before: seq<Sample>)
      requires Supported(layout) && frameSize == layout.octets * channels && frameSize > 0
      reads `pieces, `consumed, output
    {
      if reply.result.Threw? then result == reply.result
      else
        && View() == reply.flow
        && if reply.delivered == [] then result == Count(-1)
           else if |reply.delivered| % frameSize != 0 then result == Threw(PartialFrame)
           else
             && result.Count? && result.count > 0 && |reply.delivered| == result.count * frameSize
             && Patched(output[..], before, 0, FrameSamples(reply.delivered, layout, channels, result.count))
    }

    method ReadWholeFrames(output: array<Sample>, maxFrames: nat) returns (result: ReadResult)
      requires Valid() && maxFrames > 0 && maxFrames * channels <= output.Length
      modifies `pieces, `consumed, frameBuffer, output
      ensures Valid()
      ensures Answered(result, Serve(old(View()), 0, BytesWanted(maxFrames)), output, old(output[..]))
      ensures result.Count? ==> result.count <= Min(maxFrames, BUFFER_FRAMES)
    {
      hide Content, StopOf, FrameSamples, Patched, DecodedAll;
      TimesMonotone(1, layout.octets, channels);
      TimesMonotone(1, Min(maxFrames, BUFFER_FRAMES), frameSize);
      TimesMonotone(Min(maxFrames, BUFFER_FRAMES), BUFFER_FRAMES, frameSize);
      ghost var reply := Serve(View(), 0, BytesWanted(maxFrames));
      result := ReadBytesForFrames(BytesWanted(maxFrames));
      if result.Threw? || result.count == -1 {
        return;
      }
      if result.count % frameSize != 0 {
        return Threw(PartialFrame);
      }
      var framesRead := result.count / frameSize;
      WholeFrames(result.count, frameSize, Min(maxFrames, BUFFER_FRAMES));
      TimesMonotone(framesRead, maxFrames, channels);
      FrameBytes(framesRead, layout.octets, channels);
      DecodeFrames(output, framesRead);
      FrameSamplesOf(reply.delivered, layout, channels, framesRead);
      return Count(framesRead);
    }

    /** One sample out of the frame buffer. */
    method DecodeSample(byteIndex: nat) returns (sample: Sample)
      requires Supported(layout) && byteIndex + layout.octets <= frameBuffer.Length
      ensures sample == Decoded(frameBuffer[byteIndex..byteIndex + layout.octets], layout)
      ensures layout.unsigned ==> Signed(sample) == frameBuffer[byteIndex] as int - 128
    {
      hide SignExtended, Gathered, Reversed, Valid, Signed;
      ghost var bytes := frameBuffer[byteIndex..byteIndex + layout.octets];
      DecodedValue(bytes, layout);
      if layout.unsigned {
        return (frameBuffer[byteIndex] as Sample) - 128;
      }
      if layout.octets == 1 {
        SingleByte(bytes);
        return SignExtended(frameBuffer[byteIndex] as Sample, 1);
      }
      if layout.bigEndian {
        sample := GatherBigEndian(byteIndex);
      } else {
        sample := GatherLittleEndian(byteIndex);
      }
      sample := SignExtended(sample, layout.octets);
    }

    method GatherBigEndian(byteIndex: nat) returns (sample: Sample)
      requires byteIndex + layout.octets <= frameBuffer.Length
      ensures sample == Gathered(Reversed(frameBuffer[byteIndex..byteIndex + layout.octets]))
    {
      ghost var bytes := frameBuffer[byteIndex..byteIndex + layout.octets];
      hide Gathered, Reversed, Appended;
      NothingGathered();
      assert bytes[..0] == [];
      sample := 0;
      for i := 0 to layout.octets
        invariant sample == Gathered(Reversed(bytes[..i]))
      {
        ReversedSnoc(bytes[..i], bytes[i]);
        assert bytes[..i + 1] == bytes[..i] + [bytes[i]];
        GatheredCons(bytes[i], Reversed(bytes[..i]));
        sample := Appended(sample, frameBuffer[byteIndex + i]);
      }
      assert bytes[..layout.octets] == bytes;
    }

    method GatherLittleEndian(byteIndex: nat) returns (sample: Sample)
      requires byteIndex + layout.octets <= frameBuffer.Length
      ensures sample == Gathered(frameBuffer[byteIndex..byteIndex + layout.octets])
    {
      ghost var bytes := frameBuffer[byteIndex..byteIndex + layout.octets];
      hide Gathered, Appended;
      NothingGathered();
      assert bytes[layout.octets..] == [];
      sample := 0;
      for i := layout.octets downto 0
        invariant sample == Gathered(bytes[i..])
      {
        GatheredFrom(bytes, i);
        sample := Appended(sample, frameBuffer[byteIndex + i]);
      }
      assert bytes[0..] == bytes;
    }

    /** The frame and channel loops of decodeFrames. */
    method DecodeFrames(output: array<Sample>, framesRead: nat)
      requires Supported(layout) && framesRead * channels <= output.Length
      requires framesRead * channels * layout.octets <= frameBuffer.Length
      modifies output
      ensures Patched(output[..], old(output[..]), 0,
                      DecodedAll(frameBuffer[..framesRead * channels * layout.octets], layout, framesRead * channels))
    {
      hide DecodedAll, Patched;
      PatchNothing(output[..], 0);
      ghost var original := output[..];
      var outputIndex, byteIndex := 0, 0;
      for frame := 0 to framesRead
        invariant outputIndex == frame * channels && byteIndex == outputIndex * layout.octets
        invariant byteIndex <= frameBuffer.Length && outputIndex <= output.Length
        invariant Patched(output[..], original, 0, DecodedAll(frameBuffer[..byteIndex], layout, outputIndex))
      {
        FrameStep(frame, framesRead, channels, layout.octets);
        outputIndex, byteIndex := DecodeFrame(output, outputIndex, byteIndex, original);
      }
    }

    /** One frame: a sample for every channel. */
    method DecodeFrame(output: array<Sample>, outputStart: nat, byteStart: nat, ghost original: seq<Sample>)
      returns (outputIndex: nat, byteIndex: nat)
      requires Supported(layout) && byteStart == outputStart * layout.octets
      requires (outputStart + channels) * layout.octets <= frameBuffer.Length
      requires byteStart <= frameBuffer.Length
      requires outputStart + channels <= output.Length
      requires Patched(output[..], original, 0, DecodedAll(frameBuffer[..byteStart], layout, outputStart))
      modifies output
      ensures outputIndex == outputStart + channels && byteIndex == outputIndex * layout.octets <= frameBuffer.Length
      ensures Patched(output[..], original, 0, DecodedAll(frameBuffer[..byteIndex], layout, outputIndex))
    {
      hide Decoded, DecodedAll, Patched;
      outputIndex, byteIndex := outputStart, byteStart;
      for channel := 0 to channels
        invariant outputIndex == outputStart + channel && byteIndex == outputIndex * layout.octets
        invariant byteIndex <= frameBuffer.Length
        invariant Patched(output[..], original, 0, DecodedAll(frameBuffer[..byteIndex], layout, outputIndex))
      {
        ProductSum(outputIndex, 1, layout.octets);
        TimesMonotone(outputIndex + 1, outputStart + channels, layout.octets);
        var sample := DecodeSample(byteIndex);
        ghost var group := frameBuffer[byteIndex..byteIndex + layout.octets];
        DecodedSnoc(frameBuffer[..byteIndex], group, layout, outputIndex);
        assert frameBuffer[..byteIndex] + group == frameBuffer[..byteIndex + layout.octets];
        PatchOne(original, output[..], DecodedAll(frameBuffer[..byteIndex], layout, outputIndex), sample);
        output[outputIndex] := sample;
        outputIndex := outputIndex + 1;
        byteIndex := byteIndex + layout.octets;
      }
    }
  }

  /** What a stream without failures hands out: all that is asked for, or all that is left. */
  lemma FiniteAnswer(flow: Flow<Byte>, frames: nat, frameSize: nat)
    requires flow.stop == Finished && frames > 0 && frameSize > 0
    ensures frames * frameSize > 0 && frames * frameSize % frameSize == 0 && frames * frameSize / frameSize == frames
    ensures var reply := Serve(flow, 0, frames * frameSize);
      reply.result.Count? && |reply.delivered| == Min(frames * frameSize, |flow.remaining|)
    ensures forall count: int :: count * frameSize == |flow.remaining| ==> count == |flow.remaining| / frameSize
    ensures forall count: int :: count * frameSize == frames * frameSize ==> count == frames
  {
    TimesMonotone(1, frames, frameSize);
    MultipleIsWhole(frames, frameSize);
    forall count: int | count * frameSize == |flow.remaining|
      ensures count == |flow.remaining| / frameSize
    {
      MultipleIsWhole(count, frameSize);
    }
    forall count: int | count * frameSize == frames * frameSize
      ensures count == frames
    {
      MultipleIsWhole(count, frameSize);
    }
  }

  lemma FrameSamplesOf(bytes: seq<Byte>, layout: Layout, channels: nat, frames: nat)
    requires Supported(layout) && |bytes| == ByteLength(frames, layout, channels)
    ensures |bytes| == frames * channels * layout.octets
    ensures FrameSamples(bytes, layout, channels, frames) == DecodedAll(bytes, layout, frames * channels)
  {
    FrameBytes(frames, layout.octets, channels);
  }

  lemma WholeFrames(count: nat, frameSize: nat, bound: nat)
    requires frameSize > 0 && count % frameSize == 0 && 0 < count <= bound * frameSize
    ensures count == count / frameSize * frameSize && 0 < count / frameSize <= bound
  {
    TimesMonotone(bound + 1, count / frameSize, frameSize);
  }

  lemma FrameStep(frame: nat, frames: nat, channels: nat, octets: nat)
    requires frame < frames
    ensures frame * channels + channels == (frame + 1) * channels <= frames * channels
    ensures (frame * channels + channels) * octets <= frames * channels * octets
  {
    ProductSum(frame, 1, channels);
    TimesMonotone(frame + 1, frames, channels);
    TimesMonotone((frame + 1) * channels, frames * channels, octets);
  }

  lemma NothingGathered()
    ensures Reversed<Byte>([]) == [] && Gathered([]) == 0
  {
  }

  lemma SingleByte(bytes: seq<Byte>)
    requires |bytes| == 1
    ensures Reversed(bytes) == bytes && Gathered(bytes) == bytes[0] as Sample
  {
    assert bytes[1..] == [];
    ZeroShifted(bytes[0]);
  }

  lemma ZeroShifted(b: Byte)
    ensures Appended(0, b) == b as Sample
  {
  }

  lemma GatheredCons(b: Byte, rest: seq<Byte>)
    ensures Gathered([b] + rest) == Appended(Gathered(rest), b)
  {
    assert ([b] + rest)[1..] == rest;
  }

  lemma FirstPiece(pieces: seq<Piece>)
    requires pieces != []
    ensures pieces[0].Bytes? ==>
      && Content(pieces) == pieces[0].data + Content(pieces[1..])
      && StopOf(pieces) == StopOf(pieces[1..])
    ensures !pieces[0].Bytes? ==> Content(pieces) == [] && StopOf(pieces) == Failing(SourceThrew)
  {
  }
}
