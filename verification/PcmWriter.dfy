/** The writer's chunk loop between the sample reader and the encoding session. */
module PcmWriter {
  import opened Arithmetic
  import opened ArrayRegions
  import opened Interleaving
  import opened PcmCodec
  import opened PcmSampleReader
  import opened PcmValues
  import opened PlainStream
  import opened Wrappers

  datatype Chunk = Chunk(samples: seq<Sample>, frames: nat)

  datatype Outcome = Written | Refused(cause: Failure)

  /** What the session demands of a chunk: its shape, and the range of every sample. */
  ghost predicate Acceptable(chunk: Chunk, channels: nat, octets: nat)
    requires 1 <= octets <= 4
  {
    && chunk.frames * channels <= INT_MAX && |chunk.samples| == chunk.frames * channels
    && AllInRange(chunk.samples, octets)
  }

  /** The session's caller contract, checked before anything reaches the native encoder. */
  method ValidateInterleavedPcmChunk(samples: seq<Sample>, frames: int, channels: nat, octets: nat)
    returns (ok: bool)
    requires 1 <= octets <= 4
    ensures ok <==>
      && 0 <= frames * channels <= INT_MAX && |samples| == frames * channels && frames >= 0
      && forall i :: 0 <= i < |samples| ==>
        0 <= 2 * Signed(samples[i]) + PowerOf256(octets) < 2 * PowerOf256(octets)
    ensures ok <==> frames >= 0 && Acceptable(Chunk(samples, frames), channels, octets)
  {
    hide Signed, InRange, PowerOf256;
    forall i | 0 <= i < |samples|
      ensures InRange(samples[i], octets) <==> 0 <= 2 * Signed(samples[i]) + PowerOf256(octets) < 2 * PowerOf256(octets)
    {
      InRangeValue(samples[i], octets);
    }
    if frames < 0 {
      return false;
    }
    if frames * channels > INT_MAX || |samples| != frames * channels {
      return false;
    }
    for i := 0 to |samples|
      invariant AllInRange(samples[..i], octets)
    {
      if !InRange(samples[i], octets) {
        return false;
      }
    }
    assert samples[..|samples|] == samples;
    return true;
  }

  ghost function Joined(chunks: seq<Chunk>): seq<Sample> {
    if chunks == [] then [] else Joined(chunks[..|chunks| - 1]) + chunks[|chunks| - 1].samples
  }

  /** The encoding session: takes chunks until it fails, if it ever does. */
  class EncodingSink {
    const channels: nat
    const octets: nat
    const patience: Option<nat>
    var chunks: seq<Chunk>

    constructor (channels: nat, octets: nat, patience: Option<nat>)
      ensures this.channels == channels && this.octets == octets && this.patience == patience && chunks == []
    {
      this.channels, this.octets, this.patience, chunks := channels, octets, patience, [];
    }

    method WriteInterleaved(samples: seq<Sample>, frames: nat) returns (threw: bool)
      requires 1 <= octets <= 4
      modifies this
      ensures threw <==>
        !Acceptable(Chunk(samples, frames), channels, octets) || patience == Some(|old(chunks)|)
      ensures chunks == if threw then old(chunks) else old(chunks) + [Chunk(samples, frames)]
    {
      var ok := ValidateInterleavedPcmChunk(samples, frames, channels, octets);
      if !ok || patience == Some(|chunks|) {
        return true;
      }
      chunks := chunks + [Chunk(samples, frames)];
      return false;
    }
  }

  /** So many whole frames of the input are in the chunks, and nothing else. */
  ghost predicate Delivered(chunks: seq<Chunk>, input: seq<Byte>, layout: Layout, channels: nat, frames: nat)
    requires Supported(layout)
  {
    && ByteLength(frames, layout, channels) <= |input|
    && Joined(chunks) == FrameSamples(input[..ByteLength(frames, layout, channels)], layout, channels, frames)
    && forall i :: 0 <= i < |chunks| ==>
      1 <= chunks[i].frames <= BUFFER_FRAMES && Acceptable(chunks[i], channels, layout.octets)
  }

  lemma DeliveredNothing(input: seq<Byte>, layout: Layout, channels: nat)
    requires Supported(layout)
    ensures Delivered([], input, layout, channels, 0)
  {
  }

  lemma FrameSamplesMore(front: seq<Byte>, back: seq<Byte>, layout: Layout, channels: nat, frames: nat, count: nat)
    requires Supported(layout)
    requires |front| == ByteLength(frames, layout, channels) && |back| == ByteLength(count, layout, channels)
    ensures |front + back| == ByteLength(frames + count, layout, channels)
    ensures FrameSamples(front + back, layout, channels, frames + count)
         == FrameSamples(front, layout, channels, frames) + FrameSamples(back, layout, channels, count)
  {
    hide DecodedAll, FrameSamples;
    ByteLengthSum(frames, count, layout, channels);
    ProductSum(frames, count, channels);
    FrameSamplesOf(front, layout, channels, frames);
    FrameSamplesOf(back, layout, channels, count);
    FrameSamplesOf(front + back, layout, channels, frames + count);
    DecodedAppend(front, back, layout, frames * channels, count * channels);
  }

  /** The session accepts every chunk the reader produces. */
  lemma ChunkAcceptable(piece: seq<Byte>, layout: Layout, channels: nat, count: nat)
    requires Supported(layout) && 1 <= channels <= 8 && count <= BUFFER_FRAMES
    requires |piece| == ByteLength(count, layout, channels)
    ensures Acceptable(Chunk(FrameSamples(piece, layout, channels, count), count), channels, layout.octets)
  {
    hide DecodedAll, FrameSamples, AllInRange;
    FrameSamplesOf(piece, layout, channels, count);
    DecodedAllInRange(piece, layout, count * channels);
    TimesMonotone(count, BUFFER_FRAMES, channels);
  }

  /** One more chunk: the session accepts it, and the chunks still are a prefix of the input. */
  lemma DeliveredMore(chunks: seq<Chunk>, input: seq<Byte>, layout: Layout, channels: nat, frames: nat,
                      piece: seq<Byte>, count: nat)
    requires Supported(layout) && 1 <= channels <= 8 && 1 <= count <= BUFFER_FRAMES
    requires Delivered(chunks, input, layout, channels, frames)
    requires |piece| == ByteLength(count, layout, channels)
    requires piece <= input[ByteLength(frames, layout, channels)..]
    ensures var chunk := Chunk(FrameSamples(piece, layout, channels, count), count);
      && Acceptable(chunk, channels, layout.octets)
      && Delivered(chunks + [chunk], input, layout, channels, frames + count)
  {
    hide FrameSamples, Acceptable, ByteLength;
    var before := input[..ByteLength(frames, layout, channels)];
    ByteLengthSum(frames, count, layout, channels);
    ChunkAcceptable(piece, layout, channels, count);
    FrameSamplesMore(before, piece, layout, channels, frames, count);
    assert before + piece == input[..ByteLength(frames + count, layout, channels)];
    var chunk := Chunk(FrameSamples(piece, layout, channels, count), count);
    assert (chunks + [chunk])[..|chunks|] == chunks;
  }

  /** What a full read leaves uncounted shows in the remainder of the whole input. */
  lemma RemainderOf(frames: nat, rest: nat, size: nat)
    requires size > 0
    ensures (frames * size + rest) % size == rest % size
  {
    var sum := frames * size + rest;
    assert sum == sum / size * size + sum % size && rest == rest / size * size + rest % size;
    var q := frames + rest / size - sum / size;
    assert q * size == sum % size - rest % size;
    assert q >= 1 ==> q * size >= size;
    assert q <= -1 ==> (q + 1) * size <= 0;
  }

  /** A read of whole frames that gets part of one has met a ragged end of the input. */
  lemma RaggedEnd(start: Flow<Byte>, frames: nat, size: nat)
    requires size > 0 && frames * size <= |start.remaining| && BUFFER_FRAMES * size > 0
    requires |Serve(After(start, frames * size), 0, BUFFER_FRAMES * size).delivered| % size != 0
    ensures |start.remaining| % size != 0
  {
    RemainderOf(BUFFER_FRAMES, 0, size);
    RemainderOf(frames, |start.remaining| - frames * size, size);
  }

  /** The loop between two chunks: a known part of the input has gone to the session. */
  ghost predicate Between(reader: PcmSampleReader, sink: EncodingSink, start: Flow<Byte>, frames: nat)
    reads reader, sink
  {
    && reader.Valid() && sink.channels == reader.channels && sink.octets == reader.layout.octets
    && Reached(reader, start, frames)
    && Delivered(sink.chunks, start.remaining, reader.layout, reader.channels, frames)
  }

  /** So many frames have left the input. */
  ghost predicate Reached(reader: PcmSampleReader, start: Flow<Byte>, frames: nat)
    reads reader
  {
    var bytes := ByteLength(frames, reader.layout, reader.channels);
    bytes <= |start.remaining| && reader.View() == After(start, bytes)
  }

  lemma BetweenDelivers(reader: PcmSampleReader, sink: EncodingSink, start: Flow<Byte>, frames: nat)
    requires Between(reader, sink, start, frames)
    ensures reader.Valid() && ByteLength(frames, reader.layout, reader.channels) <= |start.remaining|
    ensures Delivered(sink.chunks, start.remaining, reader.layout, reader.channels, frames)
  {
  }

  lemma BetweenStarts(reader: PcmSampleReader, sink: EncodingSink)
    requires reader.Valid() && sink.chunks == []
    requires sink.channels == reader.channels && sink.octets == reader.layout.octets
    ensures Between(reader, sink, reader.View(), 0)
  {
    hide Content, StopOf, Delivered;
    DeliveredNothing(reader.View().remaining, reader.layout, reader.channels);
    AfterNothing(reader.View());
  }

  /** The read: its samples are those of the next whole frames of the input. */
  method ReadChunk(reader: PcmSampleReader, samples: array<Sample>, ghost start: Flow<Byte>, ghost frames: nat)
    returns (result: ReadResult, ghost piece: seq<Byte>)
    requires reader.Valid() && samples.Length == BUFFER_FRAMES * reader.channels && Reached(reader, start, frames)
    modifies reader, reader.frameBuffer, samples
    ensures reader.Valid()
    ensures result.Threw? ==> start.stop.Failing? || |start.remaining| % reader.frameSize != 0
    ensures result == Count(-1) ==>
      start.stop == Finished && |start.remaining| == ByteLength(frames, reader.layout, reader.channels)
    ensures result.Count? && result != Count(-1) ==>
      && 1 <= result.count <= BUFFER_FRAMES && piece != []
      && |piece| == ByteLength(result.count, reader.layout, reader.channels)
      && ByteLength(frames, reader.layout, reader.channels) <= |start.remaining|
      && piece <= start.remaining[ByteLength(frames, reader.layout, reader.channels)..]
      && Patched(samples[..], old(samples[..]), 0, FrameSamples(piece, reader.layout, reader.channels, result.count))
      && Reached(reader, start, frames + result.count)
  {
    hide Content, StopOf, FrameSamples, Patched;
    ghost var bytes := ByteLength(frames, reader.layout, reader.channels);
    TimesMonotone(1, reader.layout.octets, reader.channels);
    ghost var reply := Serve(reader.View(), 0, reader.BytesWanted(BUFFER_FRAMES));
    piece := reply.delivered;
    result := reader.ReadFrames(samples, BUFFER_FRAMES);
    if result.Threw? {
      if reply.result.Count? {
        RaggedEnd(start, frames, reader.frameSize);
      }
      return;
    }
    if result.count == -1 {
      return;
    }
    ByteLengthSum(frames, result.count, reader.layout, reader.channels);
    hide ByteLength;
    AfterAfter(start, bytes, |piece|);
  }

  /** One read and one write; the frames moved, -1 at the end, or the failure. */
  method WriteChunk(reader: PcmSampleReader, sink: EncodingSink, samples: array<Sample>, ghost start: Flow<Byte>,
                    ghost frames: nat)
    returns (result: ReadResult)
    requires Between(reader, sink, start, frames)
    requires samples.Length == BUFFER_FRAMES * reader.channels
    modifies reader, reader.frameBuffer, sink, samples
    ensures reader.Valid()
    ensures result == Count(-1) ==>
      && start.stop == Finished && |start.remaining| == ByteLength(frames, reader.layout, reader.channels)
      && sink.chunks == old(sink.chunks)
    ensures result.Count? && result != Count(-1) ==>
      && result.count > 0 && Between(reader, sink, start, frames + result.count)
      && ByteLength(frames, reader.layout, reader.channels)
         < ByteLength(frames + result.count, reader.layout, reader.channels) <= |start.remaining|
    ensures result.Threw? ==>
      && sink.chunks == old(sink.chunks)
      && (start.stop.Failing? || |start.remaining| % reader.frameSize != 0 || sink.patience == Some(|sink.chunks|))
  {
    hide Content, StopOf, Delivered, FrameSamples, Acceptable, ByteLength;
    ghost var piece;
    result, piece := ReadChunk(reader, samples, start, frames);
    if result.Threw? || result.count == -1 {
      return;
    }
    ByteLengthSum(frames, result.count, reader.layout, reader.channels);
    DeliveredMore(sink.chunks, start.remaining, reader.layout, reader.channels, frames, piece, result.count);
    TimesMonotone(result.count, BUFFER_FRAMES, reader.channels);
    var threw := sink.WriteInterleaved(samples[..result.count * reader.channels], result.count);
    if threw {
      return Threw(ConsumerThrew);
    }
  }

  /** The whole PCM input, in chunks, to the session. */
  method WritePcm(reader: PcmSampleReader, sink: EncodingSink) returns (outcome: Outcome, ghost frames: nat)
    requires reader.Valid() && sink.chunks == []
    requires sink.channels == reader.channels && sink.octets == reader.layout.octets
    modifies reader, reader.frameBuffer, sink
    ensures Delivered(sink.chunks, old(reader.View()).remaining, reader.layout, reader.channels, frames)
    ensures outcome == Written ==>
      && old(reader.View()).stop == Finished
      && |old(reader.View()).remaining| == ByteLength(frames, reader.layout, reader.channels)
    ensures outcome != Written ==>
      || old(reader.View()).stop.Failing?
      || |old(reader.View()).remaining| % reader.frameSize != 0
      || sink.patience == Some(|sink.chunks|)
  {
    hide Content, StopOf, Delivered, Between, ByteLength;
    ghost var start := reader.View();
    BetweenStarts(reader, sink);
    BetweenDelivers(reader, sink, start, 0);
    var samples := new Sample[BUFFER_FRAMES * reader.channels];
    frames := 0;
    while true
      invariant Between(reader, sink, start, frames)
      invariant ByteLength(frames, reader.layout, reader.channels) <= |start.remaining|
      decreases |start.remaining| - ByteLength(frames, reader.layout, reader.channels)
    {
      BetweenDelivers(reader, sink, start, frames);
      var result := WriteChunk(reader, sink, samples, start, frames);
      if result.Threw? {
        return Refused(result.cause), frames;
      }
      if result.count == -1 {
        return Written, frames;
      }
      frames := frames + result.count;
    }
  }

  /** All frames of encoded samples decode to those samples. */
  lemma FramesArrive(samples: seq<Sample>, octets: nat, channels: nat, frames: nat)
    requires 1 <= octets <= 4 && AllInRange(samples, octets) && |samples| == frames * channels
    ensures |EncodedAll(samples, octets)| == ByteLength(frames, LittleEndian(octets), channels)
    ensures FrameSamples(EncodedAll(samples, octets), LittleEndian(octets), channels, frames) == samples
  {
    hide EncodedAll, DecodedAll, FrameSamples;
    FrameBytes(frames, octets, channels);
    FrameSamplesOf(EncodedAll(samples, octets), LittleEndian(octets), channels, frames);
    RoundTrip(samples, octets);
  }

  /** The first frames of encoded samples decode to the first samples. */
  lemma FramesArriveInOrder(samples: seq<Sample>, octets: nat, channels: nat, total: nat, frames: nat)
    requires 1 <= octets <= 4 && AllInRange(samples, octets) && |samples| == total * channels
    requires ByteLength(frames, LittleEndian(octets), channels) <= |EncodedAll(samples, octets)|
    requires channels >= 1
    ensures frames * channels <= |samples|
    ensures var bytes := EncodedAll(samples, octets)[..ByteLength(frames, LittleEndian(octets), channels)];
      FrameSamples(bytes, LittleEndian(octets), channels, frames) == samples[..frames * channels]
  {
    hide EncodedAll, DecodedAll, FrameSamples;
    FrameBytes(frames, octets, channels);
    var count := frames * channels;
    TimesMonotone(|samples| + 1, count, octets);
    ProductSum(|samples|, 1, octets);
    EncodedAppend(samples[..count], samples[count..], octets);
    assert samples[..count] + samples[count..] == samples;
    FramesArrive(samples[..count], octets, channels, frames);
  }

  /**
   * Samples that fit, as bytes, through reader and writer: the session gets them
   * in order, in chunks it accepts, and all of them unless it fails by itself.
   */
  method WriteEncoded(reader: PcmSampleReader, sink: EncodingSink, ghost samples: seq<Sample>, ghost total: nat)
    returns (outcome: Outcome)
    requires reader.Valid() && sink.chunks == []
    requires sink.channels == reader.channels && reader.layout == LittleEndian(sink.octets)
    requires AllInRange(samples, sink.octets) && |samples| == total * sink.channels
    requires reader.View().remaining <= EncodedAll(samples, sink.octets)
    requires reader.View().stop == Finished ==> reader.View().remaining == EncodedAll(samples, sink.octets)
    modifies reader, reader.frameBuffer, sink
    ensures Joined(sink.chunks) <= samples
    ensures forall i :: 0 <= i < |sink.chunks| ==> Acceptable(sink.chunks[i], sink.channels, sink.octets)
    ensures outcome == Written ==> old(reader.View()).stop == Finished && Joined(sink.chunks) == samples
    ensures outcome != Written ==> old(reader.View()).stop.Failing? || sink.patience == Some(|sink.chunks|)
  {
    hide Content, StopOf, FrameSamples, Acceptable, EncodedAll, DecodedAll;
    ghost var start, bytes := reader.View().remaining, EncodedAll(samples, sink.octets);
    FrameBytes(total, sink.octets, sink.channels);
    ghost var frames;
    outcome, frames := WritePcm(reader, sink);
    ghost var length := ByteLength(frames, reader.layout, reader.channels);
    assert start[..length] == bytes[..length];
    FramesArriveInOrder(samples, sink.octets, sink.channels, total, frames);
    MultipleIsWhole(total, reader.frameSize);
    if outcome == Written {
      SameFrames(frames, total, reader.frameSize);
      assert samples[..total * sink.channels] == samples;
    }
  }

  lemma SameFrames(a: nat, b: nat, size: nat)
    requires size > 0 && a * size == b * size
    ensures a == b
  {
    MultipleIsWhole(a, size);
    MultipleIsWhole(b, size);
  }
}
