/**
 * The parts together: what the pull decoder serves, as the byte stream's
 * session, through reader and writer, to the encoder.
 */
module PcmPipeline {
  import opened Interleaving
  import opened PcmCodec
  import opened PcmInputStream
  import opened PcmWriter
  import opened PlainStream
  import opened Wrappers
  import Reader = PcmSampleReader

  const DEFAULT_PORTION := 8192

  /** What the byte stream meets when its session is the pull decoder over a flow of frames. */
  ghost function TurnsOf(flow: Flow<seq<Sample>>, total: nat): seq<Turn>
    decreases |flow.remaining|
  {
    var reply := Serve(flow, total, CHUNK_FRAMES);
    if reply.result.Threw? then [Fails]
    else if reply.result.count <= 0 then []
    else [PcmInputStream.Delivered(reply.result.count, Flat(reply.delivered))] + TurnsOf(reply.flow, total)
  }

  /** The pull decoder is such a session: it serves between one and the requested number of whole frames. */
  lemma {:induction false} DecoderKeepsContract(flow: Flow<seq<Sample>>, total: nat, channels: nat)
    requires IsFrames(flow.remaining, channels)
    ensures Kept(TurnsOf(flow, total), channels)
    decreases |flow.remaining|
  {
    hide Flat;
    var reply := Serve(flow, total, CHUNK_FRAMES);
    if reply.result.Count? && reply.result.count > 0 {
      FlatLength(reply.delivered, channels);
      DecoderKeepsContract(reply.flow, total, channels);
    }
  }

  /** The frames that come in full chunks. */
  function FullChunks(frames: nat): (full: nat)
    ensures full <= frames
  {
    if frames < CHUNK_FRAMES then 0 else CHUNK_FRAMES + FullChunks(frames - CHUNK_FRAMES)
  }

  /**
   * The byte stream gets every frame of a healthy flow and then its end; of a
   * flow that fails or falls short it gets the full chunks and then a failure.
   */
  lemma {:induction false} SessionCarriesFlow(flow: Flow<seq<Sample>>, total: nat)
    ensures SamplesAhead(TurnsOf(flow, total))
         == Flat(flow.remaining[..if Healthy(flow, total) then |flow.remaining| else FullChunks(|flow.remaining|)])
    ensures StopOf(TurnsOf(flow, total)) == if Healthy(flow, total) then Finished else Failing(SourceThrew)
    decreases |flow.remaining|
  {
    hide Flat;
    var rows := flow.remaining;
    var reply := Serve(flow, total, CHUNK_FRAMES);
    NothingFlat();
    if |rows| >= CHUNK_FRAMES {
      SessionCarriesFlow(reply.flow, total);
      var kept := if Healthy(flow, total) then |rows| else FullChunks(|rows|);
      assert rows[..kept] == rows[..CHUNK_FRAMES] + rows[CHUNK_FRAMES..][..kept - CHUNK_FRAMES];
      FlatAppend(rows[..CHUNK_FRAMES], rows[CHUNK_FRAMES..][..kept - CHUNK_FRAMES]);
    } else if Healthy(flow, total) && rows != [] {
      SessionCarriesFlow(reply.flow, total);
      assert rows[..|rows|] == rows && reply.flow.remaining == [];
    }
  }

  lemma NothingFlat()
    ensures Flat<Sample>([]) == []
  {
  }

  /** Bytes in front of whatever follows. */
  lemma {:induction false} MoreContent(front: seq<Reader.Piece>, back: seq<Reader.Piece>)
    requires forall i :: 0 <= i < |front| ==> front[i].Bytes?
    ensures Reader.Content(front + back) == Reader.Content(front) + Reader.Content(back)
    ensures Reader.StopOf(front + back) == Reader.StopOf(back)
  {
    if front == [] {
      assert front + back == back;
    } else {
      assert front + back == [front[0]] + (front[1..] + back);
      MoreContent(front[1..], back);
    }
  }

  /** One read of the stream, and the bytes it answered. */
  method ReadPiece(source: FlacPcmInputStream, request: nat, ghost start: Flow<Byte>, ghost taken: nat)
    returns (result: ReadResult, data: seq<Byte>)
    requires source.Valid() && !source.closed && request > 0
    requires taken <= |start.remaining| && source.View() == After(start, taken)
    modifies source, source.sampleBuffer, source.byteBuffer
    ensures source.Valid() && !source.closed
    ensures result.Threw? ==> start.stop.Failing?
    ensures result == Count(-1) ==> start.stop == Finished && taken == |start.remaining|
    ensures result.Count? && result != Count(-1) ==>
      && result.count == |data| > 0 && taken + |data| <= |start.remaining|
      && start.remaining[..taken + |data|] == start.remaining[..taken] + data
      && source.View() == After(start, taken + |data|)
  {
    hide SamplesAhead, StopOf, EncodedAll;
    data := [];
    var buffer := new Byte[request];
    result := source.Read(buffer, 0, request);
    if result.Count? && result.count != -1 {
      AfterMore(start, taken, result.count);
      AfterAfter(start, taken, result.count);
      data := buffer[..result.count];
    }
  }

  lemma PieceAdded(pieces: seq<Reader.Piece>, data: seq<Byte>)
    requires forall k :: 0 <= k < |pieces| ==> pieces[k].Bytes?
    ensures Reader.Content(pieces + [Reader.Bytes(data)]) == Reader.Content(pieces) + data
  {
    MoreContent(pieces, [Reader.Bytes(data)]);
    One(data);
  }

  lemma PiecesEnd(pieces: seq<Reader.Piece>)
    requires forall k :: 0 <= k < |pieces| ==> pieces[k].Bytes?
    ensures Reader.StopOf(pieces) == Finished
    ensures Reader.StopOf(pieces + [Reader.Throws]) == Failing(SourceThrew)
    ensures Reader.Content(pieces + [Reader.Throws]) == Reader.Content(pieces)
  {
    Ends();
    MoreContent(pieces, []);
    MoreContent(pieces, [Reader.Throws]);
    assert pieces + [] == pieces;
  }

  /**
   * Reads the byte stream dry, in these portions and then in full buffers, and
   * notes every answer: this is the input a reader of the stream meets.
   */
  method Pour(source: FlacPcmInputStream, portions: seq<nat>) returns (pieces: seq<Reader.Piece>)
    requires source.Valid() && !source.closed && Positive(portions)
    modifies source, source.sampleBuffer, source.byteBuffer
    ensures Reader.Kept(pieces)
    ensures Reader.Content(pieces) <= old(source.View()).remaining
    ensures old(source.View()).stop == Finished ==>
      Reader.Content(pieces) == old(source.View()).remaining && Reader.StopOf(pieces) == Finished
    ensures old(source.View()).stop.Failing? ==> Reader.StopOf(pieces) == Failing(SourceThrew)
  {
    hide SamplesAhead, StopOf, EncodedAll, Reader.Content, Reader.StopOf, After;
    ghost var start, taken := source.View(), 0;
    pieces := [];
    Ends();
    AfterNothing(start);
    var i := 0;
    while true
      invariant source.Valid() && !source.closed
      invariant taken <= |start.remaining| && source.View() == After(start, taken)
      invariant forall k :: 0 <= k < |pieces| ==> pieces[k].Bytes? && pieces[k].data != []
      invariant Reader.Content(pieces) == start.remaining[..taken]
      decreases |start.remaining| - taken
    {
      var request := if i < |portions| then portions[i] else DEFAULT_PORTION;
      i := i + 1;
      var result, data := ReadPiece(source, request, start, taken);
      PiecesEnd(pieces);
      if result.Threw? {
        return pieces + [Reader.Throws];
      }
      if result.count == -1 {
        return;
      }
      PieceAdded(pieces, data);
      taken := taken + |data|;
      pieces := pieces + [Reader.Bytes(data)];
    }
  }

  lemma Ends()
    ensures Reader.Content([]) == [] && Reader.StopOf([]) == Finished
    ensures Reader.Content([Reader.Throws]) == [] && Reader.StopOf([Reader.Throws]) == Failing(SourceThrew)
  {
  }

  lemma One(data: seq<Byte>)
    ensures Reader.Content([Reader.Bytes(data)]) == data
  {
    assert data + [] == data;
  }

  /**
   * From the decoder to the encoder: over a healthy flow of frames that fit, the
   * session gets every sample in order, in chunks it never refuses, whatever the
   * portions in which the bytes travel; over any other flow no normal end is
   * reported, and what went out is a prefix.
   */
  method DecoderToEncoder(ghost flow: Flow<seq<Sample>>, ghost total: nat, source: FlacPcmInputStream,
                          portions: seq<nat>, sink: EncodingSink)
    returns (outcome: Outcome)
    requires source.Valid() && !source.closed && Positive(portions)
    requires source.View() == Flow(EncodedAll(SamplesAhead(TurnsOf(flow, total)), source.octets),
                                   StopOf(TurnsOf(flow, total)), 0)
    requires IsFrames(flow.remaining, source.channels) && AllInRange(Flat(flow.remaining), source.octets)
    requires source.channels <= 8
    requires sink.channels == source.channels && sink.octets == source.octets && sink.chunks == []
    modifies source, source.sampleBuffer, source.byteBuffer, sink
    ensures Joined(sink.chunks) <= Flat(flow.remaining)
    ensures forall i :: 0 <= i < |sink.chunks| ==> Acceptable(sink.chunks[i], sink.channels, sink.octets)
    ensures outcome == Written ==> Healthy(flow, total) && Joined(sink.chunks) == Flat(flow.remaining)
    ensures outcome != Written ==> !Healthy(flow, total) || sink.patience == Some(|sink.chunks|)
  {
    hide SamplesAhead, StopOf, EncodedAll, Reader.Content, Reader.StopOf, Flat, Acceptable, TurnsOf, AllInRange;
    ghost var rows := flow.remaining;
    ghost var kept := if Healthy(flow, total) then |rows| else FullChunks(|rows|);
    SessionCarriesFlow(flow, total);
    FlatPrefix(rows, source.channels, kept, source.octets);
    var pieces := Pour(source, portions);
    var reader := new Reader.PcmSampleReader(LittleEndian(source.octets), source.channels, pieces);
    outcome := WriteEncoded(reader, sink, Flat(rows[..kept]), kept);
    assert kept == |rows| ==> rows[..kept] == rows;
  }

  /** The first frames are the first samples, and fit when all do. */
  lemma FlatPrefix(rows: seq<seq<Sample>>, channels: nat, kept: nat, octets: nat)
    requires IsFrames(rows, channels) && kept <= |rows| && 1 <= octets <= 4 && AllInRange(Flat(rows), octets)
    ensures Flat(rows[..kept]) <= Flat(rows) && |Flat(rows[..kept])| == kept * channels
    ensures AllInRange(Flat(rows[..kept]), octets)
  {
    hide Flat;
    assert rows[..kept] + rows[kept..] == rows;
    FlatAppend(rows[..kept], rows[kept..]);
    FlatLength(rows[..kept], channels);
  }
}
