/** Channel-major blocks, as the codec delivers them, and interleaved PCM. */
module Interleaving {
  import opened Arithmetic

  /** Every channel holds exactly `frames` samples. */
  ghost predicate Rectangular<T>(buffer: seq<seq<T>>, frames: nat) {
    forall c :: 0 <= c < |buffer| ==> |buffer[c]| == frames
  }

  /** Sample f of every channel, in channel order. */
  ghost function Row<T>(buffer: seq<seq<T>>, f: nat): (r: seq<T>)
    requires forall c :: 0 <= c < |buffer| ==> f < |buffer[c]|
    ensures |r| == |buffer|
    ensures forall c :: 0 <= c < |buffer| ==> r[c] == buffer[c][f]
  {
    seq(|buffer|, c requires 0 <= c < |buffer| => buffer[c][f])
  }

  /** The first `frames` rows one after another. */
  ghost function Interleave<T>(buffer: seq<seq<T>>, frames: nat): (r: seq<T>)
    requires forall c :: 0 <= c < |buffer| ==> frames <= |buffer[c]|
    ensures |r| == frames * |buffer|
  {
    if frames == 0 then [] else Interleave(buffer, frames - 1) + Row(buffer, frames - 1)
  }

  /** Channel c of an interleaved sequence. */
  ghost function Channel<T>(samples: seq<T>, channels: nat, frames: nat, c: nat): (r: seq<T>)
    requires |samples| == frames * channels && c < channels
    ensures |r| == frames
    ensures forall f :: 0 <= f < frames ==> Within(f, frames, c, channels) && r[f] == samples[f * channels + c]
  {
    assert forall f {:trigger Within(f, frames, c, channels)} :: 0 <= f < frames ==> Within(f, frames, c, channels) by {
      forall f: int | 0 <= f < frames
        ensures Within(f, frames, c, channels)
      {
        CellInRange(f, frames, c, channels);
      }
    }
    seq(frames, f requires 0 <= f < frames && Within(f, frames, c, channels) => samples[f * channels + c])
  }

  ghost predicate Within(f: int, frames: int, c: int, channels: int) {
    0 <= f * channels + c < frames * channels
  }

  lemma CellInRange(f: int, frames: int, c: int, channels: int)
    requires 0 <= f < frames && 0 <= c < channels
    ensures Within(f, frames, c, channels)
  {
    assert f * channels + channels == (f + 1) * channels <= frames * channels;
  }

  /** The channel-major form of an interleaved sequence. */
  ghost function Split<T>(samples: seq<T>, channels: nat, frames: nat): (r: seq<seq<T>>)
    requires |samples| == frames * channels
    ensures |r| == channels && Rectangular(r, frames)
    ensures forall c :: 0 <= c < channels ==> r[c] == Channel(samples, channels, frames, c)
  {
    seq(channels, c requires 0 <= c < channels => Channel(samples, channels, frames, c))
  }

  lemma {:induction false} InterleaveAt<T>(buffer: seq<seq<T>>, frames: nat, f: nat, c: nat)
    requires forall d :: 0 <= d < |buffer| ==> frames <= |buffer[d]|
    requires f < frames && c < |buffer|
    ensures Within(f, frames, c, |buffer|)
    ensures Interleave(buffer, frames)[f * |buffer| + c] == buffer[c][f]
  {
    CellInRange(f, frames, c, |buffer|);
    var head := Interleave(buffer, frames - 1);
    if f == frames - 1 {
      assert f * |buffer| == |head|;
    } else {
      InterleaveAt(buffer, frames - 1, f, c);
    }
  }

  /** Splitting an interleaved block gives its channels back, cut to the frames that were kept. */
  lemma SplitInterleave<T>(buffer: seq<seq<T>>, kept: nat)
    requires forall c :: 0 <= c < |buffer| ==> kept <= |buffer[c]|
    ensures forall c :: 0 <= c < |buffer| ==>
      Split(Interleave(buffer, kept), |buffer|, kept)[c] == buffer[c][..kept]
  {
    var samples := Interleave(buffer, kept);
    forall c | 0 <= c < |buffer|
      ensures Channel(samples, |buffer|, kept, c) == buffer[c][..kept]
    {
      forall f | 0 <= f < kept
        ensures Channel(samples, |buffer|, kept, c)[f] == buffer[c][f]
      {
        InterleaveAt(buffer, kept, f, c);
      }
    }
  }

  /** Interleaving what was split gives the samples back. */
  lemma InterleaveSplit<T>(samples: seq<T>, channels: nat, frames: nat)
    requires |samples| == frames * channels
    ensures Interleave(Split(samples, channels, frames), frames) == samples
  {
    var split := Split(samples, channels, frames);
    forall k | 0 <= k < |samples|
      ensures Interleave(split, frames)[k] == samples[k]
    {
      var f, c := k / channels, k % channels;
      CellBack(k, frames, channels);
      InterleaveAt(split, frames, f, c);
      assert Within(f, frames, c, channels);
    }
  }

  lemma CellBack(k: nat, frames: nat, channels: nat)
    requires k < frames * channels && channels > 0
    ensures k / channels < frames && k % channels < channels && k / channels * channels + k % channels == k
  {
    assert k / channels * channels <= k;
    TimesMonotone(frames, k / channels, channels);
  }

  /** Growing a block by whole rows. */
  lemma {:induction false} InterleavePrefix<T>(buffer: seq<seq<T>>, shorter: nat, frames: nat)
    requires shorter <= frames && forall c :: 0 <= c < |buffer| ==> frames <= |buffer[c]|
    ensures shorter * |buffer| <= frames * |buffer|
    ensures Interleave(buffer, frames)[..shorter * |buffer|] == Interleave(buffer, shorter)
  {
    if shorter < frames {
      InterleavePrefix(buffer, shorter, frames - 1);
      assert (frames - 1) * |buffer| + |buffer| == frames * |buffer|;
    }
  }

  /** PCM frames, each one sample per channel. */
  ghost predicate IsFrames<T>(rows: seq<seq<T>>, channels: nat) {
    forall f :: 0 <= f < |rows| ==> |rows[f]| == channels
  }

  /** The frames of a block. */
  ghost function Rows<T>(buffer: seq<seq<T>>, frames: nat): (rows: seq<seq<T>>)
    requires forall c :: 0 <= c < |buffer| ==> frames <= |buffer[c]|
    ensures |rows| == frames && IsFrames(rows, |buffer|)
  {
    seq(frames, f requires 0 <= f < frames => Row(buffer, f))
  }

  /** Frames laid one after another. */
  ghost function Flat<T>(rows: seq<seq<T>>): seq<T> {
    if rows == [] then [] else Flat(rows[..|rows| - 1]) + rows[|rows| - 1]
  }

  lemma {:induction false} FlatRows<T>(buffer: seq<seq<T>>, frames: nat)
    requires forall c :: 0 <= c < |buffer| ==> frames <= |buffer[c]|
    ensures Flat(Rows(buffer, frames)) == Interleave(buffer, frames)
  {
    if frames > 0 {
      FlatRows(buffer, frames - 1);
      assert Rows(buffer, frames)[..frames - 1] == Rows(buffer, frames - 1);
    }
  }

  lemma {:induction false} FlatLength<T>(rows: seq<seq<T>>, channels: nat)
    requires IsFrames(rows, channels)
    ensures |Flat(rows)| == |rows| * channels
  {
    if rows != [] {
      FlatLength(rows[..|rows| - 1], channels);
      assert (|rows| - 1) * channels + channels == |rows| * channels;
    }
  }

  lemma {:induction false} FlatAppend<T>(front: seq<seq<T>>, back: seq<seq<T>>)
    ensures Flat(front + back) == Flat(front) + Flat(back)
  {
    if back == [] {
      assert front + back == front;
    } else {
      FlatAppend(front, back[..|back| - 1]);
      assert (front + back)[..|front + back| - 1] == front + back[..|back| - 1];
    }
  }

  /** Cutting a flat sequence at a frame boundary. */
  lemma FlatCut<T>(rows: seq<seq<T>>, channels: nat, k: nat)
    requires IsFrames(rows, channels) && k <= |rows|
    ensures k * channels <= |Flat(rows)| == |rows| * channels
    ensures Flat(rows)[..k * channels] == Flat(rows[..k])
    ensures Flat(rows)[k * channels..] == Flat(rows[k..])
  {
    assert rows == rows[..k] + rows[k..];
    FlatAppend(rows[..k], rows[k..]);
    FlatLength(rows, channels);
    FlatLength(rows[..k], channels);
  }

  /** The copy loops of the native write callbacks. */
  method InterleaveBlock<T(0)>(buffer: seq<seq<T>>, frames: nat) returns (interleaved: array<T>)
    requires forall c :: 0 <= c < |buffer| ==> frames <= |buffer[c]|
    ensures fresh(interleaved) && interleaved[..] == Interleave(buffer, frames)
  {
    interleaved := new T[frames * |buffer|];
    var target := 0;
    for frameIndex := 0 to frames
      invariant target == frameIndex * |buffer| <= interleaved.Length
      invariant interleaved[..target] == Interleave(buffer, frameIndex)
    {
      assert target + |buffer| == (frameIndex + 1) * |buffer|;
      TimesMonotone(frameIndex + 1, frames, |buffer|);
      CopyRow(buffer, frameIndex, interleaved, target);
      target := target + |buffer|;
    }
  }

  method CopyRow<T>(buffer: seq<seq<T>>, frameIndex: nat, interleaved: array<T>, target: nat)
    requires forall c :: 0 <= c < |buffer| ==> frameIndex < |buffer[c]|
    requires target + |buffer| <= interleaved.Length
    modifies interleaved
    ensures interleaved[..target + |buffer|] == old(interleaved[..target]) + Row(buffer, frameIndex)
  {
    for channelIndex := 0 to |buffer|
      invariant interleaved[..target] == old(interleaved[..target])
      invariant forall c :: 0 <= c < channelIndex ==> interleaved[target + c] == buffer[c][frameIndex]
    {
      interleaved[target + channelIndex] := buffer[channelIndex][frameIndex];
    }
  }

  /** The split loops of the public chunk types. */
  method SplitByChannel<T(0)>(samples: seq<T>, channels: nat, frames: nat) returns (result: seq<array<T>>)
    requires |samples| == frames * channels
    ensures |result| == channels
    ensures forall c :: 0 <= c < channels ==> fresh(result[c]) && result[c][..] == Split(samples, channels, frames)[c]
  {
    hide Split;
    result := NewChannels(channels, frames);
    var sourceIndex := 0;
    for frameIndex := 0 to frames
      invariant sourceIndex == frameIndex * channels
      invariant forall c :: 0 <= c < channels ==>
        result[c][..frameIndex] == Split(samples, channels, frames)[c][..frameIndex]
    {
      assert sourceIndex + channels == (frameIndex + 1) * channels;
      TimesMonotone(frameIndex + 1, frames, channels);
      ScatterRow(samples, sourceIndex, result, frameIndex);
      forall c | 0 <= c < channels
        ensures result[c][..frameIndex + 1] == Split(samples, channels, frames)[c][..frameIndex + 1]
      {
        SplitAt(samples, channels, frames, c, frameIndex);
        OneMore(result[c][..], Split(samples, channels, frames)[c], frameIndex);
      }
      sourceIndex := sourceIndex + channels;
    }
  }

  lemma OneMore<T>(a: seq<T>, b: seq<T>, i: nat)
    requires i < |a| && i < |b| && a[..i] == b[..i] && a[i] == b[i]
    ensures a[..i + 1] == b[..i + 1]
  {
    assert a[..i + 1] == a[..i] + [a[i]] && b[..i + 1] == b[..i] + [b[i]];
  }

  lemma SplitAt<T>(samples: seq<T>, channels: nat, frames: nat, c: nat, f: nat)
    requires |samples| == frames * channels && c < channels && f < frames
    ensures 0 <= f * channels + c < |samples|
    ensures Split(samples, channels, frames)[c][f] == samples[f * channels + c]
  {
    CellInRange(f, frames, c, channels);
    assert Within(f, frames, c, channels);
  }

  method NewChannels<T(0)>(channels: nat, frames: nat) returns (result: seq<array<T>>)
    ensures |result| == channels
    ensures forall c :: 0 <= c < channels ==> fresh(result[c]) && result[c].Length == frames
    ensures forall c, d :: 0 <= c < d < channels ==> result[c] != result[d]
  {
    result := [];
    while |result| < channels
      invariant |result| <= channels
      invariant forall c :: 0 <= c < |result| ==> fresh(result[c]) && result[c].Length == frames
      invariant forall c, d :: 0 <= c < d < |result| ==> result[c] != result[d]
    {
      var channel := new T[frames];
      result := result + [channel];
    }
  }

  method ScatterRow<T>(samples: seq<T>, sourceIndex: nat, result: seq<array<T>>, frameIndex: nat)
    requires sourceIndex + |result| <= |samples|
    requires forall c :: 0 <= c < |result| ==> frameIndex < result[c].Length
    requires forall c, d :: 0 <= c < d < |result| ==> result[c] != result[d]
    modifies set c | 0 <= c < |result| :: result[c]
    ensures forall c :: 0 <= c < |result| ==> result[c][..frameIndex] == old(result[c][..frameIndex])
    ensures forall c :: 0 <= c < |result| ==> result[c][frameIndex] == samples[sourceIndex + c]
  {
    for channelIndex := 0 to |result|
      invariant forall c :: 0 <= c < |result| ==> result[c][..frameIndex] == old(result[c][..frameIndex])
      invariant forall c :: 0 <= c < channelIndex ==> result[c][frameIndex] == samples[sourceIndex + c]
    {
      result[channelIndex][frameIndex] := samples[sourceIndex + channelIndex];
    }
  }
}
