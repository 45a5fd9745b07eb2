/** Stretches of arrays that are overwritten while the rest stays. */
module ArrayRegions {
  /** `after` is `before` with `piece` written over it from `from` on. */
  ghost predicate Patched<T>(after: seq<T>, before: seq<T>, from: nat, piece: seq<T>) {
    && from + |piece| <= |before| == |after|
    && after[..from] == before[..from]
    && after[from..from + |piece|] == piece
    && after[from + |piece|..] == before[from + |piece|..]
  }

  lemma PatchNothing<T>(s: seq<T>, from: nat)
    requires from <= |s|
    ensures Patched(s, s, from, [])
  {
  }

  /** Two adjoining patches are one. */
  lemma PatchTwice<T>(original: seq<T>, between: seq<T>, after: seq<T>, from: nat, first: seq<T>, second: seq<T>)
    requires Patched(between, original, from, first) && Patched(after, between, from + |first|, second)
    ensures Patched(after, original, from, first + second)
  {
    var middle := from + |first|;
    assert after[from..middle] == after[..middle][from..] == between[..middle][from..] == first;
    assert after[from..middle + |second|] == after[from..middle] + after[middle..middle + |second|];
    assert between[middle + |second|..] == between[middle..][|second|..];
    assert original[middle + |second|..] == original[middle..][|second|..];
    assert after[..from] == after[..middle][..from] && between[..from] == between[..middle][..from];
  }

  lemma PatchOne<T>(original: seq<T>, between: seq<T>, piece: seq<T>, item: T)
    requires Patched(between, original, 0, piece) && |piece| < |between|
    ensures Patched(between[|piece| := item], original, 0, piece + [item])
  {
  }

  method CopyRegion<T>(source: array<T>, from: nat, target: array<T>, to: nat, count: nat)
    requires source != target
    requires from + count <= source.Length && to + count <= target.Length
    modifies target
    ensures Patched(target[..], old(target[..]), to, source[from..from + count])
  {
    for k := 0 to count
      invariant Patched(target[..], old(target[..]), to, source[from..from + k])
    {
      target[to + k] := source[from + k];
    }
  }
}
