/** PCM samples as Java ints and bytes, bit for bit. */
module PcmCodec {
  import opened Arithmetic

  type Sample = bv32
  type Byte = bv8

  /** Java's `>>` on an int, by so many octets. */
  function ShiftRightSigned(x: Sample, octets: nat): Sample
    requires octets <= 3
  {
    var negative := x & 0x8000_0000 != 0;
    match octets
    case 0 => x
    case 1 => if negative then !(!x >> 8) else x >> 8
    case 2 => if negative then !(!x >> 16) else x >> 16
    case 3 => if negative then !(!x >> 24) else x >> 24
  }

  /** Java's `<<` on an int, by so many octets. */
  function ShiftLeft(x: Sample, octets: nat): Sample
    requires octets <= 3
  {
    match octets
    case 0 => x
    case 1 => x << 8
    case 2 => x << 16
    case 3 => x << 24
  }

  /** Java's `(byte)` cast. */
  function LowByte(x: Sample): Byte {
    (x & 0xff) as Byte
  }

  /** Java's `<=` on ints. */
  predicate SignedAtMost(x: Sample, y: Sample) {
    x ^ 0x8000_0000 <= y ^ 0x8000_0000
  }

  /** The range the encoder's validator allows for samples of so many octets. */
  predicate InRange(sample: Sample, octets: nat)
    requires 1 <= octets <= 4
  {
    match octets
    case 1 => SignedAtMost(0xffff_ff80, sample) && SignedAtMost(sample, 0x7f)
    case 2 => SignedAtMost(0xffff_8000, sample) && SignedAtMost(sample, 0x7fff)
    case 3 => SignedAtMost(0xff80_0000, sample) && SignedAtMost(sample, 0x7f_ffff)
    case 4 => true
  }

  /** The little-endian bytes of a sample. */
  function Encoded(sample: Sample, octets: nat): (r: seq<Byte>)
    requires 1 <= octets <= 4
    ensures |r| == octets
  {
    seq(octets, i requires 0 <= i < octets => LowByte(ShiftRightSigned(sample, i)))
  }

  /** One more octet below the others. */
  function Appended(high: Sample, low: Byte): Sample {
    (high << 8) | (low as Sample)
  }

  /** Bytes gathered with the last one most significant. */
  function Gathered(bytes: seq<Byte>): Sample {
    if bytes == [] then 0 else Appended(Gathered(bytes[1..]), bytes[0])
  }

  function Reversed<T>(s: seq<T>): (r: seq<T>)
    ensures |r| == |s|
  {
    if s == [] then [] else Reversed(s[1..]) + [s[0]]
  }

  /** A PCM byte layout the reader accepts: one to four octets, unsigned only for one. */
  datatype Layout = Layout(octets: nat, bigEndian: bool, unsigned: bool)

  predicate Supported(layout: Layout) {
    1 <= layout.octets <= 4 && (layout.unsigned ==> layout.octets == 1)
  }

  /** What the decoder's byte stream produces. */
  function LittleEndian(octets: nat): Layout {
    Layout(octets, false, false)
  }

  function SignExtended(sample: Sample, octets: nat): Sample
    requires 1 <= octets <= 4
  {
    ShiftRightSigned(ShiftLeft(sample, 4 - octets), 4 - octets)
  }

  /** The sample in one group of bytes. */
  function Decoded(bytes: seq<Byte>, layout: Layout): Sample
    requires Supported(layout) && |bytes| == layout.octets
  {
    if layout.unsigned then (bytes[0] as Sample) - 128
    else SignExtended(Gathered(if layout.bigEndian then Reversed(bytes) else bytes), layout.octets)
  }

  /** The low octets of a word. */
  function LowOctets(s: Sample, octets: nat): Sample
    requires 1 <= octets <= 4
  {
    match octets
    case 1 => s & 0xff
    case 2 => s & 0xffff
    case 3 => s & 0xff_ffff
    case 4 => s
  }

  /** The sign bit of a sample of so many octets. */
  predicate Negative(s: Sample, octets: nat)
    requires 1 <= octets <= 3
  {
    match octets
    case 1 => s & 0x80 != 0
    case 2 => s & 0x8000 != 0
    case 3 => s & 0x80_0000 != 0
  }

  /** Ones above the octets. */
  function Filled(s: Sample, octets: nat): Sample
    requires 1 <= octets <= 3
  {
    match octets
    case 1 => s | 0xffff_ff00
    case 2 => s | 0xffff_0000
    case 3 => s | 0xff00_0000
  }

  // Facts about single operations on words, one width at a time; what follows
  // from them is reasoned out without looking at bits again.

  lemma Extend1(s: Sample)
    ensures !Negative(s, 1) ==> SignExtended(s, 1) == LowOctets(s, 1)
    ensures Negative(s, 1) ==> SignExtended(s, 1) == Filled(s, 1)
  {
  }

  lemma Extend2(s: Sample)
    ensures !Negative(s, 2) ==> SignExtended(s, 2) == LowOctets(s, 2)
    ensures Negative(s, 2) ==> SignExtended(s, 2) == Filled(s, 2)
  {
  }

  lemma Extend3(s: Sample)
    ensures !Negative(s, 3) ==> SignExtended(s, 3) == LowOctets(s, 3)
    ensures Negative(s, 3) ==> SignExtended(s, 3) == Filled(s, 3)
  {
  }

  lemma Extend4(s: Sample)
    ensures SignExtended(s, 4) == s && InRange(s, 4)
  {
  }

  lemma Low1(s: Sample)
    ensures Negative(LowOctets(s, 1), 1) == Negative(s, 1)
    ensures Filled(LowOctets(s, 1), 1) == Filled(s, 1)
  {
    hide LowOctets;
    Masks1(s);
  }

  lemma Masks1(s: Sample)
    ensures LowOctets(s, 1) & 0x80 == s & 0x80
    ensures LowOctets(s, 1) | 0xffff_ff00 == s | 0xffff_ff00
  {
  }

  lemma Low2(s: Sample)
    ensures Negative(LowOctets(s, 2), 2) == Negative(s, 2)
    ensures Filled(LowOctets(s, 2), 2) == Filled(s, 2)
  {
    hide LowOctets;
    Masks2(s);
  }

  lemma Masks2(s: Sample)
    ensures LowOctets(s, 2) & 0x8000 == s & 0x8000
    ensures LowOctets(s, 2) | 0xffff_0000 == s | 0xffff_0000
  {
  }

  lemma Low3(s: Sample)
    ensures Negative(LowOctets(s, 3), 3) == Negative(s, 3)
    ensures Filled(LowOctets(s, 3), 3) == Filled(s, 3)
  {
    hide LowOctets;
    Masks3(s);
  }

  lemma Masks3(s: Sample)
    ensures LowOctets(s, 3) & 0x80_0000 == s & 0x80_0000
    ensures LowOctets(s, 3) | 0xff00_0000 == s | 0xff00_0000
  {
  }

  lemma Range1(s: Sample)
    ensures !Negative(s, 1) ==> InRange(LowOctets(s, 1), 1)
    ensures Negative(s, 1) ==> InRange(Filled(s, 1), 1)
  {
  }

  lemma Range2(s: Sample)
    ensures !Negative(s, 2) ==> InRange(LowOctets(s, 2), 2)
    ensures Negative(s, 2) ==> InRange(Filled(s, 2), 2)
  {
  }

  lemma Range3(s: Sample)
    ensures !Negative(s, 3) ==> InRange(LowOctets(s, 3), 3)
    ensures Negative(s, 3) ==> InRange(Filled(s, 3), 3)
  {
  }

  lemma Same1(s: Sample)
    ensures !Negative(s, 1) && InRange(s, 1) ==> LowOctets(s, 1) == s
    ensures Negative(s, 1) && InRange(s, 1) ==> Filled(s, 1) == s
  {
  }

  lemma Same2(s: Sample)
    ensures !Negative(s, 2) && InRange(s, 2) ==> LowOctets(s, 2) == s
    ensures Negative(s, 2) && InRange(s, 2) ==> Filled(s, 2) == s
  {
  }

  lemma Same3(s: Sample)
    ensures !Negative(s, 3) && InRange(s, 3) ==> LowOctets(s, 3) == s
    ensures Negative(s, 3) && InRange(s, 3) ==> Filled(s, 3) == s
  {
  }

  lemma Extend(s: Sample, octets: nat)
    requires 1 <= octets <= 3
    ensures SignExtended(s, octets) == if Negative(s, octets) then Filled(s, octets) else LowOctets(s, octets)
    ensures InRange(SignExtended(s, octets), octets)
    ensures InRange(s, octets) ==> SignExtended(s, octets) == s
  {
    hide SignExtended, InRange, Negative, Filled, LowOctets;
    match octets
    case 1 => Extend1(s); Range1(s); Same1(s);
    case 2 => Extend2(s); Range2(s); Same2(s);
    case 3 => Extend3(s); Range3(s); Same3(s);
  }

  /** Sign extension is the identity on exactly the samples in range. */
  lemma ExtendedExactly(sample: Sample, octets: nat)
    requires 1 <= octets <= 4
    ensures SignExtended(sample, octets) == sample <==> InRange(sample, octets)
  {
    hide SignExtended, InRange, Negative, Filled, LowOctets;
    if octets == 4 {
      Extend4(sample);
    } else {
      Extend(sample, octets);
    }
  }

  lemma GatheredFrom(bytes: seq<Byte>, i: nat)
    requires i < |bytes|
    ensures Gathered(bytes[i..]) == Appended(Gathered(bytes[i + 1..]), bytes[i])
    ensures i + 1 == |bytes| ==> Gathered(bytes[i + 1..]) == 0
  {
    assert bytes[i..][1..] == bytes[i + 1..];
  }

  /** The bytes of a sample, gathered again, are its low octets. */
  lemma GatheredEncoded(s: Sample, octets: nat)
    requires 1 <= octets <= 4
    ensures Gathered(Encoded(s, octets)) == LowOctets(s, octets)
  {
    hide Gathered, Encoded, LowOctets;
    match octets
    case 1 => Gathered1(s);
    case 2 => Gathered2(s);
    case 3 => Gathered3(s);
    case 4 => Gathered4(s);
  }

  lemma Gathered1(s: Sample)
    ensures Gathered(Encoded(s, 1)) == LowOctets(s, 1)
  {
    hide Gathered, LowByte, ShiftRightSigned;
    var b := Encoded(s, 1);
    assert b[0..] == b;
    GatheredFrom(b, 0);
    Byte0(s);
  }

  lemma Gathered2(s: Sample)
    ensures Gathered(Encoded(s, 2)) == LowOctets(s, 2)
  {
    hide Gathered, LowByte, ShiftRightSigned;
    var b := Encoded(s, 2);
    assert b[0..] == b;
    GatheredFrom(b, 0);
    GatheredFrom(b, 1);
    Byte0(s);
    Byte1(s);
    Two(s);
  }

  lemma Gathered3(s: Sample)
    ensures Gathered(Encoded(s, 3)) == LowOctets(s, 3)
  {
    hide Gathered, LowByte, ShiftRightSigned;
    var b := Encoded(s, 3);
    assert b[0..] == b;
    GatheredFrom(b, 0);
    GatheredFrom(b, 1);
    GatheredFrom(b, 2);
    Byte0(s);
    Byte1(s);
    Byte2(s);
    Three(s);
  }

  lemma Gathered4(s: Sample)
    ensures Gathered(Encoded(s, 4)) == LowOctets(s, 4)
  {
    hide Gathered, LowByte, ShiftRightSigned;
    var b := Encoded(s, 4);
    assert b[0..] == b;
    GatheredFrom(b, 0);
    GatheredFrom(b, 1);
    GatheredFrom(b, 2);
    GatheredFrom(b, 3);
    Byte0(s);
    Byte1(s);
    Byte2(s);
    Byte3(s);
    Four(s);
  }

  lemma Byte0(s: Sample)
    ensures LowByte(ShiftRightSigned(s, 0)) as Sample == s & 0xff
  {
  }

  lemma Byte1(s: Sample)
    ensures LowByte(ShiftRightSigned(s, 1)) as Sample == (s >> 8) & 0xff
  {
  }

  lemma Byte2(s: Sample)
    ensures LowByte(ShiftRightSigned(s, 2)) as Sample == (s >> 16) & 0xff
  {
  }

  lemma Byte3(s: Sample)
    ensures LowByte(ShiftRightSigned(s, 3)) as Sample == (s >> 24) & 0xff
  {
  }

  lemma Two(s: Sample)
    ensures (((0 << 8) | ((s >> 8) & 0xff)) << 8) | (s & 0xff) == s & 0xffff
  {
  }

  lemma Three(s: Sample)
    ensures (((((0 << 8) | ((s >> 16) & 0xff)) << 8) | ((s >> 8) & 0xff)) << 8) | (s & 0xff) == s & 0xff_ffff
  {
  }

  lemma Four(s: Sample)
    ensures (((((((0 << 8) | ((s >> 24) & 0xff)) << 8) | ((s >> 16) & 0xff)) << 8) | ((s >> 8) & 0xff)) << 8) | (s & 0xff)
         == s
  {
  }

  /** Sign extension reads nothing above the octets it extends. */
  lemma HighDropped(s: Sample, octets: nat)
    requires 1 <= octets <= 4
    ensures SignExtended(LowOctets(s, octets), octets) == SignExtended(s, octets)
  {
    hide SignExtended, InRange, Negative, Filled;
    if octets < 4 {
      hide LowOctets;
      Extend(s, octets);
      Extend(LowOctets(s, octets), octets);
      match octets
      case 1 => Low1(s);
      case 2 => Low2(s);
      case 3 => Low3(s);
    }
  }

  /** A sample survives the trip through its bytes exactly when it fits its octets. */
  lemma SampleRoundTrip(sample: Sample, octets: nat)
    requires 1 <= octets <= 4
    ensures Decoded(Encoded(sample, octets), LittleEndian(octets)) == sample <==> InRange(sample, octets)
  {
    hide SignExtended, InRange, Gathered, Encoded, LowOctets;
    GatheredEncoded(sample, octets);
    HighDropped(sample, octets);
    ExtendedExactly(sample, octets);
  }

  lemma ExtendedInRange(s: Sample, octets: nat)
    requires 1 <= octets <= 4
    ensures InRange(SignExtended(s, octets), octets)
  {
    hide SignExtended, InRange, Negative, Filled, LowOctets;
    if octets == 4 {
      Extend4(SignExtended(s, 4));
    } else {
      Extend(s, octets);
    }
  }

  /** Whatever the bytes, the encoder's range check accepts the decoded sample. */
  lemma DecodedInRange(bytes: seq<Byte>, layout: Layout)
    requires Supported(layout) && |bytes| == layout.octets
    ensures InRange(Decoded(bytes, layout), layout.octets)
  {
    hide SignExtended, InRange, Gathered;
    if layout.unsigned {
      Centred(bytes[0]);
    } else {
      ExtendedInRange(Gathered(if layout.bigEndian then Reversed(bytes) else bytes), layout.octets);
    }
  }

  lemma Centred(b: Byte)
    ensures InRange((b as Sample) - 128, 1)
  {
  }

  /** Byte order only decides which end is read first. */
  lemma ByteOrder(bytes: seq<Byte>, octets: nat)
    requires 1 <= octets <= 4 && |bytes| == octets
    ensures Decoded(Reversed(bytes), Layout(octets, true, false)) == Decoded(bytes, LittleEndian(octets))
  {
    ReversedTwice(bytes);
  }

  lemma {:induction false} ReversedTwice<T>(s: seq<T>)
    ensures Reversed(Reversed(s)) == s
  {
    if s != [] {
      ReversedTwice(s[1..]);
      ReversedSnoc(Reversed(s[1..]), s[0]);
    }
  }

  lemma {:induction false} ReversedSnoc<T>(s: seq<T>, x: T)
    ensures Reversed(s + [x]) == [x] + Reversed(s)
  {
    if s == [] {
      assert s + [x] == [x] && [x][1..] == [];
    } else {
      assert (s + [x])[1..] == s[1..] + [x];
      ReversedSnoc(s[1..], x);
    }
  }

  /** The bytes of a run of samples. */
  function EncodedAll(samples: seq<Sample>, octets: nat): (r: seq<Byte>)
    requires 1 <= octets <= 4
    ensures |r| == |samples| * octets
  {
    if samples == [] then [] else
      EncodedAll(samples[..|samples| - 1], octets) + Encoded(samples[|samples| - 1], octets)
  }

  /** The samples in a run of bytes. */
  function DecodedAll(bytes: seq<Byte>, layout: Layout, count: nat): (r: seq<Sample>)
    requires Supported(layout) && |bytes| == count * layout.octets
    ensures |r| == count
    decreases count
  {
    if count == 0 then [] else
      var last := |bytes| - layout.octets;
      assert last == (count - 1) * layout.octets;
      DecodedAll(bytes[..last], layout, count - 1) + [Decoded(bytes[last..], layout)]
  }

  ghost predicate AllInRange(samples: seq<Sample>, octets: nat)
    requires 1 <= octets <= 4
  {
    forall i :: 0 <= i < |samples| ==> InRange(samples[i], octets)
  }

  lemma {:induction false} EncodedAppend(front: seq<Sample>, back: seq<Sample>, octets: nat)
    requires 1 <= octets <= 4
    ensures EncodedAll(front + back, octets) == EncodedAll(front, octets) + EncodedAll(back, octets)
  {
    hide Encoded;
    if back == [] {
      assert front + back == front;
    } else {
      EncodedAppend(front, back[..|back| - 1], octets);
      assert (front + back)[..|front + back| - 1] == front + back[..|back| - 1];
    }
  }

  lemma DecodedSnoc(bytes: seq<Byte>, group: seq<Byte>, layout: Layout, count: nat)
    requires Supported(layout) && |bytes| == count * layout.octets && |group| == layout.octets
    ensures |bytes + group| == (count + 1) * layout.octets
    ensures DecodedAll(bytes + group, layout, count + 1) == DecodedAll(bytes, layout, count) + [Decoded(group, layout)]
  {
    hide Decoded;
    assert (bytes + group)[..|bytes|] == bytes && (bytes + group)[|bytes|..] == group;
  }

  lemma {:induction false} DecodedAppend(front: seq<Byte>, back: seq<Byte>, layout: Layout, m: nat, n: nat)
    requires Supported(layout) && |front| == m * layout.octets && |back| == n * layout.octets
    ensures |front + back| == (m + n) * layout.octets
    ensures DecodedAll(front + back, layout, m + n) == DecodedAll(front, layout, m) + DecodedAll(back, layout, n)
    decreases n
  {
    hide Decoded, DecodedAll;
    ProductSum(m, n, layout.octets);
    if n == 0 {
      assert front + back == front;
    } else {
      ProductSum(n - 1, 1, layout.octets);
      var most, group := back[..|back| - layout.octets], back[|back| - layout.octets..];
      DecodedAppend(front, most, layout, m, n - 1);
      DecodedSnoc(front + most, group, layout, m + n - 1);
      DecodedSnoc(most, group, layout, n - 1);
      assert most + group == back && (front + most) + group == front + back;
    }
  }

  /** The byte form of samples that fit decodes to the same samples. */
  lemma {:induction false} RoundTrip(samples: seq<Sample>, octets: nat)
    requires 1 <= octets <= 4 && AllInRange(samples, octets)
    ensures DecodedAll(EncodedAll(samples, octets), LittleEndian(octets), |samples|) == samples
  {
    hide Encoded, Decoded, InRange;
    if samples != [] {
      var last := |samples| - 1;
      RoundTrip(samples[..last], octets);
      SampleRoundTrip(samples[last], octets);
      var bytes := EncodedAll(samples, octets);
      assert |bytes| - octets == last * octets;
      assert bytes[..last * octets] == EncodedAll(samples[..last], octets);
      assert bytes[last * octets..] == Encoded(samples[last], octets);
    }
  }

  lemma {:induction false} DecodedAllInRange(bytes: seq<Byte>, layout: Layout, count: nat)
    requires Supported(layout) && |bytes| == count * layout.octets
    ensures AllInRange(DecodedAll(bytes, layout, count), layout.octets)
    decreases count
  {
    hide Decoded, InRange;
    if count > 0 {
      var last := |bytes| - layout.octets;
      assert last == (count - 1) * layout.octets;
      DecodedAllInRange(bytes[..last], layout, count - 1);
      DecodedInRange(bytes[last..], layout);
    }
  }
}
