/** What PCM bytes and samples mean as numbers: two's complement, in either byte order, and bytes around a midpoint. */
module PcmValues {
  import opened Arithmetic
  import opened PcmCodec

  /** The number a Java int stands for. */
  function Signed(x: Sample): int {
    if x < 0x8000_0000 then x as int else x as int - 0x1_0000_0000
  }

  predicate TopBitSet(x: Sample) {
    x >= 0x8000_0000
  }

  lemma SignedBySign(x: Sample)
    ensures Signed(x) == if TopBitSet(x) then x as int - 0x1_0000_0000 else x as int
  {
  }

  /** A word that fits so many octets. */
  predicate Below(x: Sample, octets: nat)
    requires octets <= 3
  {
    match octets case 0 => x < 0x1 case 1 => x < 0x100 case 2 => x < 0x1_0000 case 3 => x < 0x100_0000
  }

  function PowerOf256(octets: nat): (r: nat)
    requires octets <= 4
  {
    match octets case 0 => 1 case 1 => 0x100 case 2 => 0x1_0000 case 3 => 0x100_0000 case 4 => 0x1_0000_0000
  }

  /** The first byte counts least. */
  function LittleEndianValue(bytes: seq<Byte>): nat {
    if bytes == [] then 0 else bytes[0] as int + 256 * LittleEndianValue(bytes[1..])
  }

  /** The last byte counts least. */
  function BigEndianValue(bytes: seq<Byte>): nat {
    if bytes == [] then 0 else 256 * BigEndianValue(bytes[..|bytes| - 1]) + bytes[|bytes| - 1] as int
  }

  /** Two's complement of so many octets. */
  function TwosComplement(value: nat, octets: nat): int
    requires 1 <= octets <= 4
  {
    if value < PowerOf256(octets) / 2 then value else value - PowerOf256(octets)
  }

  // ------------------------------------------------ single operations on words

  lemma ShiftedValue(high: Sample, low: Byte)
    requires high < 0x100_0000
    ensures ((high << 8) | (low as Sample)) as int == 256 * (high as int) + low as int
  {
  }

  lemma AppendedValue(high: Sample, low: Byte)
    requires Below(high, 3)
    ensures Appended(high, low) as int == 256 * (high as int) + low as int
  {
    ShiftedValue(high, low);
  }

  lemma Small1(s: Sample)
    requires Below(s, 1)
    ensures LowOctets(s, 1) == s
  {
  }

  lemma Small2(s: Sample)
    requires Below(s, 2)
    ensures LowOctets(s, 2) == s
  {
  }

  lemma Small3(s: Sample)
    requires Below(s, 3)
    ensures LowOctets(s, 3) == s
  {
  }

  lemma Ones1(s: Sample)
    requires s < 0x100
    ensures (s | 0xffff_ff00) as int == s as int + 0xffff_ff00
  {
  }

  lemma Ones2(s: Sample)
    requires s < 0x1_0000
    ensures (s | 0xffff_0000) as int == s as int + 0xffff_0000
  {
  }

  lemma Ones3(s: Sample)
    requires s < 0x100_0000
    ensures (s | 0xff00_0000) as int == s as int + 0xff00_0000
  {
  }

  lemma AppendedSmall(high: Sample, low: Byte)
    ensures Below(high, 0) ==> Below(Appended(high, low), 1)
    ensures Below(high, 1) ==> Below(Appended(high, low), 2)
    ensures Below(high, 2) ==> Below(Appended(high, low), 3)
  {
  }

  lemma TopBit(b: Byte)
    ensures b & 0x80 != 0 <==> b as int >= 128
  {
  }

  lemma TopBit1(a: Byte)
    ensures Negative(Appended(0, a), 1) <==> a & 0x80 != 0
  {
  }

  lemma TopBit2(a: Byte, b: Byte)
    ensures Negative(Appended(Appended(0, b), a), 2) <==> b & 0x80 != 0
  {
  }

  lemma TopBit3(a: Byte, b: Byte, c: Byte)
    ensures Negative(Appended(Appended(Appended(0, c), b), a), 3) <==> c & 0x80 != 0
  {
  }

  lemma TopBit4(a: Byte, b: Byte, c: Byte, d: Byte)
    ensures TopBitSet(Appended(Appended(Appended(Appended(0, d), c), b), a)) <==> d & 0x80 != 0
  {
  }

  lemma FilledValue1(s: Sample)
    requires Below(s, 1)
    ensures Signed(Filled(s, 1)) == s as int - 0x100
  {
    Ones1(s);
  }

  lemma FilledValue2(s: Sample)
    requires Below(s, 2)
    ensures Signed(Filled(s, 2)) == s as int - 0x1_0000
  {
    Ones2(s);
  }

  lemma FilledValue3(s: Sample)
    requires Below(s, 3)
    ensures Signed(Filled(s, 3)) == s as int - 0x100_0000
  {
    Ones3(s);
  }

  lemma UnsignedByte(b: Byte)
    ensures Signed((b as Sample) - 128) == b as int - 128
  {
  }

  /** Flipping the top bit moves the midpoint of an unsigned byte to zero. */
  lemma FlippedByte(b: Byte)
    ensures SignExtended(Appended(0, b ^ 0x80), 1) == (b as Sample) - 128
  {
  }

  // ----------------------------------------------------------- bytes to numbers

  /** Gathering stays below its power of 256, and is the value of the bytes. */
  lemma GatheredValue(bytes: seq<Byte>)
    requires |bytes| <= 4
    ensures Gathered(bytes) as int == LittleEndianValue(bytes)
    ensures |bytes| <= 3 ==> Below(Gathered(bytes), |bytes|)
  {
    hide Appended, Below;
    if bytes == [] {
      assert Below(0, 0) by { NothingBelow(); }
    } else {
      GatheredValue(bytes[1..]);
      Narrow(Gathered(bytes[1..]));
      AppendedSmall(Gathered(bytes[1..]), bytes[0]);
      AppendedValue(Gathered(bytes[1..]), bytes[0]);
    }
  }

  lemma Narrow(s: Sample)
    ensures Below(s, 0) || Below(s, 1) || Below(s, 2) ==> Below(s, 3)
  {
  }

  lemma NothingBelow()
    ensures Below(0, 0)
  {
  }

  /** The top byte alone decides the sign. */
  lemma TopByte(bytes: seq<Byte>)
    requires 1 <= |bytes| <= 4
    ensures LittleEndianValue(bytes) < PowerOf256(|bytes|)
    ensures LittleEndianValue(bytes) >= PowerOf256(|bytes|) / 2 <==> bytes[|bytes| - 1] as int >= 128
  {
    hide LittleEndianValue, PowerOf256;
    LowestFirst(bytes);
    Powers(|bytes| - 1);
    OneDigitMore(bytes[0] as int, LittleEndianValue(bytes[1..]), PowerOf256(|bytes| - 1));
    OneDigitMore(bytes[0] as int, LittleEndianValue(bytes[1..]), PowerOf256(|bytes| - 1) / 2);
    if |bytes| == 1 {
      LowestFirst(bytes[1..]);
    } else {
      TopByte(bytes[1..]);
    }
  }

  lemma OneDigitMore(low: nat, rest: nat, power: nat)
    requires low < 256
    ensures low + 256 * rest < 256 * power <==> rest < power
  {
  }

  lemma LowestFirst(bytes: seq<Byte>)
    ensures LittleEndianValue(bytes) == if bytes == [] then 0 else bytes[0] as int + 256 * LittleEndianValue(bytes[1..])
  {
  }

  lemma Powers(octets: nat)
    requires octets <= 3
    ensures PowerOf256(octets + 1) == 256 * PowerOf256(octets) && PowerOf256(0) == 1
    ensures octets > 0 ==> PowerOf256(octets + 1) / 2 == 256 * (PowerOf256(octets) / 2)
    ensures PowerOf256(1) == 256
  {
  }

  lemma SignOfGathered(bytes: seq<Byte>)
    requires 1 <= |bytes| <= 3
    ensures Negative(Gathered(bytes), |bytes|) <==> LittleEndianValue(bytes) >= PowerOf256(|bytes|) / 2
  {
    hide Gathered, Negative, LittleEndianValue, PowerOf256, Appended;
    TopByte(bytes);
    var n := |bytes|;
    TopBit(bytes[n - 1]);
    assert bytes[0..] == bytes;
    GatheredFrom(bytes, 0);
    if n == 1 {
      TopBit1(bytes[0]);
    } else {
      GatheredFrom(bytes, 1);
      if n == 2 {
        TopBit2(bytes[0], bytes[1]);
      } else {
        GatheredFrom(bytes, 2);
        TopBit3(bytes[0], bytes[1], bytes[2]);
      }
    }
  }

  lemma SignOfWord(bytes: seq<Byte>)
    requires |bytes| == 4
    ensures TopBitSet(Gathered(bytes)) <==> bytes[3] as int >= 128
  {
    hide Gathered, Appended, TopBitSet;
    TopBit(bytes[3]);
    assert bytes[0..] == bytes;
    GatheredFrom(bytes, 0);
    GatheredFrom(bytes, 1);
    GatheredFrom(bytes, 2);
    GatheredFrom(bytes, 3);
    TopBit4(bytes[0], bytes[1], bytes[2], bytes[3]);
  }

  lemma WordValue(bytes: seq<Byte>)
    requires |bytes| == 4
    ensures Signed(Gathered(bytes)) == TwosComplement(LittleEndianValue(bytes), 4)
  {
    hide Gathered, LittleEndianValue, Signed, TopBitSet, Below;
    SignedBySign(Gathered(bytes));
    SignOfWord(bytes);
    TopByte(bytes);
    GatheredValue(bytes);
  }

  /** Sign-extending gathered bytes gives the number they stand for. */
  lemma ExtendedValue(bytes: seq<Byte>)
    requires 1 <= |bytes| <= 4
    ensures Signed(SignExtended(Gathered(bytes), |bytes|)) == TwosComplement(LittleEndianValue(bytes), |bytes|)
  {
    hide Gathered, LittleEndianValue, SignExtended, Signed, TwosComplement;
    match |bytes|
    case 1 => Extended1(bytes);
    case 2 => Extended2(bytes);
    case 3 => Extended3(bytes);
    case 4 => Extend4(Gathered(bytes)); WordValue(bytes);
  }

  lemma Extended1(bytes: seq<Byte>)
    requires |bytes| == 1
    ensures Signed(SignExtended(Gathered(bytes), 1)) == TwosComplement(LittleEndianValue(bytes), 1)
  {
    hide Gathered, LittleEndianValue, SignExtended, Negative, Signed, Below;
    GatheredValue(bytes);
    Width1(Gathered(bytes));
    SignOfGathered(bytes);
  }

  lemma Extended2(bytes: seq<Byte>)
    requires |bytes| == 2
    ensures Signed(SignExtended(Gathered(bytes), 2)) == TwosComplement(LittleEndianValue(bytes), 2)
  {
    hide Gathered, LittleEndianValue, SignExtended, Negative, Signed, Below;
    GatheredValue(bytes);
    Width2(Gathered(bytes));
    SignOfGathered(bytes);
  }

  lemma Extended3(bytes: seq<Byte>)
    requires |bytes| == 3
    ensures Signed(SignExtended(Gathered(bytes), 3)) == TwosComplement(LittleEndianValue(bytes), 3)
  {
    hide Gathered, LittleEndianValue, SignExtended, Negative, Signed, Below;
    GatheredValue(bytes);
    Width3(Gathered(bytes));
    SignOfGathered(bytes);
  }

  lemma Width1(s: Sample)
    requires Below(s, 1)
    ensures Signed(SignExtended(s, 1)) == if Negative(s, 1) then s as int - 0x100 else s as int
  {
    hide SignExtended, Negative, Filled, LowOctets, Signed, Below;
    Extend(s, 1);
    Small1(s);
    SmallValue1(s);
    FilledValue1(s);
  }

  lemma Width2(s: Sample)
    requires Below(s, 2)
    ensures Signed(SignExtended(s, 2)) == if Negative(s, 2) then s as int - 0x1_0000 else s as int
  {
    hide SignExtended, Negative, Filled, LowOctets, Signed, Below;
    Extend(s, 2);
    Small2(s);
    SmallValue2(s);
    FilledValue2(s);
  }

  lemma Width3(s: Sample)
    requires Below(s, 3)
    ensures Signed(SignExtended(s, 3)) == if Negative(s, 3) then s as int - 0x100_0000 else s as int
  {
    hide SignExtended, Negative, Filled, LowOctets, Signed, Below;
    Extend(s, 3);
    Small3(s);
    SmallValue3(s);
    FilledValue3(s);
  }

  lemma SmallValue1(s: Sample)
    requires Below(s, 1)
    ensures Signed(s) == s as int
  {
  }

  lemma SmallValue2(s: Sample)
    requires Below(s, 2)
    ensures Signed(s) == s as int
  {
  }

  lemma SmallValue3(s: Sample)
    requires Below(s, 3)
    ensures Signed(s) == s as int
  {
  }

  lemma {:induction false} ReversedValue(bytes: seq<Byte>)
    ensures LittleEndianValue(Reversed(bytes)) == BigEndianValue(bytes)
    decreases |bytes|
  {
    if bytes != [] {
      var last := |bytes| - 1;
      assert bytes == bytes[..last] + [bytes[last]];
      ReversedSnoc(bytes[..last], bytes[last]);
      assert Reversed(bytes)[1..] == Reversed(bytes[..last]);
      ReversedValue(bytes[..last]);
    } else {
      assert Reversed(bytes) == [];
    }
  }

  /** A decoded sample is the number its bytes stand for, in every layout the reader accepts. */
  lemma DecodedValue(bytes: seq<Byte>, layout: Layout)
    requires Supported(layout) && |bytes| == layout.octets
    ensures Signed(Decoded(bytes, layout)) ==
      if layout.unsigned then bytes[0] as int - 128
      else TwosComplement(if layout.bigEndian then BigEndianValue(bytes) else LittleEndianValue(bytes), layout.octets)
  {
    hide Signed, Gathered, SignExtended, LittleEndianValue, BigEndianValue, TwosComplement, Reversed;
    if layout.unsigned {
      UnsignedByte(bytes[0]);
    } else if layout.bigEndian {
      ReversedValue(bytes);
      ExtendedValue(Reversed(bytes));
    } else {
      ExtendedValue(bytes);
    }
  }

  // ----------------------------------------------------------- numbers to bytes

  lemma {:induction false} SplitValue(bytes: seq<Byte>, k: nat)
    requires k <= |bytes| && k <= 4
    ensures LittleEndianValue(bytes) == LittleEndianValue(bytes[..k]) + PowerOf256(k) * LittleEndianValue(bytes[k..])
  {
    if k == 0 {
      assert bytes[0..] == bytes;
    } else {
      SplitValue(bytes[1..], k - 1);
      assert bytes[1..][..k - 1] == bytes[..k][1..] && bytes[1..][k - 1..] == bytes[k..];
    }
  }

  /** The bytes of a sample are the base-256 digits of its number, the last one carrying the sign. */
  lemma EncodedValue(s: Sample, octets: nat)
    requires 1 <= octets <= 4
    ensures LittleEndianValue(Encoded(s, octets)) == Signed(s) % PowerOf256(octets)
  {
    hide Encoded, LittleEndianValue, Gathered, Signed, TopBitSet, LowOctets;
    SignedBySign(s);
    assert LowOctets(s, 4) == s by { AllOctets(s); }
    var all := Encoded(s, 4);
    GatheredEncoded(s, 4);
    GatheredValue(all);
    SplitValue(all, octets);
    EncodedPrefix(s, octets);
    TopByte(Encoded(s, octets));
    Remainder(s as int, Signed(s), LittleEndianValue(all[..octets]), LittleEndianValue(all[octets..]), octets);
  }

  lemma AllOctets(s: Sample)
    ensures LowOctets(s, 4) == s
  {
  }

  lemma Remainder(word: nat, value: int, low: nat, high: nat, octets: nat)
    requires 1 <= octets <= 4 && low < PowerOf256(octets)
    requires word == low + PowerOf256(octets) * high && (value == word || value == word - PowerOf256(4))
    ensures value % PowerOf256(octets) == low
  {
    hide PowerOf256;
    var size, others := PowerOf256(octets), PowerOf256(4 - octets);
    assert PowerOf256(4) == size * others by { PowersOfWord(octets); }
    var quotient := if value == word then high else high - others;
    assert value == low + size * quotient by { Distributed(size, high, others); }
    Residue(low, quotient, size);
  }

  lemma PowersOfWord(octets: nat)
    requires octets <= 4
    ensures PowerOf256(4) == PowerOf256(octets) * PowerOf256(4 - octets)
  {
  }

  lemma Distributed(size: int, a: int, b: int)
    ensures size * (a - b) == size * a - size * b
  {
  }

  lemma Residue(low: nat, quotient: int, size: nat)
    requires low < size
    ensures (low + size * quotient) % size == low
  {
    var x := low + size * quotient;
    var gap := quotient - x / size;
    assert size * gap == x % size - low by { Distributed(size, quotient, x / size); }
    assert gap >= 1 ==> size * gap >= size;
    assert gap <= -1 ==> size * (gap + 1) <= 0;
  }

  lemma EncodedPrefix(s: Sample, octets: nat)
    requires 1 <= octets <= 4
    ensures Encoded(s, 4)[..octets] == Encoded(s, octets)
  {
    hide LowByte, ShiftRightSigned;
  }

  lemma {:induction false} SameDigits(a: seq<Byte>, b: seq<Byte>)
    requires |a| == |b| && LittleEndianValue(a) == LittleEndianValue(b)
    ensures a == b
  {
    if a != [] {
      Digits(a[0] as int, b[0] as int, LittleEndianValue(a[1..]), LittleEndianValue(b[1..]));
      SameDigits(a[1..], b[1..]);
      SameByte(a[0], b[0]);
      assert a == [a[0]] + a[1..] && b == [b[0]] + b[1..];
    }
  }

  lemma Digits(a: nat, b: nat, x: nat, y: nat)
    requires a < 256 && b < 256 && a + 256 * x == b + 256 * y
    ensures a == b && x == y
  {
  }

  lemma SameByte(a: Byte, b: Byte)
    requires a as int == b as int
    ensures a == b
  {
  }

  /** No two samples stand for the same number. */
  lemma SameNumber(x: Sample, y: Sample)
    requires Signed(x) == Signed(y)
    ensures x == y
  {
    hide Signed, Encoded, Gathered, LowOctets, LittleEndianValue;
    EncodedValue(x, 4);
    EncodedValue(y, 4);
    SameDigits(Encoded(x, 4), Encoded(y, 4));
    GatheredEncoded(x, 4);
    GatheredEncoded(y, 4);
    AllOctets(x);
    AllOctets(y);
  }

  /** What is left of a sample that was cut to its low octets and extended again. */
  lemma CutValue(s: Sample, octets: nat)
    requires 1 <= octets <= 4
    ensures Signed(SignExtended(s, octets)) == TwosComplement(Signed(s) % PowerOf256(octets), octets)
  {
    hide Signed, Encoded, Gathered, LowOctets, LittleEndianValue, SignExtended, PowerOf256, TwosComplement;
    ExtendedValue(Encoded(s, octets));
    GatheredEncoded(s, octets);
    HighDropped(s, octets);
    EncodedValue(s, octets);
  }

  /** The validator's range is the range of numbers that so many octets can hold. */
  lemma InRangeValue(s: Sample, octets: nat)
    requires 1 <= octets <= 4
    ensures InRange(s, octets) <==> 0 <= 2 * Signed(s) + PowerOf256(octets) < 2 * PowerOf256(octets)
  {
    hide Signed, SignExtended, InRange;
    ExtendedExactly(s, octets);
    CutValue(s, octets);
    if Signed(SignExtended(s, octets)) == Signed(s) {
      SameNumber(SignExtended(s, octets), s);
    }
  }

  // ------------------------------------------------------------- whole streams

  /** Sample number i comes from group number i of the bytes. */
  lemma {:induction false} DecodedAt(bytes: seq<Byte>, layout: Layout, count: nat, i: nat)
    requires Supported(layout) && |bytes| == count * layout.octets && i < count
    ensures 0 <= i * layout.octets <= (i + 1) * layout.octets <= |bytes|
    ensures DecodedAll(bytes, layout, count)[i] == Decoded(bytes[i * layout.octets..(i + 1) * layout.octets], layout)
    decreases count
  {
    hide Decoded, DecodedAll;
    Offsets(i, count, layout.octets);
    var last, from, upTo := |bytes| - layout.octets, i * layout.octets, (i + 1) * layout.octets;
    assert bytes == bytes[..last] + bytes[last..];
    DecodedSnoc(bytes[..last], bytes[last..], layout, count - 1);
    assert DecodedAll(bytes, layout, count) == DecodedAll(bytes[..last], layout, count - 1) + [Decoded(bytes[last..], layout)];
    if i == count - 1 {
      assert bytes[from..upTo] == bytes[last..];
    } else {
      DecodedAt(bytes[..last], layout, count - 1, i);
      assert bytes[..last][from..upTo] == bytes[from..upTo];
    }
  }

  lemma Offsets(i: nat, count: nat, octets: nat)
    requires i < count
    ensures 0 <= i * octets <= (i + 1) * octets <= count * octets
    ensures (i + 1) * octets == i * octets + octets && (count - 1) * octets == count * octets - octets
    ensures i < count - 1 ==> (i + 1) * octets <= (count - 1) * octets
  {
    TimesMonotone(i + 1, count, octets);
    TimesMonotone(i + 1, count - 1, octets);
  }

  /** The same bytes around zero instead of around the midpoint. */
  function Flipped(bytes: seq<Byte>): (r: seq<Byte>)
    ensures |r| == |bytes|
  {
    seq(|bytes|, i requires 0 <= i < |bytes| => bytes[i] ^ 0x80)
  }

  /** An unsigned byte is the signed byte with its top bit flipped, and stands for its distance from the midpoint. */
  lemma UnsignedSample(b: Byte, bigEndian: bool)
    ensures Signed(Decoded([b], Layout(1, bigEndian, true))) == b as int - 128
    ensures Decoded([b], Layout(1, bigEndian, true)) == Decoded([b ^ 0x80], LittleEndian(1))
  {
    hide Signed, SignExtended, Appended;
    DecodedValue([b], Layout(1, bigEndian, true));
    FlippedByte(b);
    GatheredFrom([b ^ 0x80], 0);
    assert [b ^ 0x80][0..] == [b ^ 0x80];
  }

  lemma DecodedByteAt(bytes: seq<Byte>, layout: Layout, i: nat)
    requires layout.octets == 1 && i < |bytes|
    ensures DecodedAll(bytes, layout, |bytes|)[i] == Decoded([bytes[i]], layout)
  {
    hide Decoded, DecodedAll;
    DecodedAt(bytes, layout, |bytes|, i);
    assert bytes[i * layout.octets..(i + 1) * layout.octets] == [bytes[i]];
  }

  /** An unsigned stream is the signed stream with all top bits flipped, whatever the byte order says. */
  lemma {:induction false} UnsignedStream(bytes: seq<Byte>, bigEndian: bool)
    ensures DecodedAll(bytes, Layout(1, bigEndian, true), |bytes|) == DecodedAll(Flipped(bytes), LittleEndian(1), |bytes|)
    ensures forall i :: 0 <= i < |bytes| ==>
      Signed(DecodedAll(bytes, Layout(1, bigEndian, true), |bytes|)[i]) == bytes[i] as int - 128
  {
    hide Decoded, DecodedAll, Signed;
    var n := |bytes|;
    forall i | 0 <= i < n
      ensures DecodedAll(bytes, Layout(1, bigEndian, true), n)[i] == DecodedAll(Flipped(bytes), LittleEndian(1), n)[i]
      ensures Signed(DecodedAll(bytes, Layout(1, bigEndian, true), n)[i]) == bytes[i] as int - 128
    {
      DecodedByteAt(bytes, Layout(1, bigEndian, true), i);
      DecodedByteAt(Flipped(bytes), LittleEndian(1), i);
      UnsignedSample(bytes[i], bigEndian);
    }
  }
}
