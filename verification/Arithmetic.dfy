/** The machine limits and the arithmetic facts that several modules share. */
module Arithmetic {
  const INT_MAX := 0x7fff_ffff
  const LONG_MAX := 0x7fff_ffff_ffff_ffff

  function Min(a: int, b: int): int {
    if a <= b then a else b
  }

  lemma TimesMonotone(a: nat, b: nat, c: nat)
    ensures a <= b ==> a * c <= b * c
  {
    assert b * c - a * c == (b - a) * c;
  }

  lemma ProductSum(m: nat, n: nat, k: nat)
    ensures (m + n) * k == m * k + n * k
  {
  }

  /** A multiple divides without remainder. */
  lemma MultipleIsWhole(count: int, size: int)
    requires size > 0
    ensures count * size % size == 0 && count * size / size == count
  {
    var product := count * size;
    assert product == product / size * size + product % size;
    var gap := count - product / size;
    assert gap * size == product % size;
    assert gap >= 1 ==> gap * size >= size;
    assert gap <= -1 ==> (gap + 1) * size <= 0;
  }

  /** The difference of two multiples is one. */
  lemma LessWhole(a: int, b: int, size: int)
    requires size > 0 && a % size == 0 && b % size == 0
    ensures (a - b) % size == 0
  {
    MultipleIsWhole(a / size - b / size, size);
    assert a == a / size * size && b == b / size * size;
    assert (a / size - b / size) * size == a / size * size - b / size * size;
  }

  /** No multiple lies strictly between two neighbouring ones. */
  lemma NothingBetween(count: int, a: int, size: int)
    requires size > 0 && count * size < a < count * size + size
    ensures a % size != 0
  {
    MultipleIsWhole(count, size);
    if a % size == 0 {
      LessWhole(a, count * size, size);
    }
  }
}
