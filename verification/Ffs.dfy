/** Find-first-set on signed integers of any width, by shifting. */
module Ffs {
  import opened Bits

  /** 2^k divides `v`, and 2^(k+1) does not. */
  ghost predicate LowestSet(v: int, k: nat) {
    exists odd: int :: odd % 2 == 1 && v == odd * Pow2(k)
  }

  lemma {:induction false} Pow2Grows(a: nat, b: nat)
    requires a < b
    ensures 2 * Pow2(a) <= Pow2(b)
    decreases b
  {
    if a < b - 1 { Pow2Grows(a, b - 1); }
  }

  lemma {:induction false} LowestSetHalves(v: int, k: nat)
    requires k > 0 && LowestSet(v, k)
    ensures v % 2 == 0 && LowestSet(v / 2, k - 1)
  {
    var odd :| odd % 2 == 1 && v == odd * Pow2(k);
    HalfProduct(odd, Pow2(k - 1));
    assert v == 2 * (odd * Pow2(k - 1));
    assert v / 2 == odd * Pow2(k - 1);
  }

  lemma HalfProduct(a: int, p: int)
    ensures a * (2 * p) == 2 * (a * p)
  {
  }

  /** There is one such position only, so the result does not depend on the width at which it was
      computed. */
  lemma {:induction false} LowestSetUnique(v: int, j: nat, k: nat)
    requires LowestSet(v, j) && LowestSet(v, k)
    ensures j == k
    decreases j
  {
    if j > 0 && k > 0 {
      LowestSetHalves(v, j);
      LowestSetHalves(v, k);
      LowestSetUnique(v / 2, j - 1, k - 1);
    } else if j > 0 {
      LowestSetHalves(v, j);
    } else if k > 0 {
      LowestSetHalves(v, k);
    }
  }

  /** Reading a word of `width` bits as a signed number keeps the position, so unsigned arguments
      are counted right as well. */
  lemma SignedReadingKeepsPosition(v: int, k: nat, width: nat)
    requires LowestSet(v, k) && k < width
    ensures LowestSet(v + Pow2(width), k)
  {
    var odd :| odd % 2 == 1 && v == odd * Pow2(k);
    var rest := Pow2(width - k);
    Pow2Splits(k, width);
    assert v + Pow2(width) == (odd + rest) * Pow2(k) by { Distribute(odd + rest, rest, Pow2(k)); }
    assert (odd + rest) % 2 == 1;
  }

  lemma Distribute(a: int, b: int, c: int)
    ensures (a - b) * c == a * c - b * c
  {
  }

  lemma {:induction false} Pow2Splits(k: nat, width: nat)
    requires k <= width
    ensures Pow2(width) == Pow2(width - k) * Pow2(k)
  {
    if k > 0 {
      Pow2Splits(k - 1, width);
      HalfProduct(Pow2(width - k), Pow2(k - 1));
    }
  }

  predicate FitsSigned(value: int, width: nat) {
    width > 0 && 0 - Pow2(width - 1) <= value < Pow2(width - 1)
  }

  /** The loop of __ffs8, __ffs16, __ffs32 and __ffs64. It ends within the width, on negative
      values too, where the shift keeps the sign. */
  method FindFirstSet(value: int, width: nat) returns (result: nat)
    requires FitsSigned(value, width)
    ensures value == 0 ==> result == 0
    ensures value != 0 ==> 1 <= result <= width && LowestSet(value, result - 1)
  {
    if value == 0 { return 0; }
    var i := value;
    result := 1;
    while i % 2 == 0
      invariant i != 0 && result >= 1 && value == i * Pow2(result - 1)
      decreases if i < 0 then -i else i
    {
      HalfProduct(i / 2, Pow2(result - 1));
      i := i / 2;
      result := result + 1;
    }
    assert LowestSet(value, result - 1);
    WithinWidth(value, i, result - 1, width);
  }

  lemma WithinWidth(value: int, i: int, k: nat, width: nat)
    requires FitsSigned(value, width) && i != 0 && value == i * Pow2(k)
    ensures k < width
  {
    AwayFromZero(i, Pow2(k));
    if k >= width { Pow2Grows(width - 1, k); }
  }

  lemma {:induction false} AwayFromZero(i: int, p: nat)
    ensures i > 0 ==> i * p >= p
    ensures i < 0 ==> i * p <= 0 - p
    decreases if i < 0 then -i else i
  {
    if i > 1 {
      AwayFromZero(i - 1, p);
      Distribute(i, 1, p);
    } else if i < -1 {
      AwayFromZero(i + 1, p);
      Distribute(i + 1, 1, p);
    }
  }

  /** A value of a signed or of an unsigned type */
  predicate FitsEither(value: int, width: nat) {
    width > 0 && 0 - Pow2(width - 1) <= value < Pow2(width)
  }

  /** The cast to the signed type of the width */
  function AsSigned(value: int, width: nat): int
    requires width > 0
  {
    if value < Pow2(width - 1) then value else value - Pow2(width)
  }

  /** A call of the function for a width, on an argument of that width, signed or not */
  method FfsOf(value: int, width: nat) returns (result: nat)
    requires FitsEither(value, width)
    ensures value == 0 <==> result == 0
    ensures value != 0 ==> result <= width && LowestSet(value, result - 1)
  {
    var signed := AsSigned(value, width);
    result := FindFirstSet(signed, width);
    if signed != value { SignedReadingKeepsPosition(signed, result - 1, width); }
  }

  /** The ffs macro: the size of the argument picks the width. The argument is cast to the signed
      type of its size, which keeps the position of the bit. */
  method FfsMacro(value: int, size: nat) returns (result: nat)
    requires size in {1, 2, 4, 8} && FitsEither(value, 8 * size)
    ensures value == 0 <==> result == 0
    ensures value != 0 ==> result <= 8 * size && LowestSet(value, result - 1)
  {
    if size == 4 {
      result := FfsOf(value, 32);
    } else if size == 8 {
      result := FfsOf(value, 64);
    } else if size == 2 {
      result := FfsOf(value, 16);
    } else {
      result := FfsOf(value, 8);
    }
  }
}
