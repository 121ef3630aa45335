/** Powers of two, and C's single-bit operations on unsigned words, bit by bit. */
module Bits {

  function Pow2(n: nat): (p: nat)
    ensures p >= 1
  {
    if n == 0 then 1 else 2 * Pow2(n - 1)
  }

  /** `x & ~(1 << k)` */
  function ClearBit(x: nat, k: nat): nat {
    if k == 0 then x - x % 2 else 2 * ClearBit(x / 2, k - 1) + x % 2
  }

  /** `x | (1 << k)` */
  function SetBit(x: nat, k: nat): nat {
    if k == 0 then x - x % 2 + 1 else 2 * SetBit(x / 2, k - 1) + x % 2
  }

  /** `x | ((1 << k) - 1)` */
  function FillLow(x: nat, k: nat): nat {
    if k == 0 then x else 2 * FillLow(x / 2, k - 1) + 1
  }

  /** Bit number `k` is the lowest bit set in `x`. */
  predicate LowestBit(x: nat, k: nat) {
    if k == 0 then x % 2 == 1 else x % 2 == 0 && LowestBit(x / 2, k - 1)
  }

  lemma {:induction false} LowestBitOps(x: nat, k: nat)
    requires LowestBit(x, k)
    ensures x >= Pow2(k)
    ensures ClearBit(x, k) == x - Pow2(k)
    ensures FillLow(x, k) == x + Pow2(k) - 1
  {
    if k > 0 { LowestBitOps(x / 2, k - 1); }
  }

  /** The bits below number `n` are clear. */
  predicate LowClear(x: nat, n: nat) {
    n > 0 ==> x % 2 == 0 && LowClear(x / 2, n - 1)
  }

  lemma {:induction false} LowestBitClear(x: nat, k: nat)
    requires LowestBit(x, k)
    ensures LowClear(x, k) && LowClear(ClearBit(x, k), k)
  {
    if k > 0 {
      LowestBitClear(x / 2, k - 1);
      assert ClearBit(x, k) / 2 == ClearBit(x / 2, k - 1);
    }
  }

  lemma {:induction false} SetBitAbove(x: nat, k: nat)
    requires LowClear(x, k + 1)
    ensures SetBit(x, k) == x + Pow2(k) && LowestBit(x + Pow2(k), k)
  {
    if k > 0 {
      SetBitAbove(x / 2, k - 1);
      assert (x + Pow2(k)) / 2 == x / 2 + Pow2(k - 1);
    }
  }
}
