/** Error codes in pointers: the last page of the address space but its first address. */
module ErrorPointers {
  const WORD32 := 0x1_0000_0000
  const WORD64 := 0x1_0000_0000_0000_0000
  const PAGE := 4096

  /** The two preprocessor checks on the largest error code and the 32-bit threshold */
  predicate GuardsPass(emax: nat, threshold: nat) {
    (0 - emax) % WORD32 >= threshold && (0 - (PAGE - 1)) % WORD32 <= threshold
  }

  /** E_ISERR and E_ISOK on a pointer of 32 or of 64 bits */
  predicate IsErr(x: nat, threshold: nat) { x >= threshold }
  predicate IsOk(x: nat, threshold: nat) { x < threshold }

  /** E_PTR of a negated code, and E_GTERR */
  function PtrOf(e: int, word: nat): nat
    requires word > 0
  {
    (0 - e) % word
  }

  function ToInt(x: int): int {
    var low := x % WORD32;
    if low < WORD32 / 2 then low else low - WORD32
  }

  /** The 64-bit threshold: the 32-bit one with its sign extended */
  function Extended(threshold: nat): nat {
    threshold + (WORD64 - WORD32)
  }

  /** Every code is an error, and no page-aligned pointer is. */
  ghost predicate Classifies(emax: nat, threshold: nat, word: nat)
    requires word > 0
  {
    && (forall e :: 1 <= e <= emax ==> IsErr(PtrOf(e, word), threshold))
    && (forall x: nat :: x < word && x % PAGE == 0 ==> IsOk(x, threshold))
  }

  /** The checks, which are made with 32 bits, pass exactly when the threshold classifies pointers
      of 32 bits right, and exactly when its extension does so with 64. */
  lemma GuardsAreExact(emax: nat, threshold: nat)
    requires 1 <= emax < WORD32 && threshold < WORD32
    ensures GuardsPass(emax, threshold) <==> Classifies(emax, threshold, WORD32)
    ensures GuardsPass(emax, threshold) <==> Classifies(emax, Extended(threshold), WORD64)
  {
    GuardsAreBounds(emax, threshold);
    ClassifiesExactly(emax, threshold, WORD32);
    ClassifiesExactly(emax, Extended(threshold), WORD64);
  }

  lemma GuardsAreBounds(emax: nat, threshold: nat)
    requires 1 <= emax < WORD32
    ensures GuardsPass(emax, threshold) <==> WORD32 - PAGE < threshold <= WORD32 - emax
  {
    assert (0 - (PAGE - 1)) % WORD32 == WORD32 - (PAGE - 1);
    assert (0 - emax) % WORD32 == WORD32 - emax;
  }

  /** The extremes decide: the largest code and the last page. */
  lemma ClassifiesExactly(emax: nat, threshold: nat, word: nat)
    requires 1 <= emax < WORD32 && (word == WORD32 || word == WORD64)
    ensures Classifies(emax, threshold, word) <==> word - PAGE < threshold <= word - emax
  {
    forall e | 1 <= e <= emax ensures PtrOf(e, word) == word - e {}
    var last := word - PAGE;
    assert last % PAGE == 0 && last < word;
    forall x: nat | x < word && x % PAGE == 0 ensures x <= last {}
    if Classifies(emax, threshold, word) {
      assert IsErr(PtrOf(emax, word), threshold) && IsOk(last, threshold);
    }
  }

  /** Then every code comes back from its pointer, at both widths, which classify alike. */
  lemma CodesRoundTrip(emax: nat, threshold: nat, e: int)
    requires 1 <= emax < WORD32 && threshold < WORD32 && GuardsPass(emax, threshold) && 1 <= e <= emax
    ensures PtrOf(e, WORD32) == 0x1_0000_0000 - e && PtrOf(e, WORD64) == 0x1_0000_0000_0000_0000 - e
    ensures ToInt(PtrOf(e, WORD32)) == -e && ToInt(PtrOf(e, WORD64)) == -e
    ensures IsErr(PtrOf(e, WORD32), threshold) && IsErr(PtrOf(e, WORD64), Extended(threshold))
  {
    GuardsAreBounds(emax, threshold);
    LowWord(e);
  }

  lemma LowWord(e: int)
    requires 1 <= e <= PAGE
    ensures PtrOf(e, WORD32) == WORD32 - e && PtrOf(e, WORD64) == WORD64 - e
    ensures ToInt(WORD32 - e) == -e && ToInt(WORD64 - e) == -e
  {
  }

  /** E_GTERR gives the one number of 32 bits, with its sign, that the pointer ends in. */
  lemma ToIntExactly(x: int)
    ensures -0x8000_0000 <= ToInt(x) < 0x8000_0000 && (x - ToInt(x)) % 0x1_0000_0000 == 0
  {
  }

  /** Every pointer is an error or is not, and the errors are those from the threshold on. */
  lemma PointersPartition(x: nat, threshold: nat)
    ensures IsErr(x, threshold) <==> !IsOk(x, threshold)
    ensures IsErr(x, threshold) <==> threshold <= x
  {
  }

  /** The header's own constants pass. They make errors of exactly the pointers of the codes from 1
      to 1024, with 32 and with 64 bits. */
  lemma HeaderConstantsPass(x: nat)
    ensures GuardsPass(502, 0xffff_fc00) && Extended(0xffff_fc00) == 0xffff_ffff_ffff_fc00
    ensures x < 0x1_0000_0000 ==> (IsErr(x, 0xffff_fc00) <==> 1 <= 0x1_0000_0000 - x <= 1024)
    ensures x < 0x1_0000_0000_0000_0000 ==>
              (IsErr(x, 0xffff_ffff_ffff_fc00) <==> 1 <= 0x1_0000_0000_0000_0000 - x <= 1024)
  {
  }
}
