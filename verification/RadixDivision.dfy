/**
 * Division of a two-word number by the decimal radix 10^19 with a precomputed reciprocal
 * (Granlund and Montgomery, "Division by Invariant Integers using Multiplication", section 8),
 * as it is inlined in the multiplication loops.
 */
module RadixDivision {
  import opened Words

  const RADIX := 10_000_000_000_000_000_000
  const RECIPROCAL := 15_581_492_618_384_294_730

  /** The reciprocal is floor((2^128 - 1) / RADIX) - 2^64. */
  lemma ReciprocalOfRadix()
    ensures RECIPROCAL == (FULL * FULL - 1) / RADIX - FULL
    ensures 0 < FULL * FULL - (RECIPROCAL + FULL) * RADIX <= RADIX
  {
  }

  /** The quotient estimate of the method, written without any wrapping. */
  ghost function Estimate(hi: Word, lo: Word): int {
    var b := if lo >= SIGN then 1 else 0;
    hi + (RECIPROCAL * (hi + b) + lo + b * (RADIX - FULL)) / FULL
  }

  /** The estimate is the quotient or one less than it. */
  lemma EstimateIsClose(hi: Word, lo: Word)
    requires hi < RADIX
    ensures 0 <= hi * FULL + lo - Estimate(hi, lo) * RADIX < 2 * RADIX
    ensures 0 <= Estimate(hi, lo) < FULL
  {
  }

  /** The high word of the product is the part of the estimate above `hi`; adding `hi` does not wrap. */
  lemma HighWordGivesEstimate(hi: Word, lo: Word, h: Word, l: Word)
    requires hi < RADIX
    requires h * FULL + l ==
             RECIPROCAL * (hi + if lo >= SIGN then 1 else 0) + lo + if lo >= SIGN then RADIX - FULL else 0
    ensures Add(h, hi) == Estimate(hi, lo)
  {
    EstimateIsClose(hi, lo);
  }

  /**
   * Multiplying the complement of the estimate by the radix and adding the dividend gives, modulo 2^128 and
   * after subtracting the radix from the high word, the dividend less (estimate + 1) radices. Its high word is
   * then a mask: all ones when that difference is negative, zero otherwise.
   */
  lemma MaskSelectsQuotient(hi: Word, lo: Word, est: Word, h: Word, l: Word)
    requires hi < RADIX
    requires 0 <= hi * FULL + lo - est * RADIX < 2 * RADIX
    requires h * FULL + l == (ALL_ONES - est) * RADIX + lo
    ensures var mask := Sub(Add(h, hi), RADIX);
            var q := Sub(mask, ALL_ONES - est);
            && (mask == 0 || mask == ALL_ONES)
            && (mask == 0 ==> hi * FULL + lo == q * RADIX + l && l < RADIX)
            && (mask == ALL_ONES ==> hi * FULL + lo == q * RADIX + Add(l, RADIX) && Add(l, RADIX) < RADIX)
  {
    assert (h + hi - RADIX) * FULL + l == hi * FULL + lo - (est + 1) * RADIX;
    assert h + hi - RADIX == 0 || h + hi - RADIX == -1;
  }

  /** All ones when the sign bit of the word is set, zero otherwise. */
  method SignMask(lo: Word) returns (mask: Word)
    ensures mask == if lo >= SIGN then ALL_ONES else 0
  {
    SignBit(lo);
    mask := if BitAnd(lo, SIGN) != 0 then ALL_ONES else 0;
  }

  /** `a + mask & RADIX` for a mask of all ones or all zeros. */
  method AddRadixUnder(a: Word, mask: Word) returns (r: Word)
    requires mask == 0 || mask == ALL_ONES
    ensures r == if mask == 0 then a else Add(a, RADIX)
  {
    AndMask(mask, RADIX);
    r := Add(a, BitAnd(mask, RADIX));
  }

  /** The first half of the sequence: the quotient estimate. */
  method EstimateQuotient(hi: Word, lo: Word) returns (est: Word)
    requires hi < RADIX
    ensures est == Estimate(hi, lo)
  {
    var n1neg := SignMask(lo);
    var nAdj := AddRadixUnder(lo, n1neg);
    var h, l := MulWords(RECIPROCAL, Sub(hi, n1neg));
    h, l := AddCarry(nAdj, h, l);
    HighWordGivesEstimate(hi, lo, h, l);
    est := Add(h, hi);
  }

  /** The second half: from the estimate to quotient and remainder. */
  method FromEstimate(hi: Word, lo: Word, est: Word) returns (q: Word, r: Word)
    requires hi < RADIX && 0 <= hi * FULL + lo - est * RADIX < 2 * RADIX
    ensures hi * FULL + lo == q * RADIX + r && r < RADIX
  {
    var t := Sub(ALL_ONES, est);
    assert t == ALL_ONES - est;
    var h, l := MulWords(t, RADIX);
    h, l := AddCarry(lo, h, l);
    MaskSelectsQuotient(hi, lo, est, h, l);
    h := Add(h, hi);
    h := Sub(h, RADIX);
    q := Sub(h, t);
    r := AddRadixUnder(l, h);
  }

  /** Quotient and remainder of `hi * 2^64 + lo` by the radix. */
  method DivByRadix(hi: Word, lo: Word) returns (q: Word, r: Word)
    requires hi < RADIX
    ensures hi * FULL + lo == q * RADIX + r && r < RADIX
  {
    EstimateIsClose(hi, lo);
    var est := EstimateQuotient(hi, lo);
    hide Estimate;
    q, r := FromEstimate(hi, lo, est);
  }
}
