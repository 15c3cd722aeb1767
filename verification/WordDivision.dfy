/**
 * Division of a two-word number by a word (Knuth, TAOCP volume 2, section 4.3.1, algorithm D in base 2^32
 * with two quotient digits), as it is inlined in the short divisions.
 */
module WordDivision {
  import opened Words

  // ----- normalisation -----

  /** Number of leading zero bits; 64 for zero. */
  method LeadingZeros(v: Word) returns (s: nat)
    ensures v == 0 ==> s == 64
    ensures v != 0 ==> s < 64 && SIGN <= v * Pow2(s) < FULL
  {
    if v == 0 {
      return 64;
    }
    var x, n := v, 0;
    x, n := ShiftIfSmall(v, x, n, 32, 0xFFFF_FFFF);
    x, n := ShiftIfSmall(v, x, n, 16, 0xFFFF_FFFF_FFFF);
    x, n := ShiftIfSmall(v, x, n, 8, 0xFF_FFFF_FFFF_FFFF);
    x, n := ShiftIfSmall(v, x, n, 4, 0xFFF_FFFF_FFFF_FFFF);
    x, n := ShiftIfSmall(v, x, n, 2, 0x3FFF_FFFF_FFFF_FFFF);
    if x <= 0x7FFF_FFFF_FFFF_FFFF {
      Doubled(v, n);
      n := n + 1;
    }
    s := n;
  }

  /** The powers of two by which the search for the leading one shifts. */
  function ShiftFactor(k: nat): nat {
    match k
    case 2 => 4
    case 4 => 0x10
    case 8 => 0x100
    case 16 => 0x1_0000
    case _ => 0x1_0000_0000
  }

  lemma ShiftFactors(k: nat)
    requires k in {2, 4, 8, 16, 32}
    ensures Pow2(k) == ShiftFactor(k)
  {
    assert Pow2(2) == 4 && Pow2(4) == 0x10 && Pow2(8) == 0x100;
    Pow2Splits(8, 8);
    Pow2Splits(16, 16);
  }

  lemma Doubled(v: nat, n: nat)
    ensures v * Pow2(n + 1) == 2 * (v * Pow2(n))
  {
  }

  /** A shift that pushes no bit out multiplies. */
  lemma ShiftWithin(v: Word, x: Word, n: nat, k: nat, c: nat)
    requires c == Pow2(k) && x == v * Pow2(n) && c * x < FULL
    ensures Shl(x, k) == x * c == v * Pow2(n + k)
  {
    Pow2Splits(n, k);
    hide Pow2;
    MulAssociates(v, Pow2(n), Pow2(k));
    MulMonotone(c, 0, x);
    SmallMod(x * c, FULL);
  }

  /** One stage of the search: shift by k places when the k top bits are clear. */
  method ShiftIfSmall(ghost v: Word, x: Word, n: nat, k: nat, limit: Word) returns (x': Word, n': nat)
    requires k in {2, 4, 8, 16, 32} && (limit + 1) * ShiftFactor(k) == FULL
    requires x == v * Pow2(n)
    requires x * ShiftFactor(k) > limit
    ensures x' == v * Pow2(n') && x' > limit && n <= n' <= n + k
  {
    x', n' := x, n;
    if x <= limit {
      ShiftFactors(k);
      MulMonotone(ShiftFactor(k), x, limit);
      ShiftWithin(v, x, n, k, ShiftFactor(k));
      MulMonotone(x, 1, ShiftFactor(k));
      x', n' := Shl(x, k), n + k;
    }
  }

  // ----- one quotient digit -----

  /** q is the quotient of n by d. */
  predicate IsQuotient(q: nat, n: nat, d: nat) {
    q * d <= n < (q + 1) * d
  }

  /** The invariant of a correction loop: the estimate is not below the digit and its remainder is exact. */
  ghost predicate Trial(u: Word, un: Half, v: Word, q: int, rhat: int) {
    && u == q * High(v) + rhat
    && u * HALF + un < (q + 1) * v
  }

  /** The estimate q exceeds the digit. */
  predicate TooLarge(u: Word, un: Half, v: Word, q: int) {
    q * v > u * HALF + un
  }

  /** The first estimate, made from the high half of the divisor, is at most two too large. */
  lemma FirstEstimate(u: Word, un: Half, v: Word)
    requires SIGN <= v && u < v
    ensures var q, rhat := u / High(v), u % High(v);
            Trial(u, un, v, q, rhat) && q <= HALF + 1
  {
    var v1, v0 := High(v), Low(v);
    var q, rhat := u / v1, u % v1;
    DivModDefinition(u, v1);
    SplitProduct(q + 1, v);
    StepOfProduct(q, v1);
    MulMonotone(q + 1, 0, v0);
    EstimateBound(u, v1, v0, q);
  }

  lemma EstimateBound(u: nat, v1: nat, v0: nat, q: nat)
    requires u < v1 * HALF + v0 && v0 < HALF <= 2 * v1
    requires q * v1 <= u
    ensures q <= HALF + 1
  {
    if q >= HALF + 2 {
      MulMonotone(v1, HALF + 2, q);
    }
  }

  /** The test of the loop multiplies without overflow ... */
  lemma TestDoesNotWrap(un: Half, v: Word, q: Half, rhat: Half)
    ensures Mul(q, Low(v)) == q * Low(v) && Add(Mul(HALF, rhat), un) == HALF * rhat + un
  {
    HalfProduct(q, Low(v));
  }

  /** ... and says exactly that the estimate is too large. */
  lemma TestIsExact(u: Word, un: Half, v: Word, q: int, rhat: int)
    requires Trial(u, un, v, q, rhat)
    ensures q * Low(v) > HALF * rhat + un <==> TooLarge(u, un, v, q)
  {
    SplitProduct(q, v);
  }

  lemma SplitProduct(q: int, v: Word)
    ensures q * v == q * High(v) * HALF + q * Low(v)
  {
    assert q * v == q * (High(v) * HALF + Low(v));
  }

  /** Once the partial remainder has outgrown a half, the estimate cannot be too large. */
  lemma LargeRemainderSettles(u: Word, un: Half, v: Word, q: nat, rhat: nat)
    requires Trial(u, un, v, q, rhat)
    requires q <= HALF && rhat >= HALF
    ensures !TooLarge(u, un, v, q)
  {
    MulMonotone(Low(v), q, HALF);
    TestIsExact(u, un, v, q, rhat);
  }

  lemma TooLargeStepsDown(u: Word, un: Half, v: Word, q: nat, rhat: nat)
    requires Trial(u, un, v, q, rhat)
    requires TooLarge(u, un, v, q)
    ensures q > 0 && Trial(u, un, v, q - 1, rhat + High(v))
  {
    StepOfProduct(q - 1, High(v));
  }

  /** A quotient digit is less than 2^32: an estimate beyond that is too large. */
  lemma DigitFits(u: Word, un: Half, v: Word, q: nat)
    requires u < v
    ensures q >= HALF ==> TooLarge(u, un, v, q)
  {
    if q >= HALF {
      MulMonotone(v, HALF, q);
    }
  }

  /** The loop's test, short-circuited as in the code so that the product cannot overflow. */
  method TestDigit(ghost u: Word, un: Half, ghost v: Word, q: Word, rhat: Half, vn0: Half) returns (tooLarge: bool)
    requires u < v && vn0 == Low(v) && Trial(u, un, v, q, rhat)
    ensures tooLarge <==> TooLarge(u, un, v, q)
  {
    DigitFits(u, un, v, q);
    if q < HALF {
      TestDoesNotWrap(un, v, q, rhat);
      TestIsExact(u, un, v, q, rhat);
    }
    tooLarge := q >= HALF || Mul(q, vn0) > Add(Mul(HALF, rhat), un);
  }

  /** The estimate and its remainder are computed without wrapping. */
  lemma EstimateDoesNotWrap(u: Word, v1: Half)
    requires v1 > 0
    ensures 0 <= u / v1 < FULL && Sub(u, Mul(u / v1, v1)) == u % v1 < v1
  {
    DivModDefinition(u, v1);
    DivShrinks(u, v1);
  }

  /** The first estimate of a digit and its remainder. */
  method EstimateDigit(u: Word, un: Half, v: Word, vn1: Half) returns (q: Word, rhat: Half)
    requires SIGN <= v && u < v && vn1 == High(v)
    ensures Trial(u, un, v, q, rhat) && q <= HALF + 1
  {
    FirstEstimate(u, un, v);
    EstimateDoesNotWrap(u, vn1);
    q := u / vn1;
    rhat := Sub(u, Mul(q, vn1));
  }

  lemma NotTooLarge(u: Word, un: Half, v: Word, q: nat, rhat: nat)
    requires Trial(u, un, v, q, rhat) && u < v && !TooLarge(u, un, v, q)
    ensures IsQuotient(q, u * HALF + un, v) && q < HALF
  {
    DigitFits(u, un, v, q);
  }

  lemma StepDoesNotWrap(q: Word, rhat: Half, v: Word)
    requires q > 0 && SIGN <= v
    ensures Sub(q, 1) == q - 1 && Add(rhat, High(v)) == rhat + High(v) && HALF / 2 <= High(v)
  {
    SmallMod(q - 1, FULL);
    SmallMod(rhat + High(v), FULL);
  }

  /** One correction: the estimate steps down, and is right if the partial remainder has outgrown a half. */
  method StepDown(ghost u: Word, ghost un: Half, ghost v: Word, q: Word, rhat: Half, vn1: Half)
    returns (q': Word, rhat': Word)
    requires Trial(u, un, v, q, rhat) && TooLarge(u, un, v, q) && q <= HALF + 1
    requires SIGN <= v && u < v && vn1 == High(v)
    ensures q' == q - 1 && rhat + HALF / 2 <= rhat' && Trial(u, un, v, q', rhat')
    ensures rhat' >= HALF ==> !TooLarge(u, un, v, q')
  {
    TooLargeStepsDown(u, un, v, q, rhat);
    StepDoesNotWrap(q, rhat, v);
    hide Trial, TooLarge, Sub, Add, High;
    q' := Sub(q, 1);
    rhat' := Add(rhat, vn1);
    if rhat' >= HALF {
      LargeRemainderSettles(u, un, v, q', rhat');
    }
  }

  /**
   * The quotient digit of `u * 2^32 + un` by `v`: an estimate from the high halves, then a correction loop,
   * which runs at most twice.
   */
  method QuotientDigit(u: Word, un: Half, v: Word) returns (q: Word, ghost corrections: nat)
    requires SIGN <= v && u < v
    ensures IsQuotient(q, u * HALF + un, v) && q < HALF
    ensures corrections <= 2
  {
    hide Trial, TooLarge, IsQuotient, High, Low;
    var vn1, vn0 := High(v), Low(v);
    var rhat: Word;
    q, rhat := EstimateDigit(u, un, v, vn1);
    corrections := 0;
    while true
      invariant Trial(u, un, v, q, rhat) && q <= HALF + 1 - corrections
      invariant corrections <= 1 && (corrections == 1 ==> HALF / 2 <= rhat) && rhat < HALF
      decreases 2 - corrections
    {
      var tooLarge := TestDigit(u, un, v, q, rhat, vn0);
      if !tooLarge {
        break;
      }
      q, rhat := StepDown(u, un, v, q, rhat, vn1);
      corrections := corrections + 1;
      if !(rhat < HALF) {
        break;
      }
    }
    NotTooLarge(u, un, v, q, rhat);
  }

  // ----- the whole division -----

  /** The high bits of the low word move into the high word. */
  lemma TopBits(lo: Word, s: nat)
    requires s < 64
    ensures var t := if s == 0 then 0 else Shr(lo, 64 - s);
            t < Pow2(s) && lo * Pow2(s) == t * FULL + Shl(lo, s)
  {
    Pow2Of63();
    Pow2Splits(s, 64 - s);
    var p, q := Pow2(s), Pow2(64 - s);
    if s == 0 {
    } else {
      DivModDefinition(lo, q);
      ScaledSplit(lo, lo / q, lo % q, p, q);
    }
  }

  lemma ScaledSplit(lo: Word, t: nat, rest: nat, p: nat, q: nat)
    requires p * q == FULL && p > 0
    requires lo == t * q + rest && rest < q
    ensures lo * p == t * FULL + rest * p && rest * p == (lo * p) % FULL
    ensures t < p
  {
    calc {
      lo * p;
      (t * q + rest) * p;
      t * q * p + rest * p;
      { MulAssociates(t, q, p); }
      t * (q * p) + rest * p;
    }
    MulMonotone(p, rest, q - 1);
    assert rest * p < FULL;
    MulMonotone(p, 0, rest);
    DivModUnique(lo * p, FULL, t, rest * p);
    if t >= p {
      MulMonotone(q, p, t);
    }
  }

  /** Shifting dividend and divisor alike keeps the dividend in two words and its high word below the divisor. */
  lemma NormalisedDividend(hi: Word, lo: Word, v: Word, s: nat)
    requires hi < v && s < 64 && v * Pow2(s) < FULL
    ensures var t := if s == 0 then 0 else Shr(lo, 64 - s);
            var u := BitOr(Shl(hi, s), t);
            u < v * Pow2(s) && u * FULL + Shl(lo, s) == (hi * FULL + lo) * Pow2(s)
  {
    TopBits(lo, s);
    var t := if s == 0 then 0 else Shr(lo, 64 - s);
    ScaledDividend(hi, lo, v, Pow2(s), t, Shl(lo, s));
    OrIsAddWhenDisjoint(hi, t, s);
  }

  lemma ScaledDividend(hi: Word, lo: Word, v: Word, p: nat, t: nat, rest: nat)
    requires hi < v && v * p < FULL && t < p
    requires lo * p == t * FULL + rest
    ensures (hi * p) % FULL == hi * p && hi * p + t < v * p
    ensures (hi * p + t) * FULL + rest == (hi * FULL + lo) * p
  {
    MulMonotone(p, hi + 1, v);
    StepOfProduct(hi, p);
    MulMonotone(p, 0, hi);
    assert (hi * FULL + lo) * p == hi * p * FULL + lo * p;
  }

  /** The partial remainder is computed by wrapping operations; it is the true one, and below the divisor. */
  lemma PartialRemainder(u: Word, un: Half, v: Word, q: Word)
    requires IsQuotient(q, u * HALF + un, v)
    ensures var r := Sub(Add(Mul(u, HALF), un), Mul(q, v));
            r == u * HALF + un - q * v && r < v
  {
    StepOfProduct(q, v);
    WrappedDifference(u * HALF, un, q * v);
  }

  lemma WrappedDifference(a: nat, b: Word, c: nat)
    requires 0 <= a + b - c < FULL
    ensures Sub(Add(a % FULL, b), c % FULL) == a + b - c
  {
    var x, y := a / FULL, c / FULL;
    assert a % FULL == a - FULL * x && c % FULL == c - FULL * y;
    var z := (a % FULL + b) / FULL;
    assert Add(a % FULL, b) == a + b - FULL * (x + z);
    assert Add(a % FULL, b) - c % FULL == (a + b - c) + FULL * (y - x - z);
  }

  /** Two exact digit steps make an exact division; removing the common shift leaves the remainder. */
  lemma DigitsMakeQuotient(n: nat, u: Word, un10: Word, v: Word, vs: Word, p: nat,
                                             q1: Half, r1: Word, q0: Half, r0: Word)
    requires p > 0 && vs == v * p && n * p == u * FULL + un10
    requires r1 == u * HALF + High(un10) - q1 * vs
    requires r0 == r1 * HALF + Low(un10) - q0 * vs && r0 < vs
    ensures n == Join(q1, q0) * v + r0 / p && r0 / p < v
  {
    DigitsAddUp(n * p, u, un10, vs, q1, r1, q0, r0);
    Unscale(n, Join(q1, q0), v, p, r0);
  }

  lemma Unscale(n: nat, q: nat, v: nat, p: nat, r: nat)
    requires p > 0 && n * p == q * (v * p) + r && r < v * p
    ensures n == q * v + r / p && r / p < v
  {
    MulAssociates(q, v, p);
    assert r == (n - q * v) * p;
    ExactDivision(n - q * v, p);
    MulMonotone(p, v, if n - q * v >= v then n - q * v else v);
  }

  lemma DigitsAddUp(m: int, u: Word, un10: Word, vs: Word, q1: Half, r1: Word, q0: Half, r0: Word)
    requires m == u * FULL + un10
    requires r1 == u * HALF + High(un10) - q1 * vs
    requires r0 == r1 * HALF + Low(un10) - q0 * vs
    ensures m == Join(q1, q0) * vs + r0
  {
    var a, b := q1 * vs, q0 * vs;
    assert Join(q1, q0) * vs == a * HALF + b;
  }

  lemma ExactDivision(x: int, p: nat)
    requires p > 0
    ensures (x * p) / p == x
  {
    DivModUnique(x * p, p, x, 0);
  }

  /** Shift the divisor until its top bit is set, and the dividend by as much. */
  method Normalise(hi: Word, lo: Word, v: Word) returns (s: nat, vs: Word, un32: Word, un10: Word)
    requires hi < v
    ensures vs == v * Pow2(s) && SIGN <= vs && un32 < vs
    ensures un32 * FULL + un10 == (hi * FULL + lo) * Pow2(s)
  {
    s := LeadingZeros(v);
    NormalisedDividend(hi, lo, v, s);
    vs := Shl(v, s);
    var t := if s == 0 then 0 else Shr(lo, 64 - s);
    un32 := BitOr(Shl(hi, s), t);
    un10 := Shl(lo, s);
  }

  lemma DigitsJoin(q1: Half, q0: Half)
    ensures Add(Mul(q1, HALF), q0) == Join(q1, q0)
  {
  }

  /** One digit step: the digit and the partial remainder it leaves. */
  method DigitStep(u: Word, un: Half, v: Word) returns (q: Half, r: Word)
    requires SIGN <= v && u < v
    ensures r == u * HALF + un - q * v && r < v
  {
    ghost var corrections;
    q, corrections := QuotientDigit(u, un, v);
    PartialRemainder(u, un, v, q);
    r := Sub(Add(Mul(u, HALF), un), Mul(q, v));
  }

  /** Quotient and remainder of `hi * 2^64 + lo` by v. */
  method DivWords(hi: Word, lo: Word, v: Word) returns (q: Word, r: Word)
    requires hi < v
    ensures hi * FULL + lo == q * v + r && r < v
  {
    var s, vs, un32, un10 := Normalise(hi, lo, v);
    var q1, un21 := DigitStep(un32, High(un10), vs);
    var q0, rest := DigitStep(un21, Low(un10), vs);
    DigitsMakeQuotient(hi * FULL + lo, un32, un10, v, vs, Pow2(s), q1, un21, q0, rest);
    DigitsJoin(q1, q0);
    q := Add(Mul(q1, HALF), q0);
    r := Shr(rest, s);
  }
}
