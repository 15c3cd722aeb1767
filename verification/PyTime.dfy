/** Saturating arithmetic on 64-bit times. */
module PyTime {
  import Words

  const MAX := 9_223_372_036_854_775_807
  const MIN := -9_223_372_036_854_775_808
  const SPAN := 0x1_0000_0000_0000_0000

  type Time = t: int | MIN <= t <= MAX

  /** Two's complement reduction to 64 bits. */
  function Wrap(x: int): Time {
    (x - MIN) % SPAN + MIN
  }

  /** Division and remainder of the machine truncate towards zero. */
  function TruncDiv(a: int, b: int): int
    requires b != 0
  {
    if a >= 0 then a / b else -((-a) / b)
  }

  function TruncMod(a: int, b: int): int
    requires b != 0
  {
    a - TruncDiv(a, b) * b
  }

  function Clamp(x: int): Time {
    if x > MAX then MAX else if x < MIN then MIN else x
  }

  predicate Fits(x: int) {
    MIN <= x <= MAX
  }

  /** A clamp is the time nearest to a number. */
  lemma ClampIsNearest(x: int, t: Time)
    ensures Abs(x - Clamp(x)) <= Abs(x - t)
    ensures Abs(x - Clamp(x)) == Abs(x - t) ==> t == Clamp(x)
  {
  }

  /** Add, clamping on overflow; -1 reports that it happened. */
  method Add(t1: Time, t2: Time) returns (t: Time, rc: int)
    ensures t == Clamp(t1 + t2)
    ensures rc == if Fits(t1 + t2) then 0 else -1
  {
    if t2 > 0 && t1 > Wrap(MAX - t2) {
      return MAX, -1;
    } else if t2 < 0 && t1 < Wrap(MIN - t2) {
      return MIN, -1;
    }
    return Wrap(t1 + t2), 0;
  }

  /** The overflow test of multiplication, as computed. */
  predicate ReportsOverflow(a: Time, b: Time) {
    b != 0 && (a < Wrap(TruncDiv(MIN, b)) || Wrap(TruncDiv(MAX, b)) < a)
  }

  /** Multiply, clamping when the test reports overflow. */
  method Mul(t: Time, k: Time) returns (t': Time, rc: int)
    ensures IsSaturated(t * k, t', rc) <==> ComesOutRight(t, k)
    ensures ReportsOverflow(t, k) ==> t' == (if t >= 0 then MAX else MIN) && rc == -1
    ensures !ReportsOverflow(t, k) ==> t' == Wrap(t * k) && rc == 0
  {
    MulComesOutRightIff(t, k);
    if ReportsOverflow(t, k) {
      return if t >= 0 then MAX else MIN, -1;
    }
    return Wrap(t * k), 0;
  }

  /** The clamp of the true result, with -1 exactly on overflow. */
  predicate IsSaturated(x: int, t: Time, rc: int) {
    t == Clamp(x) && rc == if Fits(x) then 0 else -1
  }

  /** The factors for which multiplication is what it should be. */
  predicate ComesOutRight(t: Time, k: Time) {
    k >= 0 || (k == -1 && t == -MAX)
  }

  function Product(t: Time, k: Time): (Time, int) {
    if ReportsOverflow(t, k) then (if t >= 0 then MAX else MIN, -1) else (Wrap(t * k), 0)
  }

  /** Multiplication saturates exactly for the factors that are not negative, and for -1 times -MAX. */
  lemma MulComesOutRightIff(t: Time, k: Time)
    ensures IsSaturated(t * k, Product(t, k).0, Product(t, k).1) <==> ComesOutRight(t, k)
  {
    if k >= 0 {
      TestIsExact(t, k);
      SignOfProduct(t, k);
      WrapOnce(t * k);
    } else {
      NegativeFactor(t, k);
      SignOfNegated(t, k);
      if k == -1 {
        TimesMinusOne(t);
      }
      WrapOnce(t * k);
    }
    hide ReportsOverflow, Wrap;
  }

  lemma TimesMinusOne(t: int)
    ensures t * -1 == -t
  {
  }

  lemma SignOfProduct(t: int, k: int)
    ensures k >= 0 && t >= 0 ==> t * k >= 0
    ensures k >= 0 && t < 0 ==> t * k <= 0
  {
  }

  lemma SignOfNegated(t: int, k: int)
    ensures k < 0 && t >= 0 ==> t * k <= 0
    ensures k < 0 && t < 0 ==> t * k > 0
  {
  }

  /** With a negative factor the test reports everything but the two least times, and these only for -1. */
  lemma NegativeFactor(a: Time, k: Time)
    requires k < 0
    ensures ReportsOverflow(a, k) <==> !(k == -1 && a <= -MAX)
  {
    NegativeDivisor(k);
    hide TruncDiv;
  }

  /** Dividing the bounds by a negative number swaps their signs; only MIN / -1 wraps. */
  lemma NegativeDivisor(k: Time)
    requires k < 0
    ensures k == -1 ==> TruncDiv(MIN, k) == -MIN && TruncDiv(MAX, k) == -MAX
    ensures k < -1 ==> 0 < TruncDiv(MIN, k) <= MAX && MIN <= TruncDiv(MAX, k) <= 0
  {
    NegativeQuotient(-MIN, k);
    NegativeQuotient(MAX, k);
  }

  lemma NegativeQuotient(n: int, k: int)
    requires n > 0 && k < 0
    ensures k == -1 ==> n / k == -n
    ensures k < -1 ==> -n < n / k <= 0 && (-k <= n ==> n / k < 0)
  {
    QuotientOf(n, k);
    EuclideanRange(n, k, n / k, n % k);
  }

  /** The least time times -1 overflows without being reported: it comes out negative, with a zero code. */
  lemma UnreportedOverflow()
    ensures !Fits(MIN * -1) && !ReportsOverflow(MIN, -1) && Product(MIN, -1) == (MIN, 0)
    ensures !IsSaturated(MIN * -1, MIN, 0)
  {
    NegativeFactor(MIN, -1);
  }

  lemma TestIsExact(a: Time, k: Time)
    requires k >= 0
    ensures ReportsOverflow(a, k) <==> !Fits(a * k)
  {
    if k > 0 {
      var neg: int := a;
      neg := -neg;
      PositiveDivisor(k);
      QuotientBound(-MIN, k, -TruncDiv(MIN, k), neg);
      QuotientBound(MAX, k, TruncDiv(MAX, k), a);
      Negated(neg, k);
      hide TruncDiv;
    }
  }

  lemma PositiveDivisor(k: Time)
    requires k > 0
    ensures -TruncDiv(MIN, k) == -MIN / k && TruncDiv(MAX, k) == MAX / k
  {
  }

  /** Comparing with a quotient is comparing the product with the dividend. */
  lemma QuotientBound(n: nat, k: int, q: int, x: int)
    requires k > 0 && q == n / k
    ensures 0 <= q <= n
    ensures x > q <==> x * k > n
  {
    QuotientOf(n, k);
    EuclideanRange(n, k, q, n % k);
    Compare(n, k, q, n % k, x);
  }

  lemma Compare(n: nat, k: nat, q: int, r: int, x: int)
    requires IsEuclidean(n, k, q, r)
    ensures x > q <==> x * k > n
  {
    if x > q {
      Words.MulMonotone(k, q + 1, x);
    } else {
      Words.MulMonotone(k, x, q);
    }
  }

  lemma Negated(x: int, k: int)
    ensures (-x) * k == -(x * k)
  {
  }

  /** The overflow test can be trusted for every first factor exactly when the second is not negative. */
  lemma TestIsExactIff(k: Time)
    ensures (forall a: Time :: ReportsOverflow(a, k) <==> !Fits(a * k)) <==> k >= 0
  {
    if k >= 0 {
      forall a: Time ensures ReportsOverflow(a, k) <==> !Fits(a * k) {
        TestIsExact(a, k);
      }
    } else {
      NegativeFactorMisreported(k);
      assert !(ReportsOverflow(0, k) <==> !Fits(0 * k));
    }
  }

  /** With a negative factor even zero times it is reported as an overflow. */
  lemma NegativeFactorMisreported(k: Time)
    requires k < 0
    ensures ReportsOverflow(0, k) && Fits(0 * k)
  {
    NegativeFactor(0, k);
  }

  // ----- division -----

  function Abs(x: int): nat {
    if x >= 0 then x else -x
  }

  predicate IsEuclidean(t: int, k: int, q: int, r: int) {
    t == q * k + r && 0 <= r < Abs(k)
  }

  /** Division that truncates towards zero. */
  predicate IsTruncated(t: int, k: int, q: int, r: int) {
    if t >= 0 then IsEuclidean(t, k, q, r) else IsEuclidean(-t, k, -q, -r)
  }

  lemma QuotientOf(n: int, k: int)
    requires k != 0
    ensures IsEuclidean(n, k, n / k, n % k)
  {
  }

  lemma TruncationOf(t: int, k: int)
    requires k != 0
    ensures IsTruncated(t, k, TruncDiv(t, k), TruncMod(t, k))
  {
    var q := TruncDiv(t, k);
    if t >= 0 {
      QuotientOf(t, k);
    } else {
      QuotientOf(-t, k);
      Negated(q, k);
    }
  }

  lemma EuclideanRange(n: nat, k: int, q: int, r: int)
    requires IsEuclidean(n, k, q, r)
    ensures Abs(k) >= 2 ==> 2 * Abs(q) <= n
    ensures k == 1 ==> q == n && r == 0
    ensures k == -1 ==> q + n == 0 && r == 0
    ensures r <= n && (k > 0 ==> q >= 0) && (k < 0 ==> q <= 0)
  {
    SignOfQuotient(n, k, q, r);
    if Abs(k) >= 2 && k > 0 {
      Words.MulMonotone(q, 2, k);
    } else if Abs(k) >= 2 {
      Negated(q, k);
      Words.MulMonotone(-q, 2, -k);
      assert (-q) * (-k) == q * k;
    }
  }

  lemma SignOfQuotient(n: nat, k: int, q: int, r: int)
    requires IsEuclidean(n, k, q, r)
    ensures (k > 0 ==> q >= 0) && (k < 0 ==> q <= 0) && q * k >= 0
  {
    Words.MulMonotone(Abs(k), if q < 0 then q else -1, -1);
    Words.MulMonotone(Abs(k), 0, if q < 0 then 0 else q);
    Words.MulMonotone(Abs(k), 1, if q < 1 then 1 else q);
    Words.MulMonotone(Abs(k), if q < 0 then q else 0, 0);
  }

  /** The divisions that come out as Euclidean ones: all by a positive divisor, and some by a negative one. */
  predicate DividesRight(t: Time, k: Time)
    requires k != 0
  {
    k > 0 || (TruncMod(t, k) >= 0 && !(k == -1 && t == MIN))
  }

  /**
   * Quotient and remainder of a time. For a positive divisor the quotient is floored; underflow is never reported.
   */
  method DivMod(t: Time, k: Time) returns (q: int, r: int, rc: int)
    requires k != 0
    ensures rc == 0 && Fits(q) && Fits(r)
    ensures IsEuclidean(t, k, q, r) <==> DividesRight(t, k)
    ensures k > 0 ==> q == t / k && r == t % k
    ensures TruncMod(t, k) < 0 ==> q == TruncDiv(t, k) - 1 && r == Wrap(TruncMod(t, k) + k)
    ensures k == -1 && t == MIN ==> q == MIN && r == 0
  {
    TruncationOf(t, k);
    TruncatedRange(t, k, TruncDiv(t, k), TruncMod(t, k));
    AdjustedIsRight(t, k, TruncDiv(t, k), TruncMod(t, k));
    WrapOnce(TruncDiv(t, k));
    WrapOnce(TruncDiv(t, k) - 1);
    hide TruncDiv, TruncMod, IsEuclidean, IsTruncated, Wrap;
    q := Wrap(TruncDiv(t, k));
    r := TruncMod(t, k);
    if r < 0 {
      if q == MIN {
        return MIN, 0, -1;
      }
      r := Wrap(r + k);
      q := Wrap(q - 1);
    }
    FloorOf(t, k, q, r);
    return q, r, 0;
  }

  lemma FloorOf(t: int, k: int, q: int, r: int)
    ensures k > 0 && IsEuclidean(t, k, q, r) ==> q == t / k && r == t % k
  {
    if k > 0 && IsEuclidean(t, k, q, r) {
      Words.DivModUnique(t, k, q, r);
    }
  }

  /**
   * The truncated quotient fits except for MIN / -1, where the remainder is zero; with a negative remainder it is
   * far from MIN, so the underflow branch is never taken.
   */
  lemma TruncatedRange(t: Time, k: Time, q: int, r: int)
    requires k != 0 && IsTruncated(t, k, q, r)
    ensures Fits(r)
    ensures Fits(q) <==> !(k == -1 && t == MIN)
    ensures r < 0 ==> MIN < q <= MAX
    ensures k == -1 && t == MIN ==> q == -MIN && r == 0
  {
    var n: int := t;
    if t >= 0 {
      EuclideanRange(t, k, q, r);
    } else {
      EuclideanRange(-n, k, -q, -r);
    }
  }

  /** One step down from a negative remainder is right for a positive divisor, and never for a negative one. */
  lemma AdjustedIsRight(t: Time, k: Time, q: int, r: int)
    requires k != 0 && IsTruncated(t, k, q, r)
    ensures r >= 0 ==> (IsEuclidean(t, k, Wrap(q), r) <==> !(k == -1 && t == MIN))
    ensures r < 0 ==> (IsEuclidean(t, k, Wrap(q - 1), Wrap(r + k)) <==> k > 0)
  {
    TruncatedRange(t, k, q, r);
    Negated(q, k);
    Words.StepOfProduct(q - 1, k);
    if r < 0 {
      WrapOnce(q - 1);
      WrapOnce(r + k);
    } else if Fits(q) {
      WrapOnce(q);
    } else {
      assert Wrap(q) == MIN;
    }
  }

  lemma WrapOnce(x: int)
    ensures Fits(x) ==> Wrap(x) == x
    ensures MIN - SPAN <= x < MIN ==> Wrap(x) == x + SPAN
    ensures MAX < x <= MAX + SPAN ==> Wrap(x) == x - SPAN
  {
  }

  /**
   * Multiplying the floored quotient back and adding the remainder rebuilds the time exactly when the multiple of
   * k at or below it is representable; otherwise the multiplication reports -1.
   */
  lemma MulAddUndoesDivMod(t: Time, k: Time)
    requires k > 0
    ensures Fits((t / k) * k) <==> t - t % k >= MIN
    ensures t - t % k >= MIN ==> Clamp(Clamp((t / k) * k) + t % k) == t && Fits(Clamp((t / k) * k) + t % k)
    ensures t - t % k < MIN ==> Clamp((t / k) * k) == MIN && ReportsOverflow(t / k, k)
  {
    QuotientOf(t, k);
    QuotientIsTime(t, k);
    TestIsExact(t / k, k);
  }

  lemma QuotientIsTime(t: Time, k: Time)
    requires k > 0
    ensures Fits(t / k)
  {
    QuotientOf(t, k);
    var q := t / k;
    Words.MulMonotone(k, if q < MIN then q else MIN - 1, MIN - 1);
    Words.MulMonotone(k, MAX + 1, if q > MAX then q else MAX + 1);
  }
}
