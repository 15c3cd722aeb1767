/** The base arithmetic of the decimal library: coefficients are arrays of words below 10^19. */
module BaseArithmetic {
  import opened Words
  import opened Digits
  import opened RadixDivision
  import opened WordDivision

  ghost function Coefficient(s: seq<Word>): nat { Value(s, RADIX) }

  ghost predicate Digital(s: seq<Word>) { AllBelow(s, RADIX) }

  // ----- what the operations compute, as relations between word strings -----

  /** p is the product of u and v plus w, in |u| + |v| words. */
  ghost predicate IsProductPlus(p: seq<Word>, u: seq<Word>, v: seq<Word>, w: seq<Word>) {
    |p| == |u| + |v| && Digital(p) && Coefficient(p) == Coefficient(u) * Coefficient(v) + Coefficient(w)
  }

  /** p is what the product writes over zeroed words. */
  ghost predicate IsProduct(p: seq<Word>, u: seq<Word>, v: seq<Word>) {
    IsProductPlus(p, u, v, Zeros(|u|))
  }

  /** The words p and the carry above them are the product of u and the word v. */
  ghost predicate IsScaled(p: seq<Word>, carry: Word, u: seq<Word>, v: Word) {
    |p| == |u| && Digital(p) && Coefficient(p) + carry * Pow(RADIX, |u|) == Coefficient(u) * v
  }

  /** q and rem are quotient and remainder of u by the word v, in the given base. */
  ghost predicate IsShortQuotient(q: seq<Word>, rem: Word, u: seq<Word>, v: Word, base: Word) {
    |q| == |u| && AllBelow(q, base) && Value(u, base) == Value(q, base) * v + rem && rem < v
  }

  // ----- multiplication -----

  /** One column of a product: `u * v + w + carry`, split into the next carry and the digit. */
  method ColumnStep(u: Word, v: Word, w: Word, carry: Word) returns (carry': Word, digit: Word)
    requires u < RADIX && v < RADIX && w < RADIX && carry < RADIX
    ensures carry' * RADIX + digit == u * v + w + carry
    ensures carry' < RADIX && digit < RADIX
  {
    ColumnFits(u, v);
    var hi, lo := MulWords(u, v);
    hi, lo := AddCarry(w, hi, lo);
    hi, lo := AddCarry(carry, hi, lo);
    carry', digit := DivByRadix(hi, lo);
  }

  lemma ColumnFits(u: nat, v: nat)
    requires u < RADIX && v < RADIX
    ensures 0 <= u * v <= (RADIX - 1) * (RADIX - 1)
  {
    MulMonotone(u, 0, v);
    MulMonotone(u, v, RADIX - 1);
  }

  /** A step that turns a column into its digit keeps the running total. */
  lemma ColumnKeepsTotal(done: seq<Word>, digit: Word, carry: nat, carry': nat,
                         us: seq<Word>, u: Word, ws: seq<Word>, w: Word, v: nat)
    requires |done| == |us| == |ws|
    requires Coefficient(done) + carry * Pow(RADIX, |done|) == Coefficient(us) * v + Coefficient(ws)
    requires carry' * RADIX + digit == u * v + w + carry
    ensures Coefficient(done + [digit]) + carry' * Pow(RADIX, |done| + 1)
         == Coefficient(us + [u]) * v + Coefficient(ws + [w])
  {
    var p := Pow(RADIX, |done|);
    ValueOfAppend(done, digit, RADIX);
    ValueOfAppend(us, u, RADIX);
    ValueOfAppend(ws, w, RADIX);
    ColumnAlgebra(p, digit, carry, carry', u, v, w, Coefficient(us));
  }

  lemma ColumnAlgebra(p: nat, digit: nat, carry: nat, carry': nat, u: nat, v: nat, w: nat, us: nat)
    requires carry' * RADIX + digit == u * v + w + carry
    ensures p * digit + carry' * (RADIX * p) == p * u * v + p * w + carry * p
    ensures (us + p * u) * v == us * v + p * u * v
  {
    calc {
      p * digit + carry' * (RADIX * p);
      p * (digit + carry' * RADIX);
      p * (u * v + w + carry);
      p * (u * v) + p * w + p * carry;
      { MulAssociates(p, u, v); }
      p * u * v + p * w + carry * p;
    }
  }

  /**
   * The state of a row after i columns: with `was` the words before the row, i words from position j hold the
   * low digits of `us * v + was[j..]` and the carry the rest; no other word has changed.
   */
  ghost predicate RowState(now: seq<Word>, was: seq<Word>, us: seq<Word>, v: Word, j: nat, i: nat, carry: Word) {
    && i <= |us| && j + |us| <= |now| == |was|
    && carry < RADIX
    && now[..j] == was[..j] && now[j + i..] == was[j + i..]
    && Digital(now[j..j + i])
    && Coefficient(now[j..j + i]) + carry * Pow(RADIX, i) == Coefficient(us[..i]) * v + Coefficient(was[j..j + i])
  }

  lemma RowStart(was: seq<Word>, us: seq<Word>, v: Word, j: nat)
    requires j + |us| <= |was|
    ensures RowState(was, was, us, v, j, 0, 0)
  {
    assert us[..0] == [] && was[j..j] == [];
  }

  lemma RowStep(now: seq<Word>, was: seq<Word>, us: seq<Word>, v: Word, j: nat, i: nat, carry: Word,
                carry': Word, digit: Word)
    requires RowState(now, was, us, v, j, i, carry) && i < |us|
    requires carry' < RADIX && digit < RADIX
    requires carry' * RADIX + digit == us[i] * v + now[i + j] + carry
    ensures RowState(now[i + j := digit], was, us, v, j, i + 1, carry')
  {
    var next := now[i + j := digit];
    assert now[i + j] == now[j + i..][0] == was[j + i..][0] == was[i + j];
    assert us[..i + 1] == us[..i] + [us[i]];
    assert was[j..j + i + 1] == was[j..j + i] + [was[i + j]];
    assert next[j..j + i + 1] == now[j..j + i] + [digit];
    assert next[j + i + 1..] == now[j + i..][1..] == was[j + i..][1..] == was[j + i + 1..];
    assert next[..j] == now[..j];
    ColumnKeepsTotal(now[j..j + i], digit, carry, carry', us[..i], us[i], was[j..j + i], was[i + j], v);
  }

  /** The carry of a finished row is its top digit. */
  lemma RowEnd(now: seq<Word>, was: seq<Word>, us: seq<Word>, v: Word, j: nat, carry: Word)
    requires RowState(now, was, us, v, j, |us|, carry) && j + |us| < |now|
    ensures var next := now[j + |us| := carry];
            && next[..j] == was[..j] && next[j + |us| + 1..] == was[j + |us| + 1..]
            && Digital(next[j..j + |us| + 1])
            && Coefficient(next[j..j + |us| + 1]) == Coefficient(us) * v + Coefficient(was[j..j + |us|])
  {
    var m := |us|;
    var next := now[j + m := carry];
    hide Value, Pow;
    assert us[..m] == us;
    assert next[j..j + m + 1] == now[j..j + m] + [carry];
    ValueOfAppend(now[j..j + m], carry, RADIX);
    assert next[j + m + 1..] == now[j + m..][1..] == was[j + m..][1..] == was[j + m + 1..];
    assert next[..j] == now[..j];
  }

  /** One row of the product: add `u * v` to the m words of w from position j, and store the carry above them. */
  method AddRow(w: array<Word>, u: array<Word>, v: Word, m: nat, j: nat)
    requires w != u && m <= u.Length && j + m < w.Length
    requires Digital(u[..m]) && v < RADIX && Digital(w[j..j + m])
    modifies w
    ensures w[..j] == old(w[..j]) && w[j + m + 1..] == old(w[j + m + 1..])
    ensures Digital(w[j..j + m + 1])
    ensures Coefficient(w[j..j + m + 1]) == Coefficient(u[..m]) * v + old(Coefficient(w[j..j + m]))
  {
    ghost var was, us := w[..], u[..m];
    RowStart(was, us, v, j);
    var carry: Word := 0;
    var i := 0;
    while i < m
      invariant i <= m
      invariant RowState(w[..], was, us, v, j, i, carry)
    {
      assert w[i + j] == was[j..j + m][i];
      var carry', digit := ColumnStep(u[i], v, w[i + j], carry);
      RowStep(w[..], was, us, v, j, i, carry, carry', digit);
      ghost var next := w[..][i + j := digit];
      w[i + j] := digit;
      assert w[..] == next;
      carry := carry';
      i := i + 1;
    }
    RowEnd(w[..], was, us, v, j, carry);
    ghost var next := w[..][j + m := carry];
    w[j + m] := carry;
    assert w[..] == next;
  }

  /** The words after j rows: below position m + j the digits of the partial product, above it nothing changed. */
  ghost predicate ProductState(now: seq<Word>, was: seq<Word>, us: seq<Word>, vs: seq<Word>, j: nat) {
    && j <= |vs| && |us| + |vs| <= |now| == |was|
    && now[|us| + j..] == was[|us| + j..]
    && Digital(now[..|us| + j])
    && Coefficient(now[..|us| + j]) == Coefficient(us) * Coefficient(vs[..j]) + Coefficient(was[..|us|])
  }

  lemma ProductRow(now: seq<Word>, next: seq<Word>, was: seq<Word>, us: seq<Word>, vs: seq<Word>, j: nat)
    requires ProductState(now, was, us, vs, j) && j < |vs| && |next| == |now|
    requires next[..j] == now[..j] && next[j + |us| + 1..] == now[j + |us| + 1..]
    requires Digital(next[j..j + |us| + 1])
    requires Coefficient(next[j..j + |us| + 1]) == Coefficient(us) * vs[j] + Coefficient(now[j..j + |us|])
    ensures ProductState(next, was, us, vs, j + 1)
  {
    var m, p := |us|, Pow(RADIX, j);
    var row, low := next[j..j + m + 1], now[..j];
    assert next[..m + j + 1] == low + row;
    assert now[..m + j] == low + now[j..j + m];
    assert low == now[..m + j][..j];
    assert next[m + j + 1..] == now[m + j..][1..] == was[m + j..][1..] == was[m + j + 1..];
    ValueOfConcat(low, row, RADIX);
    ValueOfConcat(low, now[j..j + m], RADIX);
    assert vs[..j + 1] == vs[..j] + [vs[j]];
    ValueOfAppend(vs[..j], vs[j], RADIX);
    RowAlgebra(p, Coefficient(us), vs[j], Coefficient(now[j..j + m]), Coefficient(vs[..j]));
  }

  lemma RowAlgebra(p: nat, u: nat, v: nat, w: nat, vs: nat)
    ensures p * (u * v + w) == u * (p * v) + p * w
    ensures u * (vs + p * v) == u * vs + u * (p * v)
  {
    MulAssociates(p, u, v);
    MulAssociates(u, p, v);
  }

  /**
   * Add the product of the m-word u and the n-word v to the m low words of w; the n words above them are
   * overwritten.
   */
  method BaseMul(w: array<Word>, u: array<Word>, v: array<Word>, m: nat, n: nat)
    requires w != u && w != v && m <= u.Length && n <= v.Length && m + n <= w.Length
    requires Digital(u[..m]) && Digital(v[..n]) && Digital(w[..m])
    modifies w
    ensures IsProductPlus(w[..m + n], u[..m], v[..n], old(w[..m]))
    ensures w[m + n..] == old(w[m + n..])
  {
    ghost var was, us, vs := w[..], u[..m], v[..n];
    assert vs[..0] == [];
    var j := 0;
    while j < n
      invariant j <= n
      invariant ProductState(w[..], was, us, vs, j)
    {
      ghost var now := w[..];
      assert w[j..j + m] == now[..m + j][j..];
      assert v[j] == vs[j];
      AddRow(w, u, v[j], m, j);
      ProductRow(now, w[..], was, us, vs, j);
      j := j + 1;
    }
    assert vs[..n] == vs;
  }

  // ----- multiplication by one word -----

  /** One column of a product by a word, which need not be a digit. */
  method ScaleStep(u: Word, v: Word, carry: Word) returns (carry': Word, digit: Word)
    requires u < RADIX && CarryBound(carry, v)
    ensures carry' * RADIX + digit == u * v + carry
    ensures CarryBound(carry', v) && digit < RADIX
  {
    ScaleFits(u, v, carry);
    var hi, lo := MulWords(u, v);
    hi, lo := AddCarry(carry, hi, lo);
    carry', digit := DivByRadix(hi, lo);
  }

  /** The carry of a product by v is below v. */
  predicate CarryBound(carry: nat, v: nat) {
    carry == 0 || carry < v
  }

  lemma ScaleFits(u: nat, v: Word, carry: nat)
    requires u < RADIX && CarryBound(carry, v)
    ensures 0 <= u * v && u * v + carry < RADIX * v + 1
    ensures v > 0 ==> u * v + carry < RADIX * v
  {
    MulMonotone(v, u, RADIX - 1);
    MulMonotone(u, 0, v);
  }

  ghost predicate ScaleState(now: seq<Word>, was: seq<Word>, us: seq<Word>, v: Word, i: nat, carry: Word) {
    && i <= |us| <= |now| == |was|
    && CarryBound(carry, v)
    && now[i..] == was[i..]
    && Digital(now[..i])
    && Coefficient(now[..i]) + carry * Pow(RADIX, i) == Coefficient(us[..i]) * v
  }

  lemma ScaleKeepsState(now: seq<Word>, was: seq<Word>, us: seq<Word>, v: Word, i: nat, carry: Word,
                        carry': Word, digit: Word)
    requires ScaleState(now, was, us, v, i, carry) && i < |us|
    requires CarryBound(carry', v) && digit < RADIX
    requires carry' * RADIX + digit == us[i] * v + carry
    ensures ScaleState(now[i := digit], was, us, v, i + 1, carry')
  {
    var next := now[i := digit];
    assert us[..i + 1] == us[..i] + [us[i]];
    assert next[..i + 1] == now[..i] + [digit];
    assert next[i + 1..] == now[i..][1..] == was[i..][1..] == was[i + 1..];
    var p := Pow(RADIX, i);
    ValueOfAppend(now[..i], digit, RADIX);
    ValueOfAppend(us[..i], us[i], RADIX);
    ColumnAlgebra(p, digit, carry, carry', us[i], v, 0, Coefficient(us[..i]));
  }

  /** The common loop of the two products by a word. The source may be the destination. */
  method Scale(w: array<Word>, u: array<Word>, n: nat, v: Word) returns (carry: Word)
    requires n <= u.Length && n <= w.Length && Digital(u[..n])
    modifies w
    ensures IsScaled(w[..n], carry, old(u[..n]), v) && CarryBound(carry, v)
    ensures w[n..] == old(w[n..])
  {
    ghost var was, us := w[..], u[..n];
    assert us[..0] == [] && was[..0] == [];
    carry := 0;
    var i := 0;
    while i < n
      invariant i <= n && u[i..n] == us[i..]
      invariant ScaleState(w[..], was, us, v, i, carry)
    {
      assert u[i] == u[i..n][0] == us[i..][0] == us[i];
      var carry', digit := ScaleStep(u[i], v, carry);
      ScaleKeepsState(w[..], was, us, v, i, carry, carry', digit);
      ghost var next := w[..][i := digit];
      assert u[i + 1..n] == u[i..n][1..] == us[i..][1..] == us[i + 1..];
      w[i] := digit;
      assert w[..] == next;
      carry := carry';
      i := i + 1;
    }
    assert us[..n] == us;
  }

  /** Product of the n-word u and the word v, in n + 1 words. */
  method ShortMul(w: array<Word>, u: array<Word>, n: nat, v: Word)
    requires n <= u.Length && n < w.Length && Digital(u[..n])
    modifies w
    ensures IsScaled(w[..n], w[n], old(u[..n]), v) && CarryBound(w[n], v)
    ensures w[n + 1..] == old(w[n + 1..])
  {
    var carry := Scale(w, u, n, v);
    ghost var low := w[..n];
    assert w[n + 1..] == w[n..][1..] == old(w[n..])[1..] == old(w[n + 1..]);
    w[n] := carry;
    assert w[..n] == low;
  }

  /** The same in n words, returning the carry. */
  method ShortMulCarry(w: array<Word>, u: array<Word>, n: nat, v: Word) returns (carry: Word)
    requires n <= u.Length && n <= w.Length && Digital(u[..n])
    modifies w
    ensures IsScaled(w[..n], carry, old(u[..n]), v) && CarryBound(carry, v)
    ensures w[n..] == old(w[n..])
  {
    carry := Scale(w, u, n, v);
  }

  // ----- division by one word -----

  /** One word of a division: the running remainder times the base plus the next word, divided by v. */
  method DivideStep(rem: Word, base: Word, u: Word, v: Word) returns (q: Word, rem': Word)
    requires rem < v && u < base
    ensures rem * base + u == q * v + rem'
    ensures q < base && rem' < v
  {
    RemainderFits(rem, base, u, v);
    var hi, lo := MulWords(rem, base);
    hi, lo := AddCarry(u, hi, lo);
    HighWordFits(hi, lo, v, base);
    q, rem' := DivWords(hi, lo, v);
    QuotientFits(q, base, v, rem * base + u);
  }

  lemma RemainderFits(rem: Word, base: Word, u: Word, v: Word)
    requires rem < v && u < base
    ensures 0 <= rem * base && rem * base + u < v * base < FULL * FULL
  {
    MulMonotone(base, rem + 1, v);
    MulMonotone(base, 0, rem);
    MulMonotone(v, base, FULL - 1);
  }

  lemma HighWordFits(hi: Word, lo: Word, v: Word, base: Word)
    requires hi * FULL + lo < v * base
    ensures hi < v
  {
    MulMonotone(v, base, FULL);
  }

  lemma QuotientFits(q: nat, base: nat, v: nat, n: nat)
    requires q * v <= n < v * base
    ensures q < base
  {
    if q >= base {
      MulMonotone(v, base, q);
    }
  }

  /** The words above position i have been divided; nothing else has changed. */
  ghost predicate DivideState(now: seq<Word>, was: seq<Word>, us: seq<Word>, v: Word, base: nat, i: nat, rem: Word) {
    && i <= |us| <= |now| == |was|
    && now[..i] == was[..i] && now[|us|..] == was[|us|..]
    && rem < v
    && AllBelow(now[i..|us|], base)
    && Value(us[i..], base) == Value(now[i..|us|], base) * v + rem
  }

  lemma DivideKeepsState(now: seq<Word>, was: seq<Word>, us: seq<Word>, v: Word, base: nat, i: nat, rem: Word,
                         q: Word, rem': Word)
    requires DivideState(now, was, us, v, base, i + 1, rem) && q < base && rem' < v
    requires rem * base + us[i] == q * v + rem'
    ensures DivideState(now[i := q], was, us, v, base, i, rem')
  {
    var next, n := now[i := q], |us|;
    assert us[i..] == [us[i]] + us[i + 1..];
    assert next[i..n] == [q] + now[i + 1..n];
    assert next[..i] == now[..i + 1][..i] == was[..i + 1][..i] == was[..i];
    DivideAlgebra(base, Value(now[i + 1..n], base), v, rem, us[i], q, rem');
  }

  lemma DivideAlgebra(base: nat, hi: nat, v: nat, rem: nat, u: nat, q: nat, rem': nat)
    requires rem * base + u == q * v + rem'
    ensures u + base * (hi * v + rem) == (q + base * hi) * v + rem'
  {
    MulAssociates(base, hi, v);
  }

  /** The common loop of the two divisions by a word, from the top word down. The source may be the destination. */
  method Divide(w: array<Word>, u: array<Word>, n: Word, v: Word, base: Word) returns (rem: Word)
    requires n <= u.Length && n <= w.Length && v != 0 && AllBelow(u[..n], base)
    modifies w
    ensures IsShortQuotient(w[..n], rem, old(u[..n]), v, base)
    ensures w[n..] == old(w[n..])
  {
    ghost var was, us := w[..], u[..n];
    rem := 0;
    var i := Sub(n, 1);
    ghost var k: nat := n;
    assert us[n..] == [] && was[n..n] == [] && u[..n] == us[..n];
    assert DivideState(w[..], was, us, v, base, n, 0);
    hide Value;
    while i != ALL_ONES
      invariant k <= n && i == if k == 0 then ALL_ONES else k - 1
      invariant u[..k] == us[..k]
      invariant DivideState(w[..], was, us, v, base, k, rem)
      decreases k
    {
      assert u[i] == u[..k][i] == us[..k][i] == us[i];
      var q, rem' := DivideStep(rem, base, u[i], v);
      DivideKeepsState(w[..], was, us, v, base, i, rem, q, rem');
      ghost var next := w[..][i := q];
      assert u[..i] == u[..k][..i] == us[..k][..i] == us[..i];
      w[i] := q;
      assert w[..] == next;
      rem := rem';
      i := Sub(i, 1);
      k := k - 1;
    }
    assert us[0..] == us && w[0..n] == w[..n];
  }

  /** Quotient of the n-word u by the word v; returns the remainder. */
  method ShortDiv(w: array<Word>, u: array<Word>, n: Word, v: Word) returns (rem: Word)
    requires n <= u.Length && n <= w.Length && v != 0 && Digital(u[..n])
    modifies w
    ensures IsShortQuotient(w[..n], rem, old(u[..n]), v, RADIX)
    ensures w[n..] == old(w[n..])
  {
    rem := Divide(w, u, n, v, RADIX);
  }

  /** The same for words in any base. */
  method ShortDivBase(w: array<Word>, u: array<Word>, n: Word, v: Word, base: Word) returns (rem: Word)
    requires n <= u.Length && n <= w.Length && v != 0 && AllBelow(u[..n], base)
    modifies w
    ensures IsShortQuotient(w[..n], rem, old(u[..n]), v, base)
    ensures w[n..] == old(w[n..])
  {
    rem := Divide(w, u, n, v, base);
  }

  // ----- the operations together -----

  /** The words and the carry of a product by v, written as one string. */
  lemma ScaledAsString(p: seq<Word>, carry: Word, u: seq<Word>, v: Word)
    requires IsScaled(p, carry, u, v) && CarryBound(carry, v)
    ensures Coefficient(p + [carry]) == Coefficient(u) * v
    ensures v < RADIX ==> Digital(p + [carry])
  {
    ValueOfAppend(p, carry, RADIX);
  }

  /** Over zeroed words the product is exact, and commutes word for word. */
  lemma ProductCommutes(p: seq<Word>, q: seq<Word>, u: seq<Word>, v: seq<Word>)
    requires IsProduct(p, u, v) && IsProduct(q, v, u)
    ensures p == q && Coefficient(p) == Coefficient(u) * Coefficient(v)
  {
    ValueOfZeros(|u|, RADIX);
    ValueOfZeros(|v|, RADIX);
    ValueDeterminesDigits(p, q, RADIX);
  }

  /** The general product by a one-word factor and the product by a word write the same words. */
  lemma ProductsAgree(p: seq<Word>, q: seq<Word>, carry: Word, u: seq<Word>, v: Word)
    requires v < RADIX
    requires IsProduct(p, u, [v]) && IsScaled(q, carry, u, v) && CarryBound(carry, v)
    ensures p == q + [carry]
  {
    ScaledAsString(q, carry, u, v);
    ValueOfZeros(|u|, RADIX);
    ValueOfAppend([], v, RADIX);
    assert [] + [v] == [v];
    ValueDeterminesDigits(p, q + [carry], RADIX);
  }

  /** Words and carry of a product by any word, digit or not, are determined by the factors. */
  lemma ScaledIsUnique(p: seq<Word>, c: Word, q: seq<Word>, d: Word, u: seq<Word>, v: Word)
    requires IsScaled(p, c, u, v) && IsScaled(q, d, u, v)
    ensures p == q && c == d
  {
    var b := Pow(RADIX, |u|);
    ValueBelowPow(p, RADIX);
    ValueBelowPow(q, RADIX);
    DivModUnique(Coefficient(u) * v, b, c, Coefficient(p));
    DivModUnique(Coefficient(u) * v, b, d, Coefficient(q));
    ValueDeterminesDigits(p, q, RADIX);
  }

  /** Quotient words and remainder are determined by dividend and divisor, whichever division computed them. */
  lemma QuotientIsUnique(q: seq<Word>, r: Word, q': seq<Word>, r': Word, u: seq<Word>, v: Word, base: Word)
    requires IsShortQuotient(q, r, u, v, base) && IsShortQuotient(q', r', u, v, base)
    ensures q == q' && r == r'
  {
    DivModUnique(Value(u, base), v, Value(q, base), r);
    DivModUnique(Value(u, base), v, Value(q', base), r');
    ValueDeterminesDigits(q, q', base);
  }

  /** Dividing a product by its factor gives back the other one, with a zero on top and no remainder. */
  lemma DivisionUndoesMultiplication(u: seq<Word>, v: Word, p: seq<Word>, carry: Word, q: seq<Word>, rem: Word)
    requires Digital(u) && 0 < v < RADIX
    requires IsScaled(p, carry, u, v) && CarryBound(carry, v)
    requires IsShortQuotient(q, rem, p + [carry], v, RADIX)
    ensures q == u + [0] && rem == 0
  {
    ScaledAsString(p, carry, u, v);
    ValueOfAppend(u, 0, RADIX);
    QuotientIsUnique(q, rem, u + [0], 0, p + [carry], v, RADIX);
  }

  /** Multiplying a quotient by its divisor gives back the dividend less the remainder, and never carries. */
  lemma MultiplicationUndoesDivision(u: seq<Word>, v: Word, q: seq<Word>, rem: Word, p: seq<Word>, carry: Word)
    requires Digital(u)
    requires IsShortQuotient(q, rem, u, v, RADIX)
    requires IsScaled(p, carry, q, v)
    ensures carry == 0 && Coefficient(p) == Coefficient(u) - rem
  {
    ValueBelowPow(u, RADIX);
    if carry > 0 {
      MulMonotone(Pow(RADIX, |u|), 1, carry);
    }
  }
}
