/** Coefficients made of nines: setting one to the largest value of a precision, and recognising one. */
module AllNines {
  import opened Words
  import opened Digits
  import opened RadixDivision

  const RDIGITS := 19

  /** The table of powers of ten. */
  function PowerOfTen(k: nat): Word
    requires k < 20
  {
    match k
    case 0 => 1
    case 1 => 10
    case 2 => 100
    case 3 => 1_000
    case 4 => 10_000
    case 5 => 100_000
    case 6 => 1_000_000
    case 7 => 10_000_000
    case 8 => 100_000_000
    case 9 => 1_000_000_000
    case 10 => 10_000_000_000
    case 11 => 100_000_000_000
    case 12 => 1_000_000_000_000
    case 13 => 10_000_000_000_000
    case 14 => 100_000_000_000_000
    case 15 => 1_000_000_000_000_000
    case 16 => 10_000_000_000_000_000
    case 17 => 100_000_000_000_000_000
    case 18 => 1_000_000_000_000_000_000
    case _ => 10_000_000_000_000_000_000
  }

  lemma {:induction false} TableIsPowers(k: nat)
    requires k < 20
    ensures PowerOfTen(k) == Pow(10, k)
  {
    if k == 0 {
      assert Pow(10, 0) == 1;
    } else {
      PowStep(10, k);
      hide Pow;
      TableIsPowers(k - 1);
      TableStep(k);
    }
  }

  lemma PowStep(b: nat, k: nat)
    requires k > 0
    ensures Pow(b, k) == b * Pow(b, k - 1)
  {
  }

  lemma TableStep(k: nat)
    requires 0 < k < 20
    ensures PowerOfTen(k) == 10 * PowerOfTen(k - 1)
  {
  }

  lemma {:induction false} PowGrows(b: nat, i: nat, j: nat)
    requires b >= 1 && i <= j
    ensures Pow(b, i) <= Pow(b, j)
  {
    if i < j {
      PowGrows(b, i, j - 1);
      MulMonotone(Pow(b, j - 1), 1, b);
    }
  }

  lemma PowGrowsStrictly(b: nat, i: nat, j: nat)
    requires b >= 2 && i < j
    ensures Pow(b, i) < Pow(b, j)
  {
    PowGrows(b, i + 1, j);
    MulMonotone(Pow(b, i), 2, b);
  }

  /** A word position is worth nineteen decimal digits. */
  lemma {:induction false} PowOfRadix(n: nat)
    ensures Pow(RADIX, n) == Pow(10, RDIGITS * n)
  {
    if n > 0 {
      TableIsPowers(19);
      PowOfRadix(n - 1);
      PowAdds(10, RDIGITS, RDIGITS * (n - 1));
    }
  }

  function Nines(n: nat): (s: seq<Word>)
    ensures |s| == n
  {
    if n == 0 then [] else [RADIX - 1] + Nines(n - 1)
  }

  lemma {:induction false} NinesAre(n: nat)
    ensures forall i :: 0 <= i < n ==> Nines(n)[i] == RADIX - 1
    ensures Value(Nines(n), RADIX) == Pow(RADIX, n) - 1
  {
    if n > 0 {
      NinesAre(n - 1);
      assert Nines(n)[1..] == Nines(n - 1);
      forall i | 0 <= i < n ensures Nines(n)[i] == RADIX - 1 {
        if i > 0 {
          assert Nines(n)[i] == Nines(n - 1)[i - 1];
        }
      }
    }
  }

  /** n words of nines below j nines in the top word are 10^(19n + j) - 1. */
  lemma NinesBelow(s: seq<Word>, n: nat, j: nat)
    requires |s| == n + 1 && j <= RDIGITS
    requires (forall i :: 0 <= i < n ==> s[i] == RADIX - 1) && s[n] == Pow(10, j) - 1
    ensures AllBelow(s, RADIX) && Value(s, RADIX) == Pow(10, RDIGITS * n + j) - 1
  {
    NinesAre(n);
    TableIsPowers(j);
    assert s == Nines(n) + [s[n]];
    ValueOfAppend(Nines(n), s[n], RADIX);
    PowOfRadix(n);
    PowAdds(10, RDIGITS * n, j);
    LessOne(Pow(RADIX, n), Pow(10, j));
  }

  lemma LessOne(a: int, b: int)
    ensures a * (b - 1) == a * b - a
  {
  }

  /** A value of n + 1 words with a nonzero top word is one less than a power of ten only as such a string. */
  lemma OnlyNines(s: seq<Word>, n: nat, k: nat)
    requires |s| == n + 1 && AllBelow(s, RADIX) && s[n] != 0
    requires Value(s, RADIX) + 1 == Pow(10, k)
    ensures RDIGITS * n < k <= RDIGITS * n + RDIGITS
    ensures (forall i :: 0 <= i < n ==> s[i] == RADIX - 1) && s[n] == Pow(10, k - RDIGITS * n) - 1
  {
    var low := RDIGITS * n;
    assert s == s[..n] + [s[n]];
    ValueOfAppend(s[..n], s[n], RADIX);
    ValueBelowPow(s, RADIX);
    PowOfRadix(n);
    PowOfRadix(n + 1);
    MulMonotone(Pow(RADIX, n), 1, s[n]);
    if k <= low {
      PowGrows(10, k, low);
    } else if k > low + RDIGITS {
      PowGrowsStrictly(10, low + RDIGITS, k);
    } else {
      TableIsPowers(k - low);
      var t := Nines(n) + [Pow(10, k - low) - 1];
      NinesAre(n);
      NinesBelow(t, n, k - low);
      ValueDeterminesDigits(s, t, RADIX);
    }
  }

  /**
   * Fill n words with nines from the top down; the top word gets `rdigits` of them, or a full word of them when
   * that is zero.
   */
  method WriteNines(data: array<Word>, n: nat, rdigits: nat)
    requires 1 <= n <= data.Length && rdigits < RDIGITS
    modifies data
    ensures AllBelow(data[..n], RADIX)
    ensures Value(data[..n], RADIX) == Pow(10, RDIGITS * (n - 1) + TopDigits(rdigits)) - 1
  {
    hide Pow;
    var i: int := n - 1;
    if rdigits > 0 {
      data[i] := PowerOfTen(rdigits) - 1;
      i := i - 1;
    }
    while i >= 0
      invariant -1 <= i < n
      invariant if i == n - 1 then rdigits == 0 else data[n - 1] == PowerOfTen(TopDigits(rdigits)) - 1
      invariant forall k :: i < k < n - 1 ==> data[k] == RADIX - 1
    {
      data[i] := RADIX - 1;
      i := i - 1;
    }
    TableIsPowers(TopDigits(rdigits));
    hide PowerOfTen;
    NinesBelow(data[..n], n - 1, TopDigits(rdigits));
  }

  function TopDigits(rdigits: nat): nat {
    if rdigits > 0 then rdigits else RDIGITS
  }

  /** A decimal number: its coefficient occupies the `len` low words of `data`. */
  class Decimal {
    /** The least number of words ever allocated. */
    const minalloc: nat
    var data: array<Word>
    var len: nat
    var digits: nat
    var exp: int
    var nan: bool
    var negative: bool
    /** The words are not on the heap and cannot be resized in place. */
    var fixed: bool

    ghost predicate Valid()
      reads this
    {
      len <= data.Length
    }

    ghost function Coefficient(): nat
      requires Valid()
      reads this, data
    {
      Value(data[..len], RADIX)
    }

    function Allocation(nwords: nat): nat {
      if nwords <= minalloc then minalloc else nwords
    }

    /** A NaN without a coefficient: what an allocation that fails leaves. */
    ghost predicate IsEmptyNaN()
      reads this
    {
      nan && !negative && len == 0 && digits == 0 && exp == 0
    }

    twostate predicate SameButWords()
      reads this
    {
      len == old(len) && digits == old(digits) && exp == old(exp) && nan == old(nan) && negative == old(negative)
    }

    /**
     * Give the coefficient `nwords` words, or `minalloc` if that is more. It fails exactly when it needs more words
     * than there are and gets no memory, and then the number is a NaN. Otherwise the words that still fit are kept.
     */
    method Resize(nwords: nat, memory: bool) returns (ok: bool)
      requires Valid()
      modifies this
      ensures data == old(data) || fresh(data)
      ensures ok <==> Allocation(nwords) <= old(data.Length) || memory
      ensures ok ==> SameButWords() && nwords <= data.Length
      ensures fixed == (old(fixed) && (Allocation(nwords) <= old(data.Length) || !ok))
      ensures ok && Allocation(nwords) >= old(data.Length) ==> Valid() && data[..len] == old(data[..len])
      ensures ok ==> forall i :: 0 <= i < len && i < data.Length ==> data[i] == old(data[i])
      ensures !ok ==> IsEmptyNaN() && Valid() && data == old(data)
    {
      var n := Allocation(nwords);
      if n == data.Length {
        return true;
      }
      if fixed {
        if n > data.Length {
          ok := SwitchToDynamic(n, memory);
          return;
        }
        return true;
      }
      ok := Reallocate(n, memory);
    }

    method SwitchToDynamic(n: nat, memory: bool) returns (ok: bool)
      requires Valid() && data.Length <= n
      modifies this
      ensures ok == memory
      ensures ok ==> SameButWords() && Valid() && !fixed
      ensures ok ==> fresh(data) && data.Length == n && data[..len] == old(data[..len])
      ensures !ok ==> IsEmptyNaN() && data == old(data) && fixed == old(fixed)
    {
      if !memory {
        SetNaN();
        return false;
      }
      Copy(n);
      fixed := false;
      ok := true;
    }

    method Reallocate(n: nat, memory: bool) returns (ok: bool)
      requires Valid()
      modifies this
      ensures (ok <==> n <= old(data.Length) || memory) && fixed == old(fixed)
      ensures ok ==> SameButWords() && n <= data.Length && (data == old(data) || fresh(data))
      ensures ok && old(data.Length) <= n ==> Valid() && data[..len] == old(data[..len])
      ensures ok ==> forall i :: 0 <= i < len && i < data.Length ==> data[i] == old(data[i])
      ensures !ok ==> IsEmptyNaN() && data == old(data)
    {
      ok := true;
      if memory {
        Copy(n);
      } else if n > data.Length {
        SetNaN();
        ok := false;
      }
    }

    /** Move to n new words, as many of the old ones as fit among them. */
    method Copy(n: nat)
      requires Valid()
      modifies this`data
      ensures fresh(data) && data.Length == n
      ensures old(data.Length) <= n ==> data[..len] == old(data[..len])
      ensures forall i :: 0 <= i < n && i < old(data.Length) ==> data[i] == old(data[i])
    {
      var moved := new Word[n];
      var k := if n < data.Length then n else data.Length;
      for i := 0 to k
        modifies moved
        invariant moved[..i] == data[..i]
      {
        moved[i] := data[i];
      }
      assert len <= k ==> moved[..len] == moved[..k][..len] == data[..k][..len] == data[..len];
      forall i | 0 <= i < k ensures moved[i] == data[i] {
        assert moved[i] == moved[..k][i] == data[..k][i];
      }
      data := moved;
    }

    method SetNaN()
      modifies this`nan, this`negative, this`len, this`digits, this`exp
      ensures IsEmptyNaN()
    {
      nan, negative, len, digits, exp := true, false, 0, 0, 0;
    }

    /** Set the coefficient to `prec` nines. Without memory for it the number becomes a NaN. */
    method MaxCoefficient(prec: nat, memory: bool) returns (ok: bool)
      requires Valid() && prec >= 1
      modifies this, data
      ensures Valid() && (data == old(data) || fresh(data))
      ensures ok <==> Allocation((prec + RDIGITS - 1) / RDIGITS) <= old(data.Length) || memory
      ensures ok ==> digits == prec && RDIGITS * (len - 1) < prec <= RDIGITS * len
      ensures ok ==> AllBelow(data[..len], RADIX) && Coefficient() == Pow(10, prec) - 1
      ensures ok ==> exp == old(exp) && nan == old(nan) && negative == old(negative)
      ensures !ok ==> IsEmptyNaN() && data == old(data) && data[..] == old(data[..])
    {
      var n: int := prec / RDIGITS;
      var rdigits := prec - n * RDIGITS;
      n := if rdigits == 0 then n else n + 1;
      ok := Resize(n, memory);
      if !ok {
        return;
      }
      len := n;
      digits := prec;
      WriteNines(data, n, rdigits);
    }

    /** Are all digits of the coefficient nines? */
    method IsAllNine() returns (r: bool)
      requires Valid() && len >= 1 && AllBelow(data[..len], RADIX)
      ensures r <==> data[len - 1] != 0 && exists k: nat :: Coefficient() + 1 == Pow(10, k)
    {
      ghost var s := data[..len];
      NinesOnly(s);
      r := WordIsAllNine(data[len - 1]);
      if r {
        var n: int := len - 1;
        n := n - 1;
        while n >= 0
          invariant -1 <= n < len - 1
          invariant forall i :: n < i < len - 1 ==> s[i] == RADIX - 1
        {
          if data[n] != RADIX - 1 {
            return false;
          }
          n := n - 1;
        }
      }
    }
  }

  /** All lower words are nines and the top word is nines only. */
  ghost predicate AllNineWords(s: seq<Word>)
    requires |s| >= 1
  {
    && (forall i :: 0 <= i < |s| - 1 ==> s[i] == RADIX - 1)
    && IsNines(s[|s| - 1])
  }

  ghost predicate IsNines(word: Word) {
    exists j: nat :: 1 <= j <= RDIGITS && word == Pow(10, j) - 1
  }

  /** Strings of nines are exactly the values one less than a power of ten, the top word not being zero. */
  lemma NinesOnly(s: seq<Word>)
    requires |s| >= 1 && AllBelow(s, RADIX)
    ensures AllNineWords(s) <==> s[|s| - 1] != 0 && exists k: nat :: Value(s, RADIX) + 1 == Pow(10, k)
  {
    var n := |s| - 1;
    if AllNineWords(s) {
      var j: nat :| 1 <= j <= RDIGITS && s[n] == Pow(10, j) - 1;
      PowGrowsStrictly(10, 0, j);
      NinesBelow(s, n, j);
      assert Value(s, RADIX) + 1 == Pow(10, RDIGITS * n + j);
    }
    if s[n] != 0 && exists k: nat :: Value(s, RADIX) + 1 == Pow(10, k) {
      var k: nat :| Value(s, RADIX) + 1 == Pow(10, k);
      OnlyNines(s, n, k);
    }
  }

  /** Number of decimal digits of a word, by comparison with the table. */
  method WordDigits(word: Word) returns (n: nat)
    ensures 1 <= n <= 20
    ensures n < 20 ==> word < PowerOfTen(n)
    ensures n > 1 ==> PowerOfTen(n - 1) <= word
  {
    if word < PowerOfTen(9) {
      if word < PowerOfTen(4) {
        if word < PowerOfTen(2) {
          n := if word < PowerOfTen(1) then 1 else 2;
          return;
        }
        n := if word < PowerOfTen(3) then 3 else 4;
        return;
      }
      if word < PowerOfTen(6) {
        n := if word < PowerOfTen(5) then 5 else 6;
        return;
      }
      if word < PowerOfTen(8) {
        n := if word < PowerOfTen(7) then 7 else 8;
        return;
      }
      return 9;
    }
    if word < PowerOfTen(14) {
      if word < PowerOfTen(11) {
        n := if word < PowerOfTen(10) then 10 else 11;
        return;
      }
      if word < PowerOfTen(13) {
        n := if word < PowerOfTen(12) then 12 else 13;
        return;
      }
      return 14;
    }
    if word < PowerOfTen(18) {
      if word < PowerOfTen(16) {
        n := if word < PowerOfTen(15) then 15 else 16;
        return;
      }
      n := if word < PowerOfTen(17) then 17 else 18;
      return;
    }
    n := if word < PowerOfTen(19) then 19 else 20;
  }

  /** Are all decimal digits of a word nines? */
  method WordIsAllNine(word: Word) returns (r: bool)
    requires word < RADIX
    ensures r <==> IsNines(word)
  {
    var n := WordDigits(word);
    r := word == PowerOfTen(n) - 1;
    NinesOfLength(word, n);
  }

  lemma NinesOfLength(word: Word, n: nat)
    requires 1 <= n <= RDIGITS && word < PowerOfTen(n) && (n > 1 ==> PowerOfTen(n - 1) <= word)
    ensures IsNines(word) <==> word == PowerOfTen(n) - 1
  {
    TableIsPowers(n);
    TableIsPowers(n - 1);
    if IsNines(word) {
      var j: nat :| 1 <= j <= RDIGITS && word == Pow(10, j) - 1;
      if j < n {
        PowGrows(10, j, n - 1);
      } else if n < j {
        PowGrowsStrictly(10, n, j);
      }
    }
  }
}
