/** Little-endian digit strings and the numbers they stand for. */
module Digits {
  import opened Words

  function Pow(b: nat, n: nat): (p: nat)
    ensures b > 0 ==> p > 0
  {
    if n == 0 then 1 else b * Pow(b, n - 1)
  }

  /** The number a digit string stands for, least significant digit first. */
  function Value(s: seq<Word>, b: nat): nat {
    if s == [] then 0 else s[0] + b * Value(s[1..], b)
  }

  predicate AllBelow(s: seq<Word>, b: nat) {
    forall i :: 0 <= i < |s| ==> s[i] < b
  }

  lemma {:induction false} PowAdds(b: nat, i: nat, j: nat)
    ensures Pow(b, i + j) == Pow(b, i) * Pow(b, j)
  {
    if i > 0 {
      PowAdds(b, i - 1, j);
      MulAssociates(b, Pow(b, i - 1), Pow(b, j));
    }
  }

  lemma {:induction false} ValueOfConcat(s: seq<Word>, t: seq<Word>, b: nat)
    ensures Value(s + t, b) == Value(s, b) + Pow(b, |s|) * Value(t, b)
  {
    if s == [] {
      assert s + t == t;
    } else {
      var r, p, vt := Value(s[1..], b), Pow(b, |s| - 1), Value(t, b);
      assert (s + t)[1..] == s[1..] + t;
      ValueOfConcat(s[1..], t, b);
      Distribute(b, r, p, vt);
    }
  }

  lemma Distribute(b: nat, r: nat, p: nat, x: nat)
    ensures b * (r + p * x) == b * r + b * p * x
  {
    MulAssociates(b, p, x);
  }

  lemma ValueOfAppend(s: seq<Word>, x: Word, b: nat)
    ensures Value(s + [x], b) == Value(s, b) + Pow(b, |s|) * x
  {
    ValueOfConcat(s, [x], b);
  }

  lemma {:induction false} ValueBelowPow(s: seq<Word>, b: nat)
    requires AllBelow(s, b)
    ensures Value(s, b) < Pow(b, |s|)
  {
    if s != [] {
      var r, p := Value(s[1..], b), Pow(b, |s| - 1);
      ValueBelowPow(s[1..], b);
      MulMonotone(b, r + 1, p);
      assert b * (r + 1) == b * r + b;
    }
  }

  /** Digit strings of one length are determined by their value. */
  lemma {:induction false} ValueDeterminesDigits(s: seq<Word>, t: seq<Word>, b: nat)
    requires |s| == |t| && AllBelow(s, b) && AllBelow(t, b)
    requires Value(s, b) == Value(t, b)
    ensures s == t
  {
    if s != [] {
      DivModUnique(Value(s, b), b, Value(s[1..], b), s[0]);
      DivModUnique(Value(t, b), b, Value(t[1..], b), t[0]);
      ValueDeterminesDigits(s[1..], t[1..], b);
      assert s == [s[0]] + s[1..] && t == [t[0]] + t[1..];
    }
  }

  function Zeros(n: nat): (z: seq<Word>)
    ensures |z| == n
  {
    if n == 0 then [] else [0] + Zeros(n - 1)
  }

  lemma {:induction false} ValueOfZeros(n: nat, b: nat)
    ensures Value(Zeros(n), b) == 0
  {
    if n > 0 {
      assert Zeros(n)[1..] == Zeros(n - 1);
      ValueOfZeros(n - 1, b);
    }
  }
}
