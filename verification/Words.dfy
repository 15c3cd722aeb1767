/** Machine words as the transpiled code uses them: naturals with every operation wrapped to its width. */
module Words {

  const HALF := 0x1_0000_0000
  const FULL := 0x1_0000_0000_0000_0000
  const SIGN := 0x8000_0000_0000_0000
  const ALL_ONES := 0xFFFF_FFFF_FFFF_FFFF

  type Half = x: int | 0 <= x < HALF
  type Word = x: int | 0 <= x < FULL

  function Add(a: Word, b: Word): Word { (a + b) % FULL }

  function Sub(a: Word, b: Word): Word { (a - b) % FULL }

  function Mul(a: Word, b: Word): Word { (a * b) % FULL }

  function High(a: Word): Half { a / HALF }

  function Low(a: Word): Half { a % HALF }

  /** Two halves put together, as `uint64(h)<<32 + uint64(l)`. */
  function Join(h: Half, l: Half): Word { h * HALF + l }

  function Pow2(k: nat): (p: nat)
    ensures p > 0
  {
    if k == 0 then 1 else 2 * Pow2(k - 1)
  }

  function Shl(a: Word, s: nat): Word { (a * Pow2(s)) % FULL }

  function Shr(a: Word, s: nat): (r: Word)
  {
    DivShrinks(a, Pow2(s));
    a / Pow2(s)
  }

  /** Bitwise operations, bit by bit from the bottom. */
  function BitAnd(a: nat, b: nat): (r: nat)
    ensures r <= a && r <= b
  {
    if a == 0 || b == 0 then 0
    else 2 * BitAnd(a / 2, b / 2) + (if a % 2 == 1 && b % 2 == 1 then 1 else 0)
  }

  function BitOr(a: nat, b: nat): nat
    decreases a + b
  {
    if a == 0 then b
    else if b == 0 then a
    else 2 * BitOr(a / 2, b / 2) + (if a % 2 == 1 || b % 2 == 1 then 1 else 0)
  }

  // ----- facts about the bitwise operations -----

  lemma DivShrinks(a: nat, p: nat)
    requires p > 0
    ensures 0 <= a / p <= a
  {
    var q := a / p;
    assert a == p * q + a % p;
    if q < 0 {
      MulMonotone(p, q, -1);
    } else {
      MulMonotone(q, 1, p);
    }
  }

  lemma MulMonotone(c: nat, x: int, y: int)
    requires x <= y
    ensures c * x <= c * y
  {
  }

  lemma MulAssociates(a: int, b: int, c: int)
    ensures a * (b * c) == a * b * c
  {
  }

  lemma StepOfProduct(a: int, b: int)
    ensures (a + 1) * b == a * b + b
  {
  }

  lemma DivModDefinition(a: nat, d: nat)
    requires d > 0
    ensures a == (a / d) * d + a % d && 0 <= a % d < d && 0 <= a / d
  {
    DivShrinks(a, d);
  }

  lemma {:induction false} Pow2Splits(a: nat, b: nat)
    ensures Pow2(a + b) == Pow2(a) * Pow2(b)
  {
    if a > 0 {
      Pow2Splits(a - 1, b);
    }
  }

  /** A mask of k low ones keeps the k low bits. */
  lemma {:induction false} AndLowMask(a: nat, k: nat)
    ensures BitAnd(a, Pow2(k) - 1) == a % Pow2(k)
  {
    if k == 0 || a == 0 {
      AndNothing(a, k);
    } else {
      var p := Pow2(k - 1);
      assert Pow2(k) == 2 * p;
      hide Pow2, BitAnd;
      AndLowMask(a / 2, k - 1);
      ModOfDouble(a, p);
      AndStep(a, p);
    }
  }

  lemma AndNothing(a: nat, k: nat)
    requires k == 0 || a == 0
    ensures BitAnd(a, Pow2(k) - 1) == a % Pow2(k)
  {
    if k == 0 {
      assert Pow2(k) == 1;
    } else {
      SmallMod(0, Pow2(k));
    }
  }

  lemma AndStep(a: nat, p: nat)
    requires a > 0 && p > 0
    ensures BitAnd(a, 2 * p - 1) == 2 * BitAnd(a / 2, p - 1) + a % 2
  {
    assert (2 * p - 1) / 2 == p - 1 && (2 * p - 1) % 2 == 1;
  }

  lemma ModOfDouble(a: nat, p: nat)
    requires p > 0
    ensures a % (2 * p) == 2 * ((a / 2) % p) + a % 2
  {
    var h := a / 2;
    var q, r := h / p, h % p;
    assert a == 2 * p * q + (2 * r + a % 2);
    DivModUnique(a, 2 * p, q, 2 * r + a % 2);
  }

  lemma DivModUnique(a: int, d: int, q: int, r: int)
    requires 0 <= r < d
    requires a == d * q + r
    ensures a / d == q && a % d == r
  {
    var q', r' := a / d, a % d;
    assert a == d * q' + r';
    if q > q' {
      MulMonotone(d, q' + 1, q);
    } else if q < q' {
      MulMonotone(d, q + 1, q');
    }
  }

  /** Oring a number below 2^k into one whose k low bits are clear is adding it. */
  lemma {:induction false} OrIsAddWhenDisjoint(a: nat, b: nat, k: nat)
    requires b < Pow2(k)
    ensures BitOr(a * Pow2(k), b) == a * Pow2(k) + b
  {
    if k > 0 && a > 0 && b > 0 {
      var p := Pow2(k - 1);
      assert a * Pow2(k) == 2 * (a * p);
      assert a * p > 0;
      assert (2 * (a * p)) / 2 == a * p && (2 * (a * p)) % 2 == 0;
      OrIsAddWhenDisjoint(a, b / 2, k - 1);
    }
  }

  /** The sign bit of a word is set exactly when the word is at least 2^63. */
  lemma SignBit(a: Word)
    ensures BitAnd(a, SIGN) != 0 <==> a >= SIGN
  {
    Pow2Of63();
    AndTopBit(a, 63);
  }

  lemma {:induction false} AndTopBit(a: nat, k: nat)
    requires a < 2 * Pow2(k)
    ensures BitAnd(a, Pow2(k)) == if a >= Pow2(k) then Pow2(k) else 0
  {
    if k == 0 {
      assert BitAnd(0, 0) == 0;
    } else {
      var p := Pow2(k - 1);
      assert Pow2(k) == 2 * p && (2 * p) / 2 == p && (2 * p) % 2 == 0;
      AndTopBit(a / 2, k - 1);
    }
  }

  lemma Pow2Of63()
    ensures Pow2(63) == SIGN
    ensures Pow2(64) == FULL
    ensures Pow2(32) == HALF
  {
    assert Pow2(8) == 256;
    Pow2Splits(8, 8);
    Pow2Splits(16, 16);
    Pow2Splits(32, 31);
    Pow2Splits(16, 15);
    assert Pow2(31) == Pow2(16) * Pow2(15);
    assert Pow2(15) * 2 == Pow2(16);
    assert Pow2(64) == 2 * Pow2(63);
  }

  /** Masking with no ones or with all ones keeps nothing or everything. */
  lemma AndMask(mask: Word, a: Word)
    requires mask == 0 || mask == ALL_ONES
    ensures BitAnd(mask, a) == if mask == 0 then 0 else a
  {
    if mask == ALL_ONES {
      Pow2Of63();
      AndAllOnes(mask, a, 64);
    }
  }

  lemma AndAllOnes(mask: nat, a: nat, k: nat)
    requires mask == Pow2(k) - 1 && a < Pow2(k)
    ensures BitAnd(mask, a) == a
  {
    AndCommutes(mask, a);
    AndLowMask(a, k);
    SmallMod(a, Pow2(k));
  }

  lemma {:induction false} AndCommutes(a: nat, b: nat)
    ensures BitAnd(a, b) == BitAnd(b, a)
  {
    if a != 0 && b != 0 {
      AndCommutes(a / 2, b / 2);
    }
  }

  // ----- the exact 64 x 64 -> 128 product -----

  /** Schoolbook product of two words over 32-bit halves. */
  method MulWords(a: Word, b: Word) returns (hi: Word, lo: Word)
    ensures hi * FULL + lo == a * b
  {
    var ah, al, bh, bl := High(a), Low(a), High(b), Low(b);
    var hl := MulHalves(al, bl, 0, 0);
    ghost var s0 := hl;
    var w0, carry := Low(hl), High(hl);
    hl := MulHalves(ah, bl, carry, 0);
    ghost var s1 := hl;
    var w1, w2 := Low(hl), High(hl);
    hl := MulHalves(al, bh, w1, 0);
    ghost var s2 := hl;
    w1, carry := Low(hl), High(hl);
    hl := MulHalves(ah, bh, w2, carry);
    w2 := Low(hl);
    var w3 := High(hl);
    hi, lo := Join(w3, w2), Join(w1, w0);
    calc {
      hi * FULL + lo;
      hl * FULL + w1 * HALF + w0;
      (ah * bh + High(s1)) * FULL + s2 * HALF + w0;
      ah * bh * FULL + (High(s1) * HALF + Low(s1)) * HALF + al * bh * HALF + w0;
      ah * bh * FULL + (ah * bl + High(s0)) * HALF + al * bh * HALF + Low(s0);
      ah * bh * FULL + (ah * bl + al * bh) * HALF + al * bl;
      { ProductOfHalves(a, b, ah, al, bh, bl); }
      a * b;
    }
  }

  /** One partial product of two halves plus up to two more halves: it never wraps. */
  method MulHalves(x: Half, y: Half, c: Half, d: Half) returns (hl: Word)
    ensures hl == x * y + c + d
  {
    HalfProduct(x, y);
    hl := AddTwo(Mul(x, y), c, d);
  }

  function AddTwo(p: Word, c: Half, d: Half): (s: Word)
    ensures p <= (HALF - 1) * (HALF - 1) ==> s == p + c + d
  {
    Add(Add(p, c), d)
  }

  lemma HalfProduct(x: Half, y: Half)
    ensures 0 <= x * y <= (HALF - 1) * (HALF - 1) && Mul(x, y) == x * y
  {
    MulMonotone(x, 0, y);
    MulMonotone(x, y, HALF - 1);
    MulMonotone(HALF - 1, x, HALF - 1);
    SmallMod(x * y, FULL);
  }

  lemma SmallMod(a: nat, b: nat)
    requires a < b
    ensures a % b == a
  {
  }

  lemma ProductOfHalves(a: Word, b: Word, ah: Half, al: Half, bh: Half, bl: Half)
    requires a == ah * HALF + al && b == bh * HALF + bl
    ensures a * b == ah * bh * FULL + (ah * bl + al * bh) * HALF + al * bl
  {
    calc {
      a * b;
      (ah * HALF + al) * (bh * HALF + bl);
      ah * HALF * (bh * HALF) + ah * HALF * bl + al * (bh * HALF) + al * bl;
      ah * bh * FULL + (ah * bl + al * bh) * HALF + al * bl;
    }
  }

  /** Add a word to a two-word number; the carry goes into the high word. */
  method AddCarry(x: Word, hi: Word, lo: Word) returns (hi': Word, lo': Word)
    requires hi * FULL + lo + x < FULL * FULL
    ensures hi' * FULL + lo' == hi * FULL + lo + x
  {
    hi', lo' := hi, Add(x, lo);
    if lo' < x {
      hi' := Add(hi', 1);
    }
  }
}
