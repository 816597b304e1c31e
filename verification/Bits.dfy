/** Bits of bytes, and powers of two. */
module Bits {

  /** 1 << i, for a bit of a byte. */
  function Mask(i: int): bv8
    requires 0 <= i < 8
  {
    match i
    case 0 => 1
    case 1 => 2
    case 2 => 4
    case 3 => 8
    case 4 => 16
    case 5 => 32
    case 6 => 64
    case 7 => 128
  }

  predicate BitAt(a: bv8, i: int)
    requires 0 <= i < 8
  {
    (a & Mask(i)) != 0
  }

  lemma SetBit(a: bv8, i: int, j: int)
    requires 0 <= i < 8 && 0 <= j < 8
    ensures BitAt(a | Mask(i), j) <==> i == j || BitAt(a, j)
  {
  }

  lemma UnsetBit(a: bv8, i: int, j: int)
    requires 0 <= i < 8 && 0 <= j < 8
    ensures BitAt(a & !Mask(i), j) <==> i != j && BitAt(a, j)
  {
  }

  lemma AllOnes(i: int)
    requires 0 <= i < 8
    ensures BitAt(0xFF, i)
  {
  }

  function Pow2(n: nat): (p: nat)
    ensures p >= 1
  {
    if n == 0 then 1 else 2 * Pow2(n - 1)
  }

  /** Bitwise operators on numbers. */
  function BitAnd(a: nat, b: nat): (r: nat)
    ensures r <= a && r <= b
  {
    if a == 0 || b == 0 then 0
    else 2 * BitAnd(a / 2, b / 2) + if a % 2 == 1 && b % 2 == 1 then 1 else 0
  }

  lemma {:induction false} BitAndSelf(a: nat)
    ensures BitAnd(a, a) == a
  {
    if a > 0 {
      BitAndSelf(a / 2);
    }
  }

  function BitOr(a: nat, b: nat): (r: nat) {
    if a == 0 then b else if b == 0 then a
    else 2 * BitOr(a / 2, b / 2) + if a % 2 == 1 || b % 2 == 1 then 1 else 0
  }

  /** d shifted left by k digits. */
  function Doubled(d: int, k: nat): int {
    if k == 0 then d else 2 * Doubled(d, k - 1)
  }

  lemma {:induction false} DoubledIs(d: int, k: nat)
    ensures Doubled(d, k) == d * Pow2(k)
  {
    if k > 0 {
      DoubledIs(d, k - 1);
      assert d * (2 * Pow2(k - 1)) == 2 * (d * Pow2(k - 1));
    }
  }

  lemma OrUnfold(a: nat, b: nat)
    ensures BitOr(a, b) == 2 * BitOr(a / 2, b / 2) + if a % 2 == 1 || b % 2 == 1 then 1 else 0
    ensures BitOr(a, b) == BitOr(b, a)
    decreases a
  {
    if a > 0 {
      OrUnfold(a / 2, b / 2);
    }
  }

  /** Digits above those of b stay as they are. */
  lemma {:induction false} OrLowDoubled(a: nat, b: nat, s: nat, k: nat)
    requires a < Pow2(s) && b < Pow2(s)
    ensures Doubled(k, s) >= 0 && BitOr(a + Doubled(k, s), b) == BitOr(a, b) + Doubled(k, s)
  {
    if s > 0 {
      OrLowDoubled(a / 2, b / 2, s - 1, k);
      var y := Doubled(k, s - 1);
      OrUnfold(a + 2 * y, b);
      OrUnfold(a, b);
      assert (a + 2 * y) / 2 == a / 2 + y && (a + 2 * y) % 2 == a % 2;
    }
  }

  lemma OrLow(a: nat, b: nat, s: nat, k: nat)
    requires a < Pow2(s) && b < Pow2(s)
    ensures BitOr(a + Pow2(s) * k, b) == BitOr(a, b) + Pow2(s) * k
  {
    OrLowDoubled(a, b, s, k);
    DoubledIs(k, s);
  }

  /** Numbers without common digits: their union is their sum. */
  lemma OrDisjoint(a: nat, s: nat, k: nat)
    requires a < Pow2(s)
    ensures BitOr(a, Pow2(s) * k) == a + Pow2(s) * k == BitOr(Pow2(s) * k, a)
  {
    OrLow(0, a, s, k);
    OrUnfold(a, Pow2(s) * k);
  }

  /** The lowest k digits are zero. */
  predicate Even(x: nat, k: nat) {
    k == 0 || (x % 2 == 0 && Even(x / 2, k - 1))
  }

  lemma {:induction false} ZeroEven(k: nat)
    ensures Even(0, k)
  {
    if k > 0 {
      ZeroEven(k - 1);
    }
  }

  /** Setting the highest of the digits that are zero. */
  lemma {:induction false} SetDigit(x: nat, k: nat, w: nat)
    requires Even(x, k + 1) && k < w && x < Pow2(w)
    ensures BitOr(x, Pow2(k)) == x + Pow2(k) < Pow2(w) && Even(x + Pow2(k), k) && Even(x, k)
    decreases k
  {
    OrUnfold(x, Pow2(k));
    if k > 0 {
      SetDigit(x / 2, k - 1, w - 1);
      assert (x + Pow2(k)) / 2 == x / 2 + Pow2(k - 1);
    }
  }

  lemma {:induction false} Pow2Add(m: nat, n: nat)
    ensures Pow2(m + n) == Pow2(m) * Pow2(n)
  {
    if m > 0 {
      Pow2Add(m - 1, n);
      assert (2 * Pow2(m - 1)) * Pow2(n) == 2 * (Pow2(m - 1) * Pow2(n));
    }
  }

  lemma {:induction false} Pow2Mono(m: nat, n: nat)
    requires m <= n
    ensures Pow2(m) <= Pow2(n)
  {
    if m < n {
      Pow2Mono(m, n - 1);
    }
  }
}
