/** Numbers as sequences of 32-bit limbs, least significant first, and what limb steps compute. */
module Limbs {
  import opened Arithmetic

  const BASE: int := 0x1_0000_0000

  type Limb = x: int | 0 <= x < 0x1_0000_0000

  function Power(n: nat): (p: nat)
    ensures p >= 1
  {
    if n == 0 then 1 else BASE * Power(n - 1)
  }

  function Val(s: seq<Limb>): nat {
    if s == [] then 0 else s[0] + BASE * Val(s[1..])
  }

  // ---------------------------------------------------------------- values

  lemma {:induction false} ValBound(s: seq<Limb>)
    ensures Val(s) < Power(|s|)
  {
    if s != [] {
      ValBound(s[1..]);
    }
  }

  lemma {:induction false} ValAppend(s: seq<Limb>, t: seq<Limb>)
    ensures Val(s + t) == Val(s) + Power(|s|) * Val(t)
  {
    if s == [] {
      assert s + t == t;
    } else {
      ValAppend(s[1..], t);
      assert (s + t)[1..] == s[1..] + t;
      Associate(BASE, Power(|s| - 1), Val(t));
    }
  }

  lemma ValSnoc(s: seq<Limb>, i: nat)
    requires i < |s|
    ensures Val(s[..i + 1]) == Val(s[..i]) + Power(i) * s[i]
  {
    ValAppend(s[..i], [s[i]]);
    assert s[..i + 1] == s[..i] + [s[i]];
    assert [s[i]][1..] == [];
  }

  lemma {:induction false} PowerAdd(m: nat, n: nat)
    ensures Power(m + n) == Power(m) * Power(n)
  {
    if m > 0 {
      PowerAdd(m - 1, n);
      Associate(BASE, Power(m - 1), Power(n));
    }
  }

  /** x modulo the power of a width, digit by digit. */
  function Wrap(x: int, n: nat): (r: nat)
    decreases n
  {
    if n == 0 then 0 else x % BASE + BASE * Wrap(x / BASE, n - 1)
  }

  lemma {:induction false} WrapIsModulo(x: int, n: nat)
    ensures Wrap(x, n) == x % Power(n)
    decreases n
  {
    if n > 0 {
      WrapIsModulo(x / BASE, n - 1);
      DigitsOfModulus(x, Power(n - 1));
    }
  }

  lemma DigitsOfModulus(x: int, p: int)
    requires p > 0
    ensures x % (BASE * p) == x % BASE + BASE * (x / BASE % p)
  {
    MulModulus(x / BASE, p, x % BASE);
    assert x == BASE * (x / BASE) + x % BASE;
  }

  lemma MulModulus(x: int, p: int, r: int)
    requires p > 0 && 0 <= r < BASE
    ensures (BASE * x + r) % (BASE * p) == BASE * (x % p) + r
  {
    Associate(BASE, p, x / p);
    DivModIs(BASE * x + r, BASE * p, x / p, BASE * (x % p) + r);
  }

  lemma {:induction false} WrapAdd(x: int, y: int, n: nat)
    ensures Wrap(x + Wrap(y, n), n) == Wrap(x + y, n)
    decreases n
  {
    if n > 0 {
      var a := x + y % BASE;
      WrapAdd(a / BASE, y / BASE, n - 1);
      AddBase(a, Wrap(y / BASE, n - 1));
      AddBase(a, y / BASE);
      assert x + y == a + BASE * (y / BASE);
    }
  }

  lemma AddBase(a: int, w: int)
    ensures (a + BASE * w) % BASE == a % BASE && (a + BASE * w) / BASE == a / BASE + w
  {
  }

  /** A value is determined modulo the power of its width. */
  lemma ValModulo(s: seq<Limb>, x: int, q: int)
    requires x == Val(s) + Power(|s|) * q
    ensures Val(s) == Wrap(x, |s|)
  {
    ValBound(s);
    DivModIs(x, Power(|s|), q, Val(s));
    WrapIsModulo(x, |s|);
  }

  lemma {:induction false} WrapOne(n: nat)
    ensures Wrap(Power(n), n) == 0
  {
    if n > 0 {
      WrapOne(n - 1);
    }
  }

  lemma {:induction false} ValZero(s: seq<Limb>)
    requires forall i :: 0 <= i < |s| ==> s[i] == 0
    ensures Val(s) == 0
  {
    if s != [] {
      ValZero(s[1..]);
    }
  }

  // ---------------------------------------------------------------- rows

  /** x + m * y + carry, limb by limb from the low end, and the carry out. */
  function Row(x: seq<Limb>, y: seq<Limb>, m: Limb, carry: Limb): (r: (seq<Limb>, Limb))
    requires |x| == |y|
    ensures |r.0| == |x|
  {
    if x == [] then ([], carry)
    else
      RowFits(carry, x[0], m, y[0]);
      var n := carry + x[0] + m * y[0];
      var (digits, out) := Row(x[1..], y[1..], m, n / BASE);
      ([n % BASE] + digits, out)
  }

  /** A product of two limbs with two more limbs added fits in 64 bits. */
  lemma RowFits(carry: Limb, x: Limb, m: Limb, y: Limb)
    ensures 0 <= carry + x + m * y < 0x1_0000_0000_0000_0000
    ensures 0 <= (carry + x + m * y) / BASE < BASE
  {
    MulMono(m, y, BASE - 1);
    MulMono(BASE - 1, m, BASE - 1);
    MulMono(m, 0, y);
  }

  lemma {:induction false} RowValue(x: seq<Limb>, y: seq<Limb>, m: Limb, carry: Limb)
    requires |x| == |y|
    ensures var (digits, out) := Row(x, y, m, carry);
            Val(digits) + Power(|x|) * out == Val(x) + m * Val(y) + carry
  {
    if x != [] {
      RowFits(carry, x[0], m, y[0]);
      var n := carry + x[0] + m * y[0];
      RowValue(x[1..], y[1..], m, n / BASE);
      var (digits, out) := Row(x[1..], y[1..], m, n / BASE);
      RowArithmetic(carry, x[0], m, y[0], n, Val(x[1..]), Val(y[1..]), Val(digits), Power(|x| - 1), out);
      ValFirst(n % BASE, digits);
    }
  }

  lemma ValFirst(x: Limb, s: seq<Limb>)
    ensures Val([x] + s) == x + BASE * Val(s)
  {
    assert ([x] + s)[1..] == s;
  }

  lemma RowArithmetic(carry: int, x: int, m: int, y: int, n: int, vx: int, vy: int, digits: int, p: int, out: int)
    requires n == carry + x + m * y && digits + p * out == vx + m * vy + n / BASE
    ensures n % BASE + BASE * digits + (BASE * p) * out == (x + BASE * vx) + m * (y + BASE * vy) + carry
  {
    Associate(BASE, p, out);
    Distribute(m, y, BASE * vy);
    assert m * (BASE * vy) == BASE * (m * vy);
  }

  // ---------------------------------------------------------------- order

  /** The highest limb that differs decides. */
  lemma {:induction false} ValLess(s: seq<Limb>, t: seq<Limb>, i: nat)
    requires i < |s| == |t| && s[i] < t[i] && s[i + 1..] == t[i + 1..]
    ensures Val(s) < Val(t)
  {
    if i > 0 {
      assert s[1..][i..] == s[i + 1..] && t[1..][i..] == t[i + 1..];
      ValLess(s[1..], t[1..], i - 1);
    }
  }
}
