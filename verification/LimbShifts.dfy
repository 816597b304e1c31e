/** Shifts of limb sequences by a number of bits below 32 and a number of whole limbs. */
module LimbShifts {
  import opened Arithmetic
  import opened Bits
  import opened Limbs

  lemma LimbSize()
    ensures Pow2(32) == BASE
  {
    assert Pow2(8) == 256;
    Pow2Add(8, 8);
    Pow2Add(16, 16);
  }

  lemma LimbBits(s: nat)
    requires s <= 32
    ensures Pow2(s) * Pow2(32 - s) == BASE
  {
    Pow2Add(s, 32 - s);
    LimbSize();
  }

  /** A limb times one factor of the base: the other factor divides what stays from what leaves. */
  lemma SplitBy(x: Limb, q: int, p: int)
    requires q > 0 && p > 0 && q * p == BASE
    ensures x * q == BASE * (x / p) + q * (x % p) && x * q % BASE == q * (x % p)
    ensures 0 <= x / p < q && q * (x % p) + q <= BASE
  {
    var h, l := x / p, x % p;
    Distribute(q, p * h, l);
    Associate(q, p, h);
    MulMono(q, l + 1, p);
    Distribute(q, l, 1);
    QuotientBelow(x, q, p);
    MulMono(q, 0, l);
    DivModIs(q * x, BASE, h, q * l);
  }

  lemma {:induction false} LimbPower(k: nat)
    ensures Pow2(32 * k) == Power(k)
  {
    if k > 0 {
      LimbPower(k - 1);
      Pow2Add(32, 32 * (k - 1));
      LimbSize();
    }
  }

  // ---------------------------------------------------------------- left

  /** x << s, truncated to a limb, and the bits that go to the next limb. */
  function Low(x: Limb, s: nat): Limb {
    x * Pow2(s) % BASE
  }

  function High(x: Limb, s: nat): (r: Limb)
    requires s <= 32
  {
    DivBelow(x, Pow2(32 - s));
    x / Pow2(32 - s)
  }

  lemma DivBelow(x: int, q: int)
    requires x >= 0 && q >= 1
    ensures 0 <= x / q <= x
  {
    MulMono(x / q, 1, q);
  }

  lemma LimbSplit(x: Limb, s: nat)
    requires s < 32
    ensures x * Pow2(s) == BASE * High(x, s) + Low(x, s)
    ensures Low(x, s) == Pow2(s) * (x % Pow2(32 - s)) && High(x, s) < Pow2(s) && Low(x, s) + Pow2(s) <= BASE
  {
    LimbBits(s);
    SplitBy(x, Pow2(s), Pow2(32 - s));
  }

  /** A limb of a left shift: what stays of this limb and what comes from the one below. */
  function ShlDigit(a: seq<Limb>, s: nat, i: nat): (r: Limb)
    requires i < |a| && s < 32
  {
    LimbSplit(a[i], s);
    if i > 0 then LimbSplit(a[i - 1], s); Low(a[i], s) + High(a[i - 1], s) else Low(a[i], s)
  }

  function ShlDigits(a: seq<Limb>, s: nat, n: nat): (r: seq<Limb>)
    requires n <= |a| && s < 32
    ensures |r| == n
  {
    seq(n, i requires 0 <= i < n => ShlDigit(a, s, i))
  }

  lemma {:induction false} ShlValue(a: seq<Limb>, s: nat, n: nat)
    requires n <= |a| && s < 32
    ensures Val(ShlDigits(a, s, n)) + Power(n) * (if n == 0 then 0 else High(a[n - 1], s)) == Pow2(s) * Val(a[..n])
  {
    if n > 0 {
      var i := n - 1;
      ShlValue(a, s, i);
      LimbSplit(a[i], s);
      var below := if i == 0 then 0 else High(a[i - 1], s);
      if i > 0 {
        LimbSplit(a[i - 1], s);
      }
      ValSnoc(ShlDigits(a, s, n), i);
      assert ShlDigits(a, s, n)[..i] == ShlDigits(a, s, i) && ShlDigits(a, s, n)[..n] == ShlDigits(a, s, n);
      ValSnoc(a, i);
      ShlStep(Power(i), Pow2(s), below, Low(a[i], s), High(a[i], s), a[i], Val(ShlDigits(a, s, i)), Val(a[..i]));
    }
  }

  lemma ShlStep(p: int, q: int, below: int, low: int, high: int, x: int, done: int, v: int)
    requires x * q == BASE * high + low && done + p * below == q * v
    ensures done + p * (low + below) + (BASE * p) * high == q * (v + p * x)
  {
    Distribute(p, low, below);
    Associate(BASE, p, high);
    Distribute(q, v, p * x);
    assert q * (p * x) == p * (x * q);
    Distribute(p, BASE * high, low);
    assert p * (BASE * high) == BASE * (p * high);
  }

  function Zeros(n: nat): (r: seq<Limb>)
    ensures |r| == n && Val(r) == 0
  {
    var r: seq<Limb> := seq(n, _ => 0);
    ValZero(r);
    r
  }

  /** The limbs after a left shift by k limbs and s bits. */
  function Shl(a: seq<Limb>, k: nat, s: nat): (r: seq<Limb>)
    requires s < 32
    ensures |r| == |a|
  {
    if k >= |a| then Zeros(|a|) else Zeros(k) + ShlDigits(a, s, |a| - k)
  }

  lemma ShlIsProduct(a: seq<Limb>, k: nat, s: nat)
    requires s < 32
    ensures Val(Shl(a, k, s)) == Wrap(Val(a) * Pow2(32 * k + s), |a|)
  {
    LimbPower(k);
    Pow2Add(32 * k, s);
    var q := ShlLost(a, k, s);
    ValModulo(Shl(a, k, s), Val(a) * (Power(k) * Pow2(s)), q);
  }

  /** What a left shift loses, in units of the modulus. */
  lemma ShlLost(a: seq<Limb>, k: nat, s: nat) returns (q: int)
    requires s < 32
    ensures Val(a) * (Power(k) * Pow2(s)) == Val(Shl(a, k, s)) + Power(|a|) * q
  {
    if k >= |a| {
      PowerAdd(|a|, k - |a|);
      AllOut(Val(a), Power(|a|), Power(k - |a|), Pow2(s));
      q := Power(k - |a|) * (Pow2(s) * Val(a));
    } else {
      var m := |a| - k;
      var d := ShlDigits(a, s, m);
      ShlValue(a, s, m);
      ValAppend(a[..m], a[m..]);
      assert a == a[..m] + a[m..];
      ValAppend(Zeros(k), d);
      PowerAdd(k, m);
      var h := High(a[m - 1], s);
      ShlProduct(Power(k), Power(m), Pow2(s), h, Val(d), Val(a[..m]), Val(a[m..]));
      q := h + Pow2(s) * Val(a[m..]);
    }
  }

  lemma AllOut(v: int, p: int, rest: int, q: int)
    ensures v * ((p * rest) * q) == p * (rest * (q * v))
  {
    Associate(p, rest, q * v);
    Associate(p * rest, q, v);
  }

  lemma ShlProduct(pk: int, pm: int, q: int, h: int, d: int, lo: int, hi: int)
    requires d + pm * h == q * lo
    ensures (lo + pm * hi) * (pk * q) == pk * d + (pk * pm) * (h + q * hi)
  {
    Distribute(q, lo, pm * hi);
    assert (lo + pm * hi) * (pk * q) == pk * (q * (lo + pm * hi));
    assert q * (pm * hi) == pm * (q * hi);
    Distribute(pm, h, q * hi);
    Distribute(pk, d, pm * (h + q * hi));
    Associate(pk, pm, h + q * hi);
  }

  // ---------------------------------------------------------------- right

  /** A limb of a right shift: what stays of this limb and what comes from the one above. */
  function ShrDigit(a: seq<Limb>, s: nat, i: nat): (r: Limb)
    requires i < |a| && s < 32
  {
    ShrFits(a[i], if i + 1 < |a| then a[i + 1] else 0, s);
    a[i] / Pow2(s) + if i + 1 < |a| then Low(a[i + 1], 32 - s) else 0
  }

  lemma ShrFits(x: Limb, above: Limb, s: nat)
    requires s < 32
    ensures 0 <= x / Pow2(s) < Pow2(32 - s)
    ensures Low(above, 32 - s) == Pow2(32 - s) * (above % Pow2(s))
    ensures 0 <= x / Pow2(s) + Low(above, 32 - s) < BASE
  {
    LimbBits(s);
    SplitBy(above, Pow2(32 - s), Pow2(s));
    QuotientBelow(x, Pow2(32 - s), Pow2(s));
  }

  function ShrDigits(a: seq<Limb>, s: nat): (r: seq<Limb>)
    requires s < 32
    ensures |r| == |a|
  {
    seq(|a|, i requires 0 <= i < |a| => ShrDigit(a, s, i))
  }

  lemma ShrHead(a: seq<Limb>, s: nat)
    requires a != [] && s < 32
    ensures ShrDigits(a, s)[0] == a[0] / Pow2(s) + Pow2(32 - s) * (if |a| > 1 then a[1] % Pow2(s) else 0)
    ensures ShrDigits(a, s)[1..] == ShrDigits(a[1..], s)
  {
    if |a| > 1 {
      ShrFits(a[0], a[1], s);
    }
  }

  lemma {:induction false} ShrValue(a: seq<Limb>, s: nat)
    requires s < 32
    ensures Val(a) == Pow2(s) * Val(ShrDigits(a, s)) + if a == [] then 0 else a[0] % Pow2(s)
  {
    if a != [] {
      ShrValue(a[1..], s);
      ShrHead(a, s);
      LimbBits(s);
      ShrStep(Pow2(s), Pow2(32 - s), a[0], if |a| > 1 then a[1] % Pow2(s) else 0, Val(ShrDigits(a[1..], s)), Val(a[1..]));
    }
  }

  lemma ShrStep(q: int, p: int, x: int, carry: int, rest: int, v: int)
    requires q > 0 && q * p == BASE && v == q * rest + carry
    ensures x + BASE * v == q * (x / q + p * carry + BASE * rest) + x % q
  {
    Distribute(q, x / q + p * carry, BASE * rest);
    Distribute(q, x / q, p * carry);
    Associate(q, p, carry);
    assert q * (BASE * rest) == BASE * (q * rest);
  }

  /** The limbs after a right shift by k limbs and s bits. */
  function Shr(a: seq<Limb>, k: nat, s: nat): (r: seq<Limb>)
    requires s < 32
    ensures |r| == |a|
  {
    if k >= |a| then Zeros(|a|) else ShrDigits(a[k..], s) + Zeros(k)
  }

  lemma ShrIsQuotient(a: seq<Limb>, k: nat, s: nat)
    requires s < 32
    ensures Val(Shr(a, k, s)) == Val(a) / Pow2(32 * k + s)
  {
    LimbPower(k);
    Pow2Add(32 * k, s);
    if k >= |a| {
      ShrAll(a, k, s);
    } else {
      ShrSome(a, k, s);
    }
  }

  /** All limbs are shifted out. */
  lemma ShrAll(a: seq<Limb>, k: nat, s: nat)
    requires s < 32 && k >= |a|
    ensures Val(Shr(a, k, s)) == Val(a) / (Power(k) * Pow2(s))
  {
    ValBound(a);
    PowerAdd(|a|, k - |a|);
    MulMono(Power(|a|), 1, Power(k - |a|));
    MulMono(Power(k), 1, Pow2(s));
    DivModIs(Val(a), Power(k) * Pow2(s), 0, Val(a));
  }

  lemma ShrSome(a: seq<Limb>, k: nat, s: nat)
    requires s < 32 && k < |a|
    ensures Val(Shr(a, k, s)) == Val(a) / (Power(k) * Pow2(s))
  {
    ValAppend(a[..k], a[k..]);
    assert a == a[..k] + a[k..];
    ValBound(a[..k]);
    ShrValue(a[k..], s);
    ZerosAbove(ShrDigits(a[k..], s), k);
    ShiftedOut(Val(a), Val(a[..k]), Power(k), Val(a[k..]), Pow2(s), Val(Shr(a, k, s)), a[k] % Pow2(s));
  }

  /** A number of which low limbs and low bits are cut off. */
  lemma ShiftedOut(x: int, lo: int, p: int, hi: int, q: int, v: int, r: int)
    requires x == lo + p * hi && hi == q * v + r && 0 <= lo < p && 0 <= r < q
    ensures v == x / (p * q)
  {
    QuotientTwice(p, q, lo, r, v);
  }

  lemma ZerosAbove(a: seq<Limb>, k: nat)
    ensures Val(a + Zeros(k)) == Val(a)
  {
    ValAppend(a, Zeros(k));
  }

  lemma QuotientTwice(p: int, q: int, lo: int, r: int, v: int)
    requires 0 <= lo < p && 0 <= r < q
    ensures (lo + p * (q * v + r)) / (p * q) == v
  {
    Distribute(p, q * v, r);
    Associate(p, q, v);
    MulMono(p, r + 1, q);
    Distribute(p, r, 1);
    MulMono(p, 0, r);
    DivModIs(lo + p * (q * v + r), p * q, v, lo + p * r);
  }
}
