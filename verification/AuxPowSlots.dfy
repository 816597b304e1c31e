/**
 * The slots of merge-mined chains (CAuxPow::getExpectedIndex in src/auxpow.cpp): the slot as one remainder, and exactly
 * which chains share a slot.
 */
module AuxPowSlots {
  import opened Arithmetic
  import opened AuxPow
  import opened Bits

  // ---------------------------------------------------------------- remainders

  /** Numbers with one remainder. */
  ghost predicate Same(x: int, y: int, m: nat)
    requires m > 0
  {
    exists k :: x == y + m * k
  }

  lemma SameIff(x: int, y: int, m: nat)
    requires m > 0
    ensures Same(x, y, m) <==> x % m == y % m
  {
    if Same(x, y, m) {
      var k :| x == y + m * k;
      Distribute(m, y / m, k);
      DivModIs(x, m, y / m + k, y % m);
    }
    if x % m == y % m {
      Distribute(m, y / m, x / m - y / m);
      assert x == y + m * (x / m - y / m);
    }
  }

  lemma SameTrans(x: int, y: int, z: int, m: nat)
    requires m > 0 && Same(x, y, m) && Same(y, z, m)
    ensures Same(x, z, m)
  {
    SameIff(x, y, m);
    SameIff(y, z, m);
    SameIff(x, z, m);
  }

  lemma Remainder(x: int, m: nat)
    requires m > 0
    ensures Same(x % m, x, m)
  {
    assert x % m == x + m * (-(x / m));
  }

  /** A remainder by a multiple of m has the same remainder by m. */
  lemma LargerRemainder(x: int, m: nat, n: nat)
    requires m > 0 && n > 0
    ensures m * n > 0 && Same(x % (m * n), x, m)
  {
    MulMono(m, 1, n);
    Remainder(x, m * n);
    var k :| x % (m * n) == x + (m * n) * k;
    Associate(m, n, k);
    assert x % (m * n) == x + m * (n * k);
  }

  /** A step of the generator keeps what is the same. */
  lemma StepSame(x: int, y: int, a: int, b: int, m: nat)
    requires m > 0 && Same(x, y, m)
    ensures Same(x * a + b, y * a + b, m)
  {
    var k :| x == y + m * k;
    assert x * a == y * a + m * k * a;
    Associate(m, k, a);
    assert x * a + b == y * a + b + m * (k * a);
  }

  lemma SumSame(x: int, y: int, b: int, m: nat)
    requires m > 0
    ensures Same(x + b, y + b, m) <==> Same(x, y, m)
  {
    if Same(x + b, y + b, m) {
      var k :| x + b == y + b + m * k;
      assert x == y + m * k;
    }
    if Same(x, y, m) {
      var k :| x == y + m * k;
      assert x + b == y + b + m * k;
    }
  }

  /** An odd factor can be left out. */
  lemma {:induction false} OddCancels(a: int, x: int, h: nat)
    requires a % 2 == 1 && a * x % Pow2(h) == 0
    ensures x % Pow2(h) == 0
    decreases h
  {
    if h > 0 {
      var m, q := Pow2(h - 1), a * x / Pow2(h);
      assert a * x == 2 * m * q;
      Associate(2, m, q);
      EvenFactor(a, x, m * q);
      var y := x / 2;
      Associate(a, 2, y);
      assert a * x == 2 * (a * y);
      DivModIs(a * y, m, q, 0);
      OddCancels(a, y, h - 1);
      Associate(2, m, y / m);
      DivModIs(x, 2 * m, y / m, 0);
    }
  }

  lemma EvenFactor(a: int, x: int, half: int)
    requires a % 2 == 1 && a * x == 2 * half
    ensures x % 2 == 0
  {
    var b, y, r := a / 2, x / 2, x % 2;
    assert a * x == (2 * b + 1) * (2 * y + r);
    assert (2 * b + 1) * (2 * y + r) == 2 * (2 * b * y + b * r + y) + r;
  }

  // ---------------------------------------------------------------- slots

  const MULTIPLIER := 1103515245
  const INCREMENT := 12345

  lemma Squared(n: nat, p: nat)
    requires Pow2(n) == p
    ensures Pow2(2 * n) == p * p
  {
    Pow2Add(n, n);
  }

  lemma Pow2Of64(n: nat)
    requires n == 4
    ensures Pow2(16 * n) == 0x1_0000_0000_0000_0000
  {
    assert Pow2(4) == 16;
    Squared(n, 16);
    Squared(2 * n, 0x100);
    Squared(4 * n, 0x1_0000);
    Squared(8 * n, 0x1_0000_0000);
  }

  /** Arithmetic modulo 2^64 followed by a remainder by a smaller power. */
  lemma WordRemainder(x: int, h: nat)
    requires h <= 64
    ensures Same(x % 0x1_0000_0000_0000_0000, x, Pow2(h))
  {
    Pow2Of64(4);
    Pow2Add(h, 64 - h);
    LargerRemainder(x, Pow2(h), Pow2(64 - h));
  }

  /** The slot of a chain is one remainder, linear in the nonce and the chain's id: no wrap-around shows in it. */
  lemma SlotIs(nonce: nat, chainId: int, h: nat)
    requires h <= 64
    ensures ExpectedIndex(nonce, chainId, h)
            == ((nonce * MULTIPLIER + INCREMENT + chainId) * MULTIPLIER + INCREMENT) % Pow2(h)
  {
    var m := Pow2(h);
    var first := nonce * MULTIPLIER + INCREMENT;
    var a := first % 0x1_0000_0000_0000_0000 % m;
    var b := (a + chainId) % 0x1_0000_0000_0000_0000;
    Wrapped(first, first, h);
    Remainder(first % 0x1_0000_0000_0000_0000, m);
    SameTrans(a, first % 0x1_0000_0000_0000_0000, first, m);
    SumSame(a, first, chainId, m);
    Wrapped(a + chainId, first + chainId, h);
    StepSame(b, first + chainId, MULTIPLIER, INCREMENT, m);
    Wrapped(b * MULTIPLIER + INCREMENT, (first + chainId) * MULTIPLIER + INCREMENT, h);
    SameIff((b * MULTIPLIER + INCREMENT) % 0x1_0000_0000_0000_0000, (first + chainId) * MULTIPLIER + INCREMENT, m);
  }

  lemma Wrapped(x: int, y: int, h: nat)
    requires h <= 64 && (x == y || Same(x, y, Pow2(h)))
    ensures Same(x % 0x1_0000_0000_0000_0000, y, Pow2(h))
  {
    WordRemainder(x, h);
    if x != y {
      SameTrans(x % 0x1_0000_0000_0000_0000, x, y, Pow2(h));
    }
  }

  /**
   * Two chains share a slot if and only if their ids have one remainder by the size of the tree: whatever the nonce is,
   * so that no nonce brings them apart, and no two chains of different remainders ever meet.
   */
  lemma SlotsMeetIff(nonce: nat, one: int, other: int, h: nat)
    requires h <= 64
    ensures ExpectedIndex(nonce, one, h) == ExpectedIndex(nonce, other, h) <==> one % Pow2(h) == other % Pow2(h)
  {
    var m, first := Pow2(h), nonce * MULTIPLIER + INCREMENT;
    SlotIs(nonce, one, h);
    SlotIs(nonce, other, h);
    var x, y := first + one, first + other;
    SameIff(x * MULTIPLIER + INCREMENT, y * MULTIPLIER + INCREMENT, m);
    SameIff(one, other, m);
    SumSame(one, other, first, m);
    if Same(one, other, m) {
      StepSame(x, y, MULTIPLIER, INCREMENT, m);
    }
    if Same(x * MULTIPLIER + INCREMENT, y * MULTIPLIER + INCREMENT, m) {
      SumSame(x * MULTIPLIER, y * MULTIPLIER, INCREMENT, m);
      DifferenceSame(x, y, MULTIPLIER, h);
    }
  }

  lemma DifferenceSame(x: int, y: int, a: int, h: nat)
    requires a % 2 == 1 && Same(x * a, y * a, Pow2(h))
    ensures Same(x, y, Pow2(h))
  {
    var m := Pow2(h);
    var k :| x * a == y * a + m * k;
    Distribute(a, x, -y);
    DivModIs(a * (x - y), m, k, 0);
    OddCancels(a, x - y, h);
    assert x == y + m * ((x - y) / m);
  }
}
