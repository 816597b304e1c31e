/**
 * Where skip pointers lead (src/chain.cpp), and how many rounds the walk along them takes to a given height: at most
 * about a quarter of the square of the number of binary digits.
 */
module SkipHeights {
  import opened Bits

  // ---------------------------------------------------------------- skip heights

  /** n & (n - 1); for n == 0 the second operand is -1, which has every bit. */
  function InvertLowestOne(n: nat): (r: nat)
    ensures r <= n && (n > 0 ==> r < n)
  {
    if n == 0 then 0 else BitAnd(n, n - 1)
  }

  /** It clears the lowest one: the last digit of an odd number, and that of the half of an even one. */
  lemma InvertClearsLowest(n: nat)
    requires n > 0
    ensures InvertLowestOne(n) == if n % 2 == 1 then n - 1 else 2 * InvertLowestOne(n / 2)
  {
    if n % 2 == 1 {
      BitAndSelf(n / 2);
      assert (n - 1) / 2 == n / 2;
    } else {
      assert (n - 1) / 2 == n / 2 - 1;
    }
  }

  function GetSkipHeight(height: nat): (r: nat)
    ensures height > 0 ==> r < height
  {
    if height < 2 then 0
    else if height % 2 == 1 then InvertLowestOne(InvertLowestOne(height - 1)) + 1
    else InvertLowestOne(height)
  }

  /** The height after one round of the walk, where every skip pointer is set. */
  function NextHeight(h: nat, t: nat): (r: nat)
    requires t < h
    ensures t <= r < h
  {
    var skip, prev := GetSkipHeight(h), GetSkipHeight(h - 1);
    if skip == t || (skip > t && !(prev < skip - 2 && prev >= t)) then skip else h - 1
  }

  /** The number of rounds from one height to another. */
  function Rounds(h: nat, t: nat): nat
    requires t <= h
    decreases h
  {
    if h == t then 0 else 1 + Rounds(NextHeight(h, t), t)
  }

  // ---------------------------------------------------------------- clearing ones

  /** The number of ones, counted by clearing them. */
  function Ones(n: nat): nat {
    if n == 0 then 0 else Ones(InvertLowestOne(n)) + 1
  }

  /** What clearing the lowest one and counting the ones do with a number and its double. */
  ghost predicate ClearsAt(clear: nat -> nat, ones: nat -> nat, n: nat) {
    n > 0 ==>
      && clear(n) < n && clear(n) % 2 == 0 && ones(n) == ones(clear(n)) + 1
      && (n % 2 == 1 ==> clear(n) == n - 1) && clear(2 * n) == 2 * clear(n)
  }

  ghost predicate Clearing(clear: nat -> nat, ones: nat -> nat) {
    clear(0) == 0 && ones(0) == 0 && forall n: nat :: ClearsAt(clear, ones, n)
  }

  lemma {:induction false} ClearedEven(n: nat)
    requires n > 0
    ensures InvertLowestOne(n) % 2 == 0
  {
    InvertClearsLowest(n);
  }

  lemma ClearedDouble(n: nat)
    requires n > 0
    ensures InvertLowestOne(2 * n) == 2 * InvertLowestOne(n)
  {
    InvertClearsLowest(2 * n);
    assert 2 * n / 2 == n;
  }

  lemma InvertClears()
    ensures Clearing(InvertLowestOne, Ones)
  {
    forall n: nat
      ensures ClearsAt(InvertLowestOne, Ones, n)
    {
      if n > 0 {
        ClearedEven(n);
        ClearedDouble(n);
        InvertClearsLowest(n);
      }
    }
  }

  lemma {:induction false} OnesDoubled(clear: nat -> nat, ones: nat -> nat, n: nat)
    requires Clearing(clear, ones)
    ensures ones(2 * n) == ones(n)
  {
    if n > 0 {
      assert ClearsAt(clear, ones, n) && ClearsAt(clear, ones, 2 * n);
      OnesDoubled(clear, ones, clear(n));
    }
  }

  lemma OnesOdd(clear: nat -> nat, ones: nat -> nat, n: nat)
    requires Clearing(clear, ones) && n % 2 == 0
    ensures ones(n + 1) == ones(n) + 1
  {
    assert ClearsAt(clear, ones, n + 1);
  }

  lemma {:induction false} OnesBelow(clear: nat -> nat, ones: nat -> nat, n: nat, d: nat)
    requires Clearing(clear, ones) && n < Pow2(d)
    ensures ones(n) <= d
    decreases d
  {
    if d > 0 {
      var half := n / 2;
      OnesBelow(clear, ones, half, d - 1);
      OnesDoubled(clear, ones, half);
      OnesOdd(clear, ones, 2 * half);
      assert n == 2 * half || n == 2 * half + 1;
    }
  }

  /** The last d digits are zeros. */
  predicate EndsInZeros(q: nat, d: nat)
    decreases d
  {
    d > 0 ==> q % 2 == 0 && EndsInZeros(q / 2, d - 1)
  }

  lemma {:induction false} HalfBlock(q: nat, d: nat)
    requires d > 0 && EndsInZeros(q, d)
    ensures EndsInZeros(q, d - 1) && EndsInZeros(q + Pow2(d - 1), d - 1)
    decreases d
  {
    if d > 1 {
      HalfBlock(q / 2, d - 1);
      assert (q + Pow2(d - 1)) / 2 == q / 2 + Pow2(d - 2);
    }
  }

  lemma DoubledBehind(clear: nat -> nat, ones: nat -> nat, a: nat, b: nat)
    requires Clearing(clear, ones) && b > 0 && clear(a + b) == a + clear(b)
    ensures clear(2 * a + 2 * b) == 2 * a + clear(2 * b)
  {
    assert ClearsAt(clear, ones, b) && ClearsAt(clear, ones, a + b);
    assert 2 * a + 2 * b == 2 * (a + b);
  }

  lemma OddBehind(clear: nat -> nat, ones: nat -> nat, q: nat, x: nat)
    requires Clearing(clear, ones) && q % 2 == 0 && x % 2 == 1
    ensures clear(q + x) == q + clear(x)
  {
    assert ClearsAt(clear, ones, x) && ClearsAt(clear, ones, q + x);
  }

  /** Clearing the lowest one leaves the digits in front alone. */
  lemma {:induction false} ClearedBehind(clear: nat -> nat, ones: nat -> nat, q: nat, x: nat, d: nat)
    requires Clearing(clear, ones) && EndsInZeros(q, d) && 0 < x < Pow2(d)
    ensures clear(q + x) == q + clear(x)
    decreases d
  {
    if x % 2 == 1 {
      OddBehind(clear, ones, q, x);
    } else {
      ClearedBehind(clear, ones, q / 2, x / 2, d - 1);
      DoubledBehind(clear, ones, q / 2, x / 2);
    }
  }

  lemma {:induction false} PowerCleared(clear: nat -> nat, ones: nat -> nat, d: nat)
    requires Clearing(clear, ones)
    ensures clear(Pow2(d)) == 0
  {
    if d == 0 {
      assert ClearsAt(clear, ones, 1);
    } else {
      PowerCleared(clear, ones, d - 1);
      assert ClearsAt(clear, ones, Pow2(d - 1));
    }
  }

  /** Two less has at most as many ones, or what is left of it after clearing two of them is no less. */
  lemma TwoLess(clear: nat -> nat, ones: nat -> nat, x: nat)
    requires Clearing(clear, ones) && x > 0 && x % 2 == 0
    ensures ones(x - 2) <= ones(x) || clear(clear(x - 2)) >= clear(x)
  {
    var z := x / 2;
    assert x == 2 * z;
    assert ClearsAt(clear, ones, x) && ClearsAt(clear, ones, z);
    if z % 2 == 0 {
      var w := z / 2;
      assert z == 2 * w;
      assert ClearsAt(clear, ones, w) && ClearsAt(clear, ones, z - 1) && ClearsAt(clear, ones, x - 2);
      assert clear(2 * (z - 1)) == 2 * (z - 2);
      if w % 2 == 0 {
        assert ClearsAt(clear, ones, w - 1) && ClearsAt(clear, ones, z - 2);
        assert clear(2 * (w - 1)) == 2 * (w - 2) && clear(2 * (z - 2)) == 2 * clear(z - 2);
      }
    }
  }

  // ---------------------------------------------------------------- the second half of a block

  /** Clearing a one in the second half of a block, and the one that makes it the second half. */
  lemma ClearedOnce(clear: nat -> nat, ones: nat -> nat, p: nat, d: nat, y: nat)
    requires Clearing(clear, ones) && d > 0 && EndsInZeros(p, d + 1) && y < Pow2(d)
    ensures clear(p + Pow2(d) + y) == if y == 0 then p else p + Pow2(d) + clear(y)
  {
    HalfBlock(p, d + 1);
    if y == 0 {
      ClearedBehind(clear, ones, p, Pow2(d), d + 1);
      PowerCleared(clear, ones, d);
    } else {
      ClearedBehind(clear, ones, p + Pow2(d), y, d);
    }
  }

  /**
   * Clearing two ones and adding one leads out of the second half, or to a height with fewer ones; `p` and `q` are
   * the start and the middle of the block.
   */
  ghost predicate Lands(clear: nat -> nat, ones: nat -> nat, p: nat, q: nat, x: nat, s: nat, rest: nat) {
    || (ones(x) == 1 && if p == 0 then s == 1 else s < p)
    || (ones(x) == 2 && s == p + 1)
    || (x > 0 && clear(x - 1) > 0 && rest == clear(clear(x - 1)) + 1 < x && rest % 2 == 1 && ones(rest) + 2 == ones(x) && s == q + rest)
  }

  lemma SkipLands(clear: nat -> nat, ones: nat -> nat, p: nat, d: nat, x: nat) returns (s: nat, rest: nat)
    requires Clearing(clear, ones) && d > 0 && EndsInZeros(p, d + 1) && x < Pow2(d) && x % 2 == 1
    ensures s == clear(clear(p + Pow2(d) + x - 1)) + 1 && Lands(clear, ones, p, p + Pow2(d), x, s, rest)
  {
    var y := x - 1;
    ClearedOnce(clear, ones, p, d, y);
    OnesOdd(clear, ones, y);
    s, rest := clear(clear(p + Pow2(d) + y)) + 1, 0;
    if y == 0 {
      assert ClearsAt(clear, ones, p);
    } else {
      var z := clear(y);
      assert ClearsAt(clear, ones, y) && ClearsAt(clear, ones, z);
      ClearedOnce(clear, ones, p, d, z);
      if z > 0 {
        rest := clear(z) + 1;
        OnesOdd(clear, ones, clear(z));
      }
    }
  }

  /** A height that is reached over the previous block has fewer ones. */
  lemma FewerOnes(clear: nat -> nat, ones: nat -> nat, x: nat)
    requires Clearing(clear, ones) && x > 0 && x % 2 == 0
    requires clear(x - 2) > 0 && clear(clear(x - 2)) < clear(x)
    ensures ones(clear(clear(x - 2)) + 1) < ones(x) && ones(x) >= 2
  {
    var y := x - 2;
    TwoLess(clear, ones, x);
    assert ClearsAt(clear, ones, y) && ClearsAt(clear, ones, clear(y));
    OnesOdd(clear, ones, clear(clear(y)));
  }

  // ---------------------------------------------------------------- rounds in the second half

  function OddCost(ones: nat): nat {
    ones / 2 + 3
  }

  function EvenCost(ones: nat): nat {
    if ones <= 1 then ones + 2 else ones + 3
  }

  /** What one round does in the second half: it leaves it, or goes on to a height with fewer ones. */
  ghost predicate OddRound(r: nat -> nat, ones: nat -> nat, q: nat, m: nat, x: nat) {
    || r(q + x) <= m + 1
    || (x > 0 && ones(x) <= 2 && ones(x - 1) + 1 == ones(x) && r(q + x) == 1 + r(q + x - 1))
    || exists rest: nat :: rest < x && rest % 2 == 1 && ones(rest) + 2 == ones(x) && r(q + x) == 1 + r(q + rest)
  }

  ghost predicate EvenRound(r: nat -> nat, ones: nat -> nat, q: nat, m: nat, x: nat) {
    || r(q + x) <= m + 2
    || (exists rest: nat :: rest < x && rest % 2 == 0 && ones(rest) + 1 == ones(x) && r(q + x) == 1 + r(q + rest))
    || (exists rest: nat :: rest < x && rest % 2 == 1 && ones(rest) < ones(x) && ones(x) >= 2 && r(q + x) == 2 + r(q + rest))
  }

  /** Round by round, the cost of the second half. */
  lemma {:induction false} Descends(r: nat -> nat, ones: nat -> nat, q: nat, size: nat, m: nat, x: nat)
    requires forall y :: 0 <= y < size && y % 2 == 1 ==> OddRound(r, ones, q, m, y)
    requires forall y :: 0 <= y < size && y % 2 == 0 ==> EvenRound(r, ones, q, m, y)
    requires x < size
    ensures r(q + x) <= m + if x % 2 == 1 then OddCost(ones(x)) else EvenCost(ones(x))
    decreases x
  {
    if x % 2 == 1 {
      assert OddRound(r, ones, q, m, x);
      if r(q + x) > m + 1 {
        if rest: nat :| rest < x && rest % 2 == 1 && ones(rest) + 2 == ones(x) && r(q + x) == 1 + r(q + rest) {
          Descends(r, ones, q, size, m, rest);
        } else {
          Descends(r, ones, q, size, m, x - 1);
        }
      }
    } else {
      assert EvenRound(r, ones, q, m, x);
      if r(q + x) > m + 2 {
        if rest: nat :| rest < x && rest % 2 == 0 && ones(rest) + 1 == ones(x) && r(q + x) == 1 + r(q + rest) {
          Descends(r, ones, q, size, m, rest);
        } else {
          var rest: nat :| rest < x && rest % 2 == 1 && ones(rest) < ones(x) && ones(x) >= 2 && r(q + x) == 2 + r(q + rest);
          Descends(r, ones, q, size, m, rest);
        }
      }
    }
  }

  /** Heights outside the second half, odd ones and the goal, take m rounds at most. */
  ghost predicate LeavesBy(r: nat -> nat, t: nat, q: nat, m: nat) {
    forall h :: t <= h < q && (h % 2 == 1 || h == t) ==> r(h) <= m
  }

  lemma OddRoundIs(r: nat -> nat, clear: nat -> nat, ones: nat -> nat, p: nat, q: nat, t: nat, m: nat, x: nat, s: nat, rest: nat)
    requires p % 2 == 0 && p <= t < q && p + 1 < q && x % 2 == 1 && LeavesBy(r, t, q, m)
    requires Lands(clear, ones, p, q, x, s, rest) && ones(x - 1) + 1 == ones(x)
    requires r(q + x) == 1 + r(if s >= t then s else q + x - 1)
    ensures OddRound(r, ones, q, m, x)
  {
  }

  lemma EvenRoundIs(r: nat -> nat, clear: nat -> nat, ones: nat -> nat, p: nat, q: nat, t: nat, m: nat, x: nat, s: nat, rest: nat)
    requires Clearing(clear, ones) && p % 2 == 0 && p <= t < q && p + 1 < q && LeavesBy(r, t, q, m)
    requires x > 0 && x % 2 == 0 && Lands(clear, ones, p, q, x - 1, s, rest)
    requires if t <= s < q + clear(x) - 2 then r(q + x) == 2 + r(s) else r(q + x) == 1 + r(q + clear(x))
    ensures EvenRound(r, ones, q, m, x)
  {
    if t <= s < q + clear(x) - 2 {
      if s >= q {
        FewerOnes(clear, ones, x);
      }
    } else {
      assert ClearsAt(clear, ones, x);
    }
  }

  // ---------------------------------------------------------------- the walk

  /** One round, counted by r: an odd height follows its skip pointer, an even one perhaps that of the previous block. */
  ghost predicate WalksAt(r: nat -> nat, clear: nat -> nat, t: nat, h: nat) {
    && (t < h && h % 2 == 1 && h >= 2 ==>
          var s := clear(clear(h - 1)) + 1;
          r(h) == 1 + r(if s >= t then s else h - 1))
    && (t < h && h % 2 == 0 && h >= 4 ==>
          var s, prev := clear(h), clear(clear(h - 2)) + 1;
          r(h) == if s < t then 1 + r(h - 1) else if s > t && t <= prev < s - 2 then 2 + r(prev) else 1 + r(s))
    && (t < h <= 2 ==> r(h) <= h)
  }

  ghost predicate Walks(r: nat -> nat, clear: nat -> nat, t: nat) {
    r(t) == 0 && forall h: nat :: WalksAt(r, clear, t, h)
  }

  /** A block with its middle behind the goal. */
  ghost predicate Block(p: nat, d: nat, t: nat) {
    d > 0 && EndsInZeros(p, d + 1) && p <= t < p + Pow2(d)
  }

  lemma OddRoundHolds(r: nat -> nat, clear: nat -> nat, ones: nat -> nat, p: nat, d: nat, t: nat, m: nat, x: nat)
    requires Clearing(clear, ones) && Walks(r, clear, t) && Block(p, d, t) && LeavesBy(r, t, p + Pow2(d), m)
    requires x < Pow2(d) && x % 2 == 1
    ensures OddRound(r, ones, p + Pow2(d), m, x)
  {
    var q := p + Pow2(d);
    var s, rest := SkipLands(clear, ones, p, d, x);
    OnesOdd(clear, ones, x - 1);
    assert WalksAt(r, clear, t, q + x);
    OddRoundIs(r, clear, ones, p, q, t, m, x, s, rest);
  }

  /** In the middle, the walk leaves the second half. */
  lemma MiddleRoundHolds(r: nat -> nat, clear: nat -> nat, ones: nat -> nat, p: nat, q: nat, t: nat, m: nat)
    requires Walks(r, clear, t) && p % 2 == 0 && q % 2 == 0 && p <= t < q && clear(q) == p && LeavesBy(r, t, q, m)
    ensures EvenRound(r, ones, q, m, 0)
  {
    assert WalksAt(r, clear, t, q + 0);
    if q >= 4 && p < t {
      assert r(q - 1) <= m;
    }
  }

  lemma EvenRoundHolds(r: nat -> nat, clear: nat -> nat, ones: nat -> nat, p: nat, d: nat, t: nat, m: nat, x: nat)
    requires Clearing(clear, ones) && Walks(r, clear, t) && Block(p, d, t) && LeavesBy(r, t, p + Pow2(d), m)
    requires x < Pow2(d) && x % 2 == 0
    ensures EvenRound(r, ones, p + Pow2(d), m, x)
  {
    var q := p + Pow2(d);
    assert p % 2 == 0 && q % 2 == 0;
    ClearedOnce(clear, ones, p, d, x);
    if x == 0 {
      MiddleRoundHolds(r, clear, ones, p, q, t, m);
    } else {
      var s, rest := SkipLands(clear, ones, p, d, x - 1);
      EvenWalk(r, clear, q, t, x, s);
      EvenRoundIs(r, clear, ones, p, q, t, m, x, s, rest);
    }
  }

  lemma EvenWalk(r: nat -> nat, clear: nat -> nat, q: nat, t: nat, x: nat, s: nat)
    requires Walks(r, clear, t) && q % 2 == 0 && t < q && x > 0 && x % 2 == 0
    requires clear(q + x) == q + clear(x) && s == clear(clear(q + x - 2)) + 1
    ensures if t <= s < q + clear(x) - 2 then r(q + x) == 2 + r(s) else r(q + x) == 1 + r(q + clear(x))
  {
    assert WalksAt(r, clear, t, q + x);
  }

  /** Crossing the second half of a block. */
  lemma Crossing(r: nat -> nat, clear: nat -> nat, ones: nat -> nat, p: nat, d: nat, h: nat, t: nat, m: nat)
    requires Clearing(clear, ones) && Walks(r, clear, t) && Block(p, d, t) && LeavesBy(r, t, p + Pow2(d), m)
    requires p + Pow2(d) <= h < p + 2 * Pow2(d)
    ensures r(h) <= m + d + 3 && (h % 2 == 1 ==> r(h) <= m + d / 2 + 3)
  {
    var q := p + Pow2(d);
    forall y | 0 <= y < Pow2(d) && y % 2 == 1
      ensures OddRound(r, ones, q, m, y)
    {
      OddRoundHolds(r, clear, ones, p, d, t, m, y);
    }
    forall y | 0 <= y < Pow2(d) && y % 2 == 0
      ensures EvenRound(r, ones, q, m, y)
    {
      EvenRoundHolds(r, clear, ones, p, d, t, m, y);
    }
    Descends(r, ones, q, Pow2(d), m, h - q);
    OnesBelow(clear, ones, h - q, d);
    assert Pow2(d) % 2 == 0 && p % 2 == 0;
  }

  /** A bound for the walk from an odd height within a block of 2^n. */
  function OddBound(n: nat): nat {
    if n == 0 then 0 else OddBound(n - 1) + (n - 1) / 2 + 3
  }

  function AnyBound(n: nat): nat {
    if n == 0 then 0 else OddBound(n - 1) + n + 2
  }

  lemma {:induction false} WithinBlock(r: nat -> nat, clear: nat -> nat, ones: nat -> nat, p: nat, n: nat, h: nat, t: nat)
    requires Clearing(clear, ones) && Walks(r, clear, t) && EndsInZeros(p, n) && p <= t <= h < p + Pow2(n)
    ensures r(h) <= AnyBound(n) && (h % 2 == 1 || h == t ==> r(h) <= OddBound(n))
    decreases n
  {
    if n > 0 && h > t {
      var d := n - 1;
      HalfBlock(p, n);
      if h < p + Pow2(d) {
        WithinBlock(r, clear, ones, p, d, h, t);
      } else if t >= p + Pow2(d) {
        WithinBlock(r, clear, ones, p + Pow2(d), d, h, t);
      } else if d == 0 {
        NextBlock(r, clear, ones, t);
      } else {
        forall g | t <= g < p + Pow2(d) && (g % 2 == 1 || g == t)
          ensures r(g) <= OddBound(d)
        {
          WithinBlock(r, clear, ones, p, d, g, t);
        }
        Crossing(r, clear, ones, p, d, h, t, OddBound(d));
      }
    }
  }

  lemma NextBlock(r: nat -> nat, clear: nat -> nat, ones: nat -> nat, t: nat)
    requires Clearing(clear, ones) && Walks(r, clear, t) && t % 2 == 0
    ensures r(t + 1) <= 1
  {
    assert WalksAt(r, clear, t, t + 1);
    assert ClearsAt(clear, ones, t) && ClearsAt(clear, ones, clear(t));
  }

  /** The source's walk is one. */
  function RoundsTo(t: nat): nat -> nat {
    (h: nat) => if h < t then 0 else Rounds(h, t)
  }

  lemma RoundsOdd(h: nat, t: nat, s: nat)
    requires t < h && h % 2 == 1 && h >= 2 && s == InvertLowestOne(InvertLowestOne(h - 1)) + 1
    ensures RoundsTo(t)(h) == 1 + RoundsTo(t)(if s >= t then s else h - 1)
  {
  }

  lemma RoundsEven(h: nat, t: nat, s: nat, prev: nat)
    requires t < h && h % 2 == 0 && h >= 4 && s == InvertLowestOne(h) && prev == InvertLowestOne(InvertLowestOne(h - 2)) + 1
    ensures s < t ==> RoundsTo(t)(h) == 1 + RoundsTo(t)(h - 1)
    ensures s >= t && !(s > t && t <= prev < s - 2) ==> RoundsTo(t)(h) == 1 + RoundsTo(t)(s)
    ensures s > t && t <= prev < s - 2 ==> RoundsTo(t)(h) == 2 + RoundsTo(t)(prev)
  {
    assert GetSkipHeight(h - 1) == prev;
    if s > t && t <= prev < s - 2 {
      RoundsOdd(h - 1, t, prev);
    }
  }

  lemma RoundsWalkOdd(t: nat, h: nat)
    requires h % 2 == 1
    ensures WalksAt(RoundsTo(t), InvertLowestOne, t, h)
  {
    if t < h && h >= 2 {
      RoundsOdd(h, t, InvertLowestOne(InvertLowestOne(h - 1)) + 1);
    }
  }

  lemma RoundsWalkEven(t: nat, h: nat)
    requires h % 2 == 0
    ensures WalksAt(RoundsTo(t), InvertLowestOne, t, h)
  {
    if t < h && h >= 4 {
      RoundsEven(h, t, InvertLowestOne(h), InvertLowestOne(InvertLowestOne(h - 2)) + 1);
    }
  }

  lemma RoundsWalk(t: nat)
    ensures Walks(RoundsTo(t), InvertLowestOne, t)
  {
    forall h: nat
      ensures WalksAt(RoundsTo(t), InvertLowestOne, t, h)
    {
      if h % 2 == 1 {
        RoundsWalkOdd(t, h);
      } else {
        RoundsWalkEven(t, h);
      }
    }
  }

  lemma {:induction false} OddBoundIs(n: nat)
    ensures 4 * OddBound(n) <= n * n + 10 * n + n % 2
  {
    if n > 0 {
      OddBoundIs(n - 1);
      Grows(n, (n - 1) * (n - 1), n * n, OddBound(n - 1));
    }
  }

  lemma Grows(n: int, below: int, square: int, bound: int)
    requires below == square - 2 * n + 1 && 4 * bound <= below + 10 * (n - 1) + (n - 1) % 2
    ensures 4 * (bound + (n - 1) / 2 + 3) <= square + 10 * n + n % 2
  {
  }

  lemma {:induction false} ZeroEnds(d: nat)
    ensures EndsInZeros(0, d)
  {
    if d > 0 {
      ZeroEnds(d - 1);
    }
  }

  /** From a height of n binary digits, any height is reached within n * n / 4 + 3 * n rounds. */
  lemma RoundsBounded(h: nat, t: nat, n: nat)
    requires t <= h < Pow2(n)
    ensures 4 * Rounds(h, t) <= n * n + 12 * n
  {
    ZeroEnds(n);
    InvertClears();
    RoundsWalk(t);
    WithinBlock(RoundsTo(t), InvertLowestOne, Ones, 0, n, h, t);
    assert RoundsTo(t)(h) == Rounds(h, t);
    if n > 0 {
      OddBoundIs(n - 1);
      assert (n - 1) * (n - 1) == n * n - 2 * n + 1;
    }
  }
}
