/**
 * Two errors in a Bech32 string (src/bech32.cpp; BIP 173), however far apart: remainders are polynomials over the
 * field of 32 elements, to which the checksum is linear, and no power of x up to the length limit is a constant.
 */
module Bech32Errors {
  import opened Arithmetic
  import opened Bech32
  import opened Bits
  import opened Common

  // ---------------------------------------------------------------- iteration

  function Iterated<T>(f: T -> T, p: T, k: nat): T {
    if k == 0 then p else f(Iterated(f, p, k - 1))
  }

  lemma {:induction false} AllIterates<T>(f: T -> T, g: nat -> T, k: nat)
    requires forall j: nat :: g(j + 1) == f(g(j))
    ensures g(k) == Iterated(f, g(0), k)
  {
    if k > 0 {
      AllIterates(f, g, k - 1);
      assert g(k - 1 + 1) == f(g(k - 1));
    }
  }

  lemma {:induction false} CommutesOnce<T(!new)>(f: T -> T, s: T -> T, p: T, k: nat)
    requires forall q :: f(s(q)) == s(f(q))
    ensures Iterated(f, s(p), k) == s(Iterated(f, p, k))
  {
    if k > 0 {
      CommutesOnce(f, s, p, k - 1);
    }
  }

  /** Iterates of two functions that commute commute. */
  lemma {:induction false} Commutes<T(!new)>(f: T -> T, s: T -> T, p: T, j: nat, k: nat)
    requires forall q :: f(s(q)) == s(f(q))
    ensures Iterated(f, Iterated(s, p, j), k) == Iterated(s, Iterated(f, p, k), j)
    decreases j
  {
    if j > 0 {
      CommutesOnce(f, s, Iterated(s, p, j - 1), k);
      Commutes(f, s, p, j - 1, k);
    }
  }

  lemma {:induction false} Unaffected<T(!new)>(s: T -> T, bad: T -> bool, p: T, j: nat)
    requires forall q :: bad(s(q)) == bad(q)
    ensures bad(Iterated(s, p, j)) == bad(p)
  {
    if j > 0 {
      Unaffected(s, bad, p, j - 1);
    }
  }

  /** The next n iterates are not bad. */
  predicate Avoids<T>(f: T -> T, bad: T -> bool, p: T, n: nat)
    decreases n
  {
    n > 0 ==> !bad(f(p)) && Avoids(f, bad, f(p), n - 1)
  }

  lemma Before<T>(f: T -> T, bad: T -> bool, p: T, q: T, n: nat)
    requires f(p) == q && !bad(q) && Avoids(f, bad, q, n)
    ensures Avoids(f, bad, p, n + 1)
  {
  }

  lemma {:induction false} Avoided<T>(f: T -> T, bad: T -> bool, p: T, n: nat, k: nat)
    requires Avoids(f, bad, p, n) && 0 < k <= n
    ensures !bad(Iterated(f, p, k))
    decreases n
  {
    FirstOut(f, p, k);
    if k > 1 {
      Avoided(f, bad, f(p), n - 1, k - 1);
    }
  }

  lemma {:induction false} FirstOut<T>(f: T -> T, p: T, k: nat)
    requires k > 0
    ensures Iterated(f, p, k) == Iterated(f, f(p), k - 1)
    decreases k
  {
    if k > 1 {
      FirstOut(f, p, k - 1);
    }
  }

  /** Nor are they after iterates of another function that commutes and does not make bad or good. */
  lemma ScaledAvoided<T(!new)>(f: T -> T, s: T -> T, bad: T -> bool, p: T, n: nat, j: nat, k: nat)
    requires (forall q :: f(s(q)) == s(f(q))) && (forall q :: bad(s(q)) == bad(q))
    requires Avoids(f, bad, p, n) && 0 < k <= n
    ensures !bad(Iterated(f, Iterated(s, p, j), k))
  {
    Commutes(f, s, p, j, k);
    Unaffected(s, bad, Iterated(f, p, k), j);
    Avoided(f, bad, p, n, k);
  }

  /** One of the first n iterates, or the start, is x. */
  predicate Reaches<T(==)>(f: T -> T, p: T, x: T, n: nat)
    decreases n
  {
    p == x || (n > 0 && Reaches(f, f(p), x, n - 1))
  }

  lemma Earlier<T>(f: T -> T, p: T, q: T, x: T, n: nat)
    requires f(p) == q
    ensures p == x || Reaches(f, q, x, n) ==> Reaches(f, p, x, n + 1)
  {
  }

  lemma {:induction false} Reached<T>(f: T -> T, p: T, x: T, n: nat) returns (j: nat)
    requires Reaches(f, p, x, n)
    ensures Iterated(f, p, j) == x
    decreases n
  {
    if p == x {
      j := 0;
    } else {
      j := Reached(f, f(p), x, n - 1);
      j := j + 1;
      FirstOut(f, p, j);
    }
  }

  // ---------------------------------------------------------------- the field

  /** An element of the field of 32 elements, as the bits of its number. */
  datatype Elem = Elem(b0: bool, b1: bool, b2: bool, b3: bool, b4: bool)

  const NONE := Elem(false, false, false, false, false)

  function Add(x: Elem, y: Elem): Elem {
    Elem(x.b0 != y.b0, x.b1 != y.b1, x.b2 != y.b2, x.b3 != y.b3, x.b4 != y.b4)
  }

  /** The product with {2}, whose fifth power is {9}. */
  function Twice(x: Elem): Elem {
    Elem(x.b4, x.b0, x.b1, x.b2 != x.b4, x.b3)
  }

  function Number(v: bv5): Elem {
    Elem(v & 1 != 0, v & 2 != 0, v & 4 != 0, v & 8 != 0, v & 16 != 0)
  }

  // Products with the coefficients of the generator.

  function By18(t: Elem): Elem {
    Elem((t.b1 != t.b3) != t.b4, (t.b0 != t.b2) != t.b4, t.b1 != t.b3, (t.b1 != t.b2) != t.b3, ((t.b0 != t.b2) != t.b3) != t.b4)
  }

  function By20(t: Elem): Elem {
    Elem(t.b1, t.b2, t.b0 != t.b3, t.b4, t.b0)
  }

  function By21(t: Elem): Elem {
    Elem(t.b0 != t.b1, t.b1 != t.b2, (t.b0 != t.b2) != t.b3, t.b3 != t.b4, t.b0 != t.b4)
  }

  function By22(t: Elem): Elem {
    Elem(t.b1 != t.b4, t.b0 != t.b2, (t.b0 != t.b1) != t.b3, t.b2, t.b0 != t.b3)
  }

  function By29(t: Elem): Elem {
    Elem(((t.b0 != t.b1) != t.b2) != t.b4, (t.b1 != t.b2) != t.b3, ((t.b0 != t.b2) != t.b3) != t.b4, (t.b0 != t.b2) != t.b3, ((t.b0 != t.b1) != t.b3) != t.b4)
  }

  lemma TwiceBy(t: Elem)
    ensures By18(Twice(t)) == Twice(By18(t)) && By29(Twice(t)) == Twice(By29(t)) && By21(Twice(t)) == Twice(By21(t))
    ensures By20(Twice(t)) == Twice(By20(t)) && By22(Twice(t)) == Twice(By22(t))
  {
  }

  /** {2} is primitive: every element but zero is a power of it. */
  lemma IsPower(x: Elem, n: nat)
    requires x != NONE
    ensures Reaches(Twice, Number(1), x, n + 30)
  {
    Earlier(Twice, Number(10), Number(20), x, n);
    Earlier(Twice, Number(5), Number(10), x, n + 1);
    Earlier(Twice, Number(22), Number(5), x, n + 2);
    Earlier(Twice, Number(11), Number(22), x, n + 3);
    Earlier(Twice, Number(17), Number(11), x, n + 4);
    Earlier(Twice, Number(28), Number(17), x, n + 5);
    Earlier(Twice, Number(14), Number(28), x, n + 6);
    Earlier(Twice, Number(7), Number(14), x, n + 7);
    Earlier(Twice, Number(23), Number(7), x, n + 8);
    Earlier(Twice, Number(31), Number(23), x, n + 9);
    Earlier(Twice, Number(27), Number(31), x, n + 10);
    Earlier(Twice, Number(25), Number(27), x, n + 11);
    Earlier(Twice, Number(24), Number(25), x, n + 12);
    Earlier(Twice, Number(12), Number(24), x, n + 13);
    Earlier(Twice, Number(6), Number(12), x, n + 14);
    Earlier(Twice, Number(3), Number(6), x, n + 15);
    Earlier(Twice, Number(21), Number(3), x, n + 16);
    Earlier(Twice, Number(30), Number(21), x, n + 17);
    Earlier(Twice, Number(15), Number(30), x, n + 18);
    Earlier(Twice, Number(19), Number(15), x, n + 19);
    Earlier(Twice, Number(29), Number(19), x, n + 20);
    Earlier(Twice, Number(26), Number(29), x, n + 21);
    Earlier(Twice, Number(13), Number(26), x, n + 22);
    Earlier(Twice, Number(18), Number(13), x, n + 23);
    Earlier(Twice, Number(9), Number(18), x, n + 24);
    Earlier(Twice, Number(16), Number(9), x, n + 25);
    Earlier(Twice, Number(8), Number(16), x, n + 26);
    Earlier(Twice, Number(4), Number(8), x, n + 27);
    Earlier(Twice, Number(2), Number(4), x, n + 28);
    Earlier(Twice, Number(1), Number(2), x, n + 29);
  }

  // ---------------------------------------------------------------- polynomials

  /** A polynomial of degree less than six, its constant coefficient first. */
  datatype Poly = Poly(c0: Elem, c1: Elem, c2: Elem, c3: Elem, c4: Elem, c5: Elem)

  function P(a0: bv5, a1: bv5, a2: bv5, a3: bv5, a4: bv5, a5: bv5): Poly {
    Poly(Number(a0), Number(a1), Number(a2), Number(a3), Number(a4), Number(a5))
  }

  /** The product with x, modulo the generator x^6 + {29}x^5 + {22}x^4 + {20}x^3 + {21}x^2 + {29}x + {18}. */
  function TimesX(p: Poly): Poly {
    Poly(By18(p.c5), Add(p.c0, By29(p.c5)), Add(p.c1, By21(p.c5)),
         Add(p.c2, By20(p.c5)), Add(p.c3, By22(p.c5)), Add(p.c4, By29(p.c5)))
  }

  predicate Constant(p: Poly) {
    p.c1 == NONE && p.c2 == NONE && p.c3 == NONE && p.c4 == NONE && p.c5 == NONE
  }

  function TwicePoly(p: Poly): Poly {
    Poly(Twice(p.c0), Twice(p.c1), Twice(p.c2), Twice(p.c3), Twice(p.c4), Twice(p.c5))
  }

  lemma TwiceAdd(x: Elem, y: Elem)
    ensures Twice(Add(x, y)) == Add(Twice(x), Twice(y))
  {
  }

  /** Multiplication by x is linear over the field. */
  lemma TwiceTimesX(p: Poly)
    ensures TimesX(TwicePoly(p)) == TwicePoly(TimesX(p))
  {
    TwiceBy(p.c5);
    TwiceAdd(p.c0, By29(p.c5));
    TwiceAdd(p.c1, By21(p.c5));
    TwiceAdd(p.c2, By20(p.c5));
    TwiceAdd(p.c3, By22(p.c5));
    TwiceAdd(p.c4, By29(p.c5));
  }

  lemma TwiceConstant(p: Poly)
    ensures Constant(TwicePoly(p)) <==> Constant(p)
  {
  }

  // ---------------------------------------------------------------- powers of x

  lemma FirstPowers(n: nat)
    requires Avoids(TimesX, Constant, P(26, 14, 3, 4, 12, 14), n)
    ensures Avoids(TimesX, Constant, P(1, 0, 0, 0, 0, 0), n + 11)
  {
    Before(TimesX, Constant, P(1, 5, 6, 6, 1, 4), P(26, 14, 3, 4, 12, 14), n);
    Before(TimesX, Constant, P(13, 11, 26, 22, 12, 17), P(1, 5, 6, 6, 1, 4), n + 1);
    Before(TimesX, Constant, P(24, 25, 23, 9, 2, 2), P(13, 11, 26, 22, 12, 17), n + 2);
    Before(TimesX, Constant, P(6, 11, 26, 15, 29, 15), P(24, 25, 23, 9, 2, 2), n + 3);
    Before(TimesX, Constant, P(18, 29, 21, 20, 22, 29), P(6, 11, 26, 15, 29, 15), n + 4);
    Before(TimesX, Constant, P(0, 0, 0, 0, 0, 1), P(18, 29, 21, 20, 22, 29), n + 5);
    Before(TimesX, Constant, P(0, 0, 0, 0, 1, 0), P(0, 0, 0, 0, 0, 1), n + 6);
    Before(TimesX, Constant, P(0, 0, 0, 1, 0, 0), P(0, 0, 0, 0, 1, 0), n + 7);
    Before(TimesX, Constant, P(0, 0, 1, 0, 0, 0), P(0, 0, 0, 1, 0, 0), n + 8);
    Before(TimesX, Constant, P(0, 1, 0, 0, 0, 0), P(0, 0, 1, 0, 0, 0), n + 9);
    Before(TimesX, Constant, P(1, 0, 0, 0, 0, 0), P(0, 1, 0, 0, 0, 0), n + 10);
  }

  lemma SecondPowers(n: nat)
    requires Avoids(TimesX, Constant, P(0, 16, 13, 14, 6, 9), n)
    ensures Avoids(TimesX, Constant, P(26, 14, 3, 4, 12, 14), n + 11)
  {
    Before(TimesX, Constant, P(16, 13, 14, 6, 9, 0), P(0, 16, 13, 14, 6, 9), n);
    Before(TimesX, Constant, P(0, 1, 3, 24, 13, 10), P(16, 13, 14, 6, 9, 0), n + 1);
    Before(TimesX, Constant, P(1, 3, 24, 13, 10, 0), P(0, 1, 3, 24, 13, 10), n + 2);
    Before(TimesX, Constant, P(11, 21, 17, 29, 8, 17), P(1, 3, 24, 13, 10, 0), n + 3);
    Before(TimesX, Constant, P(31, 21, 6, 4, 27, 31), P(11, 21, 17, 29, 8, 17), n + 4);
    Before(TimesX, Constant, P(27, 16, 17, 8, 17, 3), P(31, 21, 6, 4, 27, 31), n + 5);
    Before(TimesX, Constant, P(23, 26, 22, 12, 4, 21), P(27, 16, 17, 8, 17, 3), n + 6);
    Before(TimesX, Constant, P(6, 19, 15, 11, 9, 6), P(23, 26, 22, 12, 4, 21), n + 7);
    Before(TimesX, Constant, P(10, 8, 17, 0, 31, 29), P(6, 19, 15, 11, 9, 6), n + 8);
    Before(TimesX, Constant, P(10, 24, 7, 4, 31, 14), P(10, 8, 17, 0, 31, 29), n + 9);
    Before(TimesX, Constant, P(26, 14, 3, 4, 12, 14), P(10, 24, 7, 4, 31, 14), n + 10);
  }

  lemma ThirdPowers(n: nat)
    requires Avoids(TimesX, Constant, P(21, 19, 26, 16, 3, 9), n)
    ensures Avoids(TimesX, Constant, P(0, 16, 13, 14, 6, 9), n + 11)
  {
    Before(TimesX, Constant, P(31, 5, 2, 11, 5, 13), P(21, 19, 26, 16, 3, 9), n);
    Before(TimesX, Constant, P(11, 20, 30, 22, 3, 3), P(31, 5, 2, 11, 5, 13), n + 1);
    Before(TimesX, Constant, P(30, 26, 13, 15, 9, 31), P(11, 20, 30, 22, 3, 3), n + 2);
    Before(TimesX, Constant, P(28, 22, 6, 13, 25, 18), P(30, 26, 13, 15, 9, 31), n + 3);
    Before(TimesX, Constant, P(0, 7, 21, 26, 4, 25), P(28, 22, 6, 13, 25, 18), n + 4);
    Before(TimesX, Constant, P(7, 21, 26, 4, 25, 0), P(0, 7, 21, 26, 4, 25), n + 5);
    Before(TimesX, Constant, P(4, 16, 2, 7, 17, 12), P(7, 21, 26, 4, 25, 0), n + 6);
    Before(TimesX, Constant, P(25, 31, 12, 31, 5, 22), P(4, 16, 2, 7, 17, 12), n + 7);
    Before(TimesX, Constant, P(8, 29, 16, 31, 1, 30), P(25, 31, 12, 31, 5, 22), n + 8);
    Before(TimesX, Constant, P(15, 3, 9, 29, 12, 5), P(8, 29, 16, 31, 1, 30), n + 9);
    Before(TimesX, Constant, P(0, 16, 13, 14, 6, 9), P(15, 3, 9, 29, 12, 5), n + 10);
  }

  lemma FourthPowers(n: nat)
    requires Avoids(TimesX, Constant, P(8, 9, 17, 2, 30, 3), n)
    ensures Avoids(TimesX, Constant, P(21, 19, 26, 16, 3, 9), n + 11)
  {
    Before(TimesX, Constant, P(27, 2, 20, 2, 17, 5), P(8, 9, 17, 2, 30, 3), n);
    Before(TimesX, Constant, P(5, 31, 28, 12, 2, 21), P(27, 2, 20, 2, 17, 5), n + 1);
    Before(TimesX, Constant, P(30, 12, 27, 27, 20, 7), P(5, 31, 28, 12, 2, 21), n + 2);
    Before(TimesX, Constant, P(10, 0, 18, 16, 1, 18), P(30, 12, 27, 27, 20, 7), n + 3);
    Before(TimesX, Constant, P(2, 27, 23, 26, 16, 14), P(10, 0, 18, 16, 1, 18), n + 4);
    Before(TimesX, Constant, P(11, 13, 11, 23, 30, 11), P(2, 27, 23, 26, 16, 14), n + 5);
    Before(TimesX, Constant, P(7, 15, 12, 18, 1, 31), P(11, 13, 11, 23, 30, 11), n + 6);
    Before(TimesX, Constant, P(30, 6, 20, 31, 14, 12), P(7, 15, 12, 18, 1, 31), n + 7);
    Before(TimesX, Constant, P(0, 15, 22, 10, 10, 18), P(30, 6, 20, 31, 14, 12), n + 8);
    Before(TimesX, Constant, P(15, 22, 10, 10, 18, 0), P(0, 15, 22, 10, 10, 18), n + 9);
    Before(TimesX, Constant, P(21, 19, 26, 16, 3, 9), P(15, 22, 10, 10, 18, 0), n + 10);
  }

  lemma FifthPowers(n: nat)
    requires Avoids(TimesX, Constant, P(5, 0, 11, 15, 2, 30), n)
    ensures Avoids(TimesX, Constant, P(8, 9, 17, 2, 30, 3), n + 11)
  {
    Before(TimesX, Constant, P(1, 27, 24, 27, 31, 7), P(5, 0, 11, 15, 2, 30), n);
    Before(TimesX, Constant, P(19, 21, 7, 8, 15, 17), P(1, 27, 24, 27, 31, 7), n + 1);
    Before(TimesX, Constant, P(0, 31, 0, 14, 4, 16), P(19, 21, 7, 8, 15, 17), n + 2);
    Before(TimesX, Constant, P(31, 0, 14, 4, 16, 0), P(0, 31, 0, 14, 4, 16), n + 3);
    Before(TimesX, Constant, P(14, 24, 17, 3, 14, 3), P(31, 0, 14, 4, 16, 0), n + 4);
    Before(TimesX, Constant, P(19, 5, 15, 27, 8, 24), P(14, 24, 17, 3, 14, 3), n + 5);
    Before(TimesX, Constant, P(16, 23, 19, 9, 13, 16), P(19, 5, 15, 27, 8, 24), n + 6);
    Before(TimesX, Constant, P(26, 28, 12, 28, 29, 10), P(16, 23, 19, 9, 13, 16), n + 7);
    Before(TimesX, Constant, P(19, 10, 30, 23, 5, 4), P(26, 28, 12, 28, 29, 10), n + 8);
    Before(TimesX, Constant, P(31, 6, 31, 4, 17, 16), P(19, 10, 30, 23, 5, 4), n + 9);
    Before(TimesX, Constant, P(8, 9, 17, 2, 30, 3), P(31, 6, 31, 4, 17, 16), n + 10);
  }

  lemma SixthPowers(n: nat)
    requires Avoids(TimesX, Constant, P(24, 19, 0, 24, 5, 12), n)
    ensures Avoids(TimesX, Constant, P(5, 0, 11, 15, 2, 30), n + 11)
  {
    Before(TimesX, Constant, P(12, 28, 11, 8, 19, 15), P(24, 19, 0, 24, 5, 12), n);
    Before(TimesX, Constant, P(7, 5, 21, 1, 20, 19), P(12, 28, 11, 8, 19, 15), n + 1);
    Before(TimesX, Constant, P(20, 31, 7, 10, 2, 12), P(7, 5, 21, 1, 20, 19), n + 2);
    Before(TimesX, Constant, P(27, 21, 4, 29, 8, 28), P(20, 31, 7, 10, 2, 12), n + 3);
    Before(TimesX, Constant, P(18, 15, 3, 21, 27, 21), P(27, 21, 4, 29, 8, 28), n + 4);
    Before(TimesX, Constant, P(18, 22, 1, 13, 8, 1), P(18, 15, 3, 21, 27, 21), n + 5);
    Before(TimesX, Constant, P(11, 20, 25, 30, 28, 1), P(18, 22, 1, 13, 8, 1), n + 6);
    Before(TimesX, Constant, P(30, 29, 5, 16, 11, 31), P(11, 20, 25, 30, 28, 1), n + 7);
    Before(TimesX, Constant, P(27, 30, 25, 15, 25, 18), P(30, 29, 5, 16, 11, 31), n + 8);
    Before(TimesX, Constant, P(25, 18, 17, 4, 21, 21), P(27, 30, 25, 15, 25, 18), n + 9);
    Before(TimesX, Constant, P(5, 0, 11, 15, 2, 30), P(25, 18, 17, 4, 21, 21), n + 10);
  }

  lemma SeventhPowers(n: nat)
    requires Avoids(TimesX, Constant, P(0, 11, 9, 21, 16, 28), n)
    ensures Avoids(TimesX, Constant, P(24, 19, 0, 24, 5, 12), n + 11)
  {
    Before(TimesX, Constant, P(11, 9, 21, 16, 28, 0), P(0, 11, 9, 21, 16, 28), n);
    Before(TimesX, Constant, P(3, 17, 11, 16, 10, 31), P(11, 9, 21, 16, 28, 0), n + 1);
    Before(TimesX, Constant, P(9, 28, 29, 26, 7, 26), P(3, 17, 11, 16, 10, 31), n + 2);
    Before(TimesX, Constant, P(6, 3, 16, 12, 0, 20), P(9, 28, 29, 26, 7, 26), n + 3);
    Before(TimesX, Constant, P(26, 23, 22, 9, 13, 29), P(6, 3, 16, 12, 0, 20), n + 4);
    Before(TimesX, Constant, P(24, 16, 11, 7, 18, 4), P(26, 23, 22, 9, 13, 29), n + 5);
    Before(TimesX, Constant, P(15, 23, 20, 31, 27, 15), P(24, 16, 11, 7, 18, 4), n + 6);
    Before(TimesX, Constant, P(20, 13, 15, 25, 12, 9), P(15, 23, 20, 31, 27, 15), n + 7);
    Before(TimesX, Constant, P(9, 29, 23, 19, 13, 28), P(20, 13, 15, 25, 12, 9), n + 8);
    Before(TimesX, Constant, P(7, 9, 25, 6, 6, 20), P(9, 29, 23, 19, 13, 28), n + 9);
    Before(TimesX, Constant, P(24, 19, 0, 24, 5, 12), P(7, 9, 25, 6, 6, 20), n + 10);
  }

  lemma EighthPowers(n: nat)
    requires Avoids(TimesX, Constant, P(30, 17, 8, 22, 5, 10), n)
    ensures Avoids(TimesX, Constant, P(0, 11, 9, 21, 16, 28), n + 11)
  {
    Before(TimesX, Constant, P(23, 19, 31, 1, 12, 18), P(30, 17, 8, 22, 5, 10), n);
    Before(TimesX, Constant, P(15, 26, 2, 3, 14, 6), P(23, 19, 31, 1, 12, 18), n + 1);
    Before(TimesX, Constant, P(25, 27, 19, 12, 5, 9), P(15, 26, 2, 3, 14, 6), n + 2);
    Before(TimesX, Constant, P(12, 2, 3, 31, 30, 30), P(25, 27, 19, 12, 5, 9), n + 3);
    Before(TimesX, Constant, P(25, 13, 2, 12, 5, 19), P(12, 2, 3, 31, 30, 30), n + 4);
    Before(TimesX, Constant, P(26, 19, 3, 31, 4, 30), P(25, 13, 2, 12, 5, 19), n + 5);
    Before(TimesX, Constant, P(28, 5, 29, 14, 17, 4), P(26, 19, 3, 31, 4, 30), n + 6);
    Before(TimesX, Constant, P(19, 28, 22, 18, 18, 25), P(28, 5, 29, 14, 17, 4), n + 7);
    Before(TimesX, Constant, P(9, 14, 26, 19, 12, 16), P(19, 28, 22, 18, 18, 25), n + 8);
    Before(TimesX, Constant, P(20, 4, 25, 7, 10, 20), P(9, 14, 26, 19, 12, 16), n + 9);
    Before(TimesX, Constant, P(0, 11, 9, 21, 16, 28), P(20, 4, 25, 7, 10, 20), n + 10);
  }

  /** No power of x up to 88 is a constant. */
  lemma AllPowers(n: nat)
    requires n == 0
    ensures Avoids(TimesX, Constant, P(1, 0, 0, 0, 0, 0), n + 88)
  {
    EighthPowers(n);
    SeventhPowers(n + 11);
    SixthPowers(n + 22);
    FifthPowers(n + 33);
    FourthPowers(n + 44);
    ThirdPowers(n + 55);
    SecondPowers(n + 66);
    FirstPowers(n + 77);
  }

  function ConstantPoly(x: Elem): Poly {
    Poly(x, NONE, NONE, NONE, NONE, NONE)
  }

  lemma {:induction false} ScaledConstant(x: Elem, j: nat)
    ensures Iterated(TwicePoly, ConstantPoly(x), j) == ConstantPoly(Iterated(Twice, x, j))
  {
    if j > 0 {
      ScaledConstant(x, j - 1);
    }
  }

  /** Nor is any multiple of such a power. */
  lemma NoConstant(x: Elem, k: nat)
    requires x != NONE && 0 < k <= 88
    ensures !Constant(Iterated(TimesX, ConstantPoly(x), k))
  {
    var n := 0;
    IsPower(x, n);
    var j := Reached(Twice, Number(1), x, n + 30);
    ScaledConstant(Number(1), j);
    forall q
      ensures TimesX(TwicePoly(q)) == TwicePoly(TimesX(q)) && Constant(TwicePoly(q)) == Constant(q)
    {
      TwiceTimesX(q);
      TwiceConstant(q);
    }
    AllPowers(n);
    assert ConstantPoly(Number(1)) == P(1, 0, 0, 0, 0, 0);
    ScaledAvoided(TimesX, TwicePoly, Constant, P(1, 0, 0, 0, 0, 0), n + 88, j, k);
  }

  // ---------------------------------------------------------------- remainders are polynomials

  lemma DigitHalf(x: nat, i: nat)
    ensures Digit(x, i + 1) == Digit(x / 2, i)
  {
    var p, q := Pow2(i), x / 2 / Pow2(i);
    Associate(2, p, q);
    assert x / 2 == p * q + x / 2 % p;
    DivModIs(x, 2 * p, q, 2 * (x / 2 % p) + x % 2);
  }

  lemma DigitDrop(x: nat, i: nat)
    requires i >= 5
    ensures Digit(x, i) == Digit(x / 32, i - 5)
  {
    DigitHalf(x, i - 1);
    DigitHalf(x / 2, i - 2);
    DigitHalf(x / 2 / 2, i - 3);
    DigitHalf(x / 2 / 2 / 2, i - 4);
    DigitHalf(x / 2 / 2 / 2 / 2, i - 5);
    assert x / 2 / 2 / 2 / 2 / 2 == x / 32;
  }

  /** A coefficient of a polynomial that is written as a number. */
  function Coefficient(x: nat, k: nat): Five
    decreases k
  {
    if k == 0 then x % 32 else Coefficient(x / 32, k - 1)
  }

  lemma ModHalf(x: int, p: int)
    requires p > 0 && x >= 0
    ensures x % (2 * p) / 2 == x / 2 % p && x % (2 * p) % 2 == x % 2
  {
    var q, r := x / 2 / p, x / 2 % p;
    Associate(2, p, q);
    assert x / 2 == p * q + r;
    DivModIs(x, 2 * p, q, 2 * r + x % 2);
  }

  lemma {:induction false} LowDigit(x: nat, m: nat, r: nat)
    requires r < m
    ensures Digit(x % Pow2(m), r) == Digit(x, r)
    decreases r
  {
    ModHalf(x, Pow2(m - 1));
    if r > 0 {
      DigitHalf(x, r - 1);
      DigitHalf(x % Pow2(m), r - 1);
      LowDigit(x / 2, m - 1, r - 1);
    }
  }

  lemma {:induction false} CoefficientDigit(x: nat, k: nat, r: nat)
    requires r < 5
    ensures Digit(x, 5 * k + r) == Digit(Coefficient(x, k), r)
    decreases k
  {
    if k == 0 {
      var m := 5;
      LowDigit(x, m, r);
    } else {
      DigitDrop(x, 5 * k + r);
      CoefficientDigit(x / 32, k - 1, r);
    }
  }

  /** A value as an element. */
  function Value(v: Five): Elem {
    Elem(Digit(v, 0), Digit(v, 1), Digit(v, 2), Digit(v, 3), Digit(v, 4))
  }

  /** A coefficient of a remainder. */
  function At(c: Remainder, k: nat): Elem
    requires k < 6
  {
    Elem(c[5 * k], c[5 * k + 1], c[5 * k + 2], c[5 * k + 3], c[5 * k + 4])
  }

  function AsPoly(c: Remainder): Poly {
    Poly(At(c, 0), At(c, 1), At(c, 2), At(c, 3), At(c, 4), At(c, 5))
  }

  /** The sum of those among five values that t selects, a bit of it. */
  predicate Selected(t: Elem, v: Five, w: Five, x: Five, y: Five, z: Five, r: nat) {
    ((((t.b0 && Digit(v, r)) != (t.b1 && Digit(w, r))) != (t.b2 && Digit(x, r))) != (t.b3 && Digit(y, r)))
    != (t.b4 && Digit(z, r))
  }

  function Selection(t: Elem, v: Five, w: Five, x: Five, y: Five, z: Five): Elem {
    Elem(Selected(t, v, w, x, y, z, 0), Selected(t, v, w, x, y, z, 1), Selected(t, v, w, x, y, z, 2),
         Selected(t, v, w, x, y, z, 3), Selected(t, v, w, x, y, z, 4))
  }

  /** The coefficients of the five multiples of the generator. */
  predicate Column(k: nat, v: Five, w: Five, x: Five, y: Five, z: Five) {
    && Coefficient(Generator(0), k) == v && Coefficient(Generator(1), k) == w && Coefficient(Generator(2), k) == x
    && Coefficient(Generator(3), k) == y && Coefficient(Generator(4), k) == z
  }

  /** What is added to a coefficient. */
  function TapsAt(c: Remainder, k: nat, n: nat): Elem
    requires n <= 5
  {
    Elem(Taps(c, 5 * k, n), Taps(c, 5 * k + 1, n), Taps(c, 5 * k + 2, n), Taps(c, 5 * k + 3, n), Taps(c, 5 * k + 4, n))
  }

  lemma TapsUnfold(c: Remainder, i: nat)
    ensures Taps(c, i, 5)
            == (((((c[25] && Digit(Generator(0), i)) != (c[26] && Digit(Generator(1), i)))
               != (c[27] && Digit(Generator(2), i))) != (c[28] && Digit(Generator(3), i)))
               != (c[29] && Digit(Generator(4), i)))
  {
    assert Taps(c, i, 1) == (c[25] && Digit(Generator(0), i));
    assert Taps(c, i, 2) == (Taps(c, i, 1) != (c[26] && Digit(Generator(1), i)));
    assert Taps(c, i, 3) == (Taps(c, i, 2) != (c[27] && Digit(Generator(2), i)));
    assert Taps(c, i, 4) == (Taps(c, i, 3) != (c[28] && Digit(Generator(3), i)));
  }

  lemma TapsDigit(c: Remainder, k: nat, v: Five, w: Five, x: Five, y: Five, z: Five, r: nat, n: nat)
    requires r < 5 && n == 5 && Column(k, v, w, x, y, z)
    ensures Taps(c, 5 * k + r, n) == Selected(At(c, 5), v, w, x, y, z, r)
  {
    TapsUnfold(c, 5 * k + r);
    CoefficientDigit(Generator(0), k, r);
    CoefficientDigit(Generator(1), k, r);
    CoefficientDigit(Generator(2), k, r);
    CoefficientDigit(Generator(3), k, r);
    CoefficientDigit(Generator(4), k, r);
  }

  lemma TapsSelect(c: Remainder, k: nat, v: Five, w: Five, x: Five, y: Five, z: Five, n: nat)
    requires n == 5 && Column(k, v, w, x, y, z)
    ensures TapsAt(c, k, n) == Selection(At(c, 5), v, w, x, y, z)
  {
    TapsDigit(c, k, v, w, x, y, z, 0, n);
    TapsDigit(c, k, v, w, x, y, z, 1, n);
    TapsDigit(c, k, v, w, x, y, z, 2, n);
    TapsDigit(c, k, v, w, x, y, z, 3, n);
    TapsDigit(c, k, v, w, x, y, z, 4, n);
  }

  lemma Columns()
    ensures Column(0, 18, 13, 26, 29, 19)
    ensures Column(1, 29, 19, 15, 30, 21)
    ensures Column(2, 21, 3, 6, 12, 24)
    ensures Column(3, 20, 1, 2, 4, 8)
    ensures Column(4, 22, 5, 10, 20, 1)
    ensures Column(5, 29, 19, 15, 30, 21)
  {
  }

  /** The multiples that a coefficient selects add up to its product. */
  lemma FirstSelections(t: Elem)
    ensures Selection(t, 18, 13, 26, 29, 19) == By18(t)
    ensures Selection(t, 29, 19, 15, 30, 21) == By29(t)
    ensures Selection(t, 21, 3, 6, 12, 24) == By21(t)
  {
    assert Pow2(0) == 1 && Pow2(1) == 2 && Pow2(2) == 4 && Pow2(3) == 8 && Pow2(4) == 16;
  }

  lemma LastSelections(t: Elem)
    ensures Selection(t, 20, 1, 2, 4, 8) == By20(t)
    ensures Selection(t, 22, 5, 10, 20, 1) == By22(t)
  {
    assert Pow2(0) == 1 && Pow2(1) == 2 && Pow2(2) == 4 && Pow2(3) == 8 && Pow2(4) == 16;
  }

  /** A coefficient of the product with x. */
  lemma Product(c: Remainder, k: nat, v: Five, w: Five, x: Five, y: Five, z: Five, n: nat)
    requires k < 6 && n == 5 && Column(k, v, w, x, y, z)
    ensures At(Step(c, 0), k) == Add(if k == 0 then NONE else At(c, k - 1), Selection(At(c, 5), v, w, x, y, z))
  {
    StepAt(c, k, n);
    TapsSelect(c, k, v, w, x, y, z, n);
  }

  lemma StepAt(c: Remainder, k: nat, n: nat)
    requires k < 6 && n == 5
    ensures At(Step(c, 0), k) == Add(if k == 0 then NONE else At(c, k - 1), TapsAt(c, k, n))
  {
    SumZero(0);
  }

  /** A step with a zero coefficient multiplies by x. */
  lemma StepIsTimesX(c: Remainder, n: nat)
    requires n == 5
    ensures AsPoly(Step(c, 0)) == TimesX(AsPoly(c))
  {
    Columns();
    FirstSelections(At(c, 5));
    LastSelections(At(c, 5));
    Product(c, 0, 18, 13, 26, 29, 19, n);
    Product(c, 1, 29, 19, 15, 30, 21, n);
    Product(c, 2, 21, 3, 6, 12, 24, n);
    Product(c, 3, 20, 1, 2, 4, 8, n);
    Product(c, 4, 22, 5, 10, 20, 1, n);
    Product(c, 5, 29, 19, 15, 30, 21, n);
  }

  // ---------------------------------------------------------------- two errors

  function Zeros(k: nat): seq<Five> {
    seq(k, _ => 0)
  }

  lemma NextZero(c: Remainder, k: nat)
    ensures AsPoly(Run(c, Zeros(k + 1))) == TimesX(AsPoly(Run(c, Zeros(k))))
  {
    assert Zeros(k + 1)[..k] == Zeros(k);
    var n := 5;
    StepIsTimesX(Run(c, Zeros(k)), n);
  }

  /** Zero coefficients multiply by powers of x. */
  lemma RunIsPower(c: Remainder, k: nat)
    ensures AsPoly(Run(c, Zeros(k))) == Iterated(TimesX, AsPoly(c), k)
  {
    var g := (j: nat) => AsPoly(Run(c, Zeros(j)));
    forall j: nat
      ensures g(j + 1) == TimesX(g(j))
    {
      NextZero(c, j);
    }
    AllIterates(TimesX, g, k);
    assert Zeros(0) == [];
  }

  /** The first coefficient is a constant. */
  lemma StartIs(v: Five)
    ensures AsPoly(Step(Zero(), v)) == ConstantPoly(Value(v))
  {
    forall i | 0 <= i < 30
      ensures Step(Zero(), v)[i] == (i < 5 && Digit(v, i))
    {
      StepAppends(Zero(), v, i);
    }
  }

  /** The difference of two values. */
  function Difference(v: Five, w: Five): Five {
    Group(Plus(Step(Zero(), v), Step(Zero(), w)), 0)
  }

  lemma DifferenceSums(v: Five, w: Five)
    ensures Sum(Difference(v, w), v, w)
  {
    forall i | 0 <= i < 5
      ensures Digit(Difference(v, w), i) == (Digit(v, i) != Digit(w, i))
    {
      StepAppends(Zero(), v, i);
      StepAppends(Zero(), w, i);
      GroupDigits(Plus(Step(Zero(), v), Step(Zero(), w)), 0, i);
    }
  }

  lemma SumSelf(v: Five)
    ensures Sum(0, v, v)
  {
    SumZero(0);
  }

  /** A difference is carried on by zeros. */
  lemma DifferenceRuns(c: Remainder, x: Five, y: Five, mid: seq<Five>)
    ensures Plus(Run(Step(c, x), mid), Run(Step(c, y), mid)) == Run(Step(Zero(), Difference(x, y)), Zeros(|mid|))
  {
    DifferenceSums(x, y);
    StepLinear(c, c, Difference(x, y), x, y);
    assert Plus(c, c) == Zero();
    forall i | 0 <= i < |mid|
      ensures Sum(Zeros(|mid|)[i], mid[i], mid[i])
    {
      SumSelf(mid[i]);
    }
    RunLinear(Step(c, x), Step(c, y), Zeros(|mid|), mid, mid);
  }

  /** Two remainders that a step makes equal differ by what a zero coefficient makes of a constant. */
  lemma MeetAgain(a: Remainder, b: Remainder, x: Five, y: Five)
    requires Step(a, x) == Step(b, y)
    ensures Step(Plus(a, b), 0) == Step(Zero(), Difference(x, y))
  {
    var d, e := Plus(a, b), Difference(x, y);
    DifferenceSums(x, y);
    StepLinear(a, b, e, x, y);
    SumZero(e);
    StepLinear(d, Zero(), e, 0, e);
    assert Plus(d, Zero()) == d;
    assert Plus(Step(d, 0), Step(Zero(), e)) == Plus(Step(a, x), Step(b, y));
    forall i | 0 <= i < 30
      ensures Step(d, 0)[i] == Step(Zero(), e)[i]
    {
      assert Plus(Step(d, 0), Step(Zero(), e))[i] == Plus(Step(a, x), Step(b, y))[i];
    }
  }

  lemma DifferenceShows(x: Five, y: Five)
    requires x != y
    ensures Value(Difference(x, y)) != NONE
  {
    DifferenceSums(x, y);
    if Value(Difference(x, y)) == NONE {
      forall i | 0 <= i < 5
        ensures Digit(x, i) == Digit(y, i)
      {
        assert !Digit(Difference(x, y), i);
      }
      DigitsDetermine(x, y);
    }
  }

  /** A changed coefficient is not made up for by another one up to 88 places later. */
  lemma NotMadeUp(c: Remainder, x: Five, y: Five, mid: seq<Five>, v: Five, w: Five)
    requires x != y && |mid| < 88
    ensures Step(Run(Step(c, x), mid), v) != Step(Run(Step(c, y), mid), w)
  {
    var a, b := Run(Step(c, x), mid), Run(Step(c, y), mid);
    if Step(a, v) == Step(b, w) {
      var start := Step(Zero(), Difference(x, y));
      var k := |mid| + 1;
      DifferenceRuns(c, x, y, mid);
      MeetAgain(a, b, v, w);
      assert Zeros(k)[..k - 1] == Zeros(|mid|);
      assert Run(start, Zeros(k)) == Step(Zero(), Difference(v, w));
      RunIsPower(start, k);
      StartIs(Difference(x, y));
      StartIs(Difference(v, w));
      DifferenceShows(x, y);
      NoConstant(Value(Difference(x, y)), k);
    }
  }

  /** Any change of two coefficients that are at most 88 places apart changes the checksum. */
  lemma TwoChangesShow(v: seq<Five>, i: nat, j: nat, x: Five, y: Five)
    requires i < j < |v| && j - i <= 88 && x != v[i]
    ensures PolyMod(v[i := x][j := y]) != PolyMod(v)
  {
    var c, mid, rest := Run(One(), v[..i]), v[i + 1..j], v[j + 1..];
    Parts(v, i, j, v[i], v[j]);
    Parts(v, i, j, x, y);
    assert v[i := v[i]][j := v[j]] == v;
    NotMadeUp(c, v[i], x, mid, v[j], y);
    if PolyMod(v[i := x][j := y]) == PolyMod(v) {
      RunInjective(Step(Run(Step(c, v[i]), mid), v[j]), Step(Run(Step(c, x), mid), y), rest);
    }
  }

  lemma Parts(v: seq<Five>, i: nat, j: nat, x: Five, y: Five)
    requires i < j < |v|
    ensures PolyMod(v[i := x][j := y]) == Run(Step(Run(Step(Run(One(), v[..i]), x), v[i + 1..j]), y), v[j + 1..])
  {
    var front, mid, rest := v[..i], v[i + 1..j], v[j + 1..];
    var w := front + [x] + mid + [y];
    assert v[i := x][j := y] == w + rest;
    RunAppend(One(), w, rest);
    assert w[..|w| - 1] == front + [x] + mid;
    RunAppend(One(), front + [x], mid);
    assert (front + [x])[..|front|] == front;
  }

  /** Lists that differ at two places, and only there, have different checksums. */
  lemma TwoValuesShow(enc: seq<Five>, x: seq<Five>, y: seq<Five>, i: nat, j: nat)
    requires |x| == |y| && i < j < |x| && j - i <= 88 && (x[i] != y[i] || x[j] != y[j])
    requires forall k :: 0 <= k < |x| && k != i && k != j ==> x[k] == y[k]
    ensures PolyMod(enc + x) != PolyMod(enc + y)
  {
    var v: seq<Five>, i', j' := enc + x, |enc| + i, |enc| + j;
    assert enc + y == v[i' := y[i]][j' := y[j]];
    if x[i] != y[i] {
      TwoChangesShow(v, i', j', y[i], y[j]);
    } else {
      assert enc + y == v[j' := y[j]];
      OneChangeShows(v, j', y[j]);
    }
  }

  // ---------------------------------------------------------------- errors in the prefix

  /** What the checksum is computed over: the expanded prefix and the data. */
  function Whole(s: string, pos: nat): seq<Five>
    requires pos < |s| && AllInCharset(s[pos + 1..])
  {
    Expanded(Lower(s[..pos])) + Values(s[pos + 1..])
  }

  lemma WholeAt(s: string, pos: nat, k: nat)
    requires pos < |s| && AllInCharset(s[pos + 1..]) && k < pos + |s|
    ensures |Whole(s, pos)| == pos + |s|
    ensures Whole(s, pos)[k] == if k < pos then CodeOf(LowerCase(s[k])) / 32
                                else if k == pos then 0
                                else if k <= 2 * pos then CodeOf(LowerCase(s[k - pos - 1])) % 32
                                else Rev(s[k - pos])
  {
    if k > 2 * pos {
      assert s[pos + 1..][k - 2 * pos - 1] == s[k - pos];
    }
  }

  lemma CodesDiffer(a: char, b: char)
    requires IsPrintable(a) && IsPrintable(b) && a != b
    ensures CodeOf(a) / 32 != CodeOf(b) / 32 || CodeOf(a) % 32 != CodeOf(b) % 32
  {
  }

  lemma LowerPrintable(c: char)
    requires IsPrintable(c)
    ensures IsPrintable(LowerCase(c))
  {
  }

  /** One replaced character of the prefix changes the checksum: it enters it twice, at most 84 places apart. */
  lemma PrefixNotVerified(s: string, t: string, pos: nat, i: nat)
    requires |t| == |s| <= 90 && i < pos && pos + 7 <= |s| && (forall k :: 0 <= k < |s| && k != i ==> t[k] == s[k])
    requires IsPrintable(s[i]) && IsPrintable(t[i]) && LowerCase(t[i]) != LowerCase(s[i])
    requires AllInCharset(s[pos + 1..]) && AllInCharset(t[pos + 1..]) && Verifies(s, pos)
    ensures !Verifies(t, pos)
  {
    var v, w := Whole(s, pos), Whole(t, pos);
    LowerPrintable(s[i]);
    LowerPrintable(t[i]);
    CodesDiffer(LowerCase(s[i]), LowerCase(t[i]));
    WholeAt(s, pos, i);
    WholeAt(t, pos, i);
    WholeAt(s, pos, pos + 1 + i);
    WholeAt(t, pos, pos + 1 + i);
    forall k | 0 <= k < |v| && k != i && k != pos + 1 + i
      ensures v[k] == w[k]
    {
      WholeAt(s, pos, k);
      WholeAt(t, pos, k);
    }
    DifferenceTells(v, w, i, pos + 1 + i);
  }

  /** An accepted string with one character of the prefix replaced, other than by its other case, is rejected. */
  lemma PrefixSubstitutionRejected(s: string, i: nat, c: char)
    requires Decoded(s).Some? && i < LastOne(s) && LowerCase(c) != LowerCase(s[i])
    ensures Decoded(s[i := c]) == None
  {
    var pos, t := LastOne(s), s[i := c];
    LastOneIs(t, pos);
    DecodedIff(s);
    DecodedIff(t);
    if Shaped(t) {
      PrefixNotVerified(s, t, pos, i);
    }
  }

  // ---------------------------------------------------------------- two errors anywhere

  /** Where a character enters the checksum with its low bits or its value. */
  function PlaceOf(pos: nat, i: nat): nat {
    if i < pos then pos + 1 + i else pos + i
  }

  /** A replaced character of the prefix keeps its high bits, as a letter does for a letter and a digit for a digit. */
  predicate SameKind(pos: nat, i: nat, a: char, b: char) {
    i < pos ==> CodeOf(LowerCase(a)) / 32 == CodeOf(LowerCase(b)) / 32
  }

  /** Whether two characters mean the same at a place: up to case in the prefix, and the same value in the data. */
  predicate SameMeaning(pos: nat, i: nat, a: char, b: char) {
    if i < pos then LowerCase(a) == LowerCase(b) else Rev(a) == Rev(b)
  }

  lemma PlaceTells(s: string, t: string, pos: nat, i: nat)
    requires |t| == |s| && pos < |s| && i < |s| && i != pos && SameKind(pos, i, s[i], t[i])
    requires AllInCharset(s[pos + 1..]) && AllInCharset(t[pos + 1..]) && IsPrintable(s[i]) && IsPrintable(t[i])
    ensures PlaceOf(pos, i) < |Whole(s, pos)| == |Whole(t, pos)|
    ensures Whole(s, pos)[PlaceOf(pos, i)] == Whole(t, pos)[PlaceOf(pos, i)] ==> SameMeaning(pos, i, s[i], t[i])
  {
    WholeAtPlace(s, pos, i);
    WholeAtPlace(t, pos, i);
    LowerPrintable(s[i]);
    LowerPrintable(t[i]);
    if LowerCase(s[i]) != LowerCase(t[i]) {
      CodesDiffer(LowerCase(s[i]), LowerCase(t[i]));
    }
  }

  lemma WholeAtPlace(s: string, pos: nat, i: nat)
    requires pos < |s| && i < |s| && i != pos && AllInCharset(s[pos + 1..])
    ensures PlaceOf(pos, i) < |Whole(s, pos)|
    ensures Whole(s, pos)[PlaceOf(pos, i)] == if i < pos then CodeOf(LowerCase(s[i])) % 32 else Rev(s[i])
  {
    WholeAt(s, pos, PlaceOf(pos, i));
  }

  lemma WholeElsewhere(s: string, t: string, pos: nat, i: nat, j: nat, k: nat)
    requires |t| == |s| && pos < |s| && i < j < |s| && i != pos && j != pos
    requires forall k :: 0 <= k < |s| && k != i && k != j ==> t[k] == s[k]
    requires SameKind(pos, i, s[i], t[i]) && SameKind(pos, j, s[j], t[j])
    requires AllInCharset(s[pos + 1..]) && AllInCharset(t[pos + 1..])
    requires k < pos + |s| && k != PlaceOf(pos, i) && k != PlaceOf(pos, j)
    ensures |Whole(s, pos)| == |Whole(t, pos)| == pos + |s| && Whole(s, pos)[k] == Whole(t, pos)[k]
  {
    WholeAt(s, pos, k);
    WholeAt(t, pos, k);
  }

  /** Two strings that differ at two places, in meaning at one of them at least, and in kind at none. */
  ghost predicate TwoReplaced(s: string, t: string, pos: nat, i: nat, j: nat) {
    && |t| == |s| <= 90 && pos < |s| && i < j < |s| && i != pos && j != pos
    && (forall k :: 0 <= k < |s| && k != i && k != j ==> t[k] == s[k])
    && SameKind(pos, i, s[i], t[i]) && SameKind(pos, j, s[j], t[j])
    && (!SameMeaning(pos, i, s[i], t[i]) || !SameMeaning(pos, j, s[j], t[j]))
    && AllPrintable(s) && AllPrintable(t) && AllInCharset(s[pos + 1..]) && AllInCharset(t[pos + 1..])
  }

  lemma WholesDiffer(s: string, t: string, pos: nat, i: nat, j: nat, v: seq<Five>, w: seq<Five>)
    requires TwoReplaced(s, t, pos, i, j) && v == Whole(s, pos) && w == Whole(t, pos)
    ensures |v| == |w| && DifferAt(v, w, PlaceOf(pos, i), PlaceOf(pos, j))
  {
    PlaceTells(s, t, pos, i);
    PlaceTells(s, t, pos, j);
    forall k | 0 <= k < |v| && k != PlaceOf(pos, i) && k != PlaceOf(pos, j)
      ensures v[k] == w[k]
    {
      WholeElsewhere(s, t, pos, i, j, k);
    }
  }

  /** Two lists that differ at one or two places up to 88 apart. */
  ghost predicate DifferAt(v: seq<Five>, w: seq<Five>, x: nat, y: nat)
    requires |v| == |w|
  {
    && x < y < |v| && y - x <= 88 && (v[x] != w[x] || v[y] != w[y])
    && forall k :: 0 <= k < |v| && k != x && k != y ==> v[k] == w[k]
  }

  lemma DifferenceTells(v: seq<Five>, w: seq<Five>, x: nat, y: nat)
    requires |v| == |w| && DifferAt(v, w, x, y)
    ensures PolyMod(v) != PolyMod(w)
  {
    TwoValuesShow([], v, w, x, y);
    assert [] + v == v && [] + w == w;
  }

  lemma TwoNotVerified(s: string, t: string, pos: nat, i: nat, j: nat)
    requires TwoReplaced(s, t, pos, i, j) && Verifies(s, pos)
    ensures !Verifies(t, pos)
  {
    WholesDiffer(s, t, pos, i, j, Whole(s, pos), Whole(t, pos));
    DifferenceTells(Whole(s, pos), Whole(t, pos), PlaceOf(pos, i), PlaceOf(pos, j));
  }

  lemma BothReplaced(s: string, t: string, pos: nat, i: nat, j: nat)
    requires Shaped(s) && Shaped(t) && pos == LastOne(s) == LastOne(t) && i < j < |s| && i != pos && j != pos
    requires |t| == |s| && forall k :: 0 <= k < |s| && k != i && k != j ==> t[k] == s[k]
    requires SameKind(pos, i, s[i], t[i]) && SameKind(pos, j, s[j], t[j])
    requires !SameMeaning(pos, i, s[i], t[i]) || !SameMeaning(pos, j, s[j], t[j])
    ensures TwoReplaced(s, t, pos, i, j)
  {
  }

  /**
   * An accepted string with any two characters replaced, in the prefix or in the data or one in each, is rejected,
   * unless they mean the same as before, or a separator is put into the data, or a character of the prefix is replaced
   * by one of another kind.
   */
  lemma TwoReplacedRejected(s: string, i: nat, j: nat, a: char, b: char)
    requires Decoded(s).Some? && i < j < |s| && i != LastOne(s) && j != LastOne(s)
    requires (i > LastOne(s) ==> a != '1') && (j > LastOne(s) ==> b != '1')
    requires SameKind(LastOne(s), i, s[i], a) && SameKind(LastOne(s), j, s[j], b)
    requires !SameMeaning(LastOne(s), i, s[i], a) || !SameMeaning(LastOne(s), j, s[j], b)
    ensures Decoded(s[i := a][j := b]) == None
  {
    var pos, t := LastOne(s), s[i := a][j := b];
    LastOneIs(t, pos);
    DecodedIff(s);
    DecodedIff(t);
    if Shaped(t) {
      BothReplaced(s, t, pos, i, j);
      TwoNotVerified(s, t, pos, i, j);
    }
  }

  /**
   * In particular however two data characters of an accepted string are replaced, wherever they are, the result is
   * rejected, unless both spell the same value as before or a separator is put in.
   */
  lemma TwoSubstitutionsRejected(s: string, i: nat, j: nat, a: char, b: char)
    requires Decoded(s).Some? && LastOne(s) < i < |s| && LastOne(s) < j < |s| && i != j
    requires a != '1' && b != '1' && (Rev(a) != Rev(s[i]) || Rev(b) != Rev(s[j]))
    ensures Decoded(s[i := a][j := b]) == None
  {
    if i < j {
      TwoReplacedRejected(s, i, j, a, b);
    } else {
      assert s[i := a][j := b] == s[j := b][i := a];
      TwoReplacedRejected(s, j, i, b, a);
    }
  }
}
