/**
 * The compact form of difficulty targets (src/arith_uint256.cpp) and the work that a target stands
 * for (src/chain.cpp).
 */
module Compact {
  import opened Arithmetic
  import opened Bits
  import opened Limbs
  import opened LimbShifts
  import opened Arith

  /** 256 bits. */
  const WIDTH: nat := 8

  type Uint32 = x: int | 0 <= x < 0x1_0000_0000

  function Exponent(nCompact: Uint32): nat {
    nCompact / 0x100_0000
  }

  function Mantissa(nCompact: Uint32): nat {
    nCompact % 0x80_0000
  }

  predicate SignBit(nCompact: Uint32) {
    nCompact / 0x80_0000 % 2 == 1
  }

  /** word * 256 ^ (size - 3), without limit and rounded down. */
  function Scale(word: nat, size: nat): nat
    decreases if size > 3 then size - 3 else 3 - size
  {
    if size == 3 then word else if size > 3 then 256 * Scale(word, size - 1) else Scale(word, size + 1) / 256
  }

  /** The number that a compact form stands for. */
  function Exact(nCompact: Uint32): nat {
    Scale(Mantissa(nCompact), Exponent(nCompact))
  }

  lemma {:induction false} ScaleUp(word: nat, size: nat)
    requires size >= 3
    ensures Scale(word, size) == word * Pow2(8 * (size - 3))
  {
    if size > 3 {
      ScaleUp(word, size - 1);
      Pow2Add(8, 8 * (size - 4));
      assert Pow2(8) == 256;
      TimesByte(word, Pow2(8 * (size - 4)));
    }
  }

  lemma TimesByte(word: int, p: int)
    ensures word * (256 * p) == 256 * (word * p)
  {
  }

  lemma ScaleDown(word: nat, size: nat)
    requires size <= 3
    ensures Scale(word, size) == word / Pow2(8 * (3 - size)) <= word
  {
    SmallPowers();
    assert Scale(word, 2) == word / 256;
    assert Scale(word, 1) == word / 256 / 256;
    assert Scale(word, 0) == word / 256 / 256 / 256;
  }

  function Modulus(): nat {
    Power(WIDTH)
  }

  lemma ModulusIs()
    ensures Modulus() == Pow2(256)
  {
    LimbPower(WIDTH);
  }

  /** The source's test for overflow, on the mantissa that is left after a right shift. */
  predicate OverflowTest(word: nat, size: nat) {
    word != 0 && (size > 34 || (word > 0xff && size > 33) || (word > 0xffff && size > 32))
  }

  lemma ScaleBounds(word: nat, size: nat, digits: nat, limit: nat)
    requires size >= 3 && word < Pow2(digits) && 8 * (size - 3) + digits <= limit
    ensures Scale(word, size) < Pow2(limit)
  {
    var k := 8 * (size - 3);
    ScaleUp(word, size);
    Pow2Add(digits, k);
    Pow2Mono(digits + k, limit);
    StaysBelow(Pow2(k), word, Pow2(digits), Pow2(limit));
  }

  lemma StaysBelow(p: int, word: int, bound: int, limit: int)
    requires p > 0 && word < bound && bound * p <= limit
    ensures word * p < limit
  {
    MulMono(p, word + 1, bound);
    Distribute(p, word, 1);
  }

  lemma ScaleExceeds(word: nat, size: nat, digits: nat, limit: nat)
    requires size >= 3 && word >= Pow2(digits) && 8 * (size - 3) + digits >= limit
    ensures Scale(word, size) >= Pow2(limit)
  {
    var k := 8 * (size - 3);
    ScaleUp(word, size);
    Pow2Add(digits, k);
    Pow2Mono(limit, digits + k);
    Reaches(Pow2(k), word, Pow2(digits), Pow2(limit));
  }

  lemma Reaches(p: int, word: int, bound: int, limit: int)
    requires p > 0 && word >= bound && bound * p >= limit
    ensures word * p >= limit
  {
    MulMono(p, bound, word);
  }

  lemma SmallPowers()
    ensures Pow2(0) == 1 && Pow2(8) == 0x100 && Pow2(16) == 0x1_0000 && Pow2(23) == 0x80_0000 && Pow2(24) == 0x100_0000
  {
    assert Pow2(8) == 0x100 && Pow2(7) == 0x80;
    Pow2Add(8, 8);
    Pow2Add(16, 7);
    Pow2Add(16, 8);
  }

  /** The test is exact: it fires when and only when the number does not fit in 256 bits. */
  lemma OverflowIff(word: nat, size: nat)
    requires word < 0x80_0000 && size > 3
    ensures OverflowTest(word, size) <==> Scale(word, size) >= Modulus()
  {
    ModulusIs();
    OverflowAt(word, size, 256);
  }

  lemma OverflowAt(word: nat, size: nat, limit: nat)
    requires word < 0x80_0000 && size > 3 && limit + 24 == 8 * 35
    ensures OverflowTest(word, size) <==> Scale(word, size) >= Pow2(limit)
  {
    SmallPowers();
    if word == 0 {
      NonZeroScaled(word, size);
    } else if size > 34 {
      ScaleExceeds(word, size, 0, limit);
    } else if size == 34 {
      if word > 0xff { ScaleExceeds(word, size, 8, limit); } else { ScaleBounds(word, size, 8, limit); }
    } else if size == 33 {
      if word > 0xffff { ScaleExceeds(word, size, 16, limit); } else { ScaleBounds(word, size, 16, limit); }
    } else {
      ScaleBounds(word, size, 23, limit);
    }
  }

  lemma NoOverflowBelow(word: nat, size: nat)
    requires word < 0x80_0000 && size <= 3
    ensures Scale(word, size) < Modulus() && !OverflowTest(Scale(word, size), size)
  {
    ScaleDown(word, size);
  }

  lemma {:induction false} NonZeroScaled(word: nat, size: nat)
    requires size >= 3
    ensures word != 0 <==> Scale(word, size) != 0
  {
    if size > 3 {
      NonZeroScaled(word, size - 1);
    }
  }

  /** Sets n to the number that a compact form stands for, and reports sign and overflow. */
  method SetCompact(n: BaseUint, nCompact: Uint32) returns (negative: bool, overflow: bool)
    requires n.pn.Length == WIDTH
    modifies n.pn
    ensures negative <==> Exact(nCompact) != 0 && SignBit(nCompact)
    ensures overflow <==> Exact(nCompact) >= Modulus()
    ensures n.Value() == Wrap(Exact(nCompact), WIDTH)
  {
    var nSize := nCompact / 0x100_0000;
    var nWord := nCompact % 0x80_0000;
    if nSize <= 3 {
      NoOverflowBelow(nWord, nSize);
      ScaleDown(nWord, nSize);
      nWord := nWord / Pow2(8 * (3 - nSize));
      n.Set(nWord);
      WrapSmall(nWord, WIDTH);
    } else {
      OverflowIff(nWord, nSize);
      NonZeroScaled(nWord, nSize);
      ScaleUp(nWord, nSize);
      n.Set(nWord);
      n.ShiftLeft(8 * (nSize - 3));
    }
    negative := nWord != 0 && nCompact / 0x80_0000 % 2 == 1;
    overflow := nWord != 0 && (nSize > 34 || (nWord > 0xff && nSize > 33) || (nWord > 0xffff && nSize > 32));
  }

  // ---------------------------------------------------------------- work

  /** A target that counts: not negative, not too large, not zero. */
  predicate ValidTarget(nBits: Uint32) {
    !(Exact(nBits) != 0 && SignBit(nBits)) && Exact(nBits) < Modulus() && Exact(nBits) != 0
  }

  /** The expected number of hashes to meet a target: all of them over those that do. */
  function Work(nBits: Uint32): nat {
    if ValidTarget(nBits) then Modulus() / (Exact(nBits) + 1) else 0
  }

  lemma QuotientExact(p: int, t: int, q: int)
    requires 1 <= t <= p && q == p / t
    ensures q >= 1 && q * t <= p < (q + 1) * t
  {
    assert p == t * q + p % t;
    if q < 1 {
      MulMono(t, q, 0);
    }
    Distribute(t, q, 1);
  }

  /**
   * Work is counted for exactly the targets from 1 to 2^256 - 1 without a sign, and it is the number of times that the
   * hashes that meet a target, t and one more for zero, go into all.
   */
  lemma WorkExact(nBits: Uint32, all: nat, work: nat)
    requires all == Modulus() && work == Work(nBits)
    ensures work >= 1 <==> 1 <= Exact(nBits) < all && nBits / 0x80_0000 % 2 == 0
    ensures work >= 1 ==> work * (Exact(nBits) + 1) <= all < (work + 1) * (Exact(nBits) + 1)
  {
    if ValidTarget(nBits) {
      QuotientExact(all, Exact(nBits) + 1, work);
    }
  }

  /** A smaller target is at least as much work. */
  lemma WorkMonotone(a: Uint32, b: Uint32)
    requires Work(a) >= 1 && Work(b) >= 1 && Exact(a) <= Exact(b)
    ensures Work(a) >= Work(b)
  {
    WorkExact(a, Modulus(), Work(a));
    WorkExact(b, Modulus(), Work(b));
    QuotientMonotone(Modulus(), Exact(a) + 1, Exact(b) + 1, Work(a), Work(b));
  }

  lemma QuotientMonotone(all: int, s: int, t: int, v: int, w: int)
    requires 1 <= s <= t && v >= 0 && w >= 0 && all < (v + 1) * s && w * t <= all
    ensures v >= w
  {
    if v + 1 <= w {
      MulMono(s, v + 1, w);
      MulMono(w, s, t);
    }
  }

  /** ~t / (t + 1) + 1 is 2^256 / (t + 1), though 2^256 itself does not fit. */
  lemma ComplementQuotient(p: int, t: int)
    requires 0 < t < p
    ensures (p - 1 - t) / (t + 1) + 1 == p / (t + 1)
  {
    var q, r := (p - 1 - t) / (t + 1), (p - 1 - t) % (t + 1);
    Distribute(t + 1, q, 1);
    DivModIs(p, t + 1, q + 1, r);
  }

  /** No target is all ones, so adding one does not wrap. */
  lemma RoomForOne(nBits: Uint32)
    requires Exact(nBits) < Modulus()
    ensures Exact(nBits) + 1 < Modulus()
  {
    assert Modulus() == 256 * (0x100_0000 * Power(WIDTH - 1));
    if Exponent(nBits) <= 3 {
      ScaleDown(Mantissa(nBits), Exponent(nBits));
    }
  }

  lemma HalfAtMost(p: int, t: int)
    requires t >= 1 && p >= 2
    ensures 0 <= p / (t + 1) < p
  {
    var q := p / (t + 1);
    assert (t + 1) * q <= p;
    if q >= p {
      MulMono(t + 1, p, q);
      MulMono(p, 2, t + 1);
    } else if q < 0 {
      MulMono(t + 1, q, -1);
    }
  }

  method GetBlockProof(nBits: Uint32) returns (r: BaseUint)
    ensures fresh(r) && r.pn.Length == WIDTH && r.Value() == Work(nBits)
  {
    var bnTarget := new BaseUint(WIDTH);
    var negative, overflow := SetCompact(bnTarget, nBits);
    if negative || overflow {
      r := new BaseUint(WIDTH);
      return;
    }
    WrapSmall(Exact(nBits), WIDTH);
    RoomForOne(nBits);
    r := ProofOf(bnTarget, Exact(nBits), Modulus());
  }

  /** The number of hashes, modulus / (target + 1), or zero for a zero target. */
  method ProofOf(bnTarget: BaseUint, ghost target: int, ghost modulus: int) returns (r: BaseUint)
    requires bnTarget.pn.Length >= 2 && bnTarget.Value() == target && modulus == Power(bnTarget.pn.Length) && target + 1 < modulus
    ensures fresh(r) && r.pn.Length == bnTarget.pn.Length
    ensures r.Value() == if target == 0 then 0 else modulus / (target + 1)
  {
    var zero := bnTarget.EqualTo(0);
    if zero {
      r := new BaseUint(bnTarget.pn.Length);
    } else {
      r := Quotient(bnTarget);
    }
  }

  /** (~t / (t + 1)) + 1 */
  method Quotient(t: BaseUint) returns (r: BaseUint)
    requires t.pn.Length >= 2 && 0 < t.Value() && t.Value() + 1 < Power(t.pn.Length)
    ensures fresh(r) && fresh(r.pn) && r.pn.Length == t.pn.Length
    ensures r.Value() == Power(t.pn.Length) / (t.Value() + 1)
  {
    ghost var q := QuotientFits(Power(t.pn.Length), t.Value());
    var next := new BaseUint.Copy(t);
    AddOne(next);
    r := t.Complement();
    var ok := r.Div(next);
    AddOne(r);
  }

  method AddOne(n: BaseUint)
    requires n.pn.Length >= 2 && n.Value() + 1 < Power(n.pn.Length)
    modifies n.pn
    ensures n.Value() == old(n.Value()) + 1
  {
    WrapSmall(n.Value() + 1, n.pn.Length);
    var one := new BaseUint.From(n.pn.Length, 1);
    n.Add(one);
  }

  lemma QuotientFits(p: int, t: int) returns (q: int)
    requires 0 < t < p
    ensures q == (p - 1 - t) / (t + 1) && q + 1 == p / (t + 1) && 0 <= q + 1 < p
  {
    ComplementQuotient(p, t);
    HalfAtMost(p, t);
    q := (p - 1 - t) / (t + 1);
  }

  // ---------------------------------------------------------------- to compact form

  /** The number of bytes of a number. */
  function ByteLength(v: nat): nat {
    if v == 0 then 0 else 1 + ByteLength(v / 256)
  }

  /** The upper three bytes of a number of a given size; a shorter one is filled up with zeros. */
  function Top(v: nat, size: nat): nat
    decreases if size > 3 then size - 3 else 3 - size
  {
    if size == 3 then v else if size > 3 then Top(v / 256, size - 1) else 256 * Top(v, size + 1)
  }

  /** Where the sign bit would be set, one byte less is kept. */
  function CompactSize(v: nat): nat {
    var size := ByteLength(v);
    if Top(v, size) >= 0x80_0000 then size + 1 else size
  }

  function CompactOf(v: nat, negative: bool): nat {
    var size := CompactSize(v);
    var word := Top(v, size);
    word + 0x100_0000 * size + if negative && word != 0 then 0x80_0000 else 0
  }

  lemma {:induction false} TopNext(v: nat, size: nat)
    ensures Top(v, size) / 256 == Top(v, size + 1)
    decreases size
  {
    if size > 3 {
      TopNext(v / 256, size - 1);
    }
  }

  /** Scaling back rounds down to the last byte that was kept. */
  lemma {:induction false} TopScaledUp(v: nat, size: nat)
    requires size >= 3
    ensures Scale(Top(v, size), size) <= v < Scale(Top(v, size) + 1, size)
    decreases size
  {
    if size > 3 {
      TopScaledUp(v / 256, size - 1);
    }
  }

  lemma {:induction false} TopScaledDown(v: nat, size: nat)
    requires size <= 3
    ensures Scale(Top(v, size), size) == v
    decreases 3 - size
  {
    if size < 3 {
      TopScaledDown(v, size + 1);
      ScaleShift(Top(v, size + 1), size);
    }
  }

  /** A byte more in the mantissa and one less in the exponent. */
  lemma ScaleShift(word: nat, size: nat)
    requires size < 3
    ensures Scale(256 * word, size) == Scale(word, size + 1)
  {
    if size == 0 {
      assert Scale(256 * word, 2) == word && Scale(256 * word, 1) == word / 256;
    } else if size == 1 {
      assert Scale(256 * word, 2) == word;
    }
  }

  /** 256 ^ k */
  function Bytes(k: nat): (b: nat)
    ensures b >= 1
  {
    if k == 0 then 1 else 256 * Bytes(k - 1)
  }

  lemma {:induction false} ByteLengthBound(v: nat, k: nat)
    requires ByteLength(v) <= k
    ensures v < Bytes(k)
  {
    if v > 0 {
      ByteLengthBound(v / 256, k - 1);
    } else if k > 0 {
      ByteLengthBound(0, k - 1);
    }
  }

  lemma {:induction false} TopBound(v: nat, size: nat)
    requires size >= ByteLength(v)
    ensures Top(v, size) < 0x100_0000
    decreases size
  {
    if size > 3 {
      TopBound(v / 256, size - 1);
    } else {
      ByteLengthBound(v, size);
      assert Bytes(3) == 0x100_0000 && Bytes(2) == 0x1_0000 && Bytes(1) == 0x100;
    }
  }

  lemma Fields(word: nat, size: nat, sign: bool)
    requires word < 0x80_0000 && size < 256
    ensures var c := word + 0x100_0000 * size + if sign then 0x80_0000 else 0;
            c < 0x1_0000_0000 && Exponent(c) == size && Mantissa(c) == word && SignBit(c) == sign
  {
  }

  lemma CompactWord(v: nat)
    ensures Top(v, CompactSize(v)) < 0x80_0000
  {
    TopBound(v, ByteLength(v));
    TopNext(v, ByteLength(v));
  }

  /** The fields of a compact form. */
  lemma CompactFields(v: nat, negative: bool)
    requires CompactSize(v) < 256
    ensures CompactOf(v, negative) < 0x1_0000_0000
    ensures Exponent(CompactOf(v, negative)) == CompactSize(v)
    ensures Mantissa(CompactOf(v, negative)) == Top(v, CompactSize(v))
    ensures SignBit(CompactOf(v, negative)) <==> negative && Top(v, CompactSize(v)) != 0
  {
    CompactWord(v);
    var size := CompactSize(v);
    var word := Top(v, size);
    Fields(word, size, negative && word != 0);
  }

  /**
   * What a compact form keeps of a number: it stands for the number rounded down to a multiple of
   * 256 ^ (size - 3), and for the number itself if that has at most three bytes.
   */
  lemma CompactRoundsDown(v: nat, negative: bool)
    requires CompactSize(v) < 256
    ensures CompactOf(v, negative) < 0x1_0000_0000 && Exact(CompactOf(v, negative)) <= v
    ensures CompactSize(v) > 3 ==> v < Scale(Mantissa(CompactOf(v, negative)) + 1, CompactSize(v))
    ensures CompactSize(v) <= 3 ==> Exact(CompactOf(v, negative)) == v
  {
    CompactFields(v, negative);
    if CompactSize(v) > 3 {
      TopScaledUp(v, CompactSize(v));
    } else {
      TopScaledDown(v, CompactSize(v));
    }
  }

  // ---------------------------------------------------------------- which forms come back

  lemma {:induction false} LengthFloor(v: nat)
    requires v > 0
    ensures v >= Bytes(ByteLength(v) - 1)
  {
    if v >= 256 {
      LengthFloor(v / 256);
    }
  }

  lemma {:induction false} TopOfLength(v: nat, size: nat)
    requires v > 0 && size == ByteLength(v)
    ensures 0x1_0000 <= Top(v, size) < 0x100_0000
    decreases v
  {
    if size > 3 {
      TopOfLength(v / 256, size - 1);
    } else {
      assert Top(v, 2) == 256 * v && Top(v, 1) == 256 * Top(v, 2);
      ByteLengthBound(v, size);
      assert Bytes(3) == 0x100_0000 && Bytes(2) == 0x1_0000 && Bytes(1) == 0x100;
      LengthFloor(v);
    }
  }

  lemma {:induction false} TopFalls(v: nat, a: nat, b: nat)
    requires a < b
    ensures 256 * Top(v, b) <= Top(v, a)
    decreases b
  {
    TopNext(v, b - 1);
    if a < b - 1 {
      TopFalls(v, a, b - 1);
    }
  }

  /** A number has one size at which its upper three bytes are normalized and leave the sign bit free. */
  lemma CompactSizeIff(v: nat, size: nat)
    requires v > 0
    ensures CompactSize(v) == size <==> 0x8000 <= Top(v, size) < 0x80_0000
  {
    TopOfLength(v, ByteLength(v));
    TopNext(v, ByteLength(v));
    var right := CompactSize(v);
    assert 0x8000 <= Top(v, right) < 0x80_0000;
    if size < right {
      TopFalls(v, size, right);
    } else if right < size {
      TopFalls(v, right, size);
    }
  }

  lemma {:induction false} TopOfScale(word: nat, size: nat)
    requires size >= 3
    ensures Top(Scale(word, size), size) == word
    decreases size
  {
    if size > 3 {
      TopOfScale(word, size - 1);
    }
  }

  /** With a short exponent the low bytes of the mantissa are cut off. */
  lemma TopOfShort(word: nat, size: nat)
    requires size < 3
    ensures Top(Scale(word, size), size) == word <==> word % Bytes(3 - size) == 0
    ensures Top(Scale(word, size), size) <= word
  {
    assert Bytes(1) == 256 && Bytes(2) == 0x1_0000 && Bytes(3) == 0x100_0000;
    ScaleDown(word, size);
    SmallPowers();
    var v := Scale(word, size);
    assert Top(v, 2) == 256 * v && Top(v, 1) == 0x1_0000 * v && Top(v, 0) == 0x100_0000 * v;
  }

  /** A form as GetCompact makes them: zero, or a normalized mantissa of which the exponent cuts nothing off. */
  predicate Canonical(nCompact: Uint32) {
    nCompact == 0
    || (Mantissa(nCompact) >= 0x8000 && (Exponent(nCompact) < 3 ==> Mantissa(nCompact) % Bytes(3 - Exponent(nCompact)) == 0))
  }

  lemma FieldsDetermine(a: Uint32, b: Uint32)
    requires Exponent(a) == Exponent(b) && Mantissa(a) == Mantissa(b) && SignBit(a) == SignBit(b)
    ensures a == b
  {
    assert a == 0x80_0000 * (a / 0x80_0000) + Mantissa(a) && b == 0x80_0000 * (b / 0x80_0000) + Mantissa(b);
    assert a / 0x80_0000 / 2 == Exponent(a) && b / 0x80_0000 / 2 == Exponent(b);
  }

  lemma ZeroForms(nCompact: Uint32)
    requires Exact(nCompact) == 0
    ensures CompactOf(0, SignBit(nCompact)) == 0 && (Canonical(nCompact) <==> nCompact == 0)
  {
    var word, size := Mantissa(nCompact), Exponent(nCompact);
    if size >= 3 {
      TopOfScale(word, size);
    } else {
      TopOfShort(word, size);
    }
    TopIsZero(size);
    TopIsZero(0);
  }

  lemma {:induction false} TopIsZero(size: nat)
    ensures Top(0, size) == 0
    decreases if size > 3 then size - 3 else 3 - size
  {
    if size > 3 {
      TopIsZero(size - 1);
    } else if size < 3 {
      TopIsZero(size + 1);
    }
  }

  lemma ExactSize(nCompact: Uint32)
    ensures CompactSize(Exact(nCompact)) < 256
  {
    var v, word, size := Exact(nCompact), Mantissa(nCompact), Exponent(nCompact);
    if size >= 3 {
      TopOfScale(word, size);
    } else {
      TopOfShort(word, size);
    }
    if v > 0 {
      CompactSizeIff(v, CompactSize(v));
      if size < CompactSize(v) {
        TopFalls(v, size, CompactSize(v));
      }
    } else {
      TopIsZero(0);
    }
  }

  /** GetCompact of SetCompact gives the same form back if and only if the form is canonical. */
  lemma CanonicalIff(nCompact: Uint32)
    ensures CompactOf(Exact(nCompact), SignBit(nCompact)) == nCompact <==> Canonical(nCompact)
  {
    ExactSize(nCompact);
    var v, word, size := Exact(nCompact), Mantissa(nCompact), Exponent(nCompact);
    if v == 0 {
      ZeroForms(nCompact);
    } else {
      CompactFields(v, SignBit(nCompact));
      CompactSizeIff(v, size);
      CompactSizeIff(v, CompactSize(v));
      if size >= 3 {
        TopOfScale(word, size);
      } else {
        TopOfShort(word, size);
      }
      if Canonical(nCompact) {
        FieldsDetermine(CompactOf(v, SignBit(nCompact)), nCompact);
      }
    }
  }

  lemma BytePower(k: nat)
    requires k >= 8
    ensures Pow2(k) == 256 * Pow2(k - 8)
  {
    Pow2Add(8, k - 8);
    SmallPowers();
  }

  /** The number of bytes from the number of bits. */
  lemma {:induction false} ByteLengthIs(v: nat, bits: nat)
    requires v < Pow2(bits) && (bits > 0 ==> v >= Pow2(bits - 1))
    ensures ByteLength(v) == (bits + 7) / 8
    decreases bits
  {
    if bits > 8 {
      BytePower(bits);
      BytePower(bits - 1);
      ByteLengthIs(v / 256, bits - 8);
    } else if bits > 0 {
      Pow2Mono(bits, 8);
      SmallPowers();
    }
  }

  lemma {:induction false} TopIsQuotient(v: nat, size: nat)
    requires size >= 3
    ensures Top(v, size) == v / Pow2(8 * (size - 3))
    decreases size
  {
    if size > 3 {
      TopIsQuotient(v / 256, size - 1);
      BytePower(8 * (size - 3));
      NestedQuotient(v, Pow2(8 * (size - 4)));
    }
  }

  lemma NestedQuotient(v: nat, q: nat)
    requires q > 0
    ensures v / 256 / q == v / (256 * q)
  {
    QuotientTwice(256, q, v % 256, v / 256 % q, v / 256 / q);
  }

  lemma TopIsProduct(v: nat, size: nat)
    requires size <= 3
    ensures Top(v, size) == v * Pow2(8 * (3 - size))
  {
    SmallPowers();
    assert Top(v, 2) == 256 * v;
    assert Top(v, 1) == 0x1_0000 * v;
  }

  /** The upper three bytes of a number with a known number of bytes. */
  method UpperBytes(n: BaseUint, nSize: nat) returns (word: nat)
    requires n.pn.Length >= 2 && nSize == ByteLength(n.Value())
    ensures word == Top(n.Value(), nSize) < 0x100_0000
  {
    TopBound(n.Value(), nSize);
    if nSize <= 3 {
      word := LowBytes(n, nSize);
    } else {
      word := HighBytes(n, nSize);
    }
  }

  method LowBytes(n: BaseUint, nSize: nat) returns (word: nat)
    requires n.pn.Length >= 2 && nSize == ByteLength(n.Value()) <= 3
    ensures word == Top(n.Value(), nSize)
  {
    TopIsProduct(n.Value(), nSize);
    Small(n.Value(), nSize);
    var low := n.GetLow64();
    word := low * Pow2(8 * (3 - nSize));
  }

  method HighBytes(n: BaseUint, nSize: nat) returns (word: nat)
    requires n.pn.Length >= 2 && nSize == ByteLength(n.Value()) > 3
    ensures word == Top(n.Value(), nSize)
  {
    TopBound(n.Value(), nSize);
    TopIsQuotient(n.Value(), nSize);
    var bn := new BaseUint.Copy(n);
    bn.ShiftRight(8 * (nSize - 3));
    word := bn.GetLow64();
  }

  lemma Small(v: nat, size: nat)
    requires ByteLength(v) <= size <= 3
    ensures v % 0x1_0000_0000_0000_0000 == v
  {
    ByteLengthBound(v, size);
    assert Bytes(3) == 0x100_0000 && Bytes(2) == 0x1_0000 && Bytes(1) == 0x100;
  }

  lemma ModWord(word: nat, size: nat)
    requires word < 0x80_0000
    ensures (word + 0x100_0000 * size) % 0x80_0000 == word
  {
    DivModIs(word + 0x100_0000 * size, 0x80_0000, 2 * size, word);
  }

  lemma ShiftedSize(size: nat)
    ensures Pow2(23) == 0x80_0000 && Doubled(size, 24) == 0x100_0000 * size
  {
    SmallPowers();
    DoubledIs(size, 24);
  }

  /** The parts of a compact form have no bits in common. */
  lemma Assembled(word: nat, size: nat, shifted: nat, sign: nat)
    requires word < 0x80_0000 && shifted == 0x100_0000 * size && sign == 0x80_0000
    ensures BitOr(word, shifted) == word + shifted && BitOr(word + shifted, sign) == word + shifted + sign
  {
    ShiftedSize(size);
    AssembledAt(word, size, 23);
  }

  lemma AssembledAt(word: nat, size: nat, t: nat)
    requires word < Pow2(t)
    ensures Doubled(size, t + 1) >= 0
    ensures var c := word + Doubled(size, t + 1);
            BitOr(word, Doubled(size, t + 1)) == c && BitOr(c, Pow2(t)) == c + Pow2(t)
  {
    OrLowDoubled(0, word, t + 1, size);
    OrUnfold(word, Doubled(size, t + 1));
    OrLowDoubled(word, Pow2(t), t + 1, size);
    OrLowDoubled(0, word, t, 1);
    DoubledIs(1, t);
    OrUnfold(word, Pow2(t));
  }

  /** The mantissa and the exponent, where the mantissa leaves the sign bit free. */
  method Normalized(n: BaseUint) returns (word: nat, nSize: nat)
    requires n.pn.Length == WIDTH
    ensures nSize == CompactSize(n.Value()) < 256 && word == Top(n.Value(), nSize) < 0x80_0000
  {
    var bits := n.BitCount();
    nSize := (bits + 7) / 8;
    ByteLengthIs(n.Value(), bits);
    word := UpperBytes(n, nSize);
    TopNext(n.Value(), nSize);
    if word / 0x80_0000 % 2 == 1 {
      word := word / 256;
      nSize := nSize + 1;
    }
  }

  method GetCompact(n: BaseUint, fNegative: bool) returns (nCompact: Uint32)
    requires n.pn.Length == WIDTH
    ensures CompactSize(n.Value()) < 256 && nCompact == CompactOf(n.Value(), fNegative)
  {
    var word, nSize := Normalized(n);
    Assembled(word, nSize, 0x100_0000 * nSize, 0x80_0000);
    ModWord(word, nSize);
    nCompact := BitOr(word, 0x100_0000 * nSize);
    if fNegative && nCompact % 0x80_0000 != 0 {
      nCompact := BitOr(nCompact, 0x80_0000);
    }
  }

  /** A compact form read and made again: the same, exactly if it is canonical. */
  method Renormalized(nCompact: Uint32) returns (again: Uint32, overflow: bool)
    ensures overflow <==> Exact(nCompact) >= Modulus()
    ensures !overflow ==> (again == nCompact <==> Canonical(nCompact))
  {
    var n := new BaseUint(WIDTH);
    var negative;
    negative, overflow := SetCompact(n, nCompact);
    again := GetCompact(n, negative);
    if !overflow {
      WrapSmall(Exact(nCompact), WIDTH);
      CanonicalIff(nCompact);
      ZeroHasNoSign(negative, SignBit(nCompact));
    }
  }

  lemma ZeroHasNoSign(a: bool, b: bool)
    ensures CompactOf(0, a) == CompactOf(0, b)
  {
    TopIsZero(0);
  }
}
