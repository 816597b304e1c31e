/**
 * base_uint (src/arith_uint256.h, src/arith_uint256.cpp): unsigned numbers of a fixed number of
 * 32-bit limbs, changed in place. Each operator is proved to be integer arithmetic modulo the
 * width.
 */
module Arith {
  import opened Arithmetic
  import opened Bits
  import opened Limbs
  import opened LimbShifts

  class BaseUint {
    const pn: array<Limb>

    ghost function Value(): nat
      reads pn
    {
      Val(pn[..])
    }

    function Width(): nat {
      pn.Length
    }

    constructor (width: nat)
      ensures fresh(pn) && pn.Length == width && Value() == 0
    {
      pn := new Limb[width](_ => 0);
      new;
      ValZero(pn[..]);
    }

    /** A number from a 64-bit one. */
    constructor From(width: nat, b: nat)
      requires width >= 2 && b < 0x1_0000_0000_0000_0000
      ensures fresh(pn) && pn.Length == width && Value() == b
    {
      pn := new Limb[width](_ => 0);
      new;
      Set(b);
    }

    constructor Copy(b: BaseUint)
      ensures fresh(pn) && pn.Length == b.pn.Length && pn[..] == b.pn[..]
    {
      pn := new Limb[b.pn.Length](i requires 0 <= i < b.pn.Length reads b.pn => b.pn[i]);
    }

    /** Assignment from another number. */
    method Assign(b: BaseUint)
      requires b.pn.Length == pn.Length
      modifies pn
      ensures pn[..] == old(b.pn[..])
    {
      ghost var x := b.pn[..];
      var i := 0;
      while i < pn.Length
        invariant 0 <= i <= pn.Length && pn[..i] == x[..i] && b.pn[i..] == x[i..]
      {
        pn[i] := b.pn[i];
        i := i + 1;
      }
    }

    /** Assignment from a 64-bit number. */
    method Set(b: nat)
      requires b < 0x1_0000_0000_0000_0000 && pn.Length >= 2
      modifies pn
      ensures Value() == b
    {
      pn[0] := b % BASE;
      pn[1] := b / BASE;
      var i := 2;
      while i < pn.Length
        invariant 2 <= i <= pn.Length
        invariant pn[0] == b % BASE && pn[1] == b / BASE
        invariant forall j :: 2 <= j < i ==> pn[j] == 0
      {
        pn[i] := 0;
        i := i + 1;
      }
      assert pn[..][1..][1..] == pn[2..];
      ValZero(pn[2..]);
      assert Val(pn[..][1..]) == pn[1] + BASE * Val(pn[2..]);
    }

    method Complement() returns (ret: BaseUint)
      ensures fresh(ret) && fresh(ret.pn) && ret.pn.Length == pn.Length
      ensures ret.Value() == Power(pn.Length) - 1 - Value()
    {
      ret := new BaseUint(pn.Length);
      ghost var x := pn[..];
      var i := 0;
      while i < pn.Length
        invariant 0 <= i <= pn.Length && pn[..] == x
        invariant Val(ret.pn[..i]) + Val(x[..i]) == Power(i) - 1
      {
        ghost var was := ret.pn[..i];
        ret.pn[i] := BASE - 1 - pn[i];
        assert ret.pn[..i + 1] == was + [BASE - 1 - x[i]];
        ComplementStep(was, x, i);
        i := i + 1;
      }
      assert ret.pn[..i] == ret.pn[..] && x[..i] == x;
    }

    method Increment()
      modifies pn
      ensures Value() == Wrap(old(Value()) + 1, pn.Length)
    {
      ghost var x := pn[..];
      var i := 0;
      while i < pn.Length
        invariant 0 <= i <= pn.Length && forall j :: i <= j < pn.Length ==> pn[j] == x[j]
        invariant forall j :: 0 <= j < i ==> x[j] == BASE - 1 && pn[j] == 0
      {
        pn[i] := if pn[i] == BASE - 1 then 0 else pn[i] + 1;
        if pn[i] != 0 {
          break;
        }
        i := i + 1;
      }
      Carried(x, pn[..], i);
    }

    method Decrement()
      modifies pn
      ensures Value() == Wrap(old(Value()) - 1, pn.Length)
    {
      ghost var x := pn[..];
      var i := 0;
      while i < pn.Length
        invariant 0 <= i <= pn.Length && forall j :: i <= j < pn.Length ==> pn[j] == x[j]
        invariant forall j :: 0 <= j < i ==> x[j] == 0 && pn[j] == BASE - 1
      {
        pn[i] := if pn[i] == 0 then BASE - 1 else pn[i] - 1;
        if pn[i] != BASE - 1 {
          break;
        }
        i := i + 1;
      }
      Carried(pn[..], x, i);
    }

    method Negate() returns (ret: BaseUint)
      ensures fresh(ret) && fresh(ret.pn) && ret.pn.Length == pn.Length
      ensures ret.Value() == Wrap(0 - Value(), pn.Length)
    {
      ret := Complement();
      ret.Increment();
      WrapOne(pn.Length);
      WrapAdd(0 - Value(), Power(pn.Length), pn.Length);
    }

    method Add(b: BaseUint)
      requires b.pn.Length == pn.Length
      modifies pn
      ensures Value() == Wrap(old(Value()) + old(b.Value()), pn.Length)
    {
      ghost var x, y := pn[..], b.pn[..];
      ghost var done: seq<Limb> := [];
      RowStart(done, x, y, 1);
      var carry: Limb := 0;
      var i := 0;
      while i < pn.Length
        invariant 0 <= i <= pn.Length && 0 <= carry <= 1
        invariant forall j :: i <= j < pn.Length ==> pn[j] == x[j] && b.pn[j] == y[j]
        invariant |done| == i && forall j :: 0 <= j < i ==> pn[j] == done[j]
        invariant RowUnderWay(done, x, y, 1, carry)
      {
        var n := carry + pn[i] + b.pn[i];
        RowStep(done, x, y, 1, carry, n);
        pn[i] := n % BASE;
        carry := n / BASE;
        done := done + [n % BASE];
        i := i + 1;
      }
      assert pn[..] == done;
      RowDone(done, x, y, 1, carry);
      ValModulo(done, Val(x) + Val(y), carry);
    }

    method Sub(b: BaseUint)
      requires b.pn.Length == pn.Length
      modifies pn
      ensures Value() == Wrap(old(Value()) - old(b.Value()), pn.Length)
    {
      ghost var x: int, y: int := Value(), b.Value();
      WrapAdd(x, 0 - y, pn.Length);
      var minus := b.Negate();
      Add(minus);
    }

    /** Multiplication by a 32-bit number. */
    method MulLimb(b32: Limb)
      modifies pn
      ensures Value() == Wrap(b32 * old(Value()), pn.Length)
    {
      ghost var product := b32 * Value();
      var carry := MulRow(b32);
      ValModulo(pn[..], product, carry);
    }

    method MulRow(b32: Limb) returns (carry: Limb)
      modifies pn
      ensures b32 * old(Value()) == Value() + Power(pn.Length) * carry
    {
      ghost var x, z := pn[..], Zeros(pn.Length);
      ghost var done: seq<Limb> := [];
      RowStart(done, z, x, b32);
      carry := 0;
      var i := 0;
      while i < pn.Length
        invariant 0 <= i <= pn.Length && forall j :: i <= j < pn.Length ==> pn[j] == x[j]
        invariant |done| == i && forall j :: 0 <= j < i ==> pn[j] == done[j]
        invariant RowUnderWay(done, z, x, b32, carry)
      {
        var n := carry + b32 * pn[i];
        assert z[i] == 0;
        RowStep(done, z, x, b32, carry, n);
        pn[i] := n % BASE;
        carry := n / BASE;
        done := done + [n % BASE];
        i := i + 1;
      }
      assert pn[..] == done;
      RowDone(done, z, x, b32, carry);
    }

    /** One limb of a row: a product and a carry are added to it, and the rest is carried on. */
    method AddProduct(j: nat, m: Limb, k: Limb, carry: Limb, ghost row: RowState) returns (rest: Limb, ghost done: seq<Limb>)
      requires j == |row.low| + |row.done| < pn.Length && |row.done| < |row.x| == |row.y| && k == row.y[|row.done|]
      requires pn[..] == RowLimbs(row) && RowUnderWay(row.done, row.x, row.y, m, carry)
      modifies pn
      ensures |done| == |row.done| + 1 && pn[..] == RowLimbs(row.(done := done)) && RowUnderWay(done, row.x, row.y, m, rest)
    {
      var n := carry + pn[j] + m * k;
      assert pn[j] == pn[..][j] == row.x[|row.done|];
      RowStep(row.done, row.x, row.y, m, carry, n);
      RowSlot(row.low, row.done, row.x, n % BASE);
      pn[j] := n % BASE;
      rest := n / BASE;
      done := row.done + [n % BASE];
    }

    /** One row of a long multiplication: m times b is added from limb j on. */
    method AddRow(j: nat, m: Limb, b: BaseUint) returns (carry: Limb)
      requires j <= pn.Length == b.pn.Length && b.pn != pn
      modifies pn
      ensures pn[..j] == old(pn[..j])
      ensures Val(pn[j..]) + Power(pn.Length - j) * carry == Val(old(pn[j..])) + m * Val(b.pn[..pn.Length - j])
    {
      ghost var low, x, y := pn[..j], pn[j..], b.pn[..pn.Length - j];
      ghost var done: seq<Limb> := [];
      RowStart(done, x, y, m);
      carry := 0;
      var i := 0;
      while i + j < pn.Length
        invariant 0 <= i <= pn.Length - j && b.pn[..pn.Length - j] == y
        invariant |done| == i && pn[..] == RowLimbs(RowState(low, done, x, y))
        invariant RowUnderWay(done, x, y, m, carry)
      {
        assert b.pn[i] == y[i];
        carry, done := AddProduct(j + i, m, b.pn[i], carry, RowState(low, done, x, y));
        i := i + 1;
      }
      RowSlots(pn[..], low, done, x);
      RowDone(done, x, y, m, carry);
    }

    /** The rows of a long multiplication, added up in a. */
    method MulInto(a: BaseUint, b: BaseUint) returns (ghost q: int)
      requires a.pn.Length == b.pn.Length == pn.Length && a.pn != pn && a.pn != b.pn && a.Value() == 0
      modifies a.pn
      ensures Value() * b.Value() == a.Value() + Power(pn.Length) * q
    {
      ghost var x, y := pn[..], b.pn[..];
      q := 0;
      var j := 0;
      while j < pn.Length
        invariant 0 <= j <= pn.Length && pn[..] == x && b.pn[..] == y
        invariant Val(x[..j]) * Val(y) == a.Value() + Power(pn.Length) * q
      {
        ghost var was := a.pn[..];
        var carry := a.AddRow(j, pn[j], b);
        MulStep(x, y, was, a.pn[..], j, carry, q);
        q := q + carry + x[j] * Val(y[|y| - j..]);
        j := j + 1;
      }
      assert x[..j] == x;
    }

    method Mul(b: BaseUint)
      requires b.pn.Length == pn.Length
      modifies pn
      ensures Value() == Wrap(old(Value()) * old(b.Value()), pn.Length)
    {
      ghost var product := Value() * b.Value();
      var a := new BaseUint(pn.Length);
      ghost var q := MulInto(a, b);
      Assign(a);
      ValModulo(pn[..], product, q);
    }

    method CompareTo(b: BaseUint) returns (r: int)
      requires b.pn.Length == pn.Length
      ensures r == if Value() < b.Value() then -1 else if Value() > b.Value() then 1 else 0
    {
      ghost var x, y := pn[..], b.pn[..];
      var i := pn.Length - 1;
      while i >= 0
        invariant -1 <= i < pn.Length
        invariant forall j :: i < j < |x| ==> x[j] == y[j]
      {
        if pn[i] < b.pn[i] {
          FirstDifference(x, y, i);
          return -1;
        }
        if pn[i] > b.pn[i] {
          FirstDifference(y, x, i);
          return 1;
        }
        i := i - 1;
      }
      assert x == y;
      return 0;
    }

    /** Comparison with a 64-bit number. */
    method EqualTo(b: nat) returns (r: bool)
      requires b < 0x1_0000_0000_0000_0000 && pn.Length >= 2
      ensures r <==> Value() == b
    {
      var i := pn.Length - 1;
      ghost var x := pn[..];
      assert x[1..][1..] == x[2..] && x[1..][0] == x[1];
      assert Val(x) == x[0] + BASE * Val(x[1..]) && Val(x[1..]) == x[1] + BASE * Val(x[2..]);
      while i >= 2
        invariant 1 <= i < pn.Length
        invariant forall j :: i < j < pn.Length ==> pn[j] == 0
      {
        if pn[i] != 0 {
          NonZero(x[2..], i - 2);
          return false;
        }
        i := i - 1;
      }
      ValZero(x[2..]);
      return pn[1] == b / BASE && pn[0] == b % BASE;
    }

    /** The lowest 64 bits. */
    method GetLow64() returns (r: nat)
      requires pn.Length >= 2
      ensures r == Value() % 0x1_0000_0000_0000_0000
    {
      LowLimbs(pn[..]);
      r := BitOr(pn[0], BASE * pn[1]);
    }

    method Clear()
      modifies pn
      ensures forall j :: 0 <= j < pn.Length ==> pn[j] == 0
    {
      var i := 0;
      while i < pn.Length
        invariant 0 <= i <= pn.Length && forall j :: 0 <= j < i ==> pn[j] == 0
      {
        pn[i] := 0;
        i := i + 1;
      }
    }

    method ShiftLeft(shift: nat)
      modifies pn
      ensures Value() == Wrap(old(Value()) * Pow2(shift), pn.Length)
    {
      ghost var x := pn[..];
      var a := new BaseUint.Copy(this);
      Clear();
      ShlFrom(a, shift / 32, shift % 32);
      ShlIsProduct(x, shift / 32, shift % 32);
    }

    method ShlFrom(a: BaseUint, k: nat, s: nat)
      requires a.pn.Length == pn.Length && a.pn != pn && s < 32
      requires forall j :: 0 <= j < pn.Length ==> pn[j] == 0
      modifies pn
      ensures pn[..] == Shl(a.pn[..], k, s)
    {
      ghost var x := a.pn[..];
      var i := 0;
      while i < pn.Length
        invariant 0 <= i <= pn.Length && a.pn[..] == x
        invariant forall j :: 0 <= j < pn.Length ==> pn[j] == ShlSoFar(x, k, s, i, j)
      {
        ShlOne(a.pn[i], k, s, i, x);
        i := i + 1;
      }
      assert pn[..] == Shl(x, k, s);
    }

    /** The two parts of one limb. */
    method ShlOne(v: Limb, k: nat, s: nat, i: nat, ghost x: seq<Limb>)
      requires s < 32 && i < |x| == pn.Length && v == x[i]
      requires forall j :: 0 <= j < pn.Length ==> pn[j] == ShlSoFar(x, k, s, i, j)
      modifies pn
      ensures forall j :: 0 <= j < pn.Length ==> pn[j] == ShlSoFar(x, k, s, i + 1, j)
    {
      ShlLimb(x, s, i);
      if i + k + 1 < pn.Length && s != 0 {
        pn[i + k + 1] := BitOr(pn[i + k + 1], High(v, s));
      }
      if i + k < pn.Length {
        pn[i + k] := BitOr(pn[i + k], Low(v, s));
      }
    }

    method ShiftRight(shift: nat)
      modifies pn
      ensures Value() == old(Value()) / Pow2(shift)
    {
      ghost var x := pn[..];
      var a := new BaseUint.Copy(this);
      Clear();
      ShrFrom(a, shift / 32, shift % 32);
      ShrIsQuotient(x, shift / 32, shift % 32);
    }

    method ShrFrom(a: BaseUint, k: nat, s: nat)
      requires a.pn.Length == pn.Length && a.pn != pn && s < 32
      requires forall j :: 0 <= j < pn.Length ==> pn[j] == 0
      modifies pn
      ensures pn[..] == Shr(a.pn[..], k, s)
    {
      ghost var x := a.pn[..];
      var i := 0;
      while i < pn.Length
        invariant 0 <= i <= pn.Length && a.pn[..] == x
        invariant forall j :: 0 <= j < pn.Length ==> pn[j] == ShrSoFar(x, k, s, i, j)
      {
        ShrLimb(x, s, i);
        if i - k - 1 >= 0 && s != 0 {
          pn[i - k - 1] := BitOr(pn[i - k - 1], Low(a.pn[i], 32 - s));
        }
        if i - k >= 0 {
          QuotientFits(a.pn[i], s);
          pn[i - k] := BitOr(pn[i - k], a.pn[i] / Pow2(s));
        }
        i := i + 1;
      }
      assert pn[..] == Shr(x, k, s);
    }

    /** The position of the highest bit set plus one, or zero. */
    method BitCount() returns (r: nat)
      ensures r <= 32 * pn.Length
      ensures Value() < Pow2(r) && (r > 0 ==> Value() >= Pow2(r - 1))
    {
      ghost var x := pn[..];
      var pos := pn.Length - 1;
      while pos >= 0
        invariant -1 <= pos < pn.Length
        invariant forall j :: pos < j < |x| ==> x[j] == 0
      {
        if pn[pos] != 0 {
          LimbSize();
          var nbits := 31;
          while nbits > 0
            invariant 0 <= nbits <= 31 && x[pos] < Pow2(nbits + 1)
          {
            BitTest(x[pos], nbits);
            if pn[pos] / Pow2(nbits) % 2 == 1 {
              HighBit(x, pos, nbits);
              return 32 * pos + nbits + 1;
            }
            nbits := nbits - 1;
          }
          HighBit(x, pos, 0);
          return 32 * pos + 1;
        }
        pos := pos - 1;
      }
      ValZero(x);
      return 0;
    }

    /** Sets a bit of which, with those below, it is known that they are zero. */
    method SetBit(shift: nat)
      requires LowBitsClear(pn[..], shift)
      modifies pn
      ensures Value() == old(Value()) + Pow2(shift)
      ensures shift > 0 ==> LowBitsClear(pn[..], shift - 1)
    {
      ghost var x := pn[..];
      BitFits(x, shift);
      BitValue(x, shift);
      pn[shift / 32] := BitOr(pn[shift / 32], Pow2(shift % 32));
      assert pn[..] == WithBit(x, shift);
    }

    /** One bit of the quotient, where div is the divisor shifted to it and num what is left of the dividend. */
    method TakeBit(num: BaseUint, div: BaseUint, shift: nat)
      requires num.pn.Length == div.pn.Length == pn.Length && pn != num.pn && pn != div.pn && num.pn != div.pn
      requires LowBitsClear(pn[..], shift)
      modifies pn, num.pn
      ensures var take := old(num.Value()) >= div.Value();
              && Value() == old(Value()) + (if take then Pow2(shift) else 0)
              && num.Value() == old(num.Value()) - (if take then div.Value() else 0)
      ensures shift > 0 ==> LowBitsClear(pn[..], shift - 1)
    {
      var order := num.CompareTo(div);
      if order >= 0 {
        ValBound(num.pn[..]);
        WrapSmall(num.Value() - div.Value(), pn.Length);
        num.Sub(div);
        SetBit(shift);
      } else {
        NextLower(pn[..], shift);
      }
    }

    method Halve()
      modifies pn
      ensures Value() == old(Value()) / 2
    {
      ShiftRight(1);
      assert Pow2(1) == 2;
    }

    /** Shift and subtract, from the highest bit of the quotient down; d is the divisor. */
    method Reduce(num: BaseUint, div: BaseUint, start: nat, ghost d: int)
      requires num.pn.Length == div.pn.Length == pn.Length && pn != num.pn && pn != div.pn && num.pn != div.pn
      requires Value() == 0 && LowBitsClear(pn[..], start) && div.Value() == Doubled(d, start)
      modifies pn, num.pn, div.pn
      ensures (Value(), num.Value()) == LongDivision(old(num.Value()), d, start)
    {
      ghost var n := num.Value();
      var shift: int := start;
      while shift >= 0
        invariant -1 <= shift <= start
        invariant shift >= 0 ==> LowBitsClear(pn[..], shift) && div.Value() == Doubled(d, shift)
        invariant var (q, r) := LongDivision(num.Value(), d, shift);
                  LongDivision(n, d, start) == (Value() + q, r)
      {
        ReduceBit(num, div, shift, d);
        shift := shift - 1;
      }
    }

    /** One round: a bit of the quotient, and the divisor moves down to the next. */
    method ReduceBit(num: BaseUint, div: BaseUint, shift: nat, ghost d: int)
      requires num.pn.Length == div.pn.Length == pn.Length && pn != num.pn && pn != div.pn && num.pn != div.pn
      requires LowBitsClear(pn[..], shift) && div.Value() == Doubled(d, shift)
      modifies pn, num.pn, div.pn
      ensures shift > 0 ==> LowBitsClear(pn[..], shift - 1) && div.Value() == Doubled(d, shift - 1)
      ensures var (q, r) := LongDivision(old(num.Value()), d, shift);
              var (q', r') := LongDivision(num.Value(), d, shift - 1);
              old(Value()) + q == Value() + q' && r == r'
    {
      TakeBit(num, div, shift);
      div.Halve();
    }

    /** Division; by zero it fails, and leaves zero. */
    method Div(b: BaseUint) returns (ok: bool)
      requires b.pn.Length == pn.Length
      modifies pn
      ensures ok <==> old(b.Value()) != 0
      ensures Value() == if ok then old(Value()) / old(b.Value()) else 0
    {
      ghost var n, d := Value(), b.Value();
      var div := new BaseUint.Copy(b);
      var num := new BaseUint.Copy(this);
      Clear();
      ValZero(pn[..]);
      var numBits := num.BitCount();
      var divBits := div.BitCount();
      if divBits == 0 {
        return false;
      }
      if divBits > numBits {
        Pow2Mono(numBits, divBits - 1);
        DivModIs(n, d, 0, n);
        return true;
      }
      Aligned(n, d, numBits, divBits, pn.Length);
      Divide(num, div, numBits - divBits);
      return true;
    }

    /** Division of num by div, whose highest bit is shift places below that of num. */
    method Divide(num: BaseUint, div: BaseUint, shift: nat)
      requires num.pn.Length == div.pn.Length == pn.Length && pn != num.pn && pn != div.pn && num.pn != div.pn
      requires (forall j :: 0 <= j < pn.Length ==> pn[j] == 0) && shift / 32 < pn.Length
      requires 0 < div.Value() && 0 <= num.Value() < 2 * (div.Value() * Pow2(shift)) && div.Value() * Pow2(shift) < Power(pn.Length)
      modifies pn, num.pn, div.pn
      ensures Value() == old(num.Value()) / old(div.Value())
    {
      ghost var n, d := num.Value(), div.Value();
      ValZero(pn[..]);
      WrapSmall(d * Pow2(shift), pn.Length);
      div.ShiftLeft(shift);
      DoubledIs(d, shift);
      ZeroEven(shift % 32 + 1);
      Reduce(num, div, shift, d);
      LongDivisionIs(n, d, shift);
      DivModIs(n, d, Value(), num.Value());
    }
  }

  /** Quotient and remainder by binary long division, from a given bit down. */
  ghost function LongDivision(n: int, d: int, shift: int): (int, int)
    requires shift >= -1
    decreases shift + 1
  {
    if shift < 0 then (0, n)
    else if n >= Doubled(d, shift) then
      var (q, r) := LongDivision(n - Doubled(d, shift), d, shift - 1);
      (q + Pow2(shift), r)
    else LongDivision(n, d, shift - 1)
  }

  lemma {:induction false} LongDivisionIs(n: int, d: int, shift: int)
    requires shift >= -1 && 0 <= n && d > 0 && n < if shift < 0 then d else 2 * Doubled(d, shift)
    ensures var (q, r) := LongDivision(n, d, shift); n == d * q + r && 0 <= r < d
    decreases shift + 1
  {
    if shift >= 0 {
      if n >= Doubled(d, shift) {
        LongDivisionIs(n - Doubled(d, shift), d, shift - 1);
        DoubledIs(d, shift);
        Distribute(d, LongDivision(n - Doubled(d, shift), d, shift - 1).0, Pow2(shift));
      } else {
        LongDivisionIs(n, d, shift - 1);
      }
    }
  }

  /** Shifted to the same number of bits, the divisor fits and twice it exceeds the dividend. */
  lemma Aligned(n: nat, d: nat, numBits: nat, divBits: nat, width: nat)
    requires 0 < divBits <= numBits <= 32 * width
    requires n < Pow2(numBits) && Pow2(divBits - 1) <= d < Pow2(divBits)
    ensures d * Pow2(numBits - divBits) < Power(width)
    ensures n < 2 * (d * Pow2(numBits - divBits))
  {
    var s := numBits - divBits;
    Pow2Add(divBits, s);
    Scaled(Pow2(divBits - 1), d, Pow2(s));
    LimbPower(width);
    Pow2Mono(numBits, 32 * width);
  }

  lemma Scaled(half: int, d: int, q: int)
    requires half <= d < 2 * half && q > 0
    ensures d * q < (2 * half) * q <= 2 * (d * q)
  {
    MulMono(q, half, d);
    MulMono(q, d + 1, 2 * half);
    Distribute(q, d, 1);
  }

  lemma WrapSmall(x: int, n: nat)
    requires 0 <= x < Power(n)
    ensures Wrap(x, n) == x
  {
    WrapIsModulo(x, n);
    DivModIs(x, Power(n), 0, x);
  }

  /** The bits from the given one down are zero. */
  ghost predicate LowBitsClear(x: seq<Limb>, shift: nat) {
    && shift / 32 < |x| && Even(x[shift / 32], shift % 32 + 1)
    && forall j :: 0 <= j < shift / 32 ==> x[j] == 0
  }

  lemma BitFits(x: seq<Limb>, shift: nat)
    requires LowBitsClear(x, shift)
    ensures var l, t := shift / 32, shift % 32;
            BitOr(x[l], Pow2(t)) == x[l] + Pow2(t) < BASE && Even(x[l] + Pow2(t), t) && Even(x[l], t)
  {
    LimbSize();
    SetDigit(x[shift / 32], shift % 32, 32);
  }

  function WithBit(x: seq<Limb>, shift: nat): seq<Limb>
    requires shift / 32 < |x| && x[shift / 32] + Pow2(shift % 32) < BASE
  {
    x[shift / 32 := x[shift / 32] + Pow2(shift % 32)]
  }

  lemma BitValue(x: seq<Limb>, shift: nat)
    requires LowBitsClear(x, shift)
    requires shift / 32 < |x| && x[shift / 32] + Pow2(shift % 32) < BASE
    ensures Val(WithBit(x, shift)) == Val(x) + Pow2(shift)
    ensures shift > 0 ==> LowBitsClear(WithBit(x, shift), shift - 1)
  {
    var l, t := shift / 32, shift % 32;
    ValUpdate(x, l, x[l] + Pow2(t));
    LimbPower(l);
    Pow2Add(32 * l, t);
    BitFits(x, shift);
    LowerBits(WithBit(x, shift), shift);
  }

  lemma LowerBits(x: seq<Limb>, shift: nat)
    requires shift / 32 < |x| && Even(x[shift / 32], shift % 32)
    requires forall j :: 0 <= j < shift / 32 ==> x[j] == 0
    ensures shift > 0 ==> LowBitsClear(x, shift - 1)
  {
    if shift > 0 {
      BitBefore(shift);
      var all := 32;
      ZeroEven(all);
    }
  }

  lemma BitBefore(shift: int)
    requires shift > 0
    ensures shift % 32 > 0 ==> (shift - 1) / 32 == shift / 32 && (shift - 1) % 32 == shift % 32 - 1
    ensures shift % 32 == 0 ==> (shift - 1) / 32 == shift / 32 - 1 && (shift - 1) % 32 == 31
  {
  }

  lemma NextLower(x: seq<Limb>, shift: nat)
    requires LowBitsClear(x, shift)
    ensures shift > 0 ==> LowBitsClear(x, shift - 1)
  {
    BitFits(x, shift);
    LowerBits(x, shift);
  }

  /** The limbs of a left shift while it is under way: i limbs are done. */
  function ShlSoFar(x: seq<Limb>, k: nat, s: nat, i: nat, j: nat): Limb
    requires i <= |x| && s < 32
  {
    if j < k then 0
    else if j < k + i then ShlDigit(x, s, j - k)
    else if j == k + i && i > 0 then High(x[i - 1], s)
    else 0
  }

  lemma ShlLimb(x: seq<Limb>, s: nat, i: nat)
    requires i < |x| && s < 32
    ensures BitOr(if i > 0 then High(x[i - 1], s) else 0, Low(x[i], s)) == ShlDigit(x, s, i)
    ensures BitOr(0, High(x[i], s)) == High(x[i], s) && (s == 0 ==> High(x[i], s) == 0)
  {
    LimbSplit(x[i], s);
    if i > 0 {
      LimbSplit(x[i - 1], s);
      OrDisjoint(High(x[i - 1], s), s, x[i] % Pow2(32 - s));
    }
  }

  /** The limbs of a right shift while it is under way: i limbs are done. */
  function ShrSoFar(x: seq<Limb>, k: nat, s: nat, i: nat, j: nat): Limb
    requires i <= |x| && s < 32
  {
    if j + k + 1 < i then ShrDigit(x, s, j + k)
    else if j + k + 1 == i then QuotientFits(x[i - 1], s); x[i - 1] / Pow2(s)
    else 0
  }

  lemma QuotientFits(x: Limb, s: nat)
    ensures 0 <= x / Pow2(s) < BASE
  {
    DivBelow(x, Pow2(s));
  }

  lemma ShrLimb(x: seq<Limb>, s: nat, i: nat)
    requires i < |x| && s < 32
    ensures 0 <= x[i] / Pow2(s) < BASE && BitOr(0, x[i] / Pow2(s)) == x[i] / Pow2(s)
    ensures i > 0 ==> 0 <= x[i - 1] / Pow2(s) && BitOr(x[i - 1] / Pow2(s), Low(x[i], 32 - s)) == ShrDigit(x, s, i - 1)
    ensures s == 0 ==> Low(x[i], 32 - s) == 0
    ensures i == |x| - 1 ==> x[i] / Pow2(s) == ShrDigit(x, s, i)
  {
    QuotientFits(x[i], s);
    if i > 0 {
      ShrFits(x[i - 1], x[i], s);
      OrDisjoint(x[i - 1] / Pow2(s), 32 - s, x[i] % Pow2(s));
    } else {
      ShrFits(0, x[i], s);
    }
  }

  lemma LowLimbs(x: seq<Limb>)
    requires |x| >= 2
    ensures BitOr(x[0], BASE * x[1]) == x[0] + BASE * x[1] == Val(x) % 0x1_0000_0000_0000_0000
  {
    LimbSize();
    OrDisjoint(x[0], 32, x[1]);
    assert x[1..][0] == x[1] && Val(x[1..]) == x[1] + BASE * Val(x[1..][1..]);
    DivModIs(Val(x), 0x1_0000_0000_0000_0000, Val(x[1..][1..]), x[0] + BASE * x[1]);
  }

  lemma BitTest(x: int, n: nat)
    requires 0 <= x < Pow2(n + 1)
    ensures x / Pow2(n) % 2 == 1 <==> x >= Pow2(n)
  {
    if x >= Pow2(n) {
      DivModIs(x, Pow2(n), 1, x - Pow2(n));
    } else {
      DivModIs(x, Pow2(n), 0, x);
    }
  }

  /** Where the highest limb and its highest bit are known, so are the bounds of the value. */
  lemma HighBit(x: seq<Limb>, pos: nat, n: nat)
    requires pos < |x| && n < 32 && Pow2(n) <= x[pos] < Pow2(n + 1) && forall j :: pos < j < |x| ==> x[j] == 0
    ensures Pow2(32 * pos + n) <= Val(x) < Pow2(32 * pos + n + 1)
  {
    TopLimb(x, pos);
    ValBound(x[..pos]);
    LimbPower(pos);
    Pow2Add(32 * pos, n);
    Pow2Add(32 * pos, n + 1);
    Between(Power(pos), Pow2(n), Pow2(n + 1), x[pos], Val(x[..pos]));
  }

  lemma {:induction false} TopLimb(x: seq<Limb>, pos: nat)
    requires pos < |x| && forall j :: pos < j < |x| ==> x[j] == 0
    ensures Val(x) == Val(x[..pos]) + Power(pos) * x[pos]
  {
    if pos == 0 {
      ValZero(x[1..]);
    } else {
      TopLimb(x[1..], pos - 1);
      assert x[..pos][1..] == x[1..][..pos - 1];
      Associate(BASE, Power(pos - 1), x[pos]);
    }
  }

  lemma Between(p: int, lo: int, hi: int, x: int, rest: int)
    requires lo <= x < hi && 0 <= rest < p
    ensures p * lo <= rest + p * x < p * hi
  {
    MulMono(p, lo, x);
    MulMono(p, x + 1, hi);
    Distribute(p, x, 1);
  }

  lemma FirstDifference(x: seq<Limb>, y: seq<Limb>, i: nat)
    requires |x| == |y| && i < |x| && x[i] < y[i] && forall j :: i < j < |x| ==> x[j] == y[j]
    ensures Val(x) < Val(y)
  {
    assert x[i + 1..] == y[i + 1..];
    ValLess(x, y, i);
  }

  lemma {:induction false} NonZero(s: seq<Limb>, i: nat)
    requires i < |s| && s[i] != 0
    ensures Val(s) > 0
  {
    if i > 0 {
      NonZero(s[1..], i - 1);
    }
  }

  /** The first limbs of a row are done, and what is left makes up the rest of it. */
  ghost predicate RowUnderWay(done: seq<Limb>, x: seq<Limb>, y: seq<Limb>, m: Limb, carry: Limb) {
    && |done| <= |x| == |y|
    && var (digits, out) := Row(x[|done|..], y[|done|..], m, carry);
       (done + digits, out) == Row(x, y, m, 0)
  }

  lemma RowStart(done: seq<Limb>, x: seq<Limb>, y: seq<Limb>, m: Limb)
    requires done == [] && |x| == |y|
    ensures RowUnderWay(done, x, y, m, 0)
  {
    assert x[0..] == x && y[0..] == y && [] + Row(x, y, m, 0).0 == Row(x, y, m, 0).0;
  }

  lemma RowStep(done: seq<Limb>, x: seq<Limb>, y: seq<Limb>, m: Limb, carry: Limb, n: int)
    requires |done| < |x| && RowUnderWay(done, x, y, m, carry) && n == carry + x[|done|] + m * y[|done|]
    ensures 0 <= n < 0x1_0000_0000_0000_0000 && 0 <= n / BASE < BASE
    ensures RowUnderWay(done + [n % BASE], x, y, m, n / BASE)
  {
    var i := |done|;
    RowFits(carry, x[i], m, y[i]);
    var (digits, out) := Row(x[i + 1..], y[i + 1..], m, n / BASE);
    assert x[i..][1..] == x[i + 1..] && y[i..][1..] == y[i + 1..];
    assert done + ([n % BASE] + digits) == (done + [n % BASE]) + digits;
  }

  /** A row under way: limbs below it, limbs that are done, and the two numbers. */
  datatype RowState = RowState(low: seq<Limb>, done: seq<Limb>, x: seq<Limb>, y: seq<Limb>)

  function RowLimbs(r: RowState): seq<Limb>
    requires |r.done| <= |r.x|
  {
    r.low + r.done + r.x[|r.done|..]
  }

  /** The next limb of a row that is under way. */
  lemma RowSlot(low: seq<Limb>, done: seq<Limb>, x: seq<Limb>, d: Limb)
    requires |done| < |x|
    ensures var s := low + done + x[|done|..];
            && s[|low| + |done|] == x[|done|]
            && s[|low| + |done| := d] == low + (done + [d]) + x[|done| + 1..]
  {
  }

  lemma RowSlots(s: seq<Limb>, low: seq<Limb>, done: seq<Limb>, x: seq<Limb>)
    requires |done| == |x| && s == low + done + x[|done|..]
    ensures s[..|low|] == low && s[|low|..] == done
  {
  }

  lemma RowDone(done: seq<Limb>, x: seq<Limb>, y: seq<Limb>, m: Limb, carry: Limb)
    requires |done| == |x| && RowUnderWay(done, x, y, m, carry)
    ensures Val(done) + Power(|x|) * carry == Val(x) + m * Val(y)
  {
    assert x[|done|..] == [] && done + [] == done;
    RowValue(x, y, m, 0);
  }

  lemma MulStep(x: seq<Limb>, y: seq<Limb>, was: seq<Limb>, now: seq<Limb>, j: nat, carry: int, q: int)
    requires |x| == |y| == |was| == |now| && j < |x| && now[..j] == was[..j]
    requires Val(now[j..]) + Power(|x| - j) * carry == Val(was[j..]) + x[j] * Val(y[..|x| - j])
    requires Val(x[..j]) * Val(y) == Val(was) + Power(|x|) * q
    ensures Val(x[..j + 1]) * Val(y) == Val(now) + Power(|x|) * (q + carry + x[j] * Val(y[|x| - j..]))
  {
    var m := |x| - j;
    assert was == was[..j] + was[j..] && now == now[..j] + now[j..] && y == y[..m] + y[m..];
    ValAppend(was[..j], was[j..]);
    ValAppend(now[..j], now[j..]);
    ValAppend(y[..m], y[m..]);
    ValSnoc(x, j);
    PowerAdd(j, m);
    MulArithmetic(Power(j), Power(m), x[j], Val(x[..j]), Val(y[..m]), Val(y[m..]),
                  Val(was[..j]), Val(was[j..]), Val(now[j..]), carry, q);
  }

  lemma MulArithmetic(pj: int, pm: int, x: int, vx: int, ylo: int, yhi: int, lo: int, was: int, now: int, carry: int, q: int)
    requires now + pm * carry == was + x * ylo
    requires vx * (ylo + pm * yhi) == (lo + pj * was) + (pj * pm) * q
    ensures (vx + pj * x) * (ylo + pm * yhi) == (lo + pj * now) + (pj * pm) * (q + carry + x * yhi)
  {
    var y := ylo + pm * yhi;
    Distribute(y, vx, pj * x);
    assert (pj * x) * y == pj * (x * y);
    Distribute(x, ylo, pm * yhi);
    assert x * (pm * yhi) == pm * (x * yhi);
    Distribute(pm, carry, x * yhi);
    Distribute(pj, now - was, pm * (carry + x * yhi));
    Distribute(pj, now, -was);
    Associate(pj, pm, carry + x * yhi);
    Distribute(pj * pm, q, carry + x * yhi);
  }

  predicate OneMore(x: int, y: int) {
    y == x + 1
  }

  lemma CarryEnds(x: seq<Limb>, y: seq<Limb>)
    requires 0 < |x| == |y| && OneMore(x[0], y[0]) && y[1..] == x[1..]
    ensures Val(y) == Wrap(Val(x) + 1, |x|) && Val(x) == Wrap(Val(y) - 1, |x|)
  {
    ValModulo(y, Val(x) + 1, 0);
    ValModulo(x, Val(y) - 1, 0);
  }

  lemma CarriedLimb(v: int, w: int, n: nat)
    requires w == Wrap(v + 1, n) && v == Wrap(w - 1, n)
    ensures BASE * w == Wrap(BASE - 1 + BASE * v + 1, n + 1) && BASE - 1 + BASE * v == Wrap(BASE * w - 1, n + 1)
  {
    assert (BASE - 1 + BASE * v + 1) / BASE == v + 1 && (BASE - 1 + BASE * v + 1) % BASE == 0;
    assert (BASE * w - 1) / BASE == w - 1 && (BASE * w - 1) % BASE == BASE - 1;
  }

  lemma CarriedOn(x: seq<Limb>, y: seq<Limb>)
    requires |x| == |y| > 0 && x[0] == BASE - 1 && y[0] == 0
    requires Val(y[1..]) == Wrap(Val(x[1..]) + 1, |x| - 1) && Val(x[1..]) == Wrap(Val(y[1..]) - 1, |x| - 1)
    ensures Val(y) == Wrap(Val(x) + 1, |x|) && Val(x) == Wrap(Val(y) - 1, |x|)
  {
    CarriedLimb(Val(x[1..]), Val(y[1..]), |x| - 1);
  }

  /** A carry runs through limbs that are full, and a borrow back through limbs that are empty. */
  lemma {:induction false} Carried(x: seq<Limb>, y: seq<Limb>, i: nat)
    requires i <= |x| == |y|
    requires forall j :: 0 <= j < i ==> x[j] == BASE - 1 && y[j] == 0
    requires i < |x| ==> OneMore(x[i], y[i]) && y[i + 1..] == x[i + 1..]
    ensures Val(y) == Wrap(Val(x) + 1, |x|) && Val(x) == Wrap(Val(y) - 1, |x|)
    decreases |x|
  {
    if i > 0 {
      assert i < |x| ==> y[1..][i..] == y[i + 1..] && x[1..][i..] == x[i + 1..];
      Carried(x[1..], y[1..], i - 1);
      CarriedOn(x, y);
    } else if |x| > 0 {
      CarryEnds(x, y);
    }
  }

  lemma ComplementStep(done: seq<Limb>, x: seq<Limb>, i: nat)
    requires |done| == i < |x| && Val(done) + Val(x[..i]) == Power(i) - 1
    ensures Val(done + [BASE - 1 - x[i]]) + Val(x[..i + 1]) == Power(i + 1) - 1
  {
    ValAppend(done, [BASE - 1 - x[i]]);
    assert [BASE - 1 - x[i]][1..] == [];
    ValSnoc(x, i);
    Distribute(Power(i), BASE - 1 - x[i], x[i]);
    Distribute(Power(i), BASE - 1, 1);
  }

  lemma ValUpdate(s: seq<Limb>, i: nat, x: Limb)
    requires i < |s|
    ensures Val(s[i := x]) == Val(s) + Power(i) * (x - s[i])
  {
    var t := s[i := x];
    ValAppend(s[..i], s[i..]);
    ValAppend(t[..i], t[i..]);
    assert s == s[..i] + s[i..] && t == t[..i] + t[i..] && s[..i] == t[..i];
    assert s[i..][1..] == t[i..][1..];
    Distribute(Power(i), s[i] + BASE * Val(s[i..][1..]), x - s[i]);
  }
}
