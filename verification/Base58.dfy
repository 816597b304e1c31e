/**
 * Base58 (src/base58.cpp): numbers as big-endian digits in two bases, the sizes of the digit
 * buffers, and decoding as the inverse of encoding.
 */
module Base58 {
  import opened Arithmetic
  import opened Common

  // ---------------------------------------------------------------- digits

  function Power(b: nat, n: nat): nat {
    if n == 0 then 1 else b * Power(b, n - 1)
  }

  ghost predicate DigitsBelow(s: seq<nat>, b: nat) {
    forall i :: 0 <= i < |s| ==> s[i] < b
  }

  /** The number that big-endian digits stand for. */
  function Value(s: seq<nat>, b: nat): nat {
    if s == [] then 0 else b * Value(s[..|s| - 1], b) + s[|s| - 1]
  }

  /** The digits of a number, without leading zeros. */
  function Digits(v: nat, b: nat): seq<nat>
    requires b >= 2
    decreases v
  {
    if v == 0 then [] else Digits(Quotient(v, b), b) + [v % b]
  }

  function Quotient(v: nat, b: nat): (q: nat)
    requires b >= 2
    ensures v > 0 ==> q < v
    ensures v == b * q + v % b
  {
    SmallerQuotient(v, b);
    v / b
  }

  lemma SmallerQuotient(v: nat, b: nat)
    requires b >= 2
    ensures v / b >= 0 && (v > 0 ==> v / b < v)
  {
    if v > 0 && v / b >= v {
      MulMono(b, v, v / b);
      MulMono(v, 2, b);
    }
  }

  lemma {:induction false} ValueOfDigits(v: nat, b: nat)
    requires b >= 2
    ensures Value(Digits(v, b), b) == v && DigitsBelow(Digits(v, b), b)
    ensures Digits(v, b) != [] ==> Digits(v, b)[0] != 0
    decreases v
  {
    if v > 0 {
      var q := Quotient(v, b);
      ValueOfDigits(q, b);
      assert Digits(v, b)[..|Digits(v, b)| - 1] == Digits(q, b);
    }
  }

  lemma {:induction false} ValuePositive(s: seq<nat>, b: nat)
    requires s != [] && s[0] != 0 && b >= 1
    ensures Value(s, b) > 0
  {
    if |s| > 1 {
      ValuePositive(s[..|s| - 1], b);
      MulMono(b, 1, Value(s[..|s| - 1], b));
    }
  }

  /** Digits without a leading zero are the digits of their value. */
  lemma {:induction false} DigitsOfValue(s: seq<nat>, b: nat)
    requires b >= 2 && DigitsBelow(s, b) && (s != [] ==> s[0] != 0)
    ensures Digits(Value(s, b), b) == s
  {
    if s != [] {
      var front := s[..|s| - 1];
      ValuePositive(s, b);
      DigitsOfValue(front, b);
      DivModIs(Value(s, b), b, Value(front, b), s[|s| - 1]);
      assert s == front + [s[|s| - 1]];
    }
  }

  lemma {:induction false} ValueBelow(s: seq<nat>, b: nat)
    requires DigitsBelow(s, b)
    ensures Value(s, b) < Power(b, |s|)
  {
    if s != [] {
      var v := Value(s[..|s| - 1], b);
      ValueBelow(s[..|s| - 1], b);
      OneMoreDigit(b, v, s[|s| - 1], Power(b, |s| - 1));
    }
  }

  lemma OneMoreDigit(b: int, v: int, d: int, p: int)
    requires b >= 0 && v < p && d < b
    ensures b * v + d < b * p
  {
    MulMono(b, v + 1, p);
    Distribute(b, v, 1);
  }

  lemma {:induction false} LeadingZeros(s: seq<nat>, k: nat, b: nat)
    requires k <= |s| && forall i :: 0 <= i < k ==> s[i] == 0
    ensures Value(s, b) == Value(s[k..], b)
    decreases |s|
  {
    if k < |s| {
      LeadingZeros(s[..|s| - 1], k, b);
      assert s[k..][..|s[k..]| - 1] == s[..|s| - 1][k..];
    } else if |s| > 0 {
      LeadingZeros(s[..|s| - 1], k - 1, b);
      assert s[..|s| - 1][k - 1..] == [];
    }
  }

  // ---------------------------------------------------------------- multiply and add

  /** mult * s + carry on the digits of s, from the last one on, and what does not fit. */
  function MulAdd(s: seq<nat>, mult: nat, b: nat, carry: nat): (r: (seq<nat>, nat))
    requires b >= 2
    ensures |r.0| == |s|
  {
    if s == [] then ([], carry)
    else
      var n := carry + mult * s[|s| - 1];
      var (front, out) := MulAdd(s[..|s| - 1], mult, b, Quotient(n, b));
      (front + [n % b], out)
  }

  lemma {:induction false} MulAddValue(s: seq<nat>, mult: nat, b: nat, carry: nat)
    requires b >= 2
    ensures var (r, out) := MulAdd(s, mult, b, carry);
            Value(r, b) + Power(b, |s|) * out == mult * Value(s, b) + carry && DigitsBelow(r, b)
  {
    if s != [] {
      var front := s[..|s| - 1];
      var n := carry + mult * s[|s| - 1];
      var q := Quotient(n, b);
      MulAddValue(front, mult, b, q);
      var (r, out) := MulAdd(front, mult, b, q);
      assert (r + [n % b])[..|s| - 1] == r;
      MulAddStep(Value(r, b), Power(b, |front|), out, mult, Value(front, b), s[|s| - 1], carry, n, q, b);
    }
  }

  lemma MulAddStep(r: int, p: int, out: int, mult: int, v: int, d: int, carry: int, n: int, q: int, b: int)
    requires b > 0 && n == carry + mult * d && n == b * q + n % b && r + p * out == mult * v + q
    ensures b * r + n % b + (b * p) * out == mult * (b * v + d) + carry
  {
    assert (b * p) * out == b * (p * out);
    assert b * (r + p * out) == b * r + b * (p * out);
    assert b * (mult * v + q) == b * (mult * v) + b * q;
    assert b * (mult * v) == mult * (b * v);
    assert mult * (b * v + d) == mult * (b * v) + mult * d;
  }

  /** What fits leaves no carry. */
  lemma MulAddFits(s: seq<nat>, mult: nat, b: nat, carry: nat)
    requires b >= 2 && mult * Value(s, b) + carry < Power(b, |s|)
    ensures var (r, out) := MulAdd(s, mult, b, carry);
            out == 0 && Value(r, b) == mult * Value(s, b) + carry && DigitsBelow(r, b)
  {
    MulAddValue(s, mult, b, carry);
    var out := MulAdd(s, mult, b, carry).1;
    if out >= 1 {
      MulMono(Power(b, |s|), 1, out);
    }
  }

  lemma {:induction false} MulAddZeros(s: seq<nat>, mult: nat, b: nat)
    requires b >= 2 && forall i :: 0 <= i < |s| ==> s[i] == 0
    ensures MulAdd(s, mult, b, 0) == (s, 0)
  {
    if s != [] {
      MulAddZeros(s[..|s| - 1], mult, b);
      DivModIs(0, b, 0, 0);
      assert s == s[..|s| - 1] + [0];
    }
  }

  // ---------------------------------------------------------------- the sizes of the buffers

  lemma {:induction false} PowerAdd(b: nat, m: nat, n: nat)
    ensures Power(b, m + n) == Power(b, m) * Power(b, n)
  {
    if m > 0 {
      PowerAdd(b, m - 1, n);
      Associate(b, Power(b, m - 1), Power(b, n));
    }
  }

  lemma {:induction false} PowerMono(b: nat, m: nat, n: nat)
    requires m <= n && b >= 1
    ensures 1 <= Power(b, m) <= Power(b, n)
  {
    if m < n {
      PowerMono(b, m, n - 1);
      MulMono(Power(b, n - 1), 1, b);
    } else if m > 0 {
      PowerMono(b, m - 1, n - 1);
      MulMono(Power(b, n - 1), 1, b);
    }
  }

  /** Whole blocks of digits are exchanged, and the rest goes along. */
  lemma Exchange(a: nat, b: nat, m: nat, k: nat, n: nat, j: nat)
    requires Power(a, m) <= Power(b, n) && Power(a, k) <= Power(b, j)
    ensures Power(a, m + k) <= Power(b, n + j)
  {
    PowerAdd(a, m, k);
    PowerAdd(b, n, j);
    MulBoth(Power(a, m), Power(b, n), Power(a, k), Power(b, j));
  }

  lemma MulBoth(a: nat, b: nat, c: nat, d: nat)
    requires a <= b && c <= d
    ensures a * c <= b * d
  {
    MulMono(a, c, d);
    MulMono(d, a, b);
  }

  function EncodeSize(n: nat): nat {
    n * 138 / 100 + 1
  }

  /** 1.38 base58 digits for a byte are enough: eight bytes fit in eleven digits. */
  lemma {:induction false} EncodeSizeIsEnough(n: nat)
    ensures Power(256, n) <= Power(58, EncodeSize(n))
  {
    if n >= 8 {
      EncodeSizeIsEnough(n - 8);
      assert Power(256, 8) <= Power(58, 11);
      Exchange(256, 58, 8, n - 8, 11, EncodeSize(n - 8));
      PowerMono(58, 11 + EncodeSize(n - 8), EncodeSize(n));
    } else {
      FewBytes(n);
    }
  }

  lemma FewBytes(n: nat)
    requires n < 8
    ensures Power(256, n) <= Power(58, EncodeSize(n))
  {
    assert Power(256, 0) <= Power(58, 1);
    assert Power(256, 1) <= Power(58, 2);
    assert Power(256, 2) <= Power(58, 3);
    assert Power(256, 3) <= Power(58, 5);
    assert Power(256, 4) <= Power(58, 6);
    assert Power(256, 5) <= Power(58, 7);
    assert Power(256, 6) <= Power(58, 9);
    assert Power(256, 7) <= Power(58, 10);
  }

  lemma PowersOf58()
    ensures Power(58, 5) == 656356768 && Power(58, 10) == 430804206899405824 && Power(58, 15) == 282761256881297307761016832
  {
    assert Power(58, 5) == 656356768;
    PowerAdd(58, 5, 5);
    PowerAdd(58, 10, 5);
  }

  lemma PowersOf256()
    ensures Power(256, 5) == 1099511627776 && Power(256, 10) == 1208925819614629174706176 && Power(256, 11) == 309485009821345068724781056
  {
    assert Power(256, 5) == 1099511627776;
    PowerAdd(256, 5, 5);
  }

  /** Fifteen digits fit in eleven bytes. */
  lemma ShortBlock()
    ensures Power(58, 15) <= Power(256, 11)
  {
    PowersOf58();
    PowersOf256();
  }

  /** 71 digits fit in 52 bytes. */
  lemma LongBlock()
    ensures Power(58, 71) <= Power(256, 52)
  {
    PowersOf58();
    PowersOf256();
    PowerAdd(58, 15, 15);
    PowerAdd(58, 30, 30);
    PowerAdd(58, 10, 1);
    PowerAdd(58, 60, 11);
    PowerAdd(256, 10, 10);
    PowerAdd(256, 20, 20);
    PowerAdd(256, 40, 11);
    PowerAdd(256, 51, 1);
  }

  function DecodeSize(n: nat): nat {
    n * 733 / 1000 + 1
  }

  function Times(m: nat, count: nat): nat {
    if count == 0 then 0 else m + Times(m, count - 1)
  }

  lemma {:induction false} TimesIs(m: nat, count: nat)
    ensures Times(m, count) == m * count
  {
    if count > 0 {
      TimesIs(m, count - 1);
      Distribute(m, count - 1, 1);
    }
  }

  /** A number of blocks of m digits fit in as many blocks of n digits. */
  lemma {:induction false} Blocks(a: nat, b: nat, m: nat, n: nat, count: nat, k: nat, j: nat)
    requires Power(a, m) <= Power(b, n) && Power(a, k) <= Power(b, j)
    ensures Power(a, Times(m, count) + k) <= Power(b, Times(n, count) + j)
    decreases count
  {
    if count > 0 {
      Blocks(a, b, m, n, count - 1, k, j);
      Exchange(a, b, m, Times(m, count - 1) + k, n, Times(n, count - 1) + j);
    }
  }

  /** 0.733 bytes for a base58 digit are enough. */
  lemma {:induction false} DecodeSizeIsEnough(n: nat)
    ensures Power(58, n) <= Power(256, DecodeSize(n))
  {
    var c, r := n / 71, n % 71;
    LongBlock();
    UpTo70(r);
    Blocks(58, 256, 71, 52, c, r, DecodeSize(r));
    TimesIs(71, c);
    TimesIs(52, c);
    PowerMono(256, 52 * c + DecodeSize(r), DecodeSize(n));
  }

  lemma UpTo70(n: nat)
    requires n < 71
    ensures Power(58, n) <= Power(256, DecodeSize(n))
  {
    var a, k := n / 15, n % 15;
    assert n == 15 * a + k;
    FromBlocks(a, k);
  }

  lemma FromBlocks(a: nat, k: nat)
    requires a <= 4 && k < 15
    ensures Power(58, 15 * a + k) <= Power(256, DecodeSize(15 * a + k))
  {
    FifteenBlocks(a, k);
    SizeCovers(a, k);
    PowerMono(256, 11 * a + Rest(k), DecodeSize(15 * a + k));
  }

  lemma FifteenBlocks(a: nat, k: nat)
    requires k < 15
    ensures Power(58, 15 * a + k) <= Power(256, 11 * a + Rest(k))
  {
    ShortBlock();
    FewDigits(k);
    Blocks(58, 256, 15, 11, a, k, Rest(k));
    TimesIs(15, a);
    TimesIs(11, a);
  }

  /** The bytes for fewer than fifteen digits. */
  function Rest(k: nat): nat {
    if k == 0 then 0 else DecodeSize(k)
  }

  lemma SizeCovers(a: nat, k: nat)
    requires a <= 4 && k < 15
    ensures 11 * a + Rest(k) <= DecodeSize(15 * a + k)
  {
    assert (15 * a + k) * 733 == 11000 * a + (733 * k - 5 * a);
    if k > 0 {
      EnoughLeft(k);
      DivModIs((15 * a + k) * 733, 1000, 11 * a + 733 * k / 1000, 733 * k % 1000 - 5 * a);
    }
  }

  lemma EnoughLeft(k: nat)
    requires 0 < k < 15
    ensures 733 * k % 1000 >= 20
  {
  }

  lemma FewDigits(k: nat)
    requires k < 15
    ensures Power(58, k) <= Power(256, Rest(k))
  {
    if k < 5 {
      assert Power(58, 0) <= Power(256, 0) && Power(58, 1) <= Power(256, 1) && Power(58, 2) <= Power(256, 2);
      assert Power(58, 3) <= Power(256, 3) && Power(58, 4) <= Power(256, 3);
    } else {
      MoreDigits(k);
    }
  }

  lemma MoreDigits(k: nat)
    requires 5 <= k < 15
    ensures Power(58, k) <= Power(256, Rest(k))
  {
    if k >= 10 {
      ManyDigits(k);
    } else if k < 8 {
      assert Power(58, 5) <= Power(256, 4) && Power(58, 6) <= Power(256, 5) && Power(58, 7) <= Power(256, 6);
    } else {
      EightOrNine(k);
    }
  }

  lemma EightOrNine(k: nat)
    requires k == 8 || k == 9
    ensures Power(58, k) <= Power(256, Rest(k))
  {
    assert Power(58, 8) <= Power(256, 6) && Power(58, 9) <= Power(256, 7);
  }

  lemma ManyDigits(k: nat)
    requires 10 <= k < 15
    ensures Power(58, k) <= Power(256, Rest(k))
  {
    if k < 13 {
      TenToTwelve(k);
    } else {
      ThirteenOrMore(k);
    }
  }

  lemma TenToTwelve(k: nat)
    requires 10 <= k < 13
    ensures Power(58, k) <= Power(256, Rest(k))
  {
    PowersOf58();
    PowersOf256();
    assert Power(58, 11) == 58 * Power(58, 10) && Power(58, 12) == 58 * Power(58, 11);
    assert Power(256, 10) == 256 * Power(256, 9) && Power(256, 9) == 256 * Power(256, 8);
  }

  lemma ThirteenOrMore(k: nat)
    requires 13 <= k < 15
    ensures Power(58, k) <= Power(256, Rest(k))
  {
    PowersOf58();
    PowersOf256();
    assert Power(58, 15) == 58 * Power(58, 14) && Power(58, 14) == 58 * Power(58, 13);
  }

  // ---------------------------------------------------------------- characters

  /** The alphabet: digits and letters without 0, I, O and l. */
  function CharOf(d: nat): char
    requires d < 58
  {
    if d < 9 then ('1' as int + d) as char
    else if d < 17 then ('A' as int + d - 9) as char
    else if d < 22 then ('J' as int + d - 17) as char
    else if d < 33 then ('P' as int + d - 22) as char
    else if d < 44 then ('a' as int + d - 33) as char
    else ('m' as int + d - 44) as char
  }

  /** The digit of a character, or -1. */
  function RevOf(c: char): (d: int)
    ensures -1 <= d < 58
  {
    if '1' <= c <= '9' then c as int - '1' as int
    else if 'A' <= c <= 'H' then c as int - 'A' as int + 9
    else if 'J' <= c <= 'N' then c as int - 'J' as int + 17
    else if 'P' <= c <= 'Z' then c as int - 'P' as int + 22
    else if 'a' <= c <= 'k' then c as int - 'a' as int + 33
    else if 'm' <= c <= 'z' then c as int - 'm' as int + 44
    else -1
  }

  predicate IsSpace(c: char) {
    c == ' ' || 9 <= c as int <= 13
  }

  predicate NotSpace(c: char) {
    !IsSpace(c)
  }

  predicate IsOne(c: char) {
    c == '1'
  }

  predicate IsZero(x: Byte) {
    x == 0
  }

  lemma RevOfChar(d: nat)
    requires d < 58
    ensures RevOf(CharOf(d)) == d && !IsSpace(CharOf(d)) && (CharOf(d) == '1' <==> d == 0)
  {
  }

  lemma CharOfRev(c: char)
    requires RevOf(c) >= 0
    ensures CharOf(RevOf(c)) == c
  {
  }

  function Chars(s: seq<nat>): (r: string)
    requires DigitsBelow(s, 58)
    ensures |r| == |s|
  {
    seq(|s|, i requires 0 <= i < |s| => CharOf(s[i]))
  }

  ghost predicate AllBase58(s: string) {
    forall i :: 0 <= i < |s| ==> RevOf(s[i]) >= 0
  }

  ghost function Revs(s: string): (r: seq<nat>)
    requires AllBase58(s)
    ensures |r| == |s| && DigitsBelow(r, 58)
  {
    seq(|s|, i requires 0 <= i < |s| => RevOf(s[i]))
  }

  // ---------------------------------------------------------------- strings

  type Bytes = seq<Byte>

  /** How many elements at the front satisfy a condition. */
  function Leading<T>(s: seq<T>, p: T -> bool): (n: nat)
    ensures n <= |s| && (forall i :: 0 <= i < n ==> p(s[i])) && (n < |s| ==> !p(s[n]))
  {
    if s == [] || !p(s[0]) then 0 else 1 + Leading(s[1..], p)
  }

  lemma {:induction false} LeadingIs<T>(s: seq<T>, p: T -> bool, n: nat)
    requires n <= |s| && (forall i :: 0 <= i < n ==> p(s[i])) && (n < |s| ==> !p(s[n]))
    ensures Leading(s, p) == n
  {
    if n > 0 {
      LeadingIs(s[1..], p, n - 1);
    }
  }

  function Repeat<T>(x: T, n: nat): (s: seq<T>)
    ensures |s| == n && forall i :: 0 <= i < n ==> s[i] == x
  {
    seq(n, _ => x)
  }

  function Encoded(input: Bytes): string {
    var zeros := Leading(input, IsZero);
    var digits := Digits(Value(input[zeros..], 256), 58);
    ValueOfDigits(Value(input[zeros..], 256), 58);
    Repeat('1', zeros) + Chars(digits)
  }

  /** A string taken apart: spaces, ones, other characters up to the next space, and the rest. */
  datatype Parts = Parts(ones: nat, body: string, rest: string)

  function PartsOf(s: string): Parts {
    var t := s[Leading(s, IsSpace)..];
    var ones := Leading(t, IsOne);
    var u := t[ones..];
    var n := Leading(u, NotSpace);
    Parts(ones, u[..n], u[n..])
  }

  ghost function Decoded(s: string, maxLength: int): Option<Bytes> {
    DecodedParts(PartsOf(s), maxLength)
  }

  ghost function DecodedParts(p: Parts, maxLength: int): Option<Bytes> {
    if !AllBase58(p.body) || !AllSpaces(p.rest) then None
    else
      var v := Value(Revs(p.body), 58);
      var digits := Digits(v, 256);
      if (p.ones > 0 && p.ones > maxLength) || (p.body != [] && p.ones + |digits| > maxLength) then None
      else
        ValueOfDigits(v, 256);
        Some(Repeat(0, p.ones) + AsBytes(digits))
  }

  ghost predicate AllSpaces(s: string) {
    forall i :: 0 <= i < |s| ==> IsSpace(s[i])
  }

  function AsBytes(s: seq<nat>): (r: Bytes)
    requires DigitsBelow(s, 256)
    ensures |r| == |s| && r == s
  {
    seq(|s|, i requires 0 <= i < |s| => s[i])
  }

  /** The string of an encoding, taken apart. */
  lemma EncodedParts(zeros: nat, digits: seq<nat>)
    requires DigitsBelow(digits, 58) && (digits != [] ==> digits[0] != 0)
    ensures PartsOf(Repeat('1', zeros) + Chars(digits)) == Parts(zeros, Chars(digits), [])
    ensures AllBase58(Chars(digits)) && Revs(Chars(digits)) == digits
  {
    var body := Chars(digits);
    var s := Repeat('1', zeros) + body;
    forall i | 0 <= i < |digits|
      ensures RevOf(body[i]) == digits[i] && !IsSpace(body[i]) && (body[i] == '1' <==> digits[i] == 0)
    {
      RevOfChar(digits[i]);
    }
    assert zeros > 0 ==> s[0] == '1';
    LeadingIs(s, IsSpace, 0);
    assert s[0..] == s;
    assert forall i :: 0 <= i < zeros ==> s[i] == '1';
    assert zeros < |s| ==> s[zeros] == body[0];
    LeadingIs(s, IsOne, zeros);
    assert s[zeros..] == body;
    LeadingIs(body, NotSpace, |body|);
    assert body[..|body|] == body && body[|body|..] == [];
  }

  lemma DecodedFrom(s: string, maxLength: int, ones: nat, digits: seq<nat>, bytes: Bytes)
    requires DigitsBelow(digits, 58) && PartsOf(s) == Parts(ones, Chars(digits), [])
    requires AllBase58(Chars(digits)) && Revs(Chars(digits)) == digits
    requires Digits(Value(digits, 58), 256) == bytes && ones + |bytes| <= maxLength
    ensures Decoded(s, maxLength) == Some(Repeat(0, ones) + bytes)
  {
  }

  lemma SplitZeros(input: Bytes)
    ensures var zeros := Leading(input, IsZero); input == Repeat(0, zeros) + input[zeros..]
  {
  }

  /** From one base to another and back. */
  lemma ThereAndBack(s: seq<nat>, a: nat, b: nat)
    requires a >= 2 && b >= 2 && DigitsBelow(s, a) && (s != [] ==> s[0] != 0)
    ensures var digits := Digits(Value(s, a), b);
            DigitsBelow(digits, b) && (digits != [] ==> digits[0] != 0) && Digits(Value(digits, b), a) == s
  {
    ValueOfDigits(Value(s, a), b);
    DigitsOfValue(s, a);
  }

  /** Decoding inverts encoding for every byte string within the limit. */
  lemma DecodeEncode(input: Bytes, maxLength: int)
    requires |input| <= maxLength
    ensures Decoded(Encoded(input), maxLength) == Some(input)
  {
    var zeros := Leading(input, IsZero);
    DecodeTail(Encoded(input), zeros, input[zeros..], maxLength) by {
      ThereAndBack(input[zeros..], 256, 58);
    }
    SplitZeros(input);
  }

  lemma DecodeTail(s: string, zeros: nat, tail: Bytes, maxLength: int)
    requires zeros + |tail| <= maxLength && (tail != [] ==> tail[0] != 0)
    requires DigitsBelow(Digits(Value(tail, 256), 58), 58)
    requires s == Repeat('1', zeros) + Chars(Digits(Value(tail, 256), 58))
    ensures Decoded(s, maxLength) == Some(Repeat(0, zeros) + tail)
  {
    var digits := Digits(Value(tail, 256), 58);
    ThereAndBack(tail, 256, 58);
    EncodedParts(zeros, digits);
    DecodedFrom(s, maxLength, zeros, digits, tail);
  }

  /** A string without the spaces around it. */
  ghost function Trimmed(s: string): string {
    var p := PartsOf(s);
    Repeat('1', p.ones) + p.body
  }

  /** Nothing else decodes: what is accepted is the encoding of its result, with spaces around it. */
  lemma EncodeDecode(s: string, maxLength: int)
    requires Decoded(s, maxLength).Some?
    ensures Encoded(Decoded(s, maxLength).value) == Trimmed(s)
    ensures s == s[..Leading(s, IsSpace)] + Trimmed(s) + PartsOf(s).rest
    ensures AllSpaces(s[..Leading(s, IsSpace)]) && AllSpaces(PartsOf(s).rest)
  {
    var p := PartsOf(s);
    BodyStart(s);
    EncodedFrom(p.ones, Revs(p.body));
    CharsOfRevs(p.body);
    Surroundings(s);
  }

  lemma EncodedFrom(ones: nat, revs: seq<nat>)
    requires DigitsBelow(revs, 58) && (revs != [] ==> revs[0] != 0)
    ensures DigitsBelow(Digits(Value(revs, 58), 256), 256)
    ensures Encoded(Repeat(0, ones) + AsBytes(Digits(Value(revs, 58), 256))) == Repeat('1', ones) + Chars(revs)
  {
    ThereAndBack(revs, 58, 256);
    var tail := AsBytes(Digits(Value(revs, 58), 256));
    var r := Repeat(0, ones) + tail;
    assert tail != [] ==> r[ones] == tail[0];
    LeadingIs(r, IsZero, ones);
    assert r[ones..] == tail;
  }

  lemma BodyStart(s: string)
    ensures PartsOf(s).body != [] ==> PartsOf(s).body[0] != '1'
    ensures PartsOf(s).body != [] && RevOf(PartsOf(s).body[0]) == 0 ==> PartsOf(s).body[0] == '1'
  {
  }

  lemma CharsOfRevs(s: string)
    requires AllBase58(s)
    ensures Chars(Revs(s)) == s
  {
    forall i | 0 <= i < |s|
      ensures CharOf(RevOf(s[i])) == s[i]
    {
      CharOfRev(s[i]);
    }
  }

  lemma Surroundings(s: string)
    ensures s == s[..Leading(s, IsSpace)] + Trimmed(s) + PartsOf(s).rest
  {
    var k := Leading(s, IsSpace);
    var t := s[k..];
    var ones := Leading(t, IsOne);
    var u := t[ones..];
    var n := Leading(u, NotSpace);
    assert t[..ones] == Repeat('1', ones);
    Joined(s, k, ones, n);
  }

  lemma Joined(s: string, k: nat, m: nat, n: nat)
    requires k <= |s| && m <= |s| - k && n <= |s| - k - m
    ensures s == s[..k] + (s[k..][..m] + s[k..][m..][..n]) + s[k..][m..][n..]
  {
    var t := s[k..];
    assert t == t[..m] + t[m..] && t[m..] == t[m..][..n] + t[m..][n..] && s == s[..k] + t;
  }

  // ---------------------------------------------------------------- exactly what is accepted

  /** Space, tab, line feed, vertical tab, form feed and carriage return only. */
  ghost predicate White(s: string) {
    forall i :: 0 <= i < |s| ==> s[i] as int in [32, 9, 10, 11, 12, 13]
  }

  lemma WhiteIs(s: string)
    ensures White(s) <==> AllSpaces(s)
  {
    forall i | 0 <= i < |s|
      ensures s[i] as int in [32, 9, 10, 11, 12, 13] <==> IsSpace(s[i])
    {
    }
  }

  lemma LeadingJoined<T>(a: seq<T>, b: seq<T>, p: T -> bool)
    requires (forall i :: 0 <= i < |a| ==> p(a[i])) && (b != [] ==> !p(b[0]))
    ensures Leading(a + b, p) == |a| && (a + b)[..|a|] == a && (a + b)[|a|..] == b
  {
    LeadingIs(a + b, p, |a|);
  }

  lemma CharsAreNoSpaces(digits: seq<nat>)
    requires DigitsBelow(digits, 58)
    ensures forall i :: 0 <= i < |digits| ==> NotSpace(Chars(digits)[i])
    ensures digits != [] && digits[0] != 0 ==> !IsOne(Chars(digits)[0])
  {
    forall i | 0 <= i < |digits|
      ensures !IsSpace(Chars(digits)[i]) && (Chars(digits)[i] == '1' <==> digits[i] == 0)
    {
      RevOfChar(digits[i]);
    }
  }

  lemma PartsJoined(a: string, ones: string, body: string, z: string)
    requires AllSpaces(a) && AllSpaces(z) && ones + body != []
    requires (forall i :: 0 <= i < |ones| ==> IsOne(ones[i])) && (forall i :: 0 <= i < |body| ==> NotSpace(body[i]))
    requires body != [] ==> !IsOne(body[0])
    ensures PartsOf(a + (ones + (body + z))) == Parts(|ones|, body, z)
  {
    LeadingJoined(body, z, NotSpace);
    LeadingJoined(ones, body + z, IsOne);
    assert (ones + (body + z))[0] == if ones != [] then ones[0] else body[0];
    LeadingJoined(a, ones + (body + z), IsSpace);
  }

  lemma PartsOfSpaces(t: string)
    requires AllSpaces(t)
    ensures PartsOf(t) == Parts(0, [], [])
  {
    LeadingIs(t, IsSpace, |t|);
  }

  lemma Regroup(a: string, b: string, c: string, d: string)
    ensures a + (b + c) + d == a + (b + (c + d))
  {
  }

  lemma PartsAround(a: string, zeros: nat, digits: seq<nat>, z: string)
    requires DigitsBelow(digits, 58) && (digits != [] ==> digits[0] != 0) && AllSpaces(a) && AllSpaces(z)
    ensures var p := PartsOf(a + (Repeat('1', zeros) + Chars(digits)) + z);
            p.ones == zeros && p.body == Chars(digits) && AllSpaces(p.rest)
  {
    var ones, body := Repeat('1', zeros), Chars(digits);
    Regroup(a, ones, body, z);
    if zeros == 0 && digits == [] {
      PartsOfSpaces(a + (ones + (body + z)));
    } else {
      CharsAreNoSpaces(digits);
      PartsJoined(a, ones, body, z);
    }
  }

  /** A string is accepted if and only if it is the encoding of its bytes, no more than allowed, with white space around it. */
  lemma AcceptedIff(s: string, maxLength: int, bytes: Bytes)
    ensures Decoded(s, maxLength) == Some(bytes)
            <==> (bytes == [] || |bytes| <= maxLength)
                 && exists a: string, z: string :: White(a) && White(z) && s == a + Encoded(bytes) + z
  {
    if Decoded(s, maxLength) == Some(bytes) {
      EncodeDecode(s, maxLength);
      var a, z := s[..Leading(s, IsSpace)], PartsOf(s).rest;
      WhiteIs(a);
      WhiteIs(z);
      assert White(a) && White(z) && s == a + Encoded(bytes) + z;
    }
    if (bytes == [] || |bytes| <= maxLength)
       && exists a: string, z: string :: White(a) && White(z) && s == a + Encoded(bytes) + z {
      var a: string, z: string :| White(a) && White(z) && s == a + Encoded(bytes) + z;
      WhiteIs(a);
      WhiteIs(z);
      AroundDecodes(a, bytes, z, maxLength);
    }
  }

  lemma AroundDecodes(a: string, bytes: Bytes, z: string, maxLength: int)
    requires AllSpaces(a) && AllSpaces(z) && (bytes == [] || |bytes| <= maxLength)
    ensures Decoded(a + Encoded(bytes) + z, maxLength) == Some(bytes)
  {
    var zeros := Leading(bytes, IsZero);
    var tail := bytes[zeros..];
    var digits := Digits(Value(tail, 256), 58);
    SplitZeros(bytes);
    ThereAndBack(tail, 256, 58);
    PartsAround(a, zeros, digits, z);
    EncodedParts(zeros, digits);
    assert PartsOf(a + Encoded(bytes) + z).ones == zeros;
    if digits != [] {
      assert |bytes| == zeros + |tail|;
    }
  }

  // ---------------------------------------------------------------- known encodings

  /** The alphabet, written out. */
  lemma Alphabet(d: nat)
    requires d < 58
    ensures CharOf(d) == ("123456789" + "ABCDEFGH" + "JKLMN" + "PQRSTUVWXYZ" + "abcdefghijk" + "mnopqrstuvwxyz")[d]
  {
    if d < 17 {
      assert CharOf(d) == if d < 9 then "123456789"[d] else "ABCDEFGH"[d - 9];
    } else if d < 33 {
      assert CharOf(d) == if d < 22 then "JKLMN"[d - 17] else "PQRSTUVWXYZ"[d - 22];
    } else {
      assert CharOf(d) == if d < 44 then "abcdefghijk"[d - 33] else "mnopqrstuvwxyz"[d - 44];
    }
  }

  /** Every zero byte in front is a one, whatever follows. */
  lemma {:induction false} EncodedZeros(zeros: nat, input: Bytes)
    ensures Encoded(Repeat(0, zeros) + input) == Repeat('1', zeros) + Encoded(input)
  {
    var n := Leading(input, IsZero);
    LeadingIs(Repeat(0, zeros) + input, IsZero, zeros + n);
    assert (Repeat(0, zeros) + input)[zeros + n..] == input[n..];
    assert Repeat('1', zeros + n) == Repeat('1', zeros) + Repeat('1', n);
  }

  lemma ValueMore(s: seq<nat>, d: nat, t: seq<nat>, b: nat)
    requires t == s + [d]
    ensures Value(t, b) == b * Value(s, b) + d
  {
    assert t[..|s|] == s;
  }

  /** A known encoding. */
  lemma KnownEncoding()
    ensures Encoded([0x57, 0x2e, 0x47, 0x94]) == "3EFU7m"
  {
    var input: Bytes := [0x57, 0x2e, 0x47, 0x94];
    var digits: seq<nat> := [2, 13, 14, 27, 6, 44];
    ValueMore([], 0x57, [0x57], 256);
    ValueMore([0x57], 0x2e, [0x57, 0x2e], 256);
    ValueMore([0x57, 0x2e], 0x47, [0x57, 0x2e, 0x47], 256);
    ValueMore([0x57, 0x2e, 0x47], 0x94, input, 256);
    ValueMore([], 2, [2], 58);
    ValueMore([2], 13, [2, 13], 58);
    ValueMore([2, 13], 14, [2, 13, 14], 58);
    ValueMore([2, 13, 14], 27, [2, 13, 14, 27], 58);
    ValueMore([2, 13, 14, 27], 6, [2, 13, 14, 27, 6], 58);
    ValueMore([2, 13, 14, 27, 6], 44, digits, 58);
    DigitsOfValue(digits, 58);
    assert Leading(input, IsZero) == 0 && input[0..] == input;
    assert Value(input, 256) == Value(digits, 58);
    assert Chars(digits) == "3EFU7m";
  }
}
