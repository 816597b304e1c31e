/**
 * Bech32 (src/bech32.cpp; BIP 173): the checksum as a linear map with injective steps, decoding as
 * the inverse of encoding, and the rejection of single substitutions. The 30-bit remainder is
 * modelled as its bits, least significant first.
 */
module Bech32 {
  import opened Bits
  import opened Common

  type Remainder = c: seq<bool> | |c| == 30 witness seq(30, _ => false)

  type Five = v: int | 0 <= v < 32

  /** A binary digit of a number. */
  predicate Digit(x: nat, i: nat) {
    x / Pow2(i) % 2 == 1
  }

  // ---------------------------------------------------------------- one step

  /** The multiples {1}, {2}, {4}, {8} and {16} of x^6 modulo the generator. */
  function Generator(n: nat): nat
    requires n < 5
  {
    match n
    case 0 => 0x3b6a57b2
    case 1 => 0x26508e6d
    case 2 => 0x1ea119fa
    case 3 => 0x3d4233dd
    case 4 => 0x2a1462b3
  }

  /** What the first n conditional additions add to bit i, for the bits of c that are shifted out. */
  predicate Taps(c: Remainder, i: nat, n: nat)
    requires n <= 5
  {
    n > 0 && Taps(c, i, n - 1) != (c[24 + n] && Digit(Generator(n - 1), i))
  }

  /** One coefficient: the remainder is multiplied by x, and the multiple of the generator taken off. */
  function Step(c: Remainder, v: Five): Remainder {
    seq(30, i requires 0 <= i < 30 => (if i < 5 then Digit(v, i) else c[i - 5]) != Taps(c, i, 5))
  }

  /** Addition of remainders: exclusive or. */
  function Plus(c: Remainder, d: Remainder): Remainder {
    seq(30, i requires 0 <= i < 30 => c[i] != d[i])
  }

  function Zero(): Remainder {
    seq(30, _ => false)
  }

  function One(): Remainder {
    seq(30, i => i == 0)
  }

  lemma {:induction false} TapsLinear(c: Remainder, d: Remainder, i: nat, n: nat)
    requires n <= 5
    ensures Taps(Plus(c, d), i, n) == (Taps(c, i, n) != Taps(d, i, n))
  {
    if n > 0 {
      TapsLinear(c, d, i, n - 1);
    }
  }

  /** A value that adds digit by digit. */
  ghost predicate Sum(u: Five, v: Five, w: Five) {
    forall i :: 0 <= i < 5 ==> Digit(u, i) == (Digit(v, i) != Digit(w, i))
  }

  /** A step is linear over addition. */
  lemma StepLinear(c: Remainder, d: Remainder, u: Five, v: Five, w: Five)
    requires Sum(u, v, w)
    ensures Step(Plus(c, d), u) == Plus(Step(c, v), Step(d, w))
  {
    forall i | 0 <= i < 30
      ensures Step(Plus(c, d), u)[i] == Plus(Step(c, v), Step(d, w))[i]
    {
      TapsLinear(c, d, i, 5);
    }
  }

  lemma {:induction false} TapsNothing(c: Remainder, i: nat, n: nat)
    requires n <= 5 && forall k :: 25 <= k < 30 ==> !c[k]
    ensures !Taps(c, i, n)
  {
    if n > 0 {
      TapsNothing(c, i, n - 1);
    }
  }

  /** As long as nothing is shifted out, a step appends. */
  lemma StepAppends(c: Remainder, v: Five, i: nat)
    requires i < 30 && forall k :: 25 <= k < 30 ==> !c[k]
    ensures Step(c, v)[i] == if i < 5 then Digit(v, i) else c[i - 5]
  {
    TapsNothing(c, i, 5);
  }

  // ---------------------------------------------------------------- injectivity

  lemma GeneratorDigits(i: nat)
    requires i < 5
    ensures Digit(Generator(0), i) == (i == 1 || i == 4)
    ensures Digit(Generator(1), i) == (i == 0 || i == 2 || i == 3)
    ensures Digit(Generator(2), i) == (i == 1 || i == 3 || i == 4)
    ensures Digit(Generator(3), i) == (i == 0 || i == 2 || i == 3 || i == 4)
    ensures Digit(Generator(4), i) == (i == 0 || i == 1 || i == 4)
  {
    assert Pow2(0) == 1 && Pow2(1) == 2 && Pow2(2) == 4 && Pow2(3) == 8 && Pow2(4) == 16;
  }

  /** What is added to the constant coefficient determines what was shifted out. */
  lemma TapsDetermine(c: Remainder)
    requires forall i :: 0 <= i < 5 ==> !Taps(c, i, 5)
    ensures !c[25] && !c[26] && !c[27] && !c[28] && !c[29]
  {
    forall i | 0 <= i < 5
      ensures Taps(c, i, 5)
              == (((((c[25] && (i == 1 || i == 4)) != (c[26] && (i == 0 || i == 2 || i == 3)))
                 != (c[27] && (i == 1 || i == 3 || i == 4))) != (c[28] && (i == 0 || i == 2 || i == 3 || i == 4)))
                 != (c[29] && (i == 0 || i == 1 || i == 4)))
    {
      GeneratorDigits(i);
      assert Taps(c, i, 1) == (c[25] && Digit(Generator(0), i));
      assert Taps(c, i, 2) == (Taps(c, i, 1) != (c[26] && Digit(Generator(1), i)));
      assert Taps(c, i, 3) == (Taps(c, i, 2) != (c[27] && Digit(Generator(2), i)));
      assert Taps(c, i, 4) == (Taps(c, i, 3) != (c[28] && Digit(Generator(3), i)));
    }
    assert !Taps(c, 0, 5) && !Taps(c, 1, 5) && !Taps(c, 2, 5) && !Taps(c, 3, 5) && !Taps(c, 4, 5);
  }

  /** A step is injective in the running remainder. */
  lemma StepInjective(c: Remainder, d: Remainder, v: Five)
    requires Step(c, v) == Step(d, v)
    ensures c == d
  {
    var e := Plus(c, d);
    forall i | 0 <= i < 30
      ensures Taps(e, i, 5) == (i >= 5 && e[i - 5])
    {
      TapsLinear(c, d, i, 5);
      assert Step(c, v)[i] == Step(d, v)[i];
    }
    TapsDetermine(e);
    forall i | 0 <= i < 25
      ensures !e[i]
    {
      TapsNothing(e, i + 5, 5);
      assert Taps(e, i + 5, 5) == e[i + 5 - 5];
    }
    forall i | 0 <= i < 30
      ensures c[i] == d[i]
    {
      assert !e[i];
    }
  }

  function Bit(b: bool): int {
    if b then 1 else 0
  }

  lemma FiveDigits(v: Five)
    ensures v == Bit(Digit(v, 0)) + 2 * Bit(Digit(v, 1)) + 4 * Bit(Digit(v, 2)) + 8 * Bit(Digit(v, 3)) + 16 * Bit(Digit(v, 4))
  {
    assert Pow2(0) == 1 && Pow2(1) == 2 && Pow2(2) == 4 && Pow2(3) == 8 && Pow2(4) == 16;
  }

  lemma DigitsDetermine(v: Five, w: Five)
    requires forall i :: 0 <= i < 5 ==> Digit(v, i) == Digit(w, i)
    ensures v == w
  {
    FiveDigits(v);
    FiveDigits(w);
  }

  /** A step is injective in the coefficient. */
  lemma StepDiffers(c: Remainder, v: Five, w: Five)
    requires Step(c, v) == Step(c, w)
    ensures v == w
  {
    forall i | 0 <= i < 5
      ensures Digit(v, i) == Digit(w, i)
    {
      assert Step(c, v)[i] == Step(c, w)[i];
    }
    DigitsDetermine(v, w);
  }

  // ---------------------------------------------------------------- whole inputs

  /** The fold over the coefficients. */
  function Run(c: Remainder, v: seq<Five>): Remainder {
    if v == [] then c else Step(Run(c, v[..|v| - 1]), v[|v| - 1])
  }

  function PolyMod(v: seq<Five>): Remainder {
    Run(One(), v)
  }

  lemma {:induction false} RunAppend(c: Remainder, v: seq<Five>, w: seq<Five>)
    ensures Run(c, v + w) == Run(Run(c, v), w)
    decreases |w|
  {
    if w == [] {
      assert v + w == v;
    } else {
      RunAppend(c, v, w[..|w| - 1]);
      assert (v + w)[..|v + w| - 1] == v + w[..|w| - 1];
    }
  }

  /** Different remainders stay different. */
  lemma {:induction false} RunInjective(c: Remainder, d: Remainder, v: seq<Five>)
    requires Run(c, v) == Run(d, v)
    ensures c == d
  {
    if v != [] {
      StepInjective(Run(c, v[..|v| - 1]), Run(d, v[..|v| - 1]), v[|v| - 1]);
      RunInjective(c, d, v[..|v| - 1]);
    }
  }

  /** One changed coefficient changes the checksum. */
  lemma OneChangeShows(v: seq<Five>, i: nat, w: Five)
    requires i < |v| && w != v[i]
    ensures PolyMod(v[i := w]) != PolyMod(v)
  {
    var c := Run(One(), v[..i]);
    var rest := v[i + 1..];
    assert v == (v[..i] + [v[i]]) + rest && v[i := w] == (v[..i] + [w]) + rest;
    RunAppend(One(), v[..i] + [v[i]], rest);
    RunAppend(One(), v[..i] + [w], rest);
    assert (v[..i] + [v[i]])[..i] == v[..i] && (v[..i] + [w])[..i] == v[..i];
    if PolyMod(v[i := w]) == PolyMod(v) {
      RunInjective(Step(c, v[i]), Step(c, w), rest);
      StepDiffers(c, v[i], w);
    }
  }

  lemma {:induction false} RunLinear(c: Remainder, d: Remainder, u: seq<Five>, v: seq<Five>, w: seq<Five>)
    requires |u| == |v| == |w| && forall i :: 0 <= i < |u| ==> Sum(u[i], v[i], w[i])
    ensures Run(Plus(c, d), u) == Plus(Run(c, v), Run(d, w))
  {
    if u != [] {
      var n := |u| - 1;
      RunLinear(c, d, u[..n], v[..n], w[..n]);
      StepLinear(Run(c, v[..n]), Run(d, w[..n]), u[n], v[n], w[n]);
    }
  }

  // ---------------------------------------------------------------- making and checking the checksum

  /** A five-bit group of a remainder. */
  function Group(c: Remainder, k: nat): Five
    requires k < 6
  {
    Bit(c[5 * k]) + 2 * Bit(c[5 * k + 1]) + 4 * Bit(c[5 * k + 2]) + 8 * Bit(c[5 * k + 3]) + 16 * Bit(c[5 * k + 4])
  }

  lemma GroupDigits(c: Remainder, k: nat, i: nat)
    requires k < 6 && i < 5
    ensures Digit(Group(c, k), i) == c[5 * k + i]
  {
    assert Pow2(0) == 1 && Pow2(1) == 2 && Pow2(2) == 4 && Pow2(3) == 8 && Pow2(4) == 16;
  }

  /** The six values of a remainder, the highest first. */
  function Groups(c: Remainder): (v: seq<Five>)
    ensures |v| == 6
  {
    seq(6, i requires 0 <= i < 6 => Group(c, 5 - i))
  }

  /** What a remainder that starts from zero holds after up to six values. */
  lemma {:induction false} RunFromZero(v: seq<Five>, i: nat)
    requires |v| <= 6 && i < 30
    ensures Run(Zero(), v)[i] == (i < 5 * |v| && Digit(v[|v| - 1 - i / 5], i % 5))
    decreases |v|
  {
    if v != [] {
      var n := |v| - 1;
      forall k | 0 <= k < 30
        ensures Run(Zero(), v[..n])[k] == (k < 5 * n && Digit(v[n - 1 - k / 5], k % 5))
      {
        RunFromZero(v[..n], k);
      }
      StepAppends(Run(Zero(), v[..n]), v[n], i);
      if i >= 5 {
        assert i / 5 == (i - 5) / 5 + 1 && i % 5 == (i - 5) % 5;
      }
    }
  }

  const ZEROS: seq<Five> := [0, 0, 0, 0, 0, 0]

  lemma SumZero(v: Five)
    ensures Sum(v, 0, v)
  {
    forall i | 0 <= i < 5
      ensures !Digit(0, i)
    {
      assert 0 / Pow2(i) == 0;
    }
  }

  /** The checksum is linear in the six values at the end. */
  lemma ChecksumLinear(enc: seq<Five>, chk: seq<Five>)
    requires |chk| == 6
    ensures PolyMod(enc + chk) == Plus(PolyMod(enc + ZEROS), Run(Zero(), chk))
  {
    var c := PolyMod(enc);
    RunAppend(One(), enc, chk);
    RunAppend(One(), enc, ZEROS);
    assert Plus(c, Zero()) == c;
    forall i | 0 <= i < 6
      ensures Sum(chk[i], ZEROS[i], chk[i])
    {
      SumZero(chk[i]);
    }
    RunLinear(c, Zero(), chk, ZEROS, chk);
  }

  /** Groups and the run from zero are inverse to each other. */
  lemma GroupsRun(c: Remainder)
    ensures Run(Zero(), Groups(c)) == c
  {
    forall i | 0 <= i < 30
      ensures Run(Zero(), Groups(c))[i] == c[i]
    {
      RunFromZero(Groups(c), i);
      GroupDigits(c, i / 5, i % 5);
    }
  }

  lemma RunGroupDigit(v: seq<Five>, k: nat, i: nat)
    requires |v| == 6 && k < 6 && i < 5
    ensures Digit(Group(Run(Zero(), v), 5 - k), i) == Digit(v[k], i)
  {
    var g := 5 - k;
    GroupDigits(Run(Zero(), v), g, i);
    RunFromZeroAt(v, g, i);
  }

  lemma RunFromZeroAt(v: seq<Five>, g: nat, i: nat)
    requires |v| == 6 && g < 6 && i < 5
    ensures Run(Zero(), v)[5 * g + i] == Digit(v[5 - g], i)
  {
    Position(g, i);
    RunFromZero(v, 5 * g + i);
  }

  lemma Position(g: nat, i: nat)
    requires i < 5
    ensures (5 * g + i) / 5 == g && (5 * g + i) % 5 == i
  {
  }

  lemma RunGroup(v: seq<Five>, k: nat)
    requires |v| == 6 && k < 6
    ensures Group(Run(Zero(), v), 5 - k) == v[k]
  {
    var c := Run(Zero(), v);
    forall i: nat | i < 5
      ensures Digit(Group(c, 5 - k), i) == Digit(v[k], i)
    {
      RunGroupDigit(v, k, i);
    }
    DigitsDetermine(Group(c, 5 - k), v[k]);
  }

  lemma GroupsAre(c: Remainder, v: seq<Five>)
    requires |v| == 6 && forall k :: 0 <= k < 6 ==> Group(c, 5 - k) == v[k]
    ensures Groups(c) == v
  {
  }

  lemma RunGroups(v: seq<Five>)
    requires |v| == 6
    ensures Groups(Run(Zero(), v)) == v
  {
    forall k | 0 <= k < 6
      ensures Group(Run(Zero(), v), 5 - k) == v[k]
    {
      RunGroup(v, k);
    }
    GroupsAre(Run(Zero(), v), v);
  }

  /** The six values that CreateChecksum appends to an expanded prefix and its data. */
  function Checksum(enc: seq<Five>): (chk: seq<Five>)
    ensures |chk| == 6
  {
    Groups(Plus(PolyMod(enc + ZEROS), One()))
  }

  /** Exactly one checksum verifies: the one that is made. */
  lemma ChecksumIff(enc: seq<Five>, chk: seq<Five>)
    requires |chk| == 6
    ensures PolyMod(enc + chk) == One() <==> chk == Checksum(enc)
  {
    var m := PolyMod(enc + ZEROS);
    ChecksumLinear(enc, chk);
    if chk == Checksum(enc) {
      GroupsRun(Plus(m, One()));
      assert Plus(m, Plus(m, One())) == One();
    }
    if PolyMod(enc + chk) == One() {
      var r := Run(Zero(), chk);
      assert forall i :: 0 <= i < 30 ==> Plus(m, r)[i] == One()[i];
      assert r == Plus(m, One());
      RunGroups(chk);
    }
  }

  // ---------------------------------------------------------------- characters

  /** The character of a value. */
  function CharOf(v: Five): char {
    match v
    case 0 => 'q' case 1 => 'p' case 2 => 'z' case 3 => 'r' case 4 => 'y' case 5 => '9' case 6 => 'x' case 7 => '8'
    case 8 => 'g' case 9 => 'f' case 10 => '2' case 11 => 't' case 12 => 'v' case 13 => 'd' case 14 => 'w' case 15 => '0'
    case 16 => 's' case 17 => '3' case 18 => 'j' case 19 => 'n' case 20 => '5' case 21 => '4' case 22 => 'k' case 23 => 'h'
    case 24 => 'c' case 25 => 'e' case 26 => '6' case 27 => 'm' case 28 => 'u' case 29 => 'a' case 30 => '7' case 31 => 'l'
  }

  /** The value of a character in either case, or -1. */
  function Rev(c: char): (v: int)
    ensures -1 <= v < 32
  {
    match c
    case '0' => 15 case '2' => 10 case '3' => 17 case '4' => 21 case '5' => 20
    case '6' => 26 case '7' => 30 case '8' => 7 case '9' => 5
    case 'A' => 29 case 'C' => 24 case 'D' => 13 case 'E' => 25 case 'F' => 9 case 'G' => 8 case 'H' => 23
    case 'J' => 18 case 'K' => 22 case 'L' => 31 case 'M' => 27 case 'N' => 19
    case 'P' => 1 case 'Q' => 0 case 'R' => 3 case 'S' => 16 case 'T' => 11 case 'U' => 28 case 'V' => 12
    case 'W' => 14 case 'X' => 6 case 'Y' => 4 case 'Z' => 2
    case 'a' => 29 case 'c' => 24 case 'd' => 13 case 'e' => 25 case 'f' => 9 case 'g' => 8 case 'h' => 23
    case 'j' => 18 case 'k' => 22 case 'l' => 31 case 'm' => 27 case 'n' => 19
    case 'p' => 1 case 'q' => 0 case 'r' => 3 case 's' => 16 case 't' => 11 case 'u' => 28 case 'v' => 12
    case 'w' => 14 case 'x' => 6 case 'y' => 4 case 'z' => 2
    case _ => -1
  }

  predicate IsLower(c: char) {
    'a' <= c <= 'z'
  }

  predicate IsUpper(c: char) {
    'A' <= c <= 'Z'
  }

  predicate IsPrintable(c: char) {
    33 <= c as int <= 126
  }

  function LowerCase(c: char): char {
    if IsUpper(c) then (c as int - 'A' as int + 'a' as int) as char else c
  }

  /** The two tables are inverse to each other, up to case. */
  lemma RevOfChar(v: Five)
    ensures Rev(CharOf(v)) == v
  {
    if v < 16 {
      LowRev(v);
    } else {
      HighRev(v);
    }
  }

  lemma LowRev(v: Five)
    requires v < 16
    ensures Rev(CharOf(v)) == v
  {
  }

  lemma HighRev(v: Five)
    requires v >= 16
    ensures Rev(CharOf(v)) == v
  {
  }

  lemma CharIsLegal(v: Five)
    ensures IsPrintable(CharOf(v)) && !IsUpper(CharOf(v)) && CharOf(v) != '1'
  {
  }

  lemma CharOfRev(c: char)
    requires Rev(c) >= 0
    ensures CharOf(Rev(c)) == LowerCase(c) && c != '1'
  {
  }

  // ---------------------------------------------------------------- strings

  function CodeOf(c: char): nat {
    c as int % 256
  }

  /** ExpandHRP: the high bits of the characters of a prefix, zero, and their low bits. */
  function Expanded(hrp: string): (v: seq<Five>)
    ensures |v| == 2 * |hrp| + 1
  {
    seq(|hrp|, i requires 0 <= i < |hrp| => CodeOf(hrp[i]) / 32) + [0] + seq(|hrp|, i requires 0 <= i < |hrp| => CodeOf(hrp[i]) % 32)
  }

  function Chars(v: seq<Five>): (s: string)
    ensures |s| == |v|
  {
    seq(|v|, i requires 0 <= i < |v| => CharOf(v[i]))
  }

  function Lower(s: string): (r: string)
    ensures |r| == |s|
  {
    seq(|s|, i requires 0 <= i < |s| => LowerCase(s[i]))
  }

  function Encoded(hrp: string, values: seq<Five>): string {
    hrp + ['1'] + Chars(values + Checksum(Expanded(hrp) + values))
  }

  /** The last position of the separator, or -1. */
  function LastOne(s: string): (pos: int)
    ensures -1 <= pos < |s|
    ensures pos >= 0 ==> s[pos] == '1'
    ensures forall i :: pos < i < |s| ==> s[i] != '1'
  {
    if s == [] then -1 else if s[|s| - 1] == '1' then |s| - 1 else LastOne(s[..|s| - 1])
  }

  predicate AllPrintable(s: string) {
    forall i :: 0 <= i < |s| ==> IsPrintable(s[i])
  }

  predicate HasLower(s: string) {
    exists i :: 0 <= i < |s| && IsLower(s[i])
  }

  predicate HasUpper(s: string) {
    exists i :: 0 <= i < |s| && IsUpper(s[i])
  }

  predicate AllInCharset(s: string) {
    forall i :: 0 <= i < |s| ==> Rev(s[i]) >= 0
  }

  function Values(s: string): (v: seq<Five>)
    requires AllInCharset(s)
    ensures |v| == |s|
  {
    seq(|s|, i requires 0 <= i < |s| => Rev(s[i]))
  }

  /** The shape that is required before the checksum is looked at. */
  predicate Shaped(s: string) {
    && AllPrintable(s) && !(HasLower(s) && HasUpper(s))
    && |s| <= 90 && LastOne(s) > 0 && LastOne(s) + 7 <= |s|
    && AllInCharset(s[LastOne(s) + 1..])
  }

  function Decoded(s: string): Option<(string, seq<Five>)> {
    if !Shaped(s) then None
    else
      var pos := LastOne(s);
      var hrp, values := Lower(s[..pos]), Values(s[pos + 1..]);
      if PolyMod(Expanded(hrp) + values) == One() then Some((hrp, values[..|values| - 6])) else None
  }

  /** A prefix that may be encoded. */
  predicate LegalPrefix(hrp: string) {
    hrp != [] && AllPrintable(hrp) && !HasUpper(hrp)
  }

  lemma LastOneIs(s: string, pos: nat)
    requires pos < |s| && s[pos] == '1' && forall i :: pos < i < |s| ==> s[i] != '1'
    ensures LastOne(s) == pos
  {
  }

  lemma CharsLegal(v: seq<Five>)
    ensures AllInCharset(Chars(v)) && Values(Chars(v)) == v
    ensures AllPrintable(Chars(v)) && !HasUpper(Chars(v)) && '1' !in Chars(v)
  {
    forall i | 0 <= i < |v|
      ensures Rev(Chars(v)[i]) == v[i] && IsPrintable(Chars(v)[i]) && !IsUpper(Chars(v)[i]) && Chars(v)[i] != '1'
    {
      RevOfChar(v[i]);
      CharIsLegal(v[i]);
    }
  }

  lemma LowerKeeps(s: string)
    requires !HasUpper(s)
    ensures Lower(s) == s
  {
    forall i | 0 <= i < |s|
      ensures LowerCase(s[i]) == s[i]
    {
      assert !IsUpper(s[i]);
    }
  }

  /** Decoding inverts encoding, for every legal prefix and data within the length limit. */
  lemma DecodeEncode(hrp: string, values: seq<Five>)
    requires LegalPrefix(hrp) && |hrp| + |values| + 7 <= 90
    ensures Decoded(Encoded(hrp, values)) == Some((hrp, values))
  {
    var enc := Expanded(hrp) + values;
    var all := values + Checksum(enc);
    var tail := Chars(all);
    var s := Encoded(hrp, values);
    CharsLegal(all);
    assert s[|hrp|] == '1' && s[|hrp| + 1..] == tail && s[..|hrp|] == hrp;
    forall i | |hrp| < i < |s|
      ensures s[i] != '1'
    {
      assert s[i] == tail[i - |hrp| - 1];
    }
    LastOneIs(s, |hrp|);
    EncodedPrintable(hrp, tail);
    LowerKeeps(hrp);
    ChecksumIff(enc, Checksum(enc));
    assert Expanded(hrp) + all == enc + Checksum(enc);
    assert all[..|all| - 6] == values;
  }

  lemma EncodedPrintable(hrp: string, tail: string)
    requires AllPrintable(hrp) && !HasUpper(hrp) && AllPrintable(tail) && !HasUpper(tail)
    ensures AllPrintable(hrp + ['1'] + tail) && !HasUpper(hrp + ['1'] + tail)
  {
    var s := hrp + ['1'] + tail;
    forall i | 0 <= i < |s|
      ensures IsPrintable(s[i]) && !IsUpper(s[i])
    {
      assert s[i] == if i < |hrp| then hrp[i] else if i == |hrp| then '1' else tail[i - |hrp| - 1];
    }
  }

  /** Nothing else decodes: what is accepted is the encoding of its result, up to case. */
  lemma EncodeDecode(s: string)
    requires Decoded(s).Some?
    ensures Encoded(Decoded(s).value.0, Decoded(s).value.1) == Lower(s)
  {
    var pos := LastOne(s);
    var hrp, all := Lower(s[..pos]), Values(s[pos + 1..]);
    var n := |all| - 6;
    var enc := Expanded(hrp) + all[..n];
    assert Expanded(hrp) + all == enc + all[n..];
    ChecksumIff(enc, all[n..]);
    assert all == all[..n] + all[n..];
    CharsOfValues(s[pos + 1..]);
    LowerSplits(s, pos);
  }

  lemma CharsOfValues(t: string)
    requires AllInCharset(t)
    ensures Chars(Values(t)) == Lower(t)
  {
    forall i | 0 <= i < |t|
      ensures Chars(Values(t))[i] == Lower(t)[i]
    {
      CharOfRev(t[i]);
    }
  }

  lemma LowerSplits(s: string, pos: nat)
    requires pos < |s| && s[pos] == '1'
    ensures Lower(s[..pos]) + ['1'] + Lower(s[pos + 1..]) == Lower(s)
  {
  }

  // ---------------------------------------------------------------- exactly what is accepted

  /** The upper-case form of a character. */
  function UpperCase(c: char): char {
    if 97 <= c as int <= 122 then (c as int - 32) as char else c
  }

  function Upper(s: string): (r: string)
    ensures |r| == |s|
  {
    seq(|s|, i requires 0 <= i < |s| => UpperCase(s[i]))
  }

  /** A prefix in lower case: printable characters, no capitals. */
  predicate Plain(hrp: string) {
    hrp != [] && forall i :: 0 <= i < |hrp| ==> 33 <= hrp[i] as int <= 126 && !(65 <= hrp[i] as int <= 90)
  }

  lemma RevLower(c: char)
    ensures Rev(LowerCase(c)) == Rev(c)
  {
    if Rev(c) >= 0 {
      CharOfRev(c);
      RevOfChar(Rev(c));
    } else if IsUpper(c) {
      MissingLetters(c);
    }
  }

  lemma MissingLetters(c: char)
    requires IsUpper(c) && Rev(c) < 0
    ensures c == 'B' || c == 'I' || c == 'O'
  {
  }

  /** The case of a character changes nothing but the test for mixed case. */
  lemma CaseOf(c: char)
    ensures IsPrintable(LowerCase(c)) == IsPrintable(c) && (LowerCase(c) == '1' <==> c == '1')
    ensures !IsUpper(LowerCase(c)) && LowerCase(LowerCase(c)) == LowerCase(c)
    ensures !IsUpper(c) ==> LowerCase(UpperCase(c)) == c
    ensures !IsLower(c) ==> UpperCase(LowerCase(c)) == c
    ensures !IsLower(UpperCase(c))
  {
  }

  lemma LowerDecodes(s: string)
    requires !(HasLower(s) && HasUpper(s))
    ensures Decoded(Lower(s)) == Decoded(s)
  {
    var t := Lower(s);
    forall i | 0 <= i < |s|
      ensures IsPrintable(t[i]) == IsPrintable(s[i]) && Rev(t[i]) == Rev(s[i]) && (t[i] == '1' <==> s[i] == '1')
      ensures !IsUpper(t[i]) && LowerCase(t[i]) == LowerCase(s[i])
    {
      RevLower(s[i]);
      CaseOf(s[i]);
    }
    assert !HasUpper(t);
    var pos := LastOne(s);
    if pos >= 0 {
      LastOneIs(t, pos);
      assert Lower(t[..pos]) == Lower(s[..pos]);
      SameTail(s[pos + 1..], t[pos + 1..]);
    } else {
      assert LastOne(t) < 0;
    }
    assert AllPrintable(s) <==> AllPrintable(t);
  }

  lemma SameTail(a: string, b: string)
    requires |a| == |b| && forall i :: 0 <= i < |a| ==> Rev(a[i]) == Rev(b[i])
    ensures AllInCharset(a) <==> AllInCharset(b)
    ensures AllInCharset(a) ==> Values(a) == Values(b)
  {
  }

  /**
   * A string is accepted if and only if it is the encoding of a plain prefix and of values, of at most 90 characters, in lower
   * case or all in upper case; and then it is decoded as them.
   */
  lemma AcceptedIff(s: string, hrp: string, values: seq<Five>)
    ensures Decoded(s) == Some((hrp, values))
            <==> Plain(hrp) && |s| <= 90 && (s == Encoded(hrp, values) || s == Upper(Encoded(hrp, values)))
  {
    if Decoded(s) == Some((hrp, values)) {
      AcceptedOnly(s);
    } else if Plain(hrp) && |s| <= 90 && s == Encoded(hrp, values) {
      DecodeEncode(hrp, values);
    } else if Plain(hrp) && |s| <= 90 && s == Upper(Encoded(hrp, values)) {
      DecodeEncode(hrp, values);
      EncodedLower(hrp, values);
      UpperDecodes(Encoded(hrp, values));
    }
  }

  lemma AcceptedOnly(s: string)
    requires Decoded(s).Some?
    ensures var (hrp, values) := Decoded(s).value;
            Plain(hrp) && |s| <= 90 && (s == Encoded(hrp, values) || s == Upper(Encoded(hrp, values)))
  {
    EncodeDecode(s);
    AcceptedIsPlain(s);
    AcceptedCase(s);
  }

  lemma UpperDecodes(e: string)
    requires !HasUpper(e)
    ensures Decoded(Upper(e)) == Decoded(e)
  {
    forall i | 0 <= i < |e|
      ensures LowerCase(UpperCase(e[i])) == e[i] && !IsLower(Upper(e)[i])
    {
      CaseOf(e[i]);
    }
    assert Lower(Upper(e)) == e && !HasLower(Upper(e));
    LowerDecodes(Upper(e));
  }

  lemma EncodedLower(hrp: string, values: seq<Five>)
    requires LegalPrefix(hrp)
    ensures !HasUpper(Encoded(hrp, values))
  {
    var all := values + Checksum(Expanded(hrp) + values);
    CharsLegal(all);
    EncodedPrintable(hrp, Chars(all));
  }

  lemma AcceptedIsPlain(s: string)
    requires Decoded(s).Some?
    ensures Plain(Decoded(s).value.0) && |s| <= 90
  {
    var hrp := Decoded(s).value.0;
    forall i | 0 <= i < |hrp|
      ensures 33 <= hrp[i] as int <= 126 && !(65 <= hrp[i] as int <= 90)
    {
      CaseOf(s[i]);
      assert IsPrintable(s[i]);
    }
  }

  lemma AcceptedCase(s: string)
    requires !(HasLower(s) && HasUpper(s))
    ensures s == Lower(s) || s == Upper(Lower(s))
  {
    if HasUpper(s) {
      forall i | 0 <= i < |s|
        ensures s[i] == UpperCase(LowerCase(s[i]))
      {
        CaseOf(s[i]);
      }
    } else {
      LowerKeeps(s);
    }
  }

  // ---------------------------------------------------------------- bursts of errors

  lemma WindowShows(front: seq<Five>, a: seq<Five>, b: seq<Five>)
    requires |a| == |b| == 6 && a != b
    ensures PolyMod(front + a) != PolyMod(front + b)
  {
    ChecksumLinear(front, a);
    ChecksumLinear(front, b);
    RunGroups(a);
    RunGroups(b);
    var base, x, y := PolyMod(front + ZEROS), Run(Zero(), a), Run(Zero(), b);
    if Plus(base, x) == Plus(base, y) {
      PlusCancels(base, x, y);
    }
  }

  lemma PlusCancels(base: Remainder, x: Remainder, y: Remainder)
    requires Plus(base, x) == Plus(base, y)
    ensures x == y
  {
    forall i | 0 <= i < 30
      ensures x[i] == y[i]
    {
      assert Plus(base, x)[i] == Plus(base, y)[i];
    }
  }

  /** Any change that is confined to six neighbouring values changes the checksum. */
  lemma BurstShows(front: seq<Five>, a: seq<Five>, b: seq<Five>, rest: seq<Five>)
    requires |a| == |b| == 6 && a != b
    ensures PolyMod(front + a + rest) != PolyMod(front + b + rest)
  {
    WindowShows(front, a, b);
    RunAppend(One(), front + a, rest);
    RunAppend(One(), front + b, rest);
    if PolyMod(front + a + rest) == PolyMod(front + b + rest) {
      RunInjective(PolyMod(front + a), PolyMod(front + b), rest);
    }
  }

  lemma BurstInTail(enc: seq<Five>, x: seq<Five>, y: seq<Five>, k: nat)
    requires |x| == |y| && k + 6 <= |x| && x != y && x[..k] == y[..k] && x[k + 6..] == y[k + 6..]
    ensures PolyMod(enc + x) != PolyMod(enc + y)
  {
    var a, b, rest := x[k..k + 6], y[k..k + 6], x[k + 6..];
    assert x == x[..k] + a + rest && y == x[..k] + b + rest;
    assert enc + x == (enc + x[..k]) + a + rest && enc + y == (enc + x[..k]) + b + rest;
    BurstShows(enc + x[..k], a, b, rest);
  }

  /** Two strings that differ only within a window of six. */
  ghost predicate WindowOnly(s: string, t: string, i: nat) {
    |s| == |t| && i + 6 <= |s| && forall j :: 0 <= j < |s| && !(i <= j < i + 6) ==> t[j] == s[j]
  }

  lemma WindowValues(a: string, b: string, k: nat, j: nat)
    requires AllInCharset(a) && AllInCharset(b) && WindowOnly(a, b, k) && j < |a| && Rev(b[j]) != Rev(a[j])
    ensures Values(a) != Values(b) && Values(a)[..k] == Values(b)[..k] && Values(a)[k + 6..] == Values(b)[k + 6..]
  {
    var x: seq<Five>, y: seq<Five> := Values(a), Values(b);
    assert x[j] != y[j];
    assert forall m :: 0 <= m < |x| && !(k <= m < k + 6) ==> x[m] == y[m];
  }

  lemma OtherTail(hrp: string, a: string, b: string, k: nat, j: nat)
    requires AllInCharset(a) && AllInCharset(b) && WindowOnly(a, b, k) && j < |a| && Rev(b[j]) != Rev(a[j])
    requires PolyMod(Expanded(hrp) + Values(a)) == One()
    ensures PolyMod(Expanded(hrp) + Values(b)) != One()
  {
    WindowValues(a, b, k, j);
    BurstInTail(Expanded(hrp), Values(a), Values(b), k);
  }

  /** The checksum over prefix and data decides on a string of the right shape. */
  ghost predicate Verifies(s: string, pos: nat)
    requires pos < |s| && AllInCharset(s[pos + 1..])
  {
    PolyMod(Expanded(Lower(s[..pos])) + Values(s[pos + 1..])) == One()
  }

  lemma DecodedIff(s: string)
    ensures Decoded(s).Some? <==> Shaped(s) && Verifies(s, LastOne(s))
  {}

  lemma DecodedIs(s: string)
    requires AllPrintable(s) && !(HasLower(s) && HasUpper(s)) && |s| <= 90 && 0 < LastOne(s) && LastOne(s) + 7 <= |s|
    ensures var pos := LastOne(s);
            var data := s[pos + 1..];
            Decoded(s) == if AllInCharset(data) && Verifies(s, pos) then Some((Lower(s[..pos]), Values(data)[..|data| - 6])) else None
  {}

  lemma WindowOfTail(s: string, t: string, pos: nat, i: nat)
    requires WindowOnly(s, t, i) && pos < i
    ensures WindowOnly(s[pos + 1..], t[pos + 1..], i - pos - 1) && t[..pos] == s[..pos]
  {
  }

  lemma SameSeparator(s: string, t: string, i: nat)
    requires WindowOnly(s, t, i) && 0 <= LastOne(s) < i && forall k :: i <= k < i + 6 ==> t[k] != '1'
    ensures LastOne(t) == LastOne(s)
  {
    LastOneIs(t, LastOne(s));
  }

  lemma NotVerified(s: string, t: string, pos: nat, i: nat, j: nat)
    requires WindowOnly(s, t, i) && pos < i <= j < i + 6 && Rev(t[j]) != Rev(s[j])
    requires AllInCharset(s[pos + 1..]) && AllInCharset(t[pos + 1..]) && Verifies(s, pos)
    ensures !Verifies(t, pos)
  {
    WindowOfTail(s, t, pos, i);
    var a, b := s[pos + 1..], t[pos + 1..];
    assert a[j - pos - 1] == s[j] && b[j - pos - 1] == t[j];
    OtherTail(Lower(s[..pos]), a, b, i - pos - 1, j - pos - 1);
  }

  /**
   * However up to six neighbouring data characters of an accepted string are replaced, the result is rejected,
   * unless it spells the same values or has another separator.
   */
  lemma BurstRejected(s: string, t: string, i: nat, j: nat)
    requires Decoded(s).Some? && LastOne(s) < i && WindowOnly(s, t, i)
    requires forall k :: i <= k < i + 6 ==> t[k] != '1'
    requires i <= j < i + 6 && Rev(t[j]) != Rev(s[j])
    ensures Decoded(t) == None
  {
    var pos := LastOne(s);
    SameSeparator(s, t, i);
    DecodedIff(s);
    DecodedIff(t);
    if Shaped(t) {
      NotVerified(s, t, pos, i, j);
    }
  }

  /** In particular, replacing one data character of an accepted string by one of another value is always rejected. */
  lemma SubstitutionRejected(s: string, i: nat, c: char)
    requires Decoded(s).Some? && LastOne(s) < i < |s| && c != '1' && Rev(c) != Rev(s[i])
    ensures Decoded(s[i := c]) == None
  {
    BurstRejected(s, s[i := c], if i + 6 <= |s| then i else |s| - 6, i);
  }
}
