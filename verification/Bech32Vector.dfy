/**
 * A known encoding (BIP 173, among the test vectors of src/test/bech32_tests.cpp). It has every value once, so that
 * it fixes the whole alphabet, the expansion of the prefix, the generator and the final constant.
 */
module Bech32Vector {
  import opened Bech32
  import opened Bech32Errors
  import opened Bits

  /** One coefficient, in the field. */
  function Next(p: Poly, v: Elem): Poly {
    TimesX(p).(c0 := Add(TimesX(p).c0, v))
  }

  lemma PlusAt(c: Remainder, d: Remainder, k: nat)
    requires k < 6
    ensures At(Plus(c, d), k) == Add(At(c, k), At(d, k))
  {
  }

  /** A step multiplies by x and adds its coefficient. */
  lemma StepIsNext(c: Remainder, v: Five)
    ensures AsPoly(Step(c, v)) == Next(AsPoly(c), Value(v))
  {
    var n, zero := 5, Step(c, 0);
    assert Plus(c, Zero()) == c;
    SumZero(v);
    StepLinear(c, Zero(), v, 0, v);
    StepIsTimesX(c, n);
    StartIs(v);
    PlusAt(zero, Step(Zero(), v), 0);
    PlusAt(zero, Step(Zero(), v), 1);
    PlusAt(zero, Step(Zero(), v), 2);
    PlusAt(zero, Step(Zero(), v), 3);
    PlusAt(zero, Step(Zero(), v), 4);
    PlusAt(zero, Step(Zero(), v), 5);
  }

  // ---------------------------------------------------------------- folds

  /** Folding f over what is left of v leads from p to q. */
  ghost predicate Leads<T, E>(f: (T, E) -> T, v: seq<E>, i: nat, p: T, q: T)
    decreases |v| - i
  {
    if i >= |v| then p == q else Leads(f, v, i + 1, f(p, v[i]), q)
  }

  lemma Ahead<T, E>(f: (T, E) -> T, v: seq<E>, i: nat, p: T, x: E, r: T, q: T)
    requires i < |v| && v[i] == x && f(p, x) == r && Leads(f, v, i + 1, r, q)
    ensures Leads(f, v, i, p, q)
  {
  }

  function Elements(v: seq<Five>): (es: seq<Elem>)
    ensures |es| == |v|
  {
    seq(|v|, i requires 0 <= i < |v| => Value(v[i]))
  }

  /** A fold in the field is the fold over the bits. */
  lemma {:induction false} RunLeads(v: seq<Five>, i: nat, q: Poly)
    requires i <= |v| && Leads(Next, Elements(v), i, AsPoly(Run(One(), v[..i])), q)
    ensures AsPoly(PolyMod(v)) == q
    decreases |v| - i
  {
    if i == |v| {
      assert v[..i] == v;
    } else {
      assert v[..i + 1][..i] == v[..i];
      StepIsNext(Run(One(), v[..i]), v[i]);
      RunLeads(v, i + 1, q);
    }
  }

  lemma IsOne(c: Remainder)
    requires AsPoly(c) == Poly(Elem(true, false, false, false, false), NONE, NONE, NONE, NONE, NONE)
    ensures c == One()
  {
    assert At(c, 0).b0 && At(c, 1) == NONE && At(c, 2) == NONE;
  }

  // ---------------------------------------------------------------- the vector

  lemma ValuesFrom0()
    ensures Value(0) == Number(0) && Value(1) == Number(1) && Value(2) == Number(2) && Value(3) == Number(3)
    ensures Value(4) == Number(4) && Value(5) == Number(5) && Value(6) == Number(6) && Value(7) == Number(7)
  {
    assert Pow2(0) == 1 && Pow2(1) == 2 && Pow2(2) == 4 && Pow2(3) == 8 && Pow2(4) == 16;
  }

  lemma ValuesFrom8()
    ensures Value(8) == Number(8) && Value(9) == Number(9) && Value(10) == Number(10) && Value(11) == Number(11)
    ensures Value(12) == Number(12) && Value(13) == Number(13) && Value(14) == Number(14) && Value(15) == Number(15)
  {
    assert Pow2(0) == 1 && Pow2(1) == 2 && Pow2(2) == 4 && Pow2(3) == 8 && Pow2(4) == 16;
  }

  lemma ValuesFrom16()
    ensures Value(16) == Number(16) && Value(17) == Number(17) && Value(18) == Number(18) && Value(19) == Number(19)
    ensures Value(20) == Number(20) && Value(21) == Number(21) && Value(22) == Number(22) && Value(23) == Number(23)
  {
    assert Pow2(0) == 1 && Pow2(1) == 2 && Pow2(2) == 4 && Pow2(3) == 8 && Pow2(4) == 16;
  }

  lemma ValuesFrom24()
    ensures Value(24) == Number(24) && Value(25) == Number(25) && Value(26) == Number(26) && Value(27) == Number(27)
    ensures Value(28) == Number(28) && Value(29) == Number(29) && Value(30) == Number(30) && Value(31) == Number(31)
  {
    assert Pow2(0) == 1 && Pow2(1) == 2 && Pow2(2) == 4 && Pow2(3) == 8 && Pow2(4) == 16;
  }

  const PREFIX := "abcdef"

  const EVERY_VALUE: seq<Five> := [0, 1, 2, 3, 4, 5, 6, 7, 8, 9, 10, 11, 12, 13, 14, 15,
                                   16, 17, 18, 19, 20, 21, 22, 23, 24, 25, 26, 27, 28, 29, 30, 31]

  const CHECK: seq<Five> := [27, 0, 0, 0, 6, 14]

  predicate HighPrefix(v: seq<Five>) {
    && |v| == 51
    && v[0] == 3 && v[1] == 3 && v[2] == 3 && v[3] == 3
  }

  lemma HighPrefixLead(v: seq<Five>, q: Poly)
    requires HighPrefix(v) && Leads(Next, Elements(v), 4, P(3, 3, 3, 3, 1, 0), q)
    ensures Leads(Next, Elements(v), 0, P(1, 0, 0, 0, 0, 0), q)
  {
    var es := Elements(v);
    ValuesFrom0();
    Ahead(Next, es, 3, P(3, 3, 3, 1, 0, 0), Number(3), P(3, 3, 3, 3, 1, 0), q);
    Ahead(Next, es, 2, P(3, 3, 1, 0, 0, 0), Number(3), P(3, 3, 3, 1, 0, 0), q);
    Ahead(Next, es, 1, P(3, 1, 0, 0, 0, 0), Number(3), P(3, 3, 1, 0, 0, 0), q);
    Ahead(Next, es, 0, P(1, 0, 0, 0, 0, 0), Number(3), P(3, 1, 0, 0, 0, 0), q);
  }

  predicate MidPrefix(v: seq<Five>) {
    && |v| == 51
    && v[4] == 3 && v[5] == 3 && v[6] == 0
  }

  lemma MidPrefixLead(v: seq<Five>, q: Poly)
    requires MidPrefix(v) && Leads(Next, Elements(v), 7, P(25, 6, 15, 25, 13, 2), q)
    ensures Leads(Next, Elements(v), 4, P(3, 3, 3, 3, 1, 0), q)
  {
    var es := Elements(v);
    ValuesFrom0();
    Ahead(Next, es, 6, P(17, 30, 22, 23, 21, 30), Number(0), P(25, 6, 15, 25, 13, 2), q);
    Ahead(Next, es, 5, P(3, 3, 3, 3, 3, 1), Number(3), P(17, 30, 22, 23, 21, 30), q);
    Ahead(Next, es, 4, P(3, 3, 3, 3, 1, 0), Number(3), P(3, 3, 3, 3, 3, 1), q);
  }

  predicate LowPrefix(v: seq<Five>) {
    && |v| == 51
    && v[7] == 1 && v[8] == 2 && v[9] == 3 && v[10] == 4 && v[11] == 5 && v[12] == 6
  }

  lemma LowPrefixLead(v: seq<Five>, q: Poly)
    requires LowPrefix(v) && Leads(Next, Elements(v), 13, P(10, 19, 3, 16, 30, 29), q)
    ensures Leads(Next, Elements(v), 7, P(25, 6, 15, 25, 13, 2), q)
  {
    var es := Elements(v);
    ValuesFrom0();
    Ahead(Next, es, 12, P(8, 13, 13, 12, 6, 19), Number(6), P(10, 19, 3, 16, 30, 29), q);
    Ahead(Next, es, 11, P(30, 14, 13, 3, 0, 2), Number(5), P(8, 13, 13, 12, 6, 19), q);
    Ahead(Next, es, 10, P(1, 11, 1, 10, 13, 4), Number(4), P(30, 14, 13, 3, 0, 2), q);
    Ahead(Next, es, 9, P(27, 27, 27, 10, 20, 11), Number(3), P(1, 11, 1, 10, 13, 4), q);
    Ahead(Next, es, 8, P(12, 10, 5, 14, 28, 30), Number(2), P(27, 27, 27, 10, 20, 11), q);
    Ahead(Next, es, 7, P(25, 6, 15, 25, 13, 2), Number(1), P(12, 10, 5, 14, 28, 30), q);
  }

  predicate FirstValues(v: seq<Five>) {
    && |v| == 51
    && v[13] == 0 && v[14] == 1 && v[15] == 2 && v[16] == 3 && v[17] == 4 && v[18] == 5 && v[19] == 6 && v[20] == 7
  }

  lemma FirstValuesLead(v: seq<Five>, q: Poly)
    requires FirstValues(v) && Leads(Next, Elements(v), 21, P(8, 19, 1, 17, 30, 8), q)
    ensures Leads(Next, Elements(v), 13, P(10, 19, 3, 16, 30, 29), q)
  {
    var es := Elements(v);
    ValuesFrom0();
    Ahead(Next, es, 20, P(16, 24, 1, 28, 11, 9), Number(7), P(8, 19, 1, 17, 30, 8), q);
    Ahead(Next, es, 19, P(12, 9, 3, 19, 29, 23), Number(6), P(16, 24, 1, 28, 11, 9), q);
    Ahead(Next, es, 18, P(19, 29, 25, 22, 13, 20), Number(5), P(12, 9, 3, 19, 29, 23), q);
    Ahead(Next, es, 17, P(1, 28, 21, 2, 8, 6), Number(4), P(19, 29, 25, 22, 13, 20), q);
    Ahead(Next, es, 16, P(12, 15, 19, 15, 22, 11), Number(3), P(1, 28, 21, 2, 8, 6), q);
    Ahead(Next, es, 15, P(4, 7, 3, 3, 0, 24), Number(2), P(12, 15, 19, 15, 22, 11), q);
    Ahead(Next, es, 14, P(6, 19, 20, 25, 25, 7), Number(1), P(4, 7, 3, 3, 0, 24), q);
    Ahead(Next, es, 13, P(10, 19, 3, 16, 30, 29), Number(0), P(6, 19, 20, 25, 25, 7), q);
  }

  predicate SecondValues(v: seq<Five>) {
    && |v| == 51
    && v[21] == 8 && v[22] == 9 && v[23] == 10 && v[24] == 11 && v[25] == 12 && v[26] == 13 && v[27] == 14 && v[28] == 15
  }

  lemma SecondValuesLead(v: seq<Five>, q: Poly)
    requires SecondValues(v) && Leads(Next, Elements(v), 29, P(10, 28, 15, 4, 18, 24), q)
    ensures Leads(Next, Elements(v), 21, P(8, 19, 1, 17, 30, 8), q)
  {
    var es := Elements(v);
    ValuesFrom8();
    Ahead(Next, es, 28, P(29, 31, 19, 11, 25, 7), Number(15), P(10, 28, 15, 4, 18, 24), q);
    Ahead(Next, es, 27, P(10, 11, 3, 24, 18, 16), Number(14), P(29, 31, 19, 11, 25, 7), q);
    Ahead(Next, es, 26, P(26, 9, 30, 12, 1, 12), Number(13), P(10, 11, 3, 24, 18, 16), q);
    Ahead(Next, es, 25, P(29, 22, 19, 25, 24, 23), Number(12), P(26, 9, 30, 12, 1, 12), q);
    Ahead(Next, es, 24, P(2, 27, 6, 0, 3, 23), Number(11), P(29, 22, 19, 25, 24, 23), q);
    Ahead(Next, es, 23, P(9, 21, 22, 31, 5, 5), Number(10), P(2, 27, 6, 0, 3, 23), q);
    Ahead(Next, es, 22, P(21, 22, 31, 5, 5, 0), Number(9), P(9, 21, 22, 31, 5, 5), q);
    Ahead(Next, es, 21, P(8, 19, 1, 17, 30, 8), Number(8), P(21, 22, 31, 5, 5, 0), q);
  }

  predicate ThirdValues(v: seq<Five>) {
    && |v| == 51
    && v[29] == 16 && v[30] == 17 && v[31] == 18 && v[32] == 19 && v[33] == 20 && v[34] == 21 && v[35] == 22 && v[36] == 23
  }

  lemma ThirdValuesLead(v: seq<Five>, q: Poly)
    requires ThirdValues(v) && Leads(Next, Elements(v), 37, P(0, 7, 18, 24, 23, 20), q)
    ensures Leads(Next, Elements(v), 29, P(10, 28, 15, 4, 18, 24), q)
  {
    var es := Elements(v);
    ValuesFrom16();
    Ahead(Next, es, 36, P(27, 23, 27, 24, 8, 6), Number(23), P(0, 7, 18, 24, 23, 20), q);
    Ahead(Next, es, 35, P(4, 24, 25, 13, 21, 2), Number(22), P(27, 23, 27, 24, 8, 6), q);
    Ahead(Next, es, 34, P(29, 27, 20, 19, 7, 27), Number(21), P(4, 24, 25, 13, 21, 2), q);
    Ahead(Next, es, 33, P(1, 10, 25, 12, 1, 20), Number(20), P(29, 27, 20, 19, 7, 27), q);
    Ahead(Next, es, 32, P(23, 12, 24, 23, 9, 1), Number(19), P(1, 10, 25, 12, 1, 20), q);
    Ahead(Next, es, 31, P(13, 8, 0, 16, 0, 7), Number(18), P(23, 12, 24, 23, 9, 1), q);
    Ahead(Next, es, 30, P(30, 1, 8, 3, 17, 25), Number(17), P(13, 8, 0, 16, 0, 7), q);
    Ahead(Next, es, 29, P(10, 28, 15, 4, 18, 24), Number(16), P(30, 1, 8, 3, 17, 25), q);
  }

  predicate FourthValues(v: seq<Five>) {
    && |v| == 51
    && v[37] == 24 && v[38] == 25 && v[39] == 26 && v[40] == 27 && v[41] == 28 && v[42] == 29 && v[43] == 30 && v[44] == 31
  }

  lemma FourthValuesLead(v: seq<Five>, q: Poly)
    requires FourthValues(v) && Leads(Next, Elements(v), 45, P(22, 18, 13, 26, 0, 13), q)
    ensures Leads(Next, Elements(v), 37, P(0, 7, 18, 24, 23, 20), q)
  {
    var es := Elements(v);
    ValuesFrom24();
    Ahead(Next, es, 44, P(8, 19, 16, 11, 23, 20), Number(31), P(22, 18, 13, 26, 0, 13), q);
    Ahead(Next, es, 43, P(7, 24, 20, 15, 0, 23), Number(30), P(8, 19, 16, 11, 23, 20), q);
    Ahead(Next, es, 42, P(23, 18, 13, 10, 24, 4), Number(29), P(7, 24, 20, 15, 0, 23), q);
    Ahead(Next, es, 41, P(24, 9, 17, 20, 14, 31), Number(28), P(23, 18, 13, 10, 24, 4), q);
    Ahead(Next, es, 40, P(17, 6, 25, 30, 7, 26), Number(27), P(24, 9, 17, 20, 14, 31), q);
    Ahead(Next, es, 39, P(12, 29, 5, 11, 16, 31), Number(26), P(17, 6, 25, 30, 7, 26), q);
    Ahead(Next, es, 38, P(17, 26, 25, 24, 19, 13), Number(25), P(12, 29, 5, 11, 16, 31), q);
    Ahead(Next, es, 37, P(0, 7, 18, 24, 23, 20), Number(24), P(17, 26, 25, 24, 19, 13), q);
  }

  predicate CheckValues(v: seq<Five>) {
    && |v| == 51
    && v[45] == 27 && v[46] == 0 && v[47] == 0 && v[48] == 0 && v[49] == 6 && v[50] == 14
  }

  lemma CheckValuesLead(v: seq<Five>, q: Poly)
    requires CheckValues(v) && Leads(Next, Elements(v), 51, P(1, 0, 0, 0, 0, 0), q)
    ensures Leads(Next, Elements(v), 45, P(22, 18, 13, 26, 0, 13), q)
  {
    var es := Elements(v);
    ValuesFrom0();
    ValuesFrom8();
    ValuesFrom24();
    Ahead(Next, es, 50, P(3, 25, 16, 2, 3, 9), Number(14), P(1, 0, 0, 0, 0, 0), q);
    Ahead(Next, es, 49, P(24, 0, 21, 26, 8, 7), Number(6), P(3, 25, 16, 2, 3, 9), q);
    Ahead(Next, es, 48, P(31, 9, 9, 5, 24, 15), Number(0), P(24, 0, 21, 26, 8, 7), q);
    Ahead(Next, es, 47, P(7, 31, 16, 11, 1, 3), Number(0), P(31, 9, 9, 5, 24, 15), q);
    Ahead(Next, es, 46, P(14, 26, 13, 31, 18, 12), Number(0), P(7, 31, 16, 11, 1, 3), q);
    Ahead(Next, es, 45, P(22, 18, 13, 26, 0, 13), Number(27), P(14, 26, 13, 31, 18, 12), q);
  }

  lemma VectorLeads(v: seq<Five>)
    requires HighPrefix(v) && MidPrefix(v) && LowPrefix(v)
    requires FirstValues(v) && SecondValues(v) && ThirdValues(v) && FourthValues(v) && CheckValues(v)
    ensures Leads(Next, Elements(v), 0, P(1, 0, 0, 0, 0, 0), P(1, 0, 0, 0, 0, 0))
  {
    CheckValuesLead(v, P(1, 0, 0, 0, 0, 0));
    FourthValuesLead(v, P(1, 0, 0, 0, 0, 0));
    ThirdValuesLead(v, P(1, 0, 0, 0, 0, 0));
    SecondValuesLead(v, P(1, 0, 0, 0, 0, 0));
    FirstValuesLead(v, P(1, 0, 0, 0, 0, 0));
    LowPrefixLead(v, P(1, 0, 0, 0, 0, 0));
    MidPrefixLead(v, P(1, 0, 0, 0, 0, 0));
    HighPrefixLead(v, P(1, 0, 0, 0, 0, 0));
  }

  lemma FoldToOne(v: seq<Five>, p: Poly)
    requires p == AsPoly(One()) && Leads(Next, Elements(v), 0, p, p)
    ensures PolyMod(v) == One()
  {
    assert v[..0] == [];
    RunLeads(v, 0, p);
    IsOne(PolyMod(v));
  }

  lemma PrefixHolds(v: seq<Five>)
    requires v == Expanded(PREFIX) + EVERY_VALUE + CHECK
    ensures HighPrefix(v) && MidPrefix(v) && LowPrefix(v)
  {
  }

  lemma LowValuesHold(v: seq<Five>, front: seq<Five>)
    requires |front| == 13 && v == front + EVERY_VALUE + CHECK
    ensures FirstValues(v) && SecondValues(v)
  {
    assert forall k :: 0 <= k < 16 ==> EVERY_VALUE[k] == k;
  }

  lemma HighValuesHold(v: seq<Five>, front: seq<Five>)
    requires |front| == 13 && v == front + EVERY_VALUE + CHECK
    ensures ThirdValues(v) && FourthValues(v)
  {
    assert forall k :: 16 <= k < 32 ==> EVERY_VALUE[k] == k;
  }

  lemma CheckValuesHold(v: seq<Five>, front: seq<Five>)
    requires |front| == 45 && v == front + CHECK
    ensures CheckValues(v)
  {
  }

  /** The polynomial of the prefix, the values and the checksum is one. */
  lemma VectorVerifies(v: seq<Five>)
    requires v == Expanded(PREFIX) + EVERY_VALUE + CHECK
    ensures PolyMod(v) == One()
  {
    PrefixHolds(v);
    LowValuesHold(v, Expanded(PREFIX));
    HighValuesHold(v, Expanded(PREFIX));
    CheckValuesHold(v, Expanded(PREFIX) + EVERY_VALUE);
    VectorLeads(v);
    assert P(1, 0, 0, 0, 0, 0) == AsPoly(One());
    FoldToOne(v, P(1, 0, 0, 0, 0, 0));
  }

  lemma CharsAppend(v: seq<Five>, w: seq<Five>)
    ensures Chars(v + w) == Chars(v) + Chars(w)
  {
  }

  /** The alphabet. */
  lemma Alphabet()
    ensures Chars(EVERY_VALUE) == "qpzry9x8gf2tvdw0s3jn54khce6mua7l"
  {
  }

  /** The encoding of every value once, as the standard gives it. */
  lemma KnownEncoding()
    ensures Encoded(PREFIX, EVERY_VALUE) == "abcdef1" + "qpzry9x8gf2tvdw0s3jn54khce6mua7l" + "mqqqxw"
  {
    var enc := Expanded(PREFIX) + EVERY_VALUE;
    VectorVerifies(enc + CHECK);
    ChecksumIff(enc, CHECK);
    CharsAppend(EVERY_VALUE, CHECK);
    Alphabet();
    assert Chars(CHECK) == "mqqqxw";
    assert PREFIX + ['1'] == "abcdef1";
  }
}
