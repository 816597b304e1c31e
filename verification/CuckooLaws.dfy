/**
 * What ageing and erasing do in the cuckoo cache (src/cuckoocache.h): which entries are freed, how many stay live over
 * every run, and how long an element that was inserted is kept.
 */
module CuckooLaws {
  import opened Common
  import opened Cuckoo

  // ---------------------------------------------------------------- counting live slots

  /** Live entries among the first n slots of a kind that depends on the element and its epoch. */
  ghost function Weight<E>(s: State<E>, kind: (E, bool) -> bool, n: nat): nat
    requires Shaped(s) && n <= |s.table|
  {
    if n == 0 then 0
    else Weight(s, kind, n - 1) + One(!s.collected[n - 1] && kind(s.table[n - 1], s.epoch[n - 1]))
  }

  ghost function Weigh<E>(s: State<E>, kind: (E, bool) -> bool): nat
    requires Shaped(s)
  {
    Weight(s, kind, |s.table|)
  }

  /** A live entry in slot i of the kind. */
  ghost predicate Counts<E>(s: State<E>, kind: (E, bool) -> bool, i: nat)
    requires Shaped(s) && i < |s.table|
  {
    !s.collected[i] && kind(s.table[i], s.epoch[i])
  }

  lemma {:induction false} WeightWrite<E>(s: State<E>, t: State<E>, kind: (E, bool) -> bool, i: nat, n: nat)
    requires Shaped(s) && Shaped(t) && |t.table| == |s.table| && i < |s.table| && n <= |s.table|
    requires forall j :: 0 <= j < |s.table| && j != i ==>
               t.table[j] == s.table[j] && t.collected[j] == s.collected[j] && t.epoch[j] == s.epoch[j]
    ensures Weight(t, kind, n) == Weight(s, kind, n) + One(i < n && Counts(t, kind, i)) - One(i < n && Counts(s, kind, i))
  {
    if n > 0 {
      WeightWrite(s, t, kind, i, n - 1);
    }
  }

  /**
   * A displacement chain adds its element in hand and takes away nothing but the one that it drops, for every kind of
   * element and epoch: each element takes its epoch along.
   */
  lemma {:induction false} DisplaceWeighs<E>(p: Params<E>, s: State<E>, e: E, lastLoc: int, lastEpoch: bool, depth: nat,
                                             kind: (E, bool) -> bool)
    requires Shaped(s)
    ensures var (t, dropped) := Displace(p, s, e, lastLoc, lastEpoch, depth);
            && Shaped(t)
            && Weigh(t, kind) <= Weigh(s, kind) + One(kind(e, lastEpoch))
            && Weigh(s, kind) + One(kind(e, lastEpoch))
               <= Weigh(t, kind) + One(dropped.Some? && (kind(dropped.value, true) || kind(dropped.value, false)))
    decreases depth
  {
    if depth > 0 {
      var k := FirstFree(p, s, e);
      if k < 8 {
        var loc := Loc(p, |s.table|, e, k);
        WeightWrite(s, WriteSlot(s, loc, e, lastEpoch), kind, loc, |s.table|);
      } else {
        var r := (1 + IndexOf(p, |s.table|, e, lastLoc, 0)) % 8;
        var loc := NextLoc(p, |s.table|, e, lastLoc);
        assert !FreeAt(p, s, e, r);
        WeightWrite(s, Swapped(s, loc, e, lastEpoch), kind, loc, |s.table|);
        DisplaceWeighs(p, Swapped(s, loc, e, lastEpoch), s.table[loc], loc, s.epoch[loc], depth - 1, kind);
      }
    }
  }

  lemma {:induction false} WeightSame<E>(s: State<E>, t: State<E>, kind: (E, bool) -> bool, other: (E, bool) -> bool, n: nat)
    requires Shaped(s) && Shaped(t) && |t.table| == |s.table| && n <= |s.table|
    requires forall i :: 0 <= i < n ==> (Counts(t, other, i) <==> Counts(s, kind, i))
    ensures Weight(t, other, n) == Weight(s, kind, n)
  {
    if n > 0 {
      assert Counts(t, other, n - 1) <==> Counts(s, kind, n - 1);
      WeightSame(s, t, kind, other, n - 1);
    }
  }

  // ---------------------------------------------------------------- ageing

  /** Whether a check finds the current epoch full. */
  predicate Ages<E>(s: State<E>)
    requires Shaped(s)
  {
    s.counter == 0 && EpochCount(s, |s.table|) >= s.epochSize
  }

  /**
   * The check before an insert: when it finds the current epoch full, exactly the live entries of that epoch stay
   * live, and they are old then; otherwise nothing but the counter changes. The next check is not due before the
   * epoch can be full.
   */
  lemma EpochCheckExact<E>(s: State<E>, i: nat)
    requires Shaped(s) && i < |s.table|
    ensures var t := EpochCheck(s);
            && Shaped(t) && t.table == s.table && t.epochSize == s.epochSize && t.depthLimit == s.depthLimit
            && if Ages(s) then
                 && (!t.collected[i] <==> !s.collected[i] && s.epoch[i]) && !t.epoch[i] && t.counter == s.epochSize
               else
                 && t.collected == s.collected && t.epoch == s.epoch
                 && if s.counter > 0 then t.counter == s.counter - 1
                    else t.counter >= 1 && t.counter + EpochCount(s, |s.table|) >= s.epochSize && 16 * t.counter + 15 >= s.epochSize
  {
  }

  function IsOld<E>(): (E, bool) -> bool { (e: E, epoch: bool) => !epoch }
  function IsCurrent<E>(): (E, bool) -> bool { (e: E, epoch: bool) => epoch }
  function IsLive<E>(): (E, bool) -> bool { (e: E, epoch: bool) => true }
  function IsNow<E(==)>(x: E): (E, bool) -> bool { (e: E, epoch: bool) => e == x && epoch }
  function Is<E(==)>(x: E): (E, bool) -> bool { (e: E, epoch: bool) => e == x }

  lemma {:induction false} CurrentIsCount<E>(s: State<E>, n: nat)
    requires Shaped(s) && n <= |s.table|
    ensures Weight(s, IsCurrent<E>(), n) == EpochCount(s, n)
  {
    if n > 0 {
      CurrentIsCount(s, n - 1);
    }
  }

  lemma {:induction false} LiveSplits<E>(s: State<E>, n: nat)
    requires Shaped(s) && n <= |s.table|
    ensures Weight(s, IsLive<E>(), n) == Weight(s, IsCurrent<E>(), n) + Weight(s, IsOld<E>(), n)
  {
    if n > 0 {
      LiveSplits(s, n - 1);
    }
  }

  lemma {:induction false} IsLiveOf<E>(s: State<E>, x: E, n: nat)
    requires Shaped(s) && n <= |s.table|
    ensures Weight(s, Is(x), n) == LiveIn(s.table, s.collected, x, n)
  {
    if n > 0 {
      IsLiveOf(s, x, n - 1);
    }
  }

  // ---------------------------------------------------------------- how many entries are live

  /** The bound of one epoch. */
  function EpochBound<E>(s: State<E>): nat {
    s.epochSize + Max(1, s.epochSize / 16)
  }

  /** The bound on the current epoch holds, and the old one is no larger. */
  ghost predicate TwoEpochs<E>(s: State<E>) {
    Bounded(s) && s.epochSize >= 1 && Weigh(s, IsOld<E>()) <= EpochBound(s)
  }

  lemma AgedOld<E>(s: State<E>)
    requires Shaped(s)
    ensures Weigh(Aged(s), IsOld<E>()) == EpochCount(s, |s.table|)
  {
    WeightSame(s, Aged(s), IsCurrent<E>(), IsOld<E>(), |s.table|);
    CurrentIsCount(s, |s.table|);
  }

  lemma CheckedOld<E>(s: State<E>)
    requires TwoEpochs(s)
    ensures Shaped(EpochCheck(s)) && Weigh(EpochCheck(s), IsOld<E>()) <= EpochBound(s)
  {
    if Ages(s) {
      AgedOld(s);
      WeightSame(Aged(s), EpochCheck(s), IsOld<E>(), IsOld<E>(), |s.table|);
    } else {
      WeightSame(s, EpochCheck(s), IsOld<E>(), IsOld<E>(), |s.table|);
    }
  }

  lemma InsertTwoEpochs<E>(p: Params<E>, s: State<E>, e: E)
    requires Inv(p, s) && TwoEpochs(s)
    ensures TwoEpochs(Insert(p, s, e).0)
  {
    InsertBounded(p, s, e);
    CheckedOld(s);
    var t := EpochCheck(s);
    var k := FirstHolding(p, t, e, 0);
    if k < 8 {
      WeightWrite(t, Insert(p, s, e).0, IsOld<E>(), Loc(p, |t.table|, e, k), |t.table|);
    } else {
      DisplaceWeighs(p, t, e, -1, true, t.depthLimit, IsOld<E>());
    }
  }

  lemma EraseTwoEpochs<E>(p: Params<E>, s: State<E>, e: E)
    requires Inv(p, s) && TwoEpochs(s)
    ensures TwoEpochs(Erase(p, s, e))
  {
    EraseKeeps(p, s, e);
    var k := FirstHolding(p, s, e, 0);
    if k < 8 {
      WeightWrite(s, Erase(p, s, e), IsOld<E>(), Loc(p, |s.table|, e, k), |s.table|);
    }
  }

  lemma {:induction false} RunTwoEpochs<E>(p: Params<E>, s: State<E>, ops: seq<Op<E>>)
    requires Inv(p, s) && TwoEpochs(s)
    ensures Inv(p, Run(p, s, ops)) && TwoEpochs(Run(p, s, ops)) && Run(p, s, ops).epochSize == s.epochSize
    decreases |ops|
  {
    if ops != [] {
      match ops[0] {
        case InsertOp(e) =>
          InsertKeeps(p, s, e);
          InsertBounded(p, s, e);
          InsertTwoEpochs(p, s, e);
          RunTwoEpochs(p, Insert(p, s, e).0, ops[1..]);
        case EraseOp(e) =>
          EraseKeeps(p, s, e);
          EraseTwoEpochs(p, s, e);
          RunTwoEpochs(p, Erase(p, s, e), ops[1..]);
      }
    }
  }

  lemma {:induction false} NoWeight<E>(s: State<E>, kind: (E, bool) -> bool, n: nat)
    requires Shaped(s) && n <= |s.table| && forall i :: 0 <= i < |s.table| ==> !Counts(s, kind, i)
    ensures Weight(s, kind, n) == 0
  {
    if n > 0 {
      assert !Counts(s, kind, n - 1);
      NoWeight(s, kind, n - 1);
    }
  }

  /** Over every run from set-up, no more entries are live than two epochs hold. */
  lemma LiveIsBounded<E>(p: Params<E>, newSize: nat, depthLimit: nat, ops: seq<Op<E>>)
    ensures var s := SetUp(p, newSize, depthLimit);
            var t := Run(p, s, ops);
            Shaped(t) && Weigh(t, IsLive<E>()) <= 2 * (s.epochSize + Max(1, s.epochSize / 16))
  {
    var s := SetUp(p, newSize, depthLimit);
    SetUpGood(p, newSize, depthLimit);
    NoWeight(s, IsOld<E>(), |s.table|);
    RunTwoEpochs(p, s, ops);
    var t := Run(p, s, ops);
    LiveSplits(t, |t.table|);
    CurrentIsCount(t, |t.table|);
  }

  /**
   * A new cache is free throughout; an epoch is 45 hundredths of it, rounded down, exactly if 32 bits hold the product,
   * that is, for up to 95443717 slots.
   */
  lemma SetUpExact<E>(p: Params<E>, newSize: nat, depthLimit: nat)
    ensures var s := SetUp(p, newSize, depthLimit);
            && |s.table| == |s.collected| == |s.epoch| == Max(2, newSize) && s.depthLimit == depthLimit
            && (forall i :: 0 <= i < |s.table| ==> s.table[i] == p.default_ && s.collected[i] && !s.epoch[i])
            && s.counter == s.epochSize >= 1
            && (newSize >= 3 ==> (100 * s.epochSize <= 45 * newSize < 100 * s.epochSize + 100 <==> newSize <= 95443717))
            && (newSize <= 2 ==> s.epochSize == 1)
  {
  }

  /** One slot more, and an epoch is a single entry. */
  lemma SetUpWraps<E>(p: Params<E>, depthLimit: nat)
    ensures SetUp(p, 95443718, depthLimit).epochSize == 1
  {
    assert 45 * 95443718 % 0x1_0000_0000 == 14;
  }

  /** Over every run a cache of 21 slots or more always has a free one. */
  lemma AlwaysRoom<E>(p: Params<E>, newSize: nat, depthLimit: nat, ops: seq<Op<E>>)
    requires 21 <= newSize <= 95443717
    ensures var t := Run(p, SetUp(p, newSize, depthLimit), ops);
            Shaped(t) && Weigh(t, IsLive<E>()) < newSize
  {
    LiveIsBounded(p, newSize, depthLimit, ops);
    SetUpExact(p, newSize, depthLimit);
  }

  // ---------------------------------------------------------------- how long an element is kept

  lemma CheckedKinds<E>(s: State<E>, x: E)
    requires Shaped(s)
    ensures var t := EpochCheck(s);
            && Shaped(t)
            && (Ages(s) ==> Weigh(t, Is(x)) == Weigh(s, IsNow(x)))
            && (!Ages(s) ==> Weigh(t, Is(x)) == Weigh(s, Is(x)) && Weigh(t, IsNow(x)) == Weigh(s, IsNow(x)))
  {
    var t := EpochCheck(s);
    forall i | 0 <= i < |s.table|
      ensures Ages(s) ==> (Counts(t, Is(x), i) <==> Counts(s, IsNow(x), i))
      ensures !Ages(s) ==> (Counts(t, Is(x), i) <==> Counts(s, Is(x), i)) && (Counts(t, IsNow(x), i) <==> Counts(s, IsNow(x), i))
    {
      EpochCheckExact(s, i);
    }
    if Ages(s) {
      WeightSame(s, t, IsNow(x), Is(x), |s.table|);
    } else {
      WeightSame(s, t, Is(x), Is(x), |s.table|);
      WeightSame(s, t, IsNow(x), IsNow(x), |s.table|);
    }
  }

  /** An insert puts its element into the current epoch, and takes no other element out of its epoch, unless it drops it. */
  lemma InsertKinds<E>(p: Params<E>, s: State<E>, e: E, x: E)
    requires Inv(p, s) && Insert(p, s, e).1 != Some(x)
    ensures var t, checked := Insert(p, s, e).0, EpochCheck(s);
            && Shaped(t) && Shaped(checked)
            && (e == x ==> Weigh(t, IsNow(x)) > 0)
            && Weigh(t, Is(x)) >= Weigh(checked, Is(x)) && Weigh(t, IsNow(x)) >= Weigh(checked, IsNow(x))
  {
    EpochCheckKeeps(p, s);
    var t := EpochCheck(s);
    var k := FirstHolding(p, t, e, 0);
    if k < 8 {
      var loc := Loc(p, |t.table|, e, k);
      WeightWrite(t, Insert(p, s, e).0, Is(x), loc, |t.table|);
      WeightWrite(t, Insert(p, s, e).0, IsNow(x), loc, |t.table|);
      if e == x {
        WeightAt(Insert(p, s, e).0, IsNow(x), loc, |t.table|);
      }
    } else {
      DisplaceWeighs(p, t, e, -1, true, t.depthLimit, Is(x));
      DisplaceWeighs(p, t, e, -1, true, t.depthLimit, IsNow(x));
    }
  }

  lemma {:induction false} WeightAt<E>(s: State<E>, kind: (E, bool) -> bool, i: nat, n: nat)
    requires Shaped(s) && i < n <= |s.table| && Counts(s, kind, i)
    ensures Weight(s, kind, n) > 0
  {
    if i < n - 1 {
      WeightAt(s, kind, i, n - 1);
    }
  }

  lemma {:induction false} WeightWhere<E>(s: State<E>, kind: (E, bool) -> bool, n: nat) returns (i: nat)
    requires Shaped(s) && n <= |s.table| && Weight(s, kind, n) > 0
    ensures i < n && Counts(s, kind, i)
  {
    if Counts(s, kind, n - 1) {
      i := n - 1;
    } else {
      i := WeightWhere(s, kind, n - 1);
    }
  }

  /** Erasing leaves every other element as it was. */
  lemma EraseOthers<E>(p: Params<E>, s: State<E>, e: E, x: E)
    requires Shaped(s) && x != e
    ensures var t := Erase(p, s, e);
            Shaped(t) && Weigh(t, Is(x)) == Weigh(s, Is(x)) && Weigh(t, IsNow(x)) == Weigh(s, IsNow(x))
  {
    var k := FirstHolding(p, s, e, 0);
    if k < 8 {
      WeightWrite(s, Erase(p, s, e), Is(x), Loc(p, |s.table|, e, k), |s.table|);
      WeightWrite(s, Erase(p, s, e), IsNow(x), Loc(p, |s.table|, e, k), |s.table|);
    }
  }

  /** It frees the slot of its own: the element is not live any more, and stays in the table until it is overwritten. */
  lemma EraseExact<E>(p: Params<E>, s: State<E>, e: E)
    requires Inv(p, s) && e != p.default_
    ensures var t := Erase(p, s, e);
            Shaped(t) && t.table == s.table && t.epoch == s.epoch && Weigh(t, Is(e)) == 0
  {
    var t := Erase(p, s, e);
    forall i | 0 <= i < |s.table|
      ensures !Counts(t, Is(e), i)
    {
      if s.table[i] == e {
        HoldingFound(p, s, e, i);
      }
    }
    NoWeight(t, Is(e), |t.table|);
  }

  lemma HoldingFound<E>(p: Params<E>, s: State<E>, e: E, i: nat)
    requires Shaped(s) && i < |s.table| && s.table[i] == e && IsLoc(p, |s.table|, e, i)
    ensures FirstHolding(p, s, e, 0) < 8
  {
    var k :| 0 <= k < 8 && Loc(p, |s.table|, e, k) == i;
    assert s.table[Loc(p, |s.table|, e, k)] == e;
  }

  /** No operation of a run erases x or drops it. */
  ghost predicate Spares<E>(p: Params<E>, s: State<E>, ops: seq<Op<E>>, x: E)
    requires Shaped(s)
    decreases |ops|
  {
    ops == [] ||
    match ops[0]
    case InsertOp(e) =>
      var (t, dropped) := Insert(p, s, e);
      dropped != Some(x) && Shaped(t) && Spares(p, t, ops[1..], x)
    case EraseOp(e) => e != x && Shaped(Erase(p, s, e)) && Spares(p, Erase(p, s, e), ops[1..], x)
  }

  /** How many inserts of a run find the current epoch full. */
  ghost function Ageings<E>(p: Params<E>, s: State<E>, ops: seq<Op<E>>): nat
    requires Shaped(s)
    decreases |ops|
  {
    if ops == [] then 0
    else
      match ops[0]
      case InsertOp(e) =>
        var t := Insert(p, s, e).0;
        One(Ages(s)) + if Shaped(t) then Ageings(p, t, ops[1..]) else 0
      case EraseOp(e) => if Shaped(Erase(p, s, e)) then Ageings(p, Erase(p, s, e), ops[1..]) else 0
  }

  lemma {:induction false} KeptThroughRun<E>(p: Params<E>, s: State<E>, ops: seq<Op<E>>, x: E)
    requires Inv(p, s) && Spares(p, s, ops, x)
    requires if Ageings(p, s, ops) == 0 then Weigh(s, Is(x)) > 0 else Ageings(p, s, ops) == 1 && Weigh(s, IsNow(x)) > 0
    ensures Inv(p, Run(p, s, ops)) && Weigh(Run(p, s, ops), Is(x)) > 0
    decreases |ops|
  {
    if ops != [] {
      match ops[0] {
        case InsertOp(e) =>
          InsertKeeps(p, s, e);
          CheckedKinds(s, x);
          InsertKinds(p, s, e, x);
          KeptThroughRun(p, Insert(p, s, e).0, ops[1..], x);
        case EraseOp(e) =>
          EraseKeeps(p, s, e);
          EraseOthers(p, s, e, x);
          KeptThroughRun(p, Erase(p, s, e), ops[1..], x);
      }
    }
  }

  lemma NowIsLive<E>(s: State<E>, x: E)
    requires Shaped(s) && Weigh(s, IsNow(x)) > 0
    ensures Weigh(s, Is(x)) > 0
  {
    var i := WeightWhere(s, IsNow(x), |s.table|);
    WeightAt(s, Is(x), i, |s.table|);
  }

  /**
   * An element that is inserted and not dropped is found after every run that neither erases nor drops it and in which
   * the entries age at most once.
   */
  lemma InsertedIsKept<E>(p: Params<E>, s: State<E>, x: E, ops: seq<Op<E>>)
    requires Inv(p, s) && Insert(p, s, x).1 != Some(x)
    ensures Shaped(Insert(p, s, x).0)
    ensures var t := Insert(p, s, x).0;
            Spares(p, t, ops, x) && Ageings(p, t, ops) <= 1 ==> Shaped(Run(p, t, ops)) && Contains(p, Run(p, t, ops), x)
  {
    InsertKeeps(p, s, x);
    InsertKinds(p, s, x, x);
    var t := Insert(p, s, x).0;
    NowIsLive(t, x);
    if Spares(p, t, ops, x) && Ageings(p, t, ops) <= 1 {
      KeptThroughRun(p, t, ops, x);
      var u := Run(p, t, ops);
      IsLiveOf(u, x, |u.table|);
      ContainsIsExact(p, u, x);
    }
  }
}
