/**
 * The cuckoo cache (src/cuckoocache.h) on values: displacement chains over eight hash locations,
 * lazy erasure and ageing by epochs. The class in CuckooTable.dfy is proved against it.
 */
module Cuckoo {
  import opened Common
  import opened FastRange

  /** How elements of type E map to locations in a table of a given size, and the default element. */
  datatype Params<!E> = Params(location: (nat, int, E) -> nat, default_: E)

  /** The parameters that compute_hashes makes of eight 32-bit hash functions. */
  function ComputeHashes<E>(hash: (int, E) -> Hash, default_: E): Params<E> {
    Params((size: nat, k: int, e: E) => FastRange32(hash(k, e), size), default_)
  }

  /** `epoch` marks recently inserted slots, `collected` marks slots that may be overwritten. */
  datatype State<E> = State(
    table: seq<E>, collected: seq<bool>, epoch: seq<bool>,
    counter: nat, epochSize: nat, depthLimit: nat)

  /** One of the eight locations of an element; those of compute_hashes are always in range. */
  function Loc<E>(p: Params<E>, size: nat, e: E, k: int): (i: nat)
    ensures size > 0 ==> i < size
  {
    if p.location(size, k, e) < size then p.location(size, k, e) else 0
  }

  lemma ComputedInRange<E>(hash: (int, E) -> Hash, default_: E, size: nat, e: E, k: int)
    requires size > 0
    ensures Loc(ComputeHashes(hash, default_), size, e, k) == FastRange32(hash(k, e), size) < size
  {
    FastRangeBelow(hash(k, e), size);
  }

  predicate Shaped<E>(s: State<E>) {
    |s.table| == |s.collected| == |s.epoch| && |s.table| > 0
  }

  /** The first of the locations from k on that holds the element, or 8. */
  function FirstHolding<E(==)>(p: Params<E>, s: State<E>, e: E, k: nat): (r: nat)
    requires Shaped(s) && k <= 8
    ensures k <= r <= 8
    ensures r < 8 ==> s.table[Loc(p, |s.table|, e, r)] == e
    ensures forall j :: k <= j < r ==> s.table[Loc(p, |s.table|, e, j)] != e
    decreases 8 - k
  {
    if k == 8 then 8
    else if s.table[Loc(p, |s.table|, e, k)] == e then k
    else FirstHolding(p, s, e, k + 1)
  }

  predicate FreeAt<E>(p: Params<E>, s: State<E>, e: E, k: int)
    requires Shaped(s)
  {
    s.collected[Loc(p, |s.table|, e, k)]
  }

  ghost predicate IsFirstFree<E>(p: Params<E>, s: State<E>, e: E, k: nat)
    requires Shaped(s)
  {
    k < 8 && FreeAt(p, s, e, k) && forall j :: 0 <= j < k ==> !FreeAt(p, s, e, j)
  }

  lemma {:induction false} FirstFreeExists<E>(p: Params<E>, s: State<E>, e: E, k: nat)
    requires Shaped(s) && k < 8 && FreeAt(p, s, e, k)
    ensures exists j: nat :: IsFirstFree(p, s, e, j)
  {
    if j: nat :| j < k && FreeAt(p, s, e, j) {
      FirstFreeExists(p, s, e, j);
    } else {
      assert IsFirstFree(p, s, e, k);
    }
  }

  /** The first of an element's locations that may be overwritten, or 8. */
  ghost function FirstFree<E>(p: Params<E>, s: State<E>, e: E): (r: nat)
    requires Shaped(s)
    ensures r <= 8 && (r < 8 ==> FreeAt(p, s, e, r)) && forall j :: 0 <= j < r ==> !FreeAt(p, s, e, j)
  {
    if k: nat :| k < 8 && FreeAt(p, s, e, k) then
      FirstFreeExists(p, s, e, k);
      var j: nat :| IsFirstFree(p, s, e, j); j
    else 8
  }

  /** The index of a location among an element's eight, or 8. */
  function IndexOf<E>(p: Params<E>, size: nat, e: E, loc: int, k: nat): (r: nat)
    requires k <= 8
    ensures k <= r <= 8
    ensures r < 8 ==> Loc(p, size, e, r) == loc
    decreases 8 - k
  {
    if k == 8 then 8 else if Loc(p, size, e, k) == loc then k else IndexOf(p, size, e, loc, k + 1)
  }

  /** The location that the element in hand is swapped into, given the last one used (-1 at first). */
  function NextLoc<E>(p: Params<E>, size: nat, e: E, lastLoc: int): nat {
    Loc(p, size, e, (1 + IndexOf(p, size, e, lastLoc, 0)) % 8)
  }

  function WriteSlot<E>(s: State<E>, i: nat, e: E, epoch: bool): State<E>
    requires Shaped(s) && i < |s.table|
  {
    s.(table := s.table[i := e], collected := s.collected[i := false], epoch := s.epoch[i := epoch])
  }

  /** The element in hand takes a live slot, whose element and epoch come into hand. */
  function Swapped<E>(s: State<E>, i: nat, e: E, epoch: bool): State<E>
    requires Shaped(s) && i < |s.table|
  {
    s.(table := s.table[i := e], epoch := s.epoch[i := epoch])
  }

  /** The displacement loop: the state afterwards and the element dropped at the end, if any. */
  ghost function Displace<E>(p: Params<E>, s: State<E>, e: E, lastLoc: int, lastEpoch: bool, depth: nat): (State<E>, Option<E>)
    requires Shaped(s)
    decreases depth
  {
    if depth == 0 then (s, Some(e))
    else
      var k := FirstFree(p, s, e);
      if k < 8 then (WriteSlot(s, Loc(p, |s.table|, e, k), e, lastEpoch), None)
      else
        var loc := NextLoc(p, |s.table|, e, lastLoc);
        Displace(p, Swapped(s, loc, e, lastEpoch), s.table[loc], loc, s.epoch[loc], depth - 1)
  }

  /** Live entries of the current epoch among the first n slots. */
  function EpochCount<E>(s: State<E>, n: nat): nat
    requires Shaped(s) && n <= |s.table|
  {
    if n == 0 then 0
    else EpochCount(s, n - 1) + (if s.epoch[n - 1] && !s.collected[n - 1] then 1 else 0)
  }

  /** All entries grow older: the old epoch may be overwritten, the current one becomes old. */
  function Aged<E>(s: State<E>): State<E>
    requires Shaped(s)
  {
    s.(collected := seq(|s.table|, i requires 0 <= i < |s.table| => s.collected[i] || !s.epoch[i]),
       epoch := seq(|s.table|, i => false))
  }

  function EpochCheck<E>(s: State<E>): State<E>
    requires Shaped(s)
  {
    if s.counter != 0 then s.(counter := s.counter - 1)
    else
      var count := EpochCount(s, |s.table|);
      if count >= s.epochSize then Aged(s).(counter := s.epochSize)
      else s.(counter := Max(1, Max(s.epochSize / 16, s.epochSize - count)))
  }

  ghost function Insert<E>(p: Params<E>, s: State<E>, e: E): (State<E>, Option<E>)
    requires Shaped(s)
  {
    var t := EpochCheck(s);
    var k := FirstHolding(p, t, e, 0);
    if k < 8 then
      var loc := Loc(p, |t.table|, e, k);
      (t.(collected := t.collected[loc := false], epoch := t.epoch[loc := true]), None)
    else Displace(p, t, e, -1, true, t.depthLimit)
  }

  predicate Contains<E(==)>(p: Params<E>, s: State<E>, e: E)
    requires Shaped(s)
  {
    FirstHolding(p, s, e, 0) < 8
  }

  /** contains with erase: the slot found may be overwritten from now on. */
  function Erase<E(==)>(p: Params<E>, s: State<E>, e: E): State<E>
    requires Shaped(s)
  {
    var k := FirstHolding(p, s, e, 0);
    if k < 8 then s.(collected := s.collected[Loc(p, |s.table|, e, k) := true]) else s
  }

  // ---------------------------------------------------------------- invariant

  ghost predicate IsLoc<E>(p: Params<E>, size: nat, e: E, i: int) {
    exists k :: 0 <= k < 8 && Loc(p, size, e, k) == i
  }

  /** Live entries, and all entries that are not default, sit at one of their eight locations. */
  ghost predicate AtHome<E>(p: Params<E>, s: State<E>)
    requires Shaped(s)
  {
    forall i :: 0 <= i < |s.table| && (!s.collected[i] || s.table[i] != p.default_) ==> IsLoc(p, |s.table|, s.table[i], i)
  }

  /** No element other than the default one is in two slots. */
  ghost predicate NoTwins<E>(p: Params<E>, s: State<E>)
    requires Shaped(s)
  {
    forall i, j :: 0 <= i < j < |s.table| && s.table[i] == s.table[j] ==> s.table[i] == p.default_
  }

  ghost predicate Inv<E>(p: Params<E>, s: State<E>) {
    Shaped(s) && AtHome(p, s) && NoTwins(p, s)
  }

  function One(b: bool): nat { if b then 1 else 0 }

  /** How many of the first n slots hold x and are live. */
  ghost function LiveIn<E>(table: seq<E>, collected: seq<bool>, x: E, n: nat): nat
    requires n <= |table| == |collected|
  {
    if n == 0 then 0 else LiveIn(table, collected, x, n - 1) + One(!collected[n - 1] && table[n - 1] == x)
  }

  /** The number of live slots that hold x. */
  ghost function Live<E>(s: State<E>, x: E): nat
    requires Shaped(s)
  {
    LiveIn(s.table, s.collected, x, |s.table|)
  }

  // ---------------------------------------------------------------- one slot changes

  /** Rewriting one slot exchanges what it held for what it holds now. */
  lemma {:induction false} LiveWrite<E>(table: seq<E>, collected: seq<bool>, i: nat, e: E, x: E, n: nat)
    requires i < |table| == |collected| && n <= |table|
    ensures LiveIn(table[i := e], collected[i := false], x, n)
            == LiveIn(table, collected, x, n) + One(i < n && e == x) - One(i < n && !collected[i] && table[i] == x)
  {
    if n > 0 {
      LiveWrite(table, collected, i, e, x, n - 1);
    }
  }

  /** Rewriting one slot's epoch and flags changes the epoch count by that slot's share. */
  lemma {:induction false} CountWrite<E>(s: State<E>, t: State<E>, i: nat, n: nat)
    requires Shaped(s) && Shaped(t) && |s.table| == |t.table| && i < |s.table| && n <= |s.table|
    requires forall j :: 0 <= j < |s.table| && j != i ==> t.collected[j] == s.collected[j] && t.epoch[j] == s.epoch[j]
    ensures EpochCount(t, n) == EpochCount(s, n)
            + (if i < n && t.epoch[i] && !t.collected[i] then 1 else 0)
            - (if i < n && s.epoch[i] && !s.collected[i] then 1 else 0)
  {
    if n > 0 {
      CountWrite(s, t, i, n - 1);
    }
  }

  lemma {:induction false} LiveContains<E>(table: seq<E>, collected: seq<bool>, i: nat, n: nat)
    requires i < n <= |table| == |collected| && !collected[i]
    ensures LiveIn(table, collected, table[i], n) > 0
  {
    if i < n - 1 {
      LiveContains(table, collected, i, n - 1);
    }
  }

  lemma {:induction false} LiveWhere<E>(table: seq<E>, collected: seq<bool>, x: E, n: nat) returns (i: nat)
    requires n <= |table| == |collected| && LiveIn(table, collected, x, n) > 0
    ensures i < n && !collected[i] && table[i] == x
  {
    if !collected[n - 1] && table[n - 1] == x {
      i := n - 1;
    } else {
      i := LiveWhere(table, collected, x, n - 1);
    }
  }

  // ---------------------------------------------------------------- displacement chains

  /** What holds while an element is in hand: it is nowhere in the table, unless it is the default. */
  ghost predicate InHand<E>(p: Params<E>, s: State<E>, e: E)
    requires Shaped(s)
  {
    e != p.default_ ==> forall i :: 0 <= i < |s.table| ==> s.table[i] != e
  }

  lemma SwapKeeps<E>(p: Params<E>, s: State<E>, e: E, loc: nat, lastEpoch: bool)
    requires Inv(p, s) && InHand(p, s, e) && loc < |s.table| && IsLoc(p, |s.table|, e, loc)
    ensures var t := Swapped(s, loc, e, lastEpoch);
            Inv(p, t) && InHand(p, t, s.table[loc])
  {
    var t := Swapped(s, loc, e, lastEpoch);
    assert forall i :: 0 <= i < |s.table| && i != loc ==> t.table[i] == s.table[i];
  }

  lemma PlaceKeeps<E>(p: Params<E>, s: State<E>, e: E, loc: nat, lastEpoch: bool)
    requires Inv(p, s) && InHand(p, s, e) && loc < |s.table| && IsLoc(p, |s.table|, e, loc)
    ensures Inv(p, WriteSlot(s, loc, e, lastEpoch))
  {
    var t := WriteSlot(s, loc, e, lastEpoch);
    assert forall i :: 0 <= i < |s.table| && i != loc ==> t.table[i] == s.table[i] && t.collected[i] == s.collected[i];
  }

  /** What one swap of a chain does to the live elements and to the current epoch. */
  lemma SwapCounts<E>(s: State<E>, e: E, loc: nat, lastEpoch: bool, x: E)
    requires Shaped(s) && loc < |s.table| && !s.collected[loc]
    ensures var t := Swapped(s, loc, e, lastEpoch);
            && Live(t, x) == Live(s, x) + One(e == x) - One(s.table[loc] == x)
            && EpochCount(t, |t.table|) == EpochCount(s, |s.table|) + One(lastEpoch) - One(s.epoch[loc])
  {
    assert s.collected == s.collected[loc := false];
    LiveWrite(s.table, s.collected, loc, e, x, |s.table|);
    CountWrite(s, Swapped(s, loc, e, lastEpoch), loc, |s.table|);
  }

  /** What the last write of a chain does to them. */
  lemma PlaceCounts<E>(s: State<E>, e: E, loc: nat, lastEpoch: bool, x: E)
    requires Shaped(s) && loc < |s.table| && s.collected[loc]
    ensures var t := WriteSlot(s, loc, e, lastEpoch);
            && Live(t, x) == Live(s, x) + One(e == x)
            && EpochCount(t, |t.table|) == EpochCount(s, |s.table|) + One(lastEpoch)
  {
    LiveWrite(s.table, s.collected, loc, e, x, |s.table|);
    CountWrite(s, WriteSlot(s, loc, e, lastEpoch), loc, |s.table|);
  }

  /** Every displacement chain, of any length, keeps the invariant. */
  lemma {:induction false} DisplaceKeeps<E>(p: Params<E>, s: State<E>, e: E, lastLoc: int, lastEpoch: bool, depth: nat)
    requires Inv(p, s) && InHand(p, s, e)
    ensures Inv(p, Displace(p, s, e, lastLoc, lastEpoch, depth).0)
    decreases depth
  {
    if depth > 0 {
      var k := FirstFree(p, s, e);
      var size := |s.table|;
      if k < 8 {
        var loc := Loc(p, size, e, k);
        assert IsLoc(p, size, e, loc);
        PlaceKeeps(p, s, e, loc, lastEpoch);
      } else {
        var r := (1 + IndexOf(p, size, e, lastLoc, 0)) % 8;
        var loc := NextLoc(p, size, e, lastLoc);
        assert loc == Loc(p, size, e, r) && IsLoc(p, size, e, loc);
        SwapKeeps(p, s, e, loc, lastEpoch);
        DisplaceKeeps(p, Swapped(s, loc, e, lastEpoch), s.table[loc], loc, s.epoch[loc], depth - 1);
      }
    }
  }

  /**
   * Every displacement chain, of any length, loses no element but the one that it drops, and adds
   * at most one live entry to the current epoch.
   */
  lemma {:induction false} DisplaceCounts<E>(p: Params<E>, s: State<E>, e: E, lastLoc: int, lastEpoch: bool, depth: nat, x: E)
    requires Shaped(s)
    ensures var (t, dropped) := Displace(p, s, e, lastLoc, lastEpoch, depth);
            && Shaped(t) && |t.table| == |s.table| && t.counter == s.counter && t.epochSize == s.epochSize
            && Live(t, x) + One(dropped == Some(x)) == Live(s, x) + One(e == x)
            && EpochCount(t, |t.table|) <= EpochCount(s, |s.table|) + One(lastEpoch)
    decreases depth
  {
    if depth > 0 {
      var k := FirstFree(p, s, e);
      if k < 8 {
        PlaceCounts(s, e, Loc(p, |s.table|, e, k), lastEpoch, x);
      } else {
        var r := (1 + IndexOf(p, |s.table|, e, lastLoc, 0)) % 8;
        var loc := NextLoc(p, |s.table|, e, lastLoc);
        assert !FreeAt(p, s, e, r);
        SwapCounts(s, e, loc, lastEpoch, x);
        DisplaceCounts(p, Swapped(s, loc, e, lastEpoch), s.table[loc], loc, s.epoch[loc], depth - 1, x);
      }
    }
  }

  // ---------------------------------------------------------------- ageing

  /** Ageing only marks slots, so it keeps the invariant; it empties the current epoch. */
  lemma AgedKeeps<E>(p: Params<E>, s: State<E>)
    requires Inv(p, s)
    ensures Inv(p, Aged(s)) && EpochCount(Aged(s), |s.table|) == 0
  {
    AgedCount(s, |s.table|);
  }

  lemma {:induction false} AgedCount<E>(s: State<E>, n: nat)
    requires Shaped(s) && n <= |s.table|
    ensures EpochCount(Aged(s), n) == 0
  {
    if n > 0 {
      AgedCount(s, n - 1);
    }
  }

  lemma {:induction false} CountSame<E>(s: State<E>, t: State<E>, n: nat)
    requires Shaped(s) && Shaped(t) && |s.table| == |t.table| && n <= |s.table|
    requires s.collected == t.collected && s.epoch == t.epoch
    ensures EpochCount(s, n) == EpochCount(t, n)
  {
    if n > 0 {
      CountSame(s, t, n - 1);
    }
  }

  /** The bound on the current epoch: its live entries and the counter together. */
  ghost predicate Bounded<E>(s: State<E>) {
    Shaped(s) && EpochCount(s, |s.table|) + s.counter <= s.epochSize + Max(1, s.epochSize / 16)
  }

  lemma EpochCheckKeeps<E>(p: Params<E>, s: State<E>)
    requires Inv(p, s)
    ensures Inv(p, EpochCheck(s)) && EpochCheck(s).table == s.table && EpochCheck(s).epochSize == s.epochSize
  {
    AgedKeeps(p, s);
  }

  /** After the check, one more entry still fits under the bound. */
  lemma EpochCheckBounds<E>(s: State<E>)
    requires Bounded(s) && s.epochSize >= 1
    ensures var t := EpochCheck(s);
            && Shaped(t) && |t.table| == |s.table|
            && EpochCount(t, |t.table|) + t.counter + 1 <= s.epochSize + Max(1, s.epochSize / 16)
  {
    AgedCount(s, |s.table|);
    CountSame(s, EpochCheck(s).(collected := s.collected, epoch := s.epoch), |s.table|);
    CountSame(Aged(s), Aged(s).(counter := s.epochSize), |s.table|);
  }

  // ---------------------------------------------------------------- the operations

  lemma KeepKeeps<E>(p: Params<E>, s: State<E>, e: E, k: nat)
    requires Inv(p, s) && k < 8 && s.table[Loc(p, |s.table|, e, k)] == e
    ensures var loc := Loc(p, |s.table|, e, k);
            Inv(p, s.(collected := s.collected[loc := false], epoch := s.epoch[loc := true]))
  {
    var loc := Loc(p, |s.table|, e, k);
    assert IsLoc(p, |s.table|, e, loc);
  }

  lemma NotHolding<E>(p: Params<E>, s: State<E>, e: E, i: nat)
    requires Shaped(s) && i < |s.table| && FirstHolding(p, s, e, 0) == 8 && IsLoc(p, |s.table|, e, i)
    ensures s.table[i] != e
  {
    var k :| 0 <= k < 8 && Loc(p, |s.table|, e, k) == i;
    assert s.table[Loc(p, |s.table|, e, k)] != e;
  }

  lemma AbsentInHand<E>(p: Params<E>, s: State<E>, e: E)
    requires Inv(p, s) && FirstHolding(p, s, e, 0) == 8
    ensures InHand(p, s, e)
  {
    forall i | 0 <= i < |s.table| && e != p.default_
      ensures s.table[i] != e
    {
      if IsLoc(p, |s.table|, e, i) {
        NotHolding(p, s, e, i);
      }
    }
  }

  /** Every insert keeps every live or non-default element at home and in one slot only. */
  lemma InsertKeeps<E>(p: Params<E>, s: State<E>, e: E)
    requires Inv(p, s)
    ensures Inv(p, Insert(p, s, e).0)
  {
    EpochCheckKeeps(p, s);
    var t := EpochCheck(s);
    var k := FirstHolding(p, t, e, 0);
    if k < 8 {
      KeepKeeps(p, t, e, k);
    } else {
      AbsentInHand(p, t, e);
      DisplaceKeeps(p, t, e, -1, true, t.depthLimit);
    }
  }

  /** The first of an element's locations that holds it is live. */
  predicate FoundLive<E(==)>(p: Params<E>, s: State<E>, e: E)
    requires Shaped(s)
  {
    var k := FirstHolding(p, s, e, 0);
    k < 8 && !s.collected[Loc(p, |s.table|, e, k)]
  }

  /**
   * Every insert adds the element to the live ones that ageing left, unless it is found live, and loses at
   * most one element in all: nothing but the one dropped.
   */
  lemma InsertConserves<E>(p: Params<E>, s: State<E>, e: E, x: E)
    requires Inv(p, s)
    ensures var (t, dropped) := Insert(p, s, e);
            var aged := EpochCheck(s);
            && Shaped(t) && Shaped(aged)
            && Live(t, x) + One(dropped == Some(x))
               == Live(aged, x) + One(e == x && !FoundLive(p, aged, e))
            && (dropped.None? ==> Live(t, e) > 0)
  {
    EpochCheckKeeps(p, s);
    var t := EpochCheck(s);
    var k := FirstHolding(p, t, e, 0);
    if k < 8 {
      var loc := Loc(p, |t.table|, e, k);
      assert t.table[loc := e] == t.table;
      LiveWrite(t.table, t.collected, loc, e, x, |t.table|);
      LiveWrite(t.table, t.collected, loc, e, e, |t.table|);
      LiveContains(t.table, t.collected[loc := false], loc, |t.table|);
    } else {
      DisplaceCounts(p, t, e, -1, true, t.depthLimit, x);
      DisplaceCounts(p, t, e, -1, true, t.depthLimit, e);
    }
  }

  /** Contains finds every live element, and every element other than the default that is in the table. */
  lemma ContainsIsExact<E>(p: Params<E>, s: State<E>, e: E)
    requires Inv(p, s)
    ensures Live(s, e) > 0 ==> Contains(p, s, e)
    ensures e != p.default_ ==> (Contains(p, s, e) <==> e in s.table)
  {
    if Live(s, e) > 0 {
      var i := LiveWhere(s.table, s.collected, e, |s.table|);
      var k :| 0 <= k < 8 && Loc(p, |s.table|, e, k) == i;
      assert s.table[Loc(p, |s.table|, e, k)] == e;
    }
    if e != p.default_ && e in s.table {
      var i :| 0 <= i < |s.table| && s.table[i] == e;
      var k :| 0 <= k < 8 && Loc(p, |s.table|, e, k) == i;
      assert s.table[Loc(p, |s.table|, e, k)] == e;
    }
  }

  /** After an insert, the new element and everything that was live are found, all but the one dropped. */
  lemma InsertThenContains<E>(p: Params<E>, s: State<E>, e: E, x: E)
    requires Inv(p, s)
    ensures var (t, dropped) := Insert(p, s, e);
            && Shaped(t) && Shaped(EpochCheck(s))
            && (x == e || Live(EpochCheck(s), x) > 0 ==> dropped == Some(x) || Contains(p, t, x))
  {
    InsertKeeps(p, s, e);
    InsertConserves(p, s, e, x);
    ContainsIsExact(p, Insert(p, s, e).0, x);
  }

  /** One of the element's eight slots may be overwritten or holds it already. */
  ghost predicate HasRoom<E>(p: Params<E>, s: State<E>, e: E)
    requires Shaped(s)
  {
    exists k :: 0 <= k < 8 && (FreeAt(p, s, e, k) || s.table[Loc(p, |s.table|, e, k)] == e)
  }

  /** With room for it after the epoch check, the new element is found, and everything that was live still is. */
  lemma RoomSuffices<E>(p: Params<E>, s: State<E>, e: E, x: E)
    requires Inv(p, s) && s.depthLimit >= 1 && HasRoom(p, EpochCheck(s), e)
    ensures Insert(p, s, e).1.None? && Shaped(Insert(p, s, e).0)
    ensures x == e || Live(EpochCheck(s), x) > 0 ==> Contains(p, Insert(p, s, e).0, x)
  {
    EpochCheckKeeps(p, s);
    var t := EpochCheck(s);
    var k :| 0 <= k < 8 && (FreeAt(p, t, e, k) || t.table[Loc(p, |t.table|, e, k)] == e);
    if FirstHolding(p, t, e, 0) == 8 {
      assert t.table[Loc(p, |t.table|, e, k)] != e;
      assert FirstFree(p, t, e) < 8;
    }
    InsertThenContains(p, s, e, x);
  }

  lemma EraseKeeps<E>(p: Params<E>, s: State<E>, e: E)
    requires Inv(p, s)
    ensures Inv(p, Erase(p, s, e))
    ensures Bounded(s) ==> Bounded(Erase(p, s, e))
    ensures Contains(p, s, e) ==> Contains(p, Erase(p, s, e), e)
  {
    var k := FirstHolding(p, s, e, 0);
    if k < 8 {
      var loc := Loc(p, |s.table|, e, k);
      CountWrite(s, Erase(p, s, e), loc, |s.table|);
      assert Erase(p, s, e).table[loc] == e;
    }
  }

  /** Every insert keeps live current-epoch entries plus the counter under the bound. */
  lemma InsertBounded<E>(p: Params<E>, s: State<E>, e: E)
    requires Inv(p, s) && Bounded(s) && s.epochSize >= 1
    ensures Bounded(Insert(p, s, e).0) && Insert(p, s, e).0.epochSize == s.epochSize
  {
    EpochCheckBounds(s);
    EpochCheckKeeps(p, s);
    var t := EpochCheck(s);
    var k := FirstHolding(p, t, e, 0);
    if k < 8 {
      var loc := Loc(p, |t.table|, e, k);
      CountWrite(t, Insert(p, s, e).0, loc, |t.table|);
    } else {
      DisplaceCounts(p, t, e, -1, true, t.depthLimit, e);
    }
  }

  // ---------------------------------------------------------------- set-up and whole runs

  /** setup: everything default and marked as free; 45 * size wraps as a 32-bit product does. */
  function SetUp<E>(p: Params<E>, newSize: nat, depthLimit: nat): State<E> {
    var size := Max(2, newSize);
    var epochSize := Max(1, (45 * size) % 0x1_0000_0000 / 100);
    State(seq(size, i => p.default_), seq(size, i => true), seq(size, i => false), epochSize, epochSize, depthLimit)
  }

  lemma {:induction false} NoEpoch<E>(s: State<E>, n: nat)
    requires Shaped(s) && n <= |s.table| && forall i :: 0 <= i < |s.epoch| ==> !s.epoch[i]
    ensures EpochCount(s, n) == 0
  {
    if n > 0 {
      NoEpoch(s, n - 1);
    }
  }

  lemma SetUpGood<E>(p: Params<E>, newSize: nat, depthLimit: nat)
    ensures var s := SetUp(p, newSize, depthLimit);
            Inv(p, s) && Bounded(s) && s.epochSize >= 1
  {
    var s := SetUp(p, newSize, depthLimit);
    NoEpoch(s, |s.table|);
  }

  datatype Op<E> = InsertOp(e: E) | EraseOp(e: E)

  ghost function Run<E>(p: Params<E>, s: State<E>, ops: seq<Op<E>>): State<E>
    requires Shaped(s)
    decreases |ops|
  {
    if ops == [] then s
    else
      var t := match ops[0] case InsertOp(e) => Insert(p, s, e).0 case EraseOp(e) => Erase(p, s, e);
      if Shaped(t) then Run(p, t, ops[1..]) else t
  }

  /** Over every run of inserts and erases from set-up: the invariant and the bound hold. */
  lemma {:induction false} RunKeeps<E>(p: Params<E>, s: State<E>, ops: seq<Op<E>>)
    requires Inv(p, s) && Bounded(s) && s.epochSize >= 1
    ensures Inv(p, Run(p, s, ops)) && Bounded(Run(p, s, ops))
    decreases |ops|
  {
    if ops != [] {
      match ops[0] {
        case InsertOp(e) =>
          InsertKeeps(p, s, e);
          InsertBounded(p, s, e);
          RunKeeps(p, Insert(p, s, e).0, ops[1..]);
        case EraseOp(e) =>
          EraseKeeps(p, s, e);
          RunKeeps(p, Erase(p, s, e), ops[1..]);
      }
    }
  }

  lemma EveryRunIsBounded<E>(p: Params<E>, newSize: nat, depthLimit: nat, ops: seq<Op<E>>)
    ensures var s := Run(p, SetUp(p, newSize, depthLimit), ops);
            Inv(p, s) && EpochCount(s, |s.table|) + s.counter <= s.epochSize + Max(1, s.epochSize / 16)
  {
    SetUpGood(p, newSize, depthLimit);
    RunKeeps(p, SetUp(p, newSize, depthLimit), ops);
  }

  // ---------------------------------------------------------------- where a chain goes

  /**
   * The first displacement of a chain uses the second location, not the first: the search returns
   * the end, and the index after it wraps to 1.
   */
  lemma ChainStartsAtSecond<E>(p: Params<E>, size: nat, e: E)
    ensures NextLoc(p, size, e, -1) == Loc(p, size, e, 1)
  {
    IndexAbsent(p, size, e, 0);
  }

  lemma {:induction false} IndexAbsent<E>(p: Params<E>, size: nat, e: E, from: nat)
    requires from <= 8
    ensures IndexOf(p, size, e, -1, from) == 8
    decreases 8 - from
  {
    if from < 8 {
      IndexAbsent(p, size, e, from + 1);
    }
  }

  /** k is the first of the eight at which an element's location occurs. */
  ghost predicate FirstAt<E>(p: Params<E>, size: nat, e: E, k: int) {
    0 <= k < 8 && forall j :: 0 <= j < k ==> Loc(p, size, e, j) != Loc(p, size, e, k)
  }

  /** No location of an element is followed, where it first occurs, by the same one, wrapping round. */
  ghost predicate Spread<E>(p: Params<E>, size: nat, e: E) {
    forall k :: FirstAt(p, size, e, k) ==> Loc(p, size, e, (k + 1) % 8) != Loc(p, size, e, k)
  }

  /**
   * That a displacement never goes back to the slot just filled is promised for every element; it holds
   * for exactly those elements whose eight locations are spread.
   */
  lemma ChainMovesOnIff<E>(p: Params<E>, size: nat, e: E)
    ensures (forall lastLoc :: IsLoc(p, size, e, lastLoc) ==> NextLoc(p, size, e, lastLoc) != lastLoc) <==> Spread(p, size, e)
  {
    if Spread(p, size, e) {
      forall lastLoc | IsLoc(p, size, e, lastLoc)
        ensures NextLoc(p, size, e, lastLoc) != lastLoc
      {
        var k :| 0 <= k < 8 && Loc(p, size, e, k) == lastLoc;
        IndexFound(p, size, e, lastLoc, 0, k);
        assert FirstAt(p, size, e, IndexOf(p, size, e, lastLoc, 0));
      }
    }
    if forall lastLoc :: IsLoc(p, size, e, lastLoc) ==> NextLoc(p, size, e, lastLoc) != lastLoc {
      forall k | FirstAt(p, size, e, k)
        ensures Loc(p, size, e, (k + 1) % 8) != Loc(p, size, e, k)
      {
        IndexIsFirst(p, size, e, 0, k);
        assert IsLoc(p, size, e, Loc(p, size, e, k));
      }
    }
  }

  lemma {:induction false} IndexIsFirst<E>(p: Params<E>, size: nat, e: E, from: nat, k: nat)
    requires FirstAt(p, size, e, k) && from <= k
    ensures IndexOf(p, size, e, Loc(p, size, e, k), from) == k
    decreases k - from
  {
    if from < k {
      IndexIsFirst(p, size, e, from + 1, k);
    }
  }

  /** All eight locations of an element are one slot. */
  ghost predicate OnlySlot<E>(p: Params<E>, size: nat, e: E, i: nat) {
    forall k :: Loc(p, size, e, k) == i
  }

  /**
   * What going back costs: two elements whose locations are the same live slot displace each other, and after
   * an even number of rounds the new one itself is dropped.
   */
  lemma {:induction false} Bounces<E>(p: Params<E>, s: State<E>, e: E, i: nat, lastLoc: int, lastEpoch: bool, depth: nat)
    requires Shaped(s) && i < |s.table| && !s.collected[i]
    requires OnlySlot(p, |s.table|, e, i) && OnlySlot(p, |s.table|, s.table[i], i)
    ensures var (t, dropped) := Displace(p, s, e, lastLoc, lastEpoch, depth);
            && dropped == Some(if depth % 2 == 0 then e else s.table[i])
            && t.table == s.table[i := if depth % 2 == 0 then s.table[i] else e]
    decreases depth
  {
    if depth > 0 {
      Bounces(p, Swapped(s, i, e, lastEpoch), s.table[i], i, i, s.epoch[i], depth - 1);
    }
  }

  /** Such an insert drops its own element, if the depth limit is even. */
  lemma InsertBounces<E>(p: Params<E>, s: State<E>, e: E, i: nat)
    requires Inv(p, s) && i < |s.table| && !EpochCheck(s).collected[i] && s.table[i] != e && s.depthLimit % 2 == 0
    requires OnlySlot(p, |s.table|, e, i) && OnlySlot(p, |s.table|, s.table[i], i)
    ensures Insert(p, s, e).1 == Some(e) && Insert(p, s, e).0.table == s.table
  {
    EpochCheckKeeps(p, s);
    var t := EpochCheck(s);
    assert t.depthLimit == s.depthLimit && FirstHolding(p, t, e, 0) == 8;
    Bounces(p, t, e, i, -1, true, t.depthLimit);
    assert t.table[i := t.table[i]] == t.table;
  }

  /** An insert into a free slot while the epoch counter runs. */
  lemma TakesFreeSlot<E>(p: Params<E>, s: State<E>, e: E, i: nat)
    requires Inv(p, s) && s.counter > 0 && s.depthLimit > 0
    requires i < |s.table| && s.collected[i] && s.table[i] != e && OnlySlot(p, |s.table|, e, i)
    ensures Insert(p, s, e).0 == WriteSlot(s.(counter := s.counter - 1), i, e, true)
  {
    var t := EpochCheck(s);
    assert t == s.(counter := s.counter - 1) && FirstHolding(p, t, e, 0) == 8;
    assert FreeAt(p, t, e, 0) && FirstFree(p, t, e) == 0;
  }

  /**
   * It happens from set-up: with an even depth limit, the second of two elements that share their only slot is
   * not in the table after the two inserts.
   */
  lemma SecondIsDropped<E>(p: Params<E>, newSize: nat, depthLimit: nat, x: E, y: E, i: nat)
    requires depthLimit > 0 && depthLimit % 2 == 0 && i < Max(2, newSize)
    requires x != y && x != p.default_ && y != p.default_
    requires OnlySlot(p, Max(2, newSize), x, i) && OnlySlot(p, Max(2, newSize), y, i)
    ensures var s := SetUp(p, newSize, depthLimit);
            var t := Run(p, s, [InsertOp(x), InsertOp(y)]);
            t.table == s.table[i := x] && y !in t.table
  {
    var s := SetUp(p, newSize, depthLimit);
    SetUpGood(p, newSize, depthLimit);
    TakesFreeSlot(p, s, x, i);
    InsertKeeps(p, s, x);
    var s1 := Insert(p, s, x).0;
    assert !EpochCheck(s1).collected[i];
    InsertBounces(p, s1, y, i);
    EpochCheckKeeps(p, s1);
    InsertKeeps(p, s1, y);
    RunOfTwo(p, s, InsertOp(x), InsertOp(y));
  }

  lemma RunOfTwo<E>(p: Params<E>, s: State<E>, a: Op<E>, b: Op<E>)
    requires Shaped(s) && a.InsertOp? && b.InsertOp? && Shaped(Insert(p, s, a.e).0)
    ensures Run(p, s, [a, b]) == Insert(p, Insert(p, s, a.e).0, b.e).0
  {
    var t := Insert(p, s, a.e).0;
    assert [a, b][1..] == [b] && [b][1..] == [];
    assert Run(p, t, [b]) == Insert(p, t, b.e).0;
  }

  /** A table of four in which every location is the first slot: 5 is inserted after 1 and not found. */
  lemma BackAndForth(p: Params<int>, newSize: nat, depthLimit: nat)
    requires (forall size, k, e :: p.location(size, k, e) == 0) && p.default_ == 0
    requires newSize == 4 && depthLimit == 2
    ensures !Spread(p, newSize, 5)
    ensures 5 !in Run(p, SetUp(p, newSize, depthLimit), [InsertOp(1), InsertOp(5)]).table
  {
    assert FirstAt(p, newSize, 5, 0);
    SecondIsDropped(p, newSize, depthLimit, 1, 5, 0);
  }

  lemma {:induction false} IndexFound<E>(p: Params<E>, size: nat, e: E, loc: int, from: nat, k: nat)
    requires from <= k < 8 && Loc(p, size, e, k) == loc
    ensures IndexOf(p, size, e, loc, from) < 8
    ensures forall j :: from <= j < IndexOf(p, size, e, loc, from) ==> Loc(p, size, e, j) != loc
    decreases 8 - from
  {
    if Loc(p, size, e, from) != loc {
      IndexFound(p, size, e, loc, from + 1, k);
    }
  }
}
