/**
 * The block index and the active chain (src/chain.h, src/chain.cpp): ancestors by skip pointers,
 * the chain as an array with an early stop, forks and locators.
 */
module Chain {
  import opened Bits
  import opened SkipHeights

  // ---------------------------------------------------------------- the block index

  class CBlockIndex {
    const pprev: CBlockIndex?
    const nHeight: nat
    const hash: nat
    const nTimeMax: int
    var pskip: CBlockIndex?

    /** This block and all below it. */
    ghost const below: set<CBlockIndex>

    constructor (pprev: CBlockIndex?, hash: nat, nTime: int)
      requires pprev != null ==> Chained(pprev)
      ensures this.pprev == pprev && this.hash == hash && pskip == null
      ensures Chained(this)
    {
      this.pprev := pprev;
      this.hash := hash;
      nHeight := if pprev == null then 0 else pprev.nHeight + 1;
      nTimeMax := if pprev == null || pprev.nTimeMax < nTime then nTime else pprev.nTimeMax;
      pskip := null;
      below := {this} + if pprev == null then {} else pprev.below;
    }

    /** The ancestor at a height, and the number of rounds that the walk to it takes. */
    method GetAncestor(height: int) returns (a: CBlockIndex?, ghost rounds: nat)
      requires Chained(this) && SkipsBuilt(this)
      ensures a == AncestorOrNull(this, height)
      ensures 0 <= height <= nHeight && AllSkips(this) ==> rounds == Rounds(nHeight, height)
    {
      rounds := 0;
      if height > nHeight || height < 0 {
        return null, 0;
      }
      var pindexWalk := this;
      var heightWalk := nHeight;
      while heightWalk > height
        invariant height <= heightWalk <= nHeight
        invariant pindexWalk == Ancestor(this, heightWalk)
        invariant SkipsBuilt(this)
        invariant AllSkips(this) ==> rounds + Rounds(heightWalk, height) == Rounds(nHeight, height)
      {
        AncestorAt(this, heightWalk);
        AncestorIsBelow(this, heightWalk);
        ghost var was := heightWalk;
        pindexWalk, heightWalk := pindexWalk.WalkBack(heightWalk, height);
        AncestorOfAncestor(this, was, heightWalk);
        rounds := rounds + 1;
      }
      a := pindexWalk;
    }

    /** One round of the walk, from this block towards one below it. */
    method WalkBack(heightWalk: nat, height: nat) returns (p: CBlockIndex, h: nat)
      requires Chained(this) && SkipOk(this) && height < heightWalk == nHeight
      ensures height <= h < nHeight && p == Ancestor(this, h)
      ensures pskip != null ==> h == NextHeight(nHeight, height)
    {
      var heightSkip := GetSkipHeight(heightWalk);
      var heightSkipPrev := GetSkipHeight(heightWalk - 1);
      if && pskip != null
         && (|| heightSkip == height
             || (heightSkip > height && !(heightSkipPrev < heightSkip - 2 && heightSkipPrev >= height)))
      {
        p, h := pskip, heightSkip;
      } else {
        assert pprev != null;
        p, h := pprev, heightWalk - 1;
      }
    }

    method BuildSkip()
      requires Chained(this) && (pprev != null ==> SkipsBuilt(pprev)) && (pprev == null ==> pskip == null)
      modifies this`pskip
      ensures SkipsBuilt(this)
      ensures pprev == null || AllSkips(pprev) ==> AllSkips(this)
    {
      if pprev != null {
        BelowIsLower(pprev);
        assert this !in pprev.below;
        ghost var rounds;
        pskip, rounds := pprev.GetAncestor(GetSkipHeight(nHeight));
        assert SkipOk(this);
      }
    }
  }

  /** Heights count the blocks below, and times never go back, all the way to a genesis block. */
  ghost predicate Chained(b: CBlockIndex)
    decreases b.nHeight
  {
    if b.pprev == null then b.nHeight == 0 && b.below == {b}
    else
      && b.nHeight == b.pprev.nHeight + 1 && b.pprev.nTimeMax <= b.nTimeMax && b.below == {b} + b.pprev.below
      && Chained(b.pprev)
  }

  /** The ancestor at a height, by the plain walk along pprev. */
  ghost function Ancestor(b: CBlockIndex, height: nat): CBlockIndex
    requires Chained(b) && height <= b.nHeight
    decreases b.nHeight
  {
    if b.nHeight == height then b else Ancestor(b.pprev, height)
  }

  ghost function AncestorOrNull(b: CBlockIndex, height: int): CBlockIndex?
    requires Chained(b)
  {
    if 0 <= height <= b.nHeight then Ancestor(b, height) else null
  }

  lemma {:induction false} AncestorAt(b: CBlockIndex, height: nat)
    requires Chained(b) && height <= b.nHeight
    ensures Chained(Ancestor(b, height)) && Ancestor(b, height).nHeight == height
    ensures Ancestor(b, height).nTimeMax <= b.nTimeMax
    decreases b.nHeight
  {
    if b.nHeight > height {
      AncestorAt(b.pprev, height);
    }
  }

  lemma {:induction false} AncestorOfAncestor(b: CBlockIndex, h: nat, k: nat)
    requires Chained(b) && k <= h <= b.nHeight
    ensures Chained(Ancestor(b, h)) && Ancestor(b, h).nHeight == h
    ensures Ancestor(Ancestor(b, h), k) == Ancestor(b, k)
    decreases b.nHeight
  {
    if b.nHeight > h {
      AncestorOfAncestor(b.pprev, h, k);
    }
  }

  /** A skip pointer, if set, leads to the ancestor at its skip height. */
  ghost predicate SkipOk(b: CBlockIndex)
    reads b
  {
    && Chained(b)
    && (b.pskip != null ==> b.nHeight > 0 && b.pskip == Ancestor(b, GetSkipHeight(b.nHeight)))
  }

  ghost predicate SkipsBuilt(b: CBlockIndex)
    requires Chained(b)
    reads b.below
  {
    forall c :: c in b.below ==> SkipOk(c)
  }

  /** Every block above genesis has its skip pointer. */
  ghost predicate AllSkips(b: CBlockIndex)
    reads b.below
  {
    forall c :: c in b.below && c.nHeight > 0 ==> c.pskip != null
  }

  lemma {:induction false} AncestorIsBelow(b: CBlockIndex, h: nat)
    requires Chained(b) && h <= b.nHeight
    ensures Ancestor(b, h) in b.below
    decreases b.nHeight
  {
    if h < b.nHeight {
      AncestorIsBelow(b.pprev, h);
    }
  }

  lemma {:induction false} BelowGrows(b: CBlockIndex, h: nat)
    requires Chained(b) && h <= b.nHeight
    ensures Ancestor(b, h).below <= b.below
    decreases b.nHeight
  {
    if h < b.nHeight {
      BelowGrows(b.pprev, h);
    }
  }

  lemma {:induction false} BelowIsLower(b: CBlockIndex)
    requires Chained(b)
    ensures forall c :: c in b.below ==> c.nHeight <= b.nHeight
    decreases b.nHeight
  {
    if b.pprev != null {
      BelowIsLower(b.pprev);
    }
  }

  // ---------------------------------------------------------------- paths

  /** The blocks from genesis to a block, by height. */
  ghost function Path(b: CBlockIndex): (path: seq<CBlockIndex?>)
    requires Chained(b)
    ensures |path| == b.nHeight + 1
    decreases b.nHeight
  {
    (if b.pprev == null then [] else Path(b.pprev)) + [b]
  }

  lemma {:induction false} PathAt(b: CBlockIndex, h: nat)
    requires Chained(b) && h <= b.nHeight
    ensures Path(b)[h] == Ancestor(b, h)
    decreases b.nHeight
  {
    if h < b.nHeight {
      PathAt(b.pprev, h);
    }
  }

  /** The path to an ancestor is the lower part of the path. */
  lemma {:induction false} PathPrefix(b: CBlockIndex, h: nat)
    requires Chained(b) && h <= b.nHeight
    ensures Chained(Ancestor(b, h)) && Path(b)[..h + 1] == Path(Ancestor(b, h))
    decreases b.nHeight
  {
    if h < b.nHeight {
      PathPrefix(b.pprev, h);
      assert Path(b)[..h + 1] == Path(b.pprev)[..h + 1];
    } else {
      assert Path(b)[..h + 1] == Path(b);
    }
  }

  /** f is the highest common ancestor of a and b, or null if there is none. */
  ghost predicate IsLastCommon(f: CBlockIndex?, a: CBlockIndex, b: CBlockIndex)
    requires Chained(a) && Chained(b)
  {
    && (f != null ==> f == AncestorOrNull(a, f.nHeight) && f == AncestorOrNull(b, f.nHeight))
    && forall h: nat :: (f != null ==> h > f.nHeight) && h <= a.nHeight && h <= b.nHeight ==> Ancestor(a, h) != Ancestor(b, h)
  }

  /** No common ancestor is above the last one. */
  lemma NotAbove(f: CBlockIndex, g: CBlockIndex?, a: CBlockIndex, b: CBlockIndex)
    requires Chained(a) && Chained(b) && IsLastCommon(f, a, b) && IsLastCommon(g, a, b)
    ensures g != null && f.nHeight <= g.nHeight
  {
    assert Ancestor(a, f.nHeight) == Ancestor(b, f.nHeight);
  }

  /** There is one answer: the blocks below a common ancestor are common, those above the last one differ. */
  lemma LastCommonUnique(f: CBlockIndex?, g: CBlockIndex?, a: CBlockIndex, b: CBlockIndex)
    requires Chained(a) && Chained(b) && IsLastCommon(f, a, b) && IsLastCommon(g, a, b)
    ensures f == g
  {
    if f != null {
      NotAbove(f, g, a, b);
    }
    if g != null {
      NotAbove(g, f, a, b);
    }
  }

  lemma CommonBelow(a: CBlockIndex, b: CBlockIndex, h: nat, k: nat)
    requires Chained(a) && Chained(b) && k <= h <= a.nHeight && h <= b.nHeight
    requires Ancestor(a, h) == Ancestor(b, h)
    ensures Ancestor(a, k) == Ancestor(b, k)
  {
    AncestorOfAncestor(a, h, k);
    AncestorOfAncestor(b, h, k);
  }

  /** Both must be blocks; that they end at the same place is the source's assertion. */
  method LastCommonAncestor(a: CBlockIndex, b: CBlockIndex) returns (f: CBlockIndex?)
    requires Chained(a) && Chained(b) && SkipsBuilt(a) && SkipsBuilt(b)
    ensures IsLastCommon(f, a, b)
  {
    var pa: CBlockIndex?, pb: CBlockIndex? := a, b;
    ghost var rounds;
    if a.nHeight > b.nHeight {
      pa, rounds := a.GetAncestor(b.nHeight);
    } else if b.nHeight > a.nHeight {
      pb, rounds := b.GetAncestor(a.nHeight);
    }
    ghost var h: int := if a.nHeight < b.nHeight then a.nHeight else b.nHeight;
    while pa != pb && pa != null && pb != null
      invariant h < 0 <==> pa == null
      invariant h < 0 <==> pb == null
      invariant h <= a.nHeight && h <= b.nHeight
      invariant h >= 0 ==> pa == Ancestor(a, h) && pb == Ancestor(b, h)
      invariant forall k: nat :: k > h && k <= a.nHeight && k <= b.nHeight ==> Ancestor(a, k) != Ancestor(b, k)
      decreases h
    {
      AncestorAt(a, h);
      AncestorAt(b, h);
      if h > 0 {
        AncestorOfAncestor(a, h, h - 1);
        AncestorOfAncestor(b, h, h - 1);
      }
      pa := pa.pprev;
      pb := pb.pprev;
      h := h - 1;
    }
    assert pa == pb;
    if h >= 0 {
      AncestorAt(a, h);
    }
    return pa;
  }

  // ---------------------------------------------------------------- the active chain

  /** The step taken when the locator has a given size. */
  function LocatorStep(size: nat): (step: nat)
    ensures step >= 1
  {
    if size <= 11 then 1 else Pow2(size - 11)
  }

  function LocatorNext(h: nat, size: nat): (next: nat)
    ensures h > 0 ==> next < h
  {
    if h < LocatorStep(size + 1) then 0 else h - LocatorStep(size + 1)
  }

  /** The heights in a locator: ever longer steps back from h after the first ten, and genesis. */
  function LocatorHeights(h: nat, size: nat): (heights: seq<nat>)
    decreases h
  {
    if h == 0 then [0] else [h] + LocatorHeights(LocatorNext(h, size), size + 1)
  }

  lemma LocatorUnrolled(done: seq<nat>, h: nat, size: nat)
    ensures done + LocatorHeights(h, size)
            == (done + [h]) + if h == 0 then [] else LocatorHeights(LocatorNext(h, size), size + 1)
    ensures LocatorStep(size + 2) == if size + 1 > 10 then 2 * LocatorStep(size + 1) else LocatorStep(size + 1)
  {
  }

  ghost predicate Descending(hs: seq<nat>) {
    forall i, j :: 0 <= i < j < |hs| ==> hs[i] > hs[j]
  }

  /** A locator starts with the block, goes strictly back, and ends with genesis. */
  lemma {:induction false} LocatorDescends(h: nat, size: nat)
    ensures var hs := LocatorHeights(h, size);
            |hs| > 0 && hs[0] == h && hs[|hs| - 1] == 0 && Descending(hs)
    decreases h
  {
    if h > 0 {
      LocatorDescends(LocatorNext(h, size), size + 1);
    }
  }

  /** How far back an entry lies: the first twelve follow each other, and then each step is twice the last. */
  function Depth(i: nat): nat {
    if i <= 11 then i else 9 + Pow2(i - 10)
  }

  /** Where every entry of a locator lies: genesis is the last one, and it may be nearer than its step. */
  lemma {:induction false} LocatorAt(h: nat, size: nat, i: nat)
    requires i < |LocatorHeights(h, size)|
    ensures var back := Depth(size + i) - Depth(size);
            LocatorHeights(h, size)[i] == if back <= h then h - back else 0
    ensures i + 1 < |LocatorHeights(h, size)| <==> LocatorHeights(h, size)[i] > 0
    decreases h
  {
    DepthStep(size);
    DepthGrows(size, size + i);
    if h > 0 && i > 0 {
      LocatorAt(LocatorNext(h, size), size + 1, i - 1);
      DepthGrows(size + 1, size + i);
    }
  }

  lemma DepthStep(size: nat)
    ensures Depth(size + 1) == Depth(size) + LocatorStep(size + 1)
  {
    if size == 11 {
      assert Pow2(1) == 2 && Pow2(2) == 4;
    }
  }

  lemma {:induction false} DepthGrows(i: nat, j: nat)
    requires i <= j
    ensures Depth(i) <= Depth(j)
    decreases j
  {
    if i < j {
      DepthGrows(i, j - 1);
      DepthStep(j - 1);
    }
  }

  /**
   * The first entry at or below a fork: it is the fork itself for a fork less than twelve blocks back, and
   * never more than twice as far back as the fork.
   */
  lemma LocatorNearFork(h: nat, f: nat) returns (i: nat)
    requires f <= h
    ensures var hs := LocatorHeights(h, 0);
            && i < |hs| && hs[i] <= f
            && (forall j :: 0 <= j < i ==> hs[j] > f)
            && h - hs[i] <= 2 * (h - f)
            && (h - f < 12 ==> hs[i] == f)
  {
    var hs := LocatorHeights(h, 0);
    LocatorDescends(h, 0);
    i := |hs| - 1;
    while i > 0 && hs[i - 1] <= f
      invariant i < |hs| && hs[i] <= f
    {
      i := i - 1;
    }
    LocatorAt(h, 0, i);
    if i > 0 {
      LocatorAt(h, 0, i - 1);
      DepthStep(i - 1);
      if i >= 12 {
        assert Depth(i - 1) == if i == 12 then 11 else 9 + Pow2(i - 11);
      }
    }
  }

  lemma {:induction false} LocatorTail(h: nat, size: nat, digits: nat)
    requires h + LocatorStep(size + 1) <= Pow2(digits)
    ensures |LocatorHeights(h, size)| <= digits + 11 - size
    decreases h
  {
    if size >= 10 {
      PowerBound(size - 10, digits, h);
    }
    if h > 0 {
      LocatorTail(LocatorNext(h, size), size + 1, digits);
    }
  }

  /** A locator stays short: eleven blocks and one for each binary digit of the height. */
  lemma LocatorShort(h: nat, digits: nat)
    requires h + 1 <= Pow2(digits)
    ensures |LocatorHeights(h, 0)| <= digits + 11
  {
    LocatorTail(h, 0, digits);
  }

  lemma {:induction false} PowerBound(a: nat, b: nat, h: nat)
    requires h + Pow2(a) <= Pow2(b)
    ensures a <= b && (h > 0 ==> 2 * Pow2(a) <= Pow2(b))
  {
    if b > 0 && a > 0 {
      PowerBound(a - 1, b - 1, (h + 1) / 2);
    }
  }

  class CChain {
    var vChain: seq<CBlockIndex?>

    /** The chain is the whole path to its tip. */
    ghost predicate Valid()
      reads this
    {
      |vChain| > 0 ==> var tip := vChain[|vChain| - 1]; tip != null && Chained(tip) && vChain == Path(tip)
    }

    constructor ()
      ensures Valid() && vChain == []
    {
      vChain := [];
    }

    function At(nHeight: int): CBlockIndex?
      reads this
    {
      if nHeight < 0 || nHeight >= |vChain| then null else vChain[nHeight]
    }

    function Tip(): CBlockIndex?
      reads this
    {
      if |vChain| > 0 then vChain[|vChain| - 1] else null
    }

    predicate Contains(pindex: CBlockIndex)
      reads this
    {
      At(pindex.nHeight) == pindex
    }

    function Height(): int
      reads this
    {
      |vChain| - 1
    }

    /** A block is in the chain exactly when it is an ancestor of the tip. */
    lemma ContainsIff(b: CBlockIndex)
      requires Valid() && Chained(b)
      ensures Contains(b) <==> Tip() != null && AncestorOrNull(Tip(), b.nHeight) == b
    {
      if 0 <= b.nHeight < |vChain| {
        PathAt(Tip(), b.nHeight);
      }
    }

    /** What replaces the vector's resize: the new elements are null. */
    static function Resized(v: seq<CBlockIndex?>, n: nat): (r: seq<CBlockIndex?>)
      ensures |r| == n
    {
      if n <= |v| then v[..n] else v + seq(n - |v|, _ => null)
    }

    method SetTip(tip: CBlockIndex?)
      requires Valid() && (tip != null ==> Chained(tip))
      modifies this
      ensures Valid() && vChain == if tip == null then [] else Path(tip)
    {
      if tip == null {
        vChain := [];
        return;
      }
      ghost var was := vChain;
      vChain := Resized(vChain, tip.nHeight + 1);
      ghost var start, path := vChain, Path(tip);
      var pindex: CBlockIndex? := tip;
      ghost var h: int := tip.nHeight;
      while pindex != null && vChain[pindex.nHeight] != pindex
        invariant |vChain| == tip.nHeight + 1 && -1 <= h <= tip.nHeight
        invariant pindex == AncestorOrNull(tip, h)
        invariant pindex != null ==> pindex.nHeight == h
        invariant vChain[..h + 1] == start[..h + 1] && vChain[h + 1..] == path[h + 1..]
        decreases h
      {
        AncestorAt(tip, h);
        PathAt(tip, h);
        if h > 0 {
          AncestorOfAncestor(tip, h, h - 1);
        }
        SetOne(vChain, start, path, h);
        vChain := vChain[pindex.nHeight := pindex];
        pindex := pindex.pprev;
        h := h - 1;
      }
      if pindex != null {
        assert start[h] == start[..h + 1][h];
        EarlyStop(was, start, tip, h);
      }
      Whole(vChain, path, h + 1);
    }

    static lemma Whole(v: seq<CBlockIndex?>, path: seq<CBlockIndex?>, h: nat)
      requires |v| == |path| && h <= |v| && v[..h] == path[..h] && v[h..] == path[h..]
      ensures v == path
    {
      assert v == v[..h] + v[h..];
    }

    static lemma SetOne(v: seq<CBlockIndex?>, start: seq<CBlockIndex?>, path: seq<CBlockIndex?>, h: nat)
      requires |v| == |start| == |path| && h < |v|
      requires v[..h + 1] == start[..h + 1] && v[h + 1..] == path[h + 1..]
      ensures v[h := path[h]][..h] == start[..h] && v[h := path[h]][h..] == path[h..]
    {
      assert v[..h] == v[..h + 1][..h] && start[..h] == start[..h + 1][..h];
      assert path[h..] == [path[h]] + path[h + 1..];
    }

    /** Where the old chain already holds an ancestor, it holds the whole path below. */
    static lemma EarlyStop(was: seq<CBlockIndex?>, start: seq<CBlockIndex?>, tip: CBlockIndex, h: nat)
      requires Chained(tip) && h <= tip.nHeight && start == Resized(was, tip.nHeight + 1)
      requires |was| > 0 ==> var t := was[|was| - 1]; t != null && Chained(t) && was == Path(t)
      requires start[h] == Ancestor(tip, h)
      ensures start[..h + 1] == Path(tip)[..h + 1]
    {
      assert h < |was|;
      var t := was[|was| - 1];
      PathAt(t, h);
      PathPrefix(t, h);
      PathPrefix(tip, h);
      assert start[..h + 1] == was[..h + 1];
    }

    method FindFork(p: CBlockIndex?) returns (f: CBlockIndex?)
      requires Valid() && (p != null ==> Chained(p) && SkipsBuilt(p))
      ensures p == null || Tip() == null ==> f == null
      ensures p != null && Tip() != null ==> IsLastCommon(f, p, Tip())
    {
      if p == null {
        return null;
      }
      var pindex: CBlockIndex? := p;
      ghost var h: int := p.nHeight;
      if p.nHeight > Height() {
        ghost var rounds;
        pindex, rounds := p.GetAncestor(Height());
        h := Height();
      }
      while pindex != null && !Contains(pindex)
        invariant -1 <= h <= p.nHeight && h <= Height()
        invariant pindex == AncestorOrNull(p, h)
        invariant Tip() != null ==> forall k: nat :: k > h && k <= p.nHeight && k <= Tip().nHeight ==> Ancestor(p, k) != Ancestor(Tip(), k)
        decreases h
      {
        AncestorAt(p, h);
        ContainsIff(pindex);
        if h > 0 {
          AncestorOfAncestor(p, h, h - 1);
        }
        pindex := pindex.pprev;
        h := h - 1;
      }
      if pindex != null {
        AncestorAt(p, h);
        ContainsIff(pindex);
      }
      return pindex;
    }

    /** The ancestors of a block at given heights. */
    static ghost predicate Locates(vHave: seq<nat>, b: CBlockIndex, heights: seq<nat>)
      requires Chained(b)
    {
      && |vHave| == |heights|
      && forall i :: 0 <= i < |vHave| ==> heights[i] <= b.nHeight && vHave[i] == Ancestor(b, heights[i]).hash
    }

    static lemma LocatesMore(vHave: seq<nat>, b: CBlockIndex, heights: seq<nat>, h: nat)
      requires Chained(b) && h <= b.nHeight && Locates(vHave, b, heights)
      ensures Locates(vHave + [Ancestor(b, h).hash], b, heights + [h])
    {
    }

    method GetLocator(p: CBlockIndex?) returns (vHave: seq<nat>)
      requires Valid() && (p != null ==> Chained(p) && SkipsBuilt(p))
      ensures var b := if p == null then Tip() else p;
              if b == null then vHave == [] else Locates(vHave, b, LocatorHeights(b.nHeight, 0))
      ensures var b := if p == null then Tip() else p;
              b != null ==> forall digits: nat :: b.nHeight + 1 <= Pow2(digits) ==> |vHave| <= digits + 11
    {
      vHave := [];
      var pindex := if p == null then Tip() else p;
      ghost var b := pindex;
      var nStep := 1;
      if pindex == null {
        return;
      }
      ghost var done: seq<nat> := [];
      ghost var all := LocatorHeights(b.nHeight, 0);
      while true
        invariant pindex != null && pindex.nHeight <= b.nHeight && pindex == Ancestor(b, pindex.nHeight)
        invariant nStep == LocatorStep(|vHave| + 1)
        invariant Locates(vHave, b, done)
        invariant done + LocatorHeights(pindex.nHeight, |vHave|) == all
        decreases pindex.nHeight
      {
        LocatorUnrolled(done, pindex.nHeight, |vHave|);
        LocatesMore(vHave, b, done, pindex.nHeight);
        vHave := vHave + [pindex.hash];
        done := done + [pindex.nHeight];
        if pindex.nHeight == 0 {
          break;
        }
        pindex := StepBack(b, pindex, if pindex.nHeight - nStep > 0 then pindex.nHeight - nStep else 0);
        if |vHave| > 10 {
          nStep := nStep * 2;
        }
      }
      forall digits: nat | b.nHeight + 1 <= Pow2(digits)
        ensures |vHave| <= digits + 11
      {
        LocatorShort(b.nHeight, digits);
      }
    }

    /** An ancestor by the chain's array where it can be used, by skip pointers otherwise. */
    method StepBack(ghost b: CBlockIndex, pindex: CBlockIndex, nHeight: nat) returns (a: CBlockIndex?)
      requires Valid() && Chained(b) && (SkipsBuilt(b) || b == Tip())
      requires nHeight <= pindex.nHeight <= b.nHeight && pindex == Ancestor(b, pindex.nHeight)
      ensures a == Ancestor(b, nHeight) && a.nHeight == nHeight
    {
      AncestorOfAncestor(b, pindex.nHeight, nHeight);
      AncestorAt(b, nHeight);
      ContainsIff(pindex);
      if Contains(pindex) {
        PathAt(Tip(), nHeight);
        AncestorOfAncestor(Tip(), pindex.nHeight, nHeight);
        a := At(nHeight);
      } else {
        BelowGrows(b, pindex.nHeight);
        ghost var rounds;
        a, rounds := pindex.GetAncestor(nHeight);
      }
    }

    /** The first block from which on all have a late enough time and a great enough height. */
    method FindEarliestAtLeast(nTime: int, height: int) returns (f: CBlockIndex?)
      requires Valid()
      ensures f == null ==> forall h :: 0 <= h < |vChain| ==> Before(vChain[h], nTime, height)
      ensures f != null ==> f.nHeight < |vChain| && vChain[f.nHeight] == f && !Before(f, nTime, height)
      ensures f != null ==> forall h :: 0 <= h < f.nHeight ==> Before(vChain[h], nTime, height)
    {
      var lo, hi := 0, |vChain|;
      while lo < hi
        invariant 0 <= lo <= hi <= |vChain|
        invariant forall h :: 0 <= h < lo ==> Before(vChain[h], nTime, height)
        invariant hi < |vChain| ==> !Before(vChain[hi], nTime, height)
      {
        var mid := lo + (hi - lo) / 2;
        Ordered(mid, nTime, height);
        if Before(vChain[mid], nTime, height) {
          lo := mid + 1;
        } else {
          hi := mid;
        }
      }
      if lo == |vChain| {
        return null;
      }
      Ordered(lo, nTime, height);
      return vChain[lo];
    }

    /** The order that the search divides the chain by. */
    static predicate Before(b: CBlockIndex?, nTime: int, height: int) {
      b != null && (b.nTimeMax < nTime || b.nHeight < height)
    }

    lemma Ordered(h: nat, nTime: int, height: int)
      requires Valid() && h < |vChain|
      ensures vChain[h] != null && vChain[h].nHeight == h
      ensures Before(vChain[h], nTime, height) ==> forall k :: 0 <= k <= h ==> Before(vChain[k], nTime, height)
    {
      var tip := Tip();
      PathAt(tip, h);
      AncestorAt(tip, h);
      forall k | 0 <= k <= h
        ensures vChain[k] != null && vChain[k].nHeight == k && vChain[k].nTimeMax <= vChain[h].nTimeMax
      {
        PathAt(tip, k);
        AncestorAt(tip, k);
        AncestorOfAncestor(tip, h, k);
        AncestorAt(vChain[h], k);
      }
    }
  }
}
