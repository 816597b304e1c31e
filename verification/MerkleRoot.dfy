/**
 * The Merkle root of a block (src/consensus/merkle.cpp): the loop over levels computes the root
 * that partial trees are checked against, and its flag catches every other list of the same depth.
 */
module MerkleRoot {
  import opened Bits
  import opened Common
  import opened PartialMerkle

  /** The hash of a pair; an odd last element is paired with itself. */
  function Pair<H>(hs: Hasher<H>, xs: seq<H>, i: nat): H
    requires 2 * i < |xs|
  {
    hs.combine(xs[2 * i], if 2 * i + 1 < |xs| then xs[2 * i + 1] else xs[2 * i])
  }

  function Pairs<H>(hs: Hasher<H>, xs: seq<H>, k: nat): (ys: seq<H>)
    requires 2 * k <= |xs| + 1
    ensures |ys| == k
  {
    if k == 0 then [] else Pairs(hs, xs, k - 1) + [Pair(hs, xs, k - 1)]
  }

  /** One round of the loop. */
  function NextLevel<H>(hs: Hasher<H>, xs: seq<H>): (ys: seq<H>)
    ensures |ys| == (|xs| + 1) / 2
  {
    Pairs(hs, xs, (|xs| + 1) / 2)
  }

  lemma {:induction false} PairsAt<H>(hs: Hasher<H>, xs: seq<H>, k: nat, i: nat)
    requires i < k && 2 * k <= |xs| + 1
    ensures Pairs(hs, xs, k)[i] == Pair(hs, xs, i)
  {
    if i < k - 1 {
      PairsAt(hs, xs, k - 1, i);
    }
  }

  lemma NextLevelAt<H>(hs: Hasher<H>, xs: seq<H>, i: nat)
    requires 2 * i < |xs|
    ensures NextLevel(hs, xs)[i] == Pair(hs, xs, i)
  {
    PairsAt(hs, xs, (|xs| + 1) / 2, i);
  }

  function LevelRoot<H>(hs: Hasher<H>, xs: seq<H>): H
    requires xs != []
    decreases |xs|
  {
    if |xs| == 1 then xs[0] else LevelRoot(hs, NextLevel(hs, xs))
  }

  /** Two neighbours that are hashed together are equal. */
  predicate Twins<H(==)>(xs: seq<H>, k: nat) {
    2 * k + 1 < |xs| && xs[2 * k] == xs[2 * k + 1]
  }

  ghost predicate HasTwins<H>(xs: seq<H>) {
    exists k: nat :: Twins(xs, k)
  }

  /** Some level has twins: what the source reports as a mutation. */
  ghost predicate Mutated<H>(hs: Hasher<H>, xs: seq<H>)
    decreases |xs|
  {
    |xs| > 1 && (HasTwins(xs) || Mutated(hs, NextLevel(hs, xs)))
  }

  // ---------------------------------------------------------------- the same root

  /** The level at a height. */
  function Level<H>(hs: Hasher<H>, txids: seq<H>, h: nat): seq<H> {
    if h == 0 then txids else NextLevel(hs, Level(hs, txids, h - 1))
  }

  lemma {:induction false} LevelWidth<H>(hs: Hasher<H>, txids: seq<H>, h: nat)
    ensures |Level(hs, txids, h)| == Width(|txids|, h)
  {
    if h > 0 {
      LevelWidth(hs, txids, h - 1);
    }
  }

  lemma NextLevelHolds<H>(hs: Hasher<H>, txids: seq<H>, xs: seq<H>, h: nat, pos: nat)
    requires h > 0 && InTree(|txids|, h, pos)
    requires 2 * pos < |xs| && xs[2 * pos] == CalcHash(hs, txids, h - 1, 2 * pos)
    requires InTree(|txids|, h - 1, 2 * pos + 1) <==> 2 * pos + 1 < |xs|
    requires 2 * pos + 1 < |xs| ==> xs[2 * pos + 1] == CalcHash(hs, txids, h - 1, 2 * pos + 1)
    ensures pos < |NextLevel(hs, xs)| && NextLevel(hs, xs)[pos] == CalcHash(hs, txids, h, pos)
  {
    NextLevelAt(hs, xs, pos);
  }

  lemma {:induction false} LevelHolds<H>(hs: Hasher<H>, txids: seq<H>, h: nat, pos: nat)
    requires InTree(|txids|, h, pos)
    ensures pos < |Level(hs, txids, h)| && Level(hs, txids, h)[pos] == CalcHash(hs, txids, h, pos)
    decreases h
  {
    if h > 0 {
      var xs := Level(hs, txids, h - 1);
      LevelHolds(hs, txids, h - 1, 2 * pos);
      SiblingIff(hs, txids, h - 1, 2 * pos + 1);
      if InTree(|txids|, h - 1, 2 * pos + 1) {
        LevelHolds(hs, txids, h - 1, 2 * pos + 1);
      }
      NextLevelHolds(hs, txids, xs, h, pos);
    }
  }

  lemma SiblingIff<H>(hs: Hasher<H>, txids: seq<H>, h: nat, pos: nat)
    ensures InTree(|txids|, h, pos) <==> pos < |Level(hs, txids, h)|
  {
    LevelWidth(hs, txids, h);
    InTreeIff(|txids|, h, pos);
  }

  lemma {:induction false} RootFromLevel<H>(hs: Hasher<H>, txids: seq<H>, h: nat)
    requires txids != []
    ensures Level(hs, txids, h) != []
    ensures InTree(|txids|, HeightFrom(|txids|, h), 0)
    ensures LevelRoot(hs, Level(hs, txids, h)) == CalcHash(hs, txids, HeightFrom(|txids|, h), 0)
    decreases Width(|txids|, h)
  {
    RootInTree(|txids|, h);
    LevelWidth(hs, txids, h);
    InTreeIff(|txids|, h, 0);
    if Width(|txids|, h) > 1 {
      RootFromLevel(hs, txids, h + 1);
    } else {
      LevelHolds(hs, txids, h, 0);
    }
  }

  /** The loop over levels and the recursion of a partial tree compute the same root. */
  lemma RootsAgree<H>(hs: Hasher<H>, txids: seq<H>)
    requires txids != []
    ensures LevelRoot(hs, txids) == Root(hs, txids)
  {
    RootFromLevel(hs, txids, 0);
  }

  // ---------------------------------------------------------------- mutations

  /** The number of rounds of the loop. */
  function Depth(n: nat): nat {
    if n <= 1 then 0 else 1 + Depth((n + 1) / 2)
  }

  /** The depth is the number of binary digits that number the leaves. */
  lemma {:induction false} DepthIs(n: nat)
    ensures n <= Pow2(Depth(n)) && (n > 1 ==> Depth(n) >= 1 && Pow2(Depth(n) - 1) < n)
  {
    if n > 1 {
      DepthIs((n + 1) / 2);
    }
  }

  /** The two hashes that are combined at a place. */
  function PairAt<H>(xs: seq<H>, i: nat): (H, H)
    requires 2 * i < |xs|
  {
    (xs[2 * i], if 2 * i + 1 < |xs| then xs[2 * i + 1] else xs[2 * i])
  }

  /** At one place of two lists, two different pairs have the same hash. */
  ghost predicate ClashAt<H>(hs: Hasher<H>, a: seq<H>, b: seq<H>, i: nat) {
    2 * i < |a| && 2 * i < |b| && Collision(hs, PairAt(a, i), PairAt(b, i))
  }

  /** So they have on some level. */
  ghost predicate LevelsClash<H>(hs: Hasher<H>, a: seq<H>, b: seq<H>)
    decreases |a|
  {
    |a| > 1 && ((exists i: nat :: ClashAt(hs, a, b, i)) || LevelsClash(hs, NextLevel(hs, a), NextLevel(hs, b)))
  }

  /** A level without twins is determined by the next one, or else it exhibits a collision. */
  lemma LevelDetermined<H>(hs: Hasher<H>, a: seq<H>, b: seq<H>)
    requires !HasTwins(a) && !HasTwins(b) && forall i: nat :: !ClashAt(hs, a, b, i)
    requires NextLevel(hs, a) == NextLevel(hs, b)
    ensures a == b
  {
    var w := |NextLevel(hs, a)|;
    assert w == (|a| + 1) / 2 == (|b| + 1) / 2;
    forall i | 0 <= i < w
      ensures a[2 * i] == b[2 * i]
      ensures 2 * i + 1 < |a| <==> 2 * i + 1 < |b|
      ensures 2 * i + 1 < |a| ==> a[2 * i + 1] == b[2 * i + 1]
    {
      NextLevelAt(hs, a, i);
      NextLevelAt(hs, b, i);
      assert !ClashAt(hs, a, b, i);
      assert !Twins(a, i) && !Twins(b, i);
    }
    if w > 0 {
      assert 2 * (w - 1) + 1 < |a| <==> 2 * (w - 1) + 1 < |b|;
    }
    forall j | 0 <= j < |a|
      ensures a[j] == b[j]
    {
      var i := j / 2;
      assert j == 2 * i || j == 2 * i + 1;
    }
  }

  /**
   * Among lists of one depth, the root determines the list, if the loop reports no mutation in
   * either: every other list of that depth with the same root is reported, or else the two exhibit a collision.
   */
  lemma {:induction false} RootDetermines<H>(hs: Hasher<H>, a: seq<H>, b: seq<H>)
    requires a != [] && b != [] && Depth(|a|) == Depth(|b|)
    requires !Mutated(hs, a) && !Mutated(hs, b)
    requires LevelRoot(hs, a) == LevelRoot(hs, b)
    ensures a == b || LevelsClash(hs, a, b)
    decreases |a|
  {
    if |a| == 1 {
      assert |b| == 1;
    } else {
      RootDetermines(hs, NextLevel(hs, a), NextLevel(hs, b));
      if !LevelsClash(hs, a, b) {
        LevelDetermined(hs, a, b);
      }
    }
  }

  /** Depth matters: an inner node passes for a leaf of a shallower list. */
  lemma DepthMatters<H(!new)>(hs: Hasher<H>, x: H, y: H)
    requires x != y
    ensures LevelRoot(hs, [hs.combine(x, y)]) == LevelRoot(hs, [x, y])
    ensures !Mutated(hs, [hs.combine(x, y)]) && !Mutated(hs, [x, y])
  {
    NextLevelAt(hs, [x, y], 0);
    assert NextLevel(hs, [x, y]) == [hs.combine(x, y)];
    assert !HasTwins([x, y]) by {
      forall k: nat
        ensures !Twins([x, y], k)
      {
        if k > 0 {
          assert 2 * k + 1 >= |[x, y]|;
        }
      }
    }
  }

  /** At two places of a list, two different pairs have the same hash. */
  ghost predicate ClashIn<H>(hs: Hasher<H>, xs: seq<H>, i: nat, j: nat) {
    2 * i < |xs| && 2 * j < |xs| && Collision(hs, PairAt(xs, i), PairAt(xs, j))
  }

  /** So they have on some level. */
  ghost predicate Clashes<H>(hs: Hasher<H>, xs: seq<H>)
    decreases |xs|
  {
    |xs| > 1 && ((exists i: nat, j: nat :: ClashIn(hs, xs, i, j)) || Clashes(hs, NextLevel(hs, xs)))
  }

  /** Distinct ids are never reported, unless they exhibit a collision. */
  lemma {:induction false} DistinctNotMutated<H>(hs: Hasher<H>, xs: seq<H>)
    requires Distinct(xs)
    ensures !Mutated(hs, xs) || Clashes(hs, xs)
    decreases |xs|
  {
    if |xs| > 1 && !Clashes(hs, xs) {
      forall k: nat | 2 * k + 1 < |xs|
        ensures !Twins(xs, k)
      {
        assert xs[2 * k] != xs[2 * k + 1];
      }
      NextDistinct(hs, xs);
      DistinctNotMutated(hs, NextLevel(hs, xs));
    }
  }

  lemma NextDistinct<H>(hs: Hasher<H>, xs: seq<H>)
    requires Distinct(xs) && forall i: nat, j: nat :: !ClashIn(hs, xs, i, j)
    ensures Distinct(NextLevel(hs, xs))
  {
    var ys := NextLevel(hs, xs);
    forall i, j | 0 <= i < j < |ys|
      ensures ys[i] != ys[j]
    {
      NextLevelAt(hs, xs, i);
      NextLevelAt(hs, xs, j);
      assert xs[2 * i] != xs[2 * j];
      assert !ClashIn(hs, xs, i, j);
    }
  }

  // ---------------------------------------------------------------- the loop

  method FindTwins<H(==)>(xs: seq<H>) returns (found: bool)
    ensures found <==> HasTwins(xs)
  {
    found := false;
    var pos := 0;
    while pos + 1 < |xs|
      invariant pos % 2 == 0
      invariant found <==> exists k: nat :: 2 * k < pos && Twins(xs, k)
    {
      if xs[pos] == xs[pos + 1] {
        assert Twins(xs, pos / 2);
        found := true;
      }
      assert forall k: nat :: 2 * k < pos + 2 <==> 2 * k < pos || k == pos / 2;
      pos := pos + 2;
    }
  }

  /** SHA256D64 over adjacent pairs, written over the front half of the list. */
  method HashPairs<H>(hs: Hasher<H>, xs: seq<H>) returns (ys: seq<H>)
    requires |xs| % 2 == 0
    ensures |ys| == |xs| / 2
    ensures forall i :: 0 <= i < |ys| ==> ys[i] == hs.combine(xs[2 * i], xs[2 * i + 1])
  {
    ys := [];
    while |ys| < |xs| / 2
      invariant |ys| <= |xs| / 2
      invariant forall i :: 0 <= i < |ys| ==> ys[i] == hs.combine(xs[2 * i], xs[2 * i + 1])
    {
      ys := ys + [hs.combine(xs[2 * |ys|], xs[2 * |ys| + 1])];
    }
  }

  lemma SameLevel<H>(hs: Hasher<H>, xs: seq<H>, ys: seq<H>)
    requires |ys| == (|xs| + 1) / 2 && forall i :: 0 <= i < |ys| ==> ys[i] == Pair(hs, xs, i)
    ensures ys == NextLevel(hs, xs)
  {
    forall i | 0 <= i < |ys|
      ensures ys[i] == NextLevel(hs, xs)[i]
    {
      NextLevelAt(hs, xs, i);
    }
  }

  method ComputeMerkleRoot<H(==)>(hs: Hasher<H>, txids: seq<H>) returns (root: H, mutated: bool)
    ensures root == if txids == [] then hs.zero else Root(hs, txids)
    ensures mutated <==> Mutated(hs, txids)
  {
    var hashes := txids;
    mutated := false;
    while |hashes| > 1
      invariant (hashes == []) == (txids == [])
      invariant hashes != [] ==> LevelRoot(hs, hashes) == LevelRoot(hs, txids)
      invariant Mutated(hs, txids) <==> mutated || Mutated(hs, hashes)
      decreases |hashes|
    {
      ghost var level := hashes;
      var twins := FindTwins(hashes);
      mutated := mutated || twins;
      if |hashes| % 2 == 1 {
        hashes := hashes + [hashes[|hashes| - 1]];
      }
      hashes := HashPairs(hs, hashes);
      SameLevel(hs, level, hashes);
    }
    if |hashes| == 0 {
      root := hs.zero;
    } else {
      root := hashes[0];
      RootsAgree(hs, txids);
    }
  }
}
