/**
 * Merged mining (src/auxpow.cpp): what a proof that a block's hash is committed to in a parent
 * block's coinbase can show, and that one tagged coinbase commits to one hash for each chain.
 */
module AuxPow {
  import opened Arithmetic
  import opened Bits
  import opened Common
  import opened PartialMerkle

  type Hash32 = s: seq<Byte> | |s| == 32 witness seq(32, _ => 0)

  // ---------------------------------------------------------------- branches

  /** A leaf hashed up along a branch; the lowest bit of the index tells the side at each level. */
  function BranchRoot<H>(hs: Hasher<H>, hash: H, branch: seq<H>, index: int): H
    decreases |branch|
  {
    if branch == [] then hash
    else BranchRoot(hs, if index % 2 == 1 then hs.combine(branch[0], hash) else hs.combine(hash, branch[0]), branch[1..], index / 2)
  }

  /** CheckMerkleBranch; an index of -1 stands for no branch. */
  method CheckMerkleBranch<H>(hs: Hasher<H>, hash: H, branch: seq<H>, index: int) returns (r: H)
    ensures r == if index == -1 then hs.zero else BranchRoot(hs, hash, branch, index)
  {
    if index == -1 {
      return hs.zero;
    }
    r := hash;
    var nIndex := index;
    var i := 0;
    assert branch[0..] == branch;
    while i < |branch|
      invariant 0 <= i <= |branch|
      invariant BranchRoot(hs, r, branch[i..], nIndex) == BranchRoot(hs, hash, branch, index)
    {
      assert branch[i..][1..] == branch[i + 1..];
      if nIndex % 2 == 1 {
        r := hs.combine(branch[i], r);
      } else {
        r := hs.combine(r, branch[i]);
      }
      nIndex := nIndex / 2;
      i := i + 1;
    }
  }

  /** The two hashes that are combined at the first level of a branch. */
  function Sides<H>(hash: H, branch: seq<H>, index: int): (H, H)
    requires branch != []
  {
    if index % 2 == 1 then (branch[0], hash) else (hash, branch[0])
  }

  /** At some level of two branches, two different pairs of hashes combine to the same hash. */
  ghost predicate Clash<H>(hs: Hasher<H>, a: H, b: H, x: seq<H>, y: seq<H>, index: int)
    requires |x| == |y|
    decreases |x|
  {
    x != [] &&
    var p, q := Sides(a, x, index), Sides(b, y, index);
    var a', b' := hs.combine(p.0, p.1), hs.combine(q.0, q.1);
    Collision(hs, p, q) || Clash(hs, a', b', x[1..], y[1..], index / 2)
  }

  /** For one index and one length, the root determines leaf and branch, or else the branches exhibit a collision. */
  lemma {:induction false} BranchDetermines<H>(hs: Hasher<H>, a: H, b: H, x: seq<H>, y: seq<H>, index: int)
    requires |x| == |y| && BranchRoot(hs, a, x, index) == BranchRoot(hs, b, y, index)
    ensures (a == b && x == y) || Clash(hs, a, b, x, y, index)
    decreases |x|
  {
    if x != [] {
      var p, q := Sides(a, x, index), Sides(b, y, index);
      BranchDetermines(hs, hs.combine(p.0, p.1), hs.combine(q.0, q.1), x[1..], y[1..], index / 2);
      assert x == [x[0]] + x[1..] && y == [y[0]] + y[1..];
    }
  }

  /** With a hash that has no collisions there is no clash. */
  lemma {:induction false} NoClash<H(!new)>(hs: Hasher<H>, a: H, b: H, x: seq<H>, y: seq<H>, index: int)
    requires Injective(hs) && |x| == |y|
    ensures !Clash(hs, a, b, x, y, index)
    decreases |x|
  {
    if x != [] {
      var p, q := Sides(a, x, index), Sides(b, y, index);
      NoClash(hs, hs.combine(p.0, p.1), hs.combine(q.0, q.1), x[1..], y[1..], index / 2);
    }
  }

  /** The branch of a leaf in a tree with 2^h leaves. */
  function BranchOf<H>(hs: Hasher<H>, leaves: seq<H>, h: nat, level: nat, pos: nat): seq<H>
    requires level <= h && |leaves| == Pow2(h) && InTree(|leaves|, level, pos) && pos < Pow2(h - level)
    decreases h - level
  {
    if level == h then []
    else
      Sibling(leaves, h, level, pos);
      [CalcHash(hs, leaves, level, if pos % 2 == 1 then pos - 1 else pos + 1)] + BranchOf(hs, leaves, h, level + 1, pos / 2)
  }

  lemma Sibling<H>(leaves: seq<H>, h: nat, level: nat, pos: nat)
    requires level < h && |leaves| == Pow2(h) && pos < Pow2(h - level)
    ensures pos / 2 < Pow2(h - level - 1) && InTree(|leaves|, level + 1, pos / 2)
    ensures InTree(|leaves|, level, pos) && InTree(|leaves|, level, if pos % 2 == 1 then pos - 1 else pos + 1)
  {
    InFullTree(h, level, pos);
    InFullTree(h, level, if pos % 2 == 1 then pos - 1 else pos + 1);
    InFullTree(h, level + 1, pos / 2);
  }

  lemma InFullTree(h: nat, level: nat, pos: nat)
    requires level <= h && pos < Pow2(h - level)
    ensures InTree(Pow2(h), level, pos)
  {
    FirstIsShift(level, pos);
    Pow2Add(level, h - level);
    MulMono(Pow2(level), pos + 1, Pow2(h - level));
    Distribute(Pow2(level), pos, 1);
  }

  /** The branch of a leaf leads to the root of its tree. */
  lemma {:induction false} BranchLeadsToRoot<H>(hs: Hasher<H>, leaves: seq<H>, h: nat, level: nat, pos: nat)
    requires level <= h && |leaves| == Pow2(h) && InTree(|leaves|, level, pos) && pos < Pow2(h - level)
    ensures InTree(|leaves|, h, 0)
    ensures BranchRoot(hs, CalcHash(hs, leaves, level, pos), BranchOf(hs, leaves, h, level, pos), pos) == CalcHash(hs, leaves, h, 0)
    decreases h - level
  {
    InFullTree(h, h, 0);
    if level < h {
      Sibling(leaves, h, level, pos);
      BranchLeadsToRoot(hs, leaves, h, level + 1, pos / 2);
      var branch := BranchOf(hs, leaves, h, level, pos);
      assert branch[1..] == BranchOf(hs, leaves, h, level + 1, pos / 2);
    }
  }

  // ---------------------------------------------------------------- scripts

  predicate MatchesAt(s: seq<Byte>, k: nat, pattern: seq<Byte>) {
    k + |pattern| <= |s| && s[k..k + |pattern|] == pattern
  }

  /** A pattern occurs exactly where it stands, at the end of a list as well. */
  lemma OccursIff(s: seq<Byte>, k: nat, pattern: seq<Byte>)
    ensures MatchesAt(s, k, pattern) <==> exists a: seq<Byte>, b: seq<Byte> :: |a| == k && s == a + pattern + b
  {
    if MatchesAt(s, k, pattern) {
      var a, b := s[..k], s[k + |pattern|..];
      assert |a| == k && s == a + pattern + b;
    }
  }

  /** The first place from a given one on where a pattern occurs, or the end. */
  function Search(s: seq<Byte>, from: nat, pattern: seq<Byte>): (k: nat)
    requires from <= |s|
    ensures from <= k <= |s|
    ensures forall j :: from <= j < k ==> !MatchesAt(s, j, pattern)
    ensures k < |s| ==> MatchesAt(s, k, pattern)
    decreases |s| - from
  {
    if from == |s| || MatchesAt(s, from, pattern) then from else Search(s, from + 1, pattern)
  }

  function DecodeLE32(bytes: seq<Byte>): nat
    requires |bytes| == 4
  {
    var b0: int, b1: int, b2: int, b3: int := bytes[0], bytes[1], bytes[2], bytes[3];
    b0 + 0x100 * (b1 + 0x100 * (b2 + 0x100 * b3))
  }

  function Reversed(s: seq<Byte>): (r: seq<Byte>)
    ensures |r| == |s| && forall i :: 0 <= i < |s| ==> r[i] == s[|s| - 1 - i]
  {
    seq(|s|, i requires 0 <= i < |s| => s[|s| - 1 - i])
  }

  lemma ReversedInjective(a: Hash32, b: Hash32)
    requires Reversed(a) == Reversed(b)
    ensures a == b
  {
    forall i | 0 <= i < 32
      ensures a[i] == b[i]
    {
      assert Reversed(a)[31 - i] == Reversed(b)[31 - i];
    }
  }

  const HEADER: seq<Byte> := [0x4f, 0x53, 0x4d, 0x41]

  // ---------------------------------------------------------------- the check

  /** A proof of work on a parent block. */
  datatype AuxPow = AuxPow(
    coinbaseHash: Hash32,          // of the coinbase transaction of the parent block
    inputs: seq<seq<Byte>>,        // the scripts of its inputs
    branch: seq<Hash32>,           // from the coinbase to the parent's Merkle root
    chainBranch: seq<Hash32>,      // from our block to the root of merge-mined chains
    chainIndex: int,               // our place among them
    parentChainId: int,
    parentRoot: Hash32)

  /** The slot of a chain for a size and a nonce, in 64-bit arithmetic. */
  function ExpectedIndex(nonce: nat, chainId: int, h: nat): (r: nat)
    ensures r < Pow2(h)
  {
    var size := Pow2(h);
    var a := (nonce * 1103515245 + 12345) % 0x1_0000_0000_0000_0000 % size;
    var b := (a + chainId) % 0x1_0000_0000_0000_0000;
    (b * 1103515245 + 12345) % 0x1_0000_0000_0000_0000 % size
  }

  function CheckedRoot(hs: Hasher<Hash32>, hash: Hash32, branch: seq<Hash32>, index: int): Hash32 {
    if index == -1 then hs.zero else BranchRoot(hs, hash, branch, index)
  }

  /** Where the chain's root is accepted in a script: right behind the only header, or early without one. */
  predicate RootInPlace(script: seq<Byte>, pc: nat)
    requires pc <= |script|
  {
    var head := Search(script, 0, HEADER);
    && pc < |script|
    && if head < |script| then Search(script, head + 1, HEADER) == |script| && head + |HEADER| == pc
       else pc <= 20
  }

  /** What follows the root: the size of the tree, and the nonce that fixes our slot in it. */
  predicate SlotIsRight(script: seq<Byte>, pc: nat, height: nat, chainIndex: int, chainId: int)
    requires pc + 32 <= |script|
  {
    && |script| - (pc + 32) >= 8
    && DecodeLE32(script[pc + 32..pc + 36]) == Pow2(height)
    && chainIndex == ExpectedIndex(DecodeLE32(script[pc + 36..pc + 40]), chainId, height)
  }

  predicate Check(hs: Hasher<Hash32>, p: AuxPow, hashAuxBlock: Hash32, chainId: int, strictChainId: bool) {
    && !(strictChainId && p.parentChainId == chainId)
    && |p.chainBranch| <= 30
    && CheckedRoot(hs, p.coinbaseHash, p.branch, 0) == p.parentRoot
    && p.inputs != []
    && var script := p.inputs[0];
       var pc := Search(script, 0, Reversed(CheckedRoot(hs, hashAuxBlock, p.chainBranch, p.chainIndex)));
       RootInPlace(script, pc) && SlotIsRight(script, pc, |p.chainBranch|, p.chainIndex, chainId)
  }

  lemma {:induction false} Pow2Injective(a: nat, b: nat)
    requires Pow2(a) == Pow2(b)
    ensures a == b
  {
    if a > 0 && b > 0 {
      Pow2Injective(a - 1, b - 1);
    }
  }

  /** Where the check finds the root of merge-mined chains in the coinbase. */
  function RootPlace(hs: Hasher<Hash32>, p: AuxPow, hash: Hash32): nat
    requires p.inputs != []
  {
    Search(p.inputs[0], 0, Reversed(CheckedRoot(hs, hash, p.chainBranch, p.chainIndex)))
  }

  /** Accepted at the same place in the same script, two hashes for one chain are equal, unless their branches clash. */
  lemma SamePlaceSameHash(hs: Hasher<Hash32>, p: AuxPow, q: AuxPow, a: Hash32, b: Hash32, chainId: int, strict: bool)
    requires Check(hs, p, a, chainId, strict) && Check(hs, q, b, chainId, strict)
    requires p.inputs[0] == q.inputs[0] && RootPlace(hs, p, a) == RootPlace(hs, q, b)
    ensures |p.chainBranch| == |q.chainBranch| && p.chainIndex == q.chainIndex
    ensures (a == b && p.chainBranch == q.chainBranch) || Clash(hs, a, b, p.chainBranch, q.chainBranch, p.chainIndex)
  {
    Pow2Injective(|p.chainBranch|, |q.chainBranch|);
    ReversedInjective(CheckedRoot(hs, a, p.chainBranch, p.chainIndex), CheckedRoot(hs, b, q.chainBranch, q.chainIndex));
    BranchDetermines(hs, a, b, p.chainBranch, q.chainBranch, p.chainIndex);
  }

  /**
   * Under one coinbase with a merged mining header, one hash at most is accepted for each chain, unless
   * the two branches exhibit a collision of the hash function.
   */
  lemma TaggedCoinbaseCommitsOnce(hs: Hasher<Hash32>, p: AuxPow, q: AuxPow, a: Hash32, b: Hash32, chainId: int, strict: bool)
    requires Check(hs, p, a, chainId, strict) && Check(hs, q, b, chainId, strict)
    requires p.inputs[0] == q.inputs[0] && Search(p.inputs[0], 0, HEADER) < |p.inputs[0]|
    ensures |p.chainBranch| == |q.chainBranch|
    ensures a == b || Clash(hs, a, b, p.chainBranch, q.chainBranch, p.chainIndex)
  {
    SamePlaceSameHash(hs, p, q, a, b, chainId, strict);
  }

  lemma DifferentPlaces(hs: Hasher<Hash32>, p: AuxPow, q: AuxPow, a: Hash32, b: Hash32, chainId: int, strict: bool)
    requires Check(hs, p, a, chainId, strict) && Check(hs, q, b, chainId, strict) && p.inputs[0] == q.inputs[0] && a != b
    requires |p.chainBranch| == |q.chainBranch| ==> !Clash(hs, a, b, p.chainBranch, q.chainBranch, p.chainIndex)
    ensures RootPlace(hs, p, a) != RootPlace(hs, q, b)
  {
    if RootPlace(hs, p, a) == RootPlace(hs, q, b) {
      SamePlaceSameHash(hs, p, q, a, b, chainId, strict);
    }
  }

  lemma EarlyPlace(hs: Hasher<Hash32>, p: AuxPow, a: Hash32, chainId: int, strict: bool)
    requires Check(hs, p, a, chainId, strict) && Search(p.inputs[0], 0, HEADER) == |p.inputs[0]|
    ensures RootPlace(hs, p, a) <= 20
  {}

  /** Proofs that are accepted for one chain under one coinbase. */
  ghost predicate AllAccepted(hs: Hasher<Hash32>, script: seq<Byte>, chainId: int, strict: bool, ps: seq<AuxPow>, hashes: seq<Hash32>) {
    && |ps| == |hashes|
    && forall i :: 0 <= i < |ps| ==> Check(hs, ps[i], hashes[i], chainId, strict) && ps[i].inputs[0] == script
  }

  ghost predicate NoneClash(hs: Hasher<Hash32>, ps: seq<AuxPow>, hashes: seq<Hash32>)
    requires |ps| == |hashes|
  {
    forall i, j :: 0 <= i < j < |ps| && |ps[i].chainBranch| == |ps[j].chainBranch| ==>
      !Clash(hs, hashes[i], hashes[j], ps[i].chainBranch, ps[j].chainBranch, ps[i].chainIndex)
  }

  /** Different numbers up to a bound are no more than the bound allows. */
  lemma DistinctBelow(places: seq<nat>, bound: nat)
    requires forall i :: 0 <= i < |places| ==> places[i] < bound
    requires Distinct(places)
    ensures |places| <= bound
  {
    var below, found := Below(bound), set x | x in places;
    DistinctCount(places, found);
    SubsetCount(found, below);
  }

  lemma {:induction false} SubsetCount(a: set<nat>, b: set<nat>)
    requires forall x :: x in a ==> x in b
    ensures |a| <= |b|
  {
    if |a| > 0 {
      var x := Pick(a);
      SubsetCount(a - {x}, b - {x});
    }
  }

  ghost function Below(n: nat): (s: set<nat>)
    ensures |s| == n && forall x: nat :: x in s <==> x < n
  {
    if n == 0 then {} else Below(n - 1) + {n - 1}
  }

  /** A coinbase without the header commits to at most 21 hashes for each chain, one for each early place. */
  lemma UntaggedCommitsToFew(hs: Hasher<Hash32>, script: seq<Byte>, chainId: int, strict: bool, ps: seq<AuxPow>, hashes: seq<Hash32>)
    requires AllAccepted(hs, script, chainId, strict, ps, hashes) && Search(script, 0, HEADER) == |script|
    requires Distinct(hashes) && NoneClash(hs, ps, hashes)
    ensures |hashes| <= 21
  {
    FewPlaces(hs, script, chainId, strict, ps, hashes, seq(|ps|, i requires 0 <= i < |ps| => RootPlace(hs, ps[i], hashes[i])));
  }

  lemma FewPlaces(hs: Hasher<Hash32>, script: seq<Byte>, chainId: int, strict: bool, ps: seq<AuxPow>, hashes: seq<Hash32>,
                  places: seq<nat>)
    requires AllAccepted(hs, script, chainId, strict, ps, hashes) && Search(script, 0, HEADER) == |script|
    requires Distinct(hashes) && NoneClash(hs, ps, hashes)
    requires |places| == |ps| && forall i :: 0 <= i < |ps| ==> places[i] == RootPlace(hs, ps[i], hashes[i])
    ensures |places| <= 21
  {
    forall i | 0 <= i < |places|
      ensures places[i] < 21
    {
      EarlyPlace(hs, ps[i], hashes[i], chainId, strict);
    }
    forall i, j | 0 <= i < j < |places|
      ensures places[i] != places[j]
    {
      assert hashes[i] != hashes[j] && ps[i].inputs[0] == script == ps[j].inputs[0];
      DifferentPlaces(hs, ps[i], ps[j], hashes[i], hashes[j], chainId, strict);
    }
    DistinctBelow(places, 21);
  }

  // ---------------------------------------------------------------- the parent block

  /** One parent root has one coinbase for each length of branch, unless the two branches exhibit a collision. */
  lemma OneCoinbase(hs: Hasher<Hash32>, p: AuxPow, q: AuxPow, a: Hash32, b: Hash32, m: int, n: int, strict: bool)
    requires Check(hs, p, a, m, strict) && Check(hs, q, b, n, strict)
    requires p.parentRoot == q.parentRoot && |p.branch| == |q.branch|
    ensures (p.coinbaseHash == q.coinbaseHash && p.branch == q.branch) || Clash(hs, p.coinbaseHash, q.coinbaseHash, p.branch, q.branch, 0)
  {
    BranchDetermines(hs, p.coinbaseHash, q.coinbaseHash, p.branch, q.branch, 0);
  }

  /** In particular the coinbase of an accepted proof is the first transaction of its parent block, or there is a collision. */
  lemma CoinbaseIsFirst(hs: Hasher<Hash32>, p: AuxPow, a: Hash32, chainId: int, strict: bool, txids: seq<Hash32>, h: nat)
    requires Check(hs, p, a, chainId, strict) && |p.branch| == h && |txids| == Pow2(h)
    requires InTree(|txids|, h, 0) && p.parentRoot == CalcHash(hs, txids, h, 0)
    ensures InTree(|txids|, 0, 0) && |BranchOf(hs, txids, h, 0, 0)| == h
    ensures p.coinbaseHash == txids[0] || Clash(hs, p.coinbaseHash, txids[0], p.branch, BranchOf(hs, txids, h, 0, 0), 0)
  {
    InFullTree(h, 0, 0);
    BranchLeadsToRoot(hs, txids, h, 0, 0);
    BranchLength(hs, txids, h, 0, 0);
    BranchDetermines(hs, p.coinbaseHash, txids[0], p.branch, BranchOf(hs, txids, h, 0, 0), 0);
  }

  lemma {:induction false} BranchLength<H>(hs: Hasher<H>, leaves: seq<H>, h: nat, level: nat, pos: nat)
    requires level <= h && |leaves| == Pow2(h) && InTree(|leaves|, level, pos) && pos < Pow2(h - level)
    ensures |BranchOf(hs, leaves, h, level, pos)| == h - level
    decreases h - level
  {
    if level < h {
      Sibling(leaves, h, level, pos);
      BranchLength(hs, leaves, h, level + 1, pos / 2);
    }
  }

  /** A parent that claims our chain is refused where that is not allowed, and so is a tree of more than 2^30 chains. */
  lemma ParentRefused(hs: Hasher<Hash32>, p: AuxPow, a: Hash32, chainId: int)
    ensures p.parentChainId == chainId ==> !Check(hs, p, a, chainId, true)
    ensures p.parentChainId != chainId ==> (Check(hs, p, a, chainId, true) <==> Check(hs, p, a, chainId, false))
    ensures |p.chainBranch| > 30 || p.inputs == [] ==> !Check(hs, p, a, chainId, false)
  {
  }

  // ---------------------------------------------------------------- the coinbase script

  lemma {:induction false} SearchFinds(s: seq<Byte>, from: nat, pattern: seq<Byte>, k: nat)
    requires from <= k < |s| && MatchesAt(s, k, pattern)
    ensures Search(s, from, pattern) <= k
    decreases |s| - from
  {
    if from < k && !MatchesAt(s, from, pattern) {
      SearchFinds(s, from + 1, pattern, k);
    }
  }

  /** The header occurs at most once in a script, and right before a given place if it does. */
  ghost predicate HeaderBefore(script: seq<Byte>, place: nat) {
    forall k :: 0 <= k < |script| && MatchesAt(script, k, HEADER) ==> k + 4 == place
  }

  ghost predicate HasHeader(script: seq<Byte>) {
    exists k :: 0 <= k < |script| && MatchesAt(script, k, HEADER)
  }

  /**
   * What an accepted coinbase script holds: the root of the merge-mined chains, for the first time, right behind the
   * only header or within the first 21 places; then the size of the tree, and the nonce from which our slot follows.
   */
  lemma ScriptCommits(hs: Hasher<Hash32>, p: AuxPow, a: Hash32, chainId: int, strict: bool)
    requires Check(hs, p, a, chainId, strict)
    ensures p.inputs != []
    ensures var script, place := p.inputs[0], RootPlace(hs, p, a);
            var root := Reversed(CheckedRoot(hs, a, p.chainBranch, p.chainIndex));
            && place + 40 <= |script| && script[place..place + 32] == root
            && (forall k :: 0 <= k < place ==> !MatchesAt(script, k, root))
            && HeaderBefore(script, place) && (!HasHeader(script) ==> place <= 20)
            && LE32(Pow2(|p.chainBranch|)) == script[place + 32..place + 36]
            && p.chainIndex == ExpectedIndex(DecodeLE32(script[place + 36..place + 40]), chainId, |p.chainBranch|)
  {
    var script, place := p.inputs[0], RootPlace(hs, p, a);
    var head := Search(script, 0, HEADER);
    forall k | 0 <= k < |script| && MatchesAt(script, k, HEADER)
      ensures k + 4 == place && HasHeader(script)
    {
      SearchFinds(script, 0, HEADER, k);
    }
    if head < |script| {
      assert MatchesAt(script, head, HEADER);
    }
    DecodedLE32(script[place + 32..place + 36]);
  }

  /** Four bytes of a number, the lowest first. */
  function LE32(n: nat): (bytes: seq<Byte>)
    ensures |bytes| == 4
  {
    var n1 := n / 0x100;
    var n2 := n1 / 0x100;
    [n % 0x100, n1 % 0x100, n2 % 0x100, n2 / 0x100 % 0x100]
  }

  lemma ByteOff(b: int, rest: int)
    requires 0 <= b < 0x100
    ensures (b + 0x100 * rest) % 0x100 == b && (b + 0x100 * rest) / 0x100 == rest
  {
  }

  lemma DecodedLE32(bytes: seq<Byte>)
    requires |bytes| == 4
    ensures LE32(DecodeLE32(bytes)) == bytes
  {
    var b0: int, b1: int, b2: int, b3: int := bytes[0], bytes[1], bytes[2], bytes[3];
    ByteOff(b2, b3);
    ByteOff(b1, b2 + 0x100 * b3);
    ByteOff(b0, b1 + 0x100 * (b2 + 0x100 * b3));
  }

  lemma EncodedLE32(n: nat)
    requires n < 0x1_0000_0000
    ensures DecodeLE32(LE32(n)) == n
  {
  }

  // ---------------------------------------------------------------- the check can be met

  lemma NotAlike(s: seq<Byte>, k: nat, pattern: seq<Byte>)
    requires pattern != [] && k < |s| && s[k] != pattern[0]
    ensures !MatchesAt(s, k, pattern)
  {
    if k + |pattern| <= |s| {
      assert s[k..k + |pattern|][0] == s[k];
    }
  }

  /** A pattern is found at a place where it occurs, if none of those before starts like it. */
  lemma FoundAt(s: seq<Byte>, from: nat, k: nat, pattern: seq<Byte>)
    requires from <= k <= |s| && pattern != [] && (k < |s| ==> MatchesAt(s, k, pattern))
    requires forall j :: from <= j < k ==> s[j] != pattern[0]
    ensures Search(s, from, pattern) == k
    decreases k - from
  {
    if from < k {
      NotAlike(s, from, pattern);
      FoundAt(s, from + 1, k, pattern);
    }
  }

  /** The coinbase script of a tree with one leaf: the header, the leaf, a size of 1 and a nonce of 0. */
  function SmallScript(root: Hash32): (script: seq<Byte>)
    ensures |script| == 44 && script[..4] == HEADER && script[4..36] == Reversed(root)
    ensures DecodeLE32(script[36..40]) == 1 && DecodeLE32(script[40..44]) == 0
    ensures forall j :: 36 <= j < 44 ==> script[j] != HEADER[0]
  {
    HEADER + Reversed(root) + [1, 0, 0, 0, 0, 0, 0, 0]
  }

  /** Any hash without the first byte of the header is accepted for any chain, with a coinbase that names it alone. */
  lemma SmallTreeAccepted(hs: Hasher<Hash32>, a: Hash32, coinbase: Hash32, chainId: int)
    requires forall i :: 0 <= i < 32 ==> a[i] !in HEADER
    ensures Check(hs, AuxPow(coinbase, [SmallScript(a)], [], [], 0, chainId, coinbase), a, chainId, false)
  {
    var script := SmallScript(a);
    var root := Reversed(a);
    assert forall j :: 4 <= j < 36 ==> script[j] == script[4..36][j - 4];
    assert forall j :: 0 <= j < 4 ==> script[j] == script[..4][j];
    assert root[0] == a[31];
    assert script[0..4] == HEADER;
    FoundAt(script, 0, 0, HEADER);
    FoundAt(script, 1, 44, HEADER);
    FoundAt(script, 0, 4, root);
    assert ExpectedIndex(0, chainId, 0) == 0;
  }

  /** A coinbase script that commits to a root of 2^k chains. */
  function Script(prefix: seq<Byte>, root: Hash32, k: nat, nonce: nat, suffix: seq<Byte>): seq<Byte> {
    prefix + HEADER + Reversed(root) + LE32(Pow2(k)) + LE32(nonce) + suffix
  }

  lemma ScriptParts(prefix: seq<Byte>, root: Hash32, k: nat, nonce: nat, suffix: seq<Byte>)
    ensures var script, n := Script(prefix, root, k, nonce, suffix), |prefix|;
            && |script| >= n + 44 && script[n..n + 4] == HEADER && script[n + 4..n + 36] == Reversed(root)
            && script[n + 36..n + 40] == LE32(Pow2(k)) && script[n + 40..n + 44] == LE32(nonce)
  {
  }

  lemma SearchIs(s: seq<Byte>, from: nat, pattern: seq<Byte>, k: nat)
    requires from <= k <= |s| && (k < |s| ==> MatchesAt(s, k, pattern)) && forall j :: from <= j < k ==> !MatchesAt(s, j, pattern)
    ensures Search(s, from, pattern) == k
  {
    if k < |s| {
      SearchFinds(s, from, pattern, k);
    }
  }

  /** What a merged miner sends: branches in the parent's tree and in the tree of chains, and a coinbase that commits to it. */
  function Honest(hs: Hasher<Hash32>, txids: seq<Hash32>, h: nat, leaves: seq<Hash32>, k: nat, index: nat, script: seq<Byte>,
                  parentChainId: int): AuxPow
    requires |txids| == Pow2(h) && |leaves| == Pow2(k) && index < Pow2(k)
  {
    InFullTree(h, 0, 0);
    InFullTree(h, h, 0);
    InFullTree(k, 0, index);
    AuxPow(txids[0], [script], BranchOf(hs, txids, h, 0, 0), BranchOf(hs, leaves, k, 0, index), index, parentChainId,
           CalcHash(hs, txids, h, 0))
  }

  /**
   * Every honest proof is accepted: for the coinbase of any parent block, and any tree of at most 2^30 chains with the
   * hash in the slot of the chain, if the script has the header once and the root not before.
   */
  lemma HonestAccepted(hs: Hasher<Hash32>, txids: seq<Hash32>, h: nat, leaves: seq<Hash32>, k: nat, chainId: int, nonce: nat,
                       prefix: seq<Byte>, suffix: seq<Byte>, parentChainId: int, strict: bool)
    requires |txids| == Pow2(h) && |leaves| == Pow2(k) && k <= 30 && nonce < 0x1_0000_0000 && !(strict && parentChainId == chainId)
    requires InTree(|leaves|, k, 0)
    requires var root := CalcHash(hs, leaves, k, 0);
             var script := Script(prefix, root, k, nonce, suffix);
             && (forall j :: 0 <= j < |script| && MatchesAt(script, j, HEADER) ==> j == |prefix|)
             && (forall j :: 0 <= j < |prefix| + 4 ==> !MatchesAt(script, j, Reversed(root)))
    ensures var index := ExpectedIndex(nonce, chainId, k);
            var script := Script(prefix, CalcHash(hs, leaves, k, 0), k, nonce, suffix);
            Check(hs, Honest(hs, txids, h, leaves, k, index, script, parentChainId), leaves[index], chainId, strict)
  {
    var index := ExpectedIndex(nonce, chainId, k);
    var root := CalcHash(hs, leaves, k, 0);
    FromLeaf(hs, txids, h, 0);
    FromLeaf(hs, leaves, k, index);
    HonestScript(prefix, root, k, chainId, nonce, suffix);
    var script := Script(prefix, root, k, nonce, suffix);
    var p := Honest(hs, txids, h, leaves, k, index, script, parentChainId);
    PassesAll(hs, p, leaves[index], chainId, strict, root, script, |prefix| + 4);
  }

  lemma PassesAll(hs: Hasher<Hash32>, p: AuxPow, a: Hash32, chainId: int, strict: bool, root: Hash32, script: seq<Byte>, place: nat)
    requires !(strict && p.parentChainId == chainId) && |p.chainBranch| <= 30 && p.inputs == [script]
    requires CheckedRoot(hs, p.coinbaseHash, p.branch, 0) == p.parentRoot && CheckedRoot(hs, a, p.chainBranch, p.chainIndex) == root
    requires Search(script, 0, Reversed(root)) == place && place + 32 <= |script|
    requires RootInPlace(script, place) && SlotIsRight(script, place, |p.chainBranch|, p.chainIndex, chainId)
    ensures Check(hs, p, a, chainId, strict)
  {
  }

  /** The branch of a leaf leads to the root. */
  lemma FromLeaf(hs: Hasher<Hash32>, leaves: seq<Hash32>, k: nat, index: nat)
    requires |leaves| == Pow2(k) && index < Pow2(k)
    ensures InTree(|leaves|, 0, index) && InTree(|leaves|, k, 0) && |BranchOf(hs, leaves, k, 0, index)| == k
    ensures CheckedRoot(hs, leaves[index], BranchOf(hs, leaves, k, 0, index), index) == CalcHash(hs, leaves, k, 0)
  {
    InFullTree(k, 0, index);
    BranchLeadsToRoot(hs, leaves, k, 0, index);
    BranchLength(hs, leaves, k, 0, index);
  }

  lemma HonestScript(prefix: seq<Byte>, root: Hash32, k: nat, chainId: int, nonce: nat, suffix: seq<Byte>)
    requires k <= 30 && nonce < 0x1_0000_0000
    requires var script := Script(prefix, root, k, nonce, suffix);
             && (forall j :: 0 <= j < |script| && MatchesAt(script, j, HEADER) ==> j == |prefix|)
             && (forall j :: 0 <= j < |prefix| + 4 ==> !MatchesAt(script, j, Reversed(root)))
    ensures var script, place := Script(prefix, root, k, nonce, suffix), |prefix| + 4;
            && Search(script, 0, Reversed(root)) == place && place + 32 <= |script|
            && RootInPlace(script, place) && SlotIsRight(script, place, k, ExpectedIndex(nonce, chainId, k), chainId)
  {
    var script, n := Script(prefix, root, k, nonce, suffix), |prefix|;
    ScriptParts(prefix, root, k, nonce, suffix);
    SearchIs(script, 0, HEADER, n);
    SearchIs(script, n + 1, HEADER, |script|);
    SearchIs(script, 0, Reversed(root), n + 4);
    Pow2Small(k);
    EncodedLE32(Pow2(k));
    EncodedLE32(nonce);
  }

  lemma Pow2Small(k: nat)
    requires k <= 30
    ensures Pow2(k) < 0x1_0000_0000
  {
    assert Pow2(5) == 32;
    Pow2Add(5, 5);
    Pow2Add(10, 10);
    Pow2Add(20, 10);
    Pow2Mono(k, 30);
  }
}
