/**
 * Partial Merkle trees (src/merkleblock.h, src/merkleblock.cpp; section "Partial Merkle branch
 * format" of BIP 37): encoding a set of matched transactions, decoding it, and what a proof that
 * decodes to the root of a real list can claim.
 */
module PartialMerkle {
  import opened Arithmetic
  import opened Bits
  import opened Common

  /** The hash that combines two nodes, and the all-zero hash. */
  datatype Hasher<!H> = Hasher(combine: (H, H) -> H, zero: H)

  /** Two different pairs with the same hash. */
  predicate Collision<H(==)>(hs: Hasher<H>, p: (H, H), q: (H, H)) {
    p != q && hs.combine(p.0, p.1) == hs.combine(q.0, q.1)
  }

  ghost predicate Injective<H(!new)>(hs: Hasher<H>) {
    forall a, b, c, d :: hs.combine(a, b) == hs.combine(c, d) ==> a == c && b == d
  }

  // ---------------------------------------------------------------- shape of the tree

  /** The number of nodes at a height: half of those below, rounded up. */
  function Width(n: nat, h: nat): nat
    decreases h
  {
    if h == 0 then n else (Width(n, h - 1) + 1) / 2
  }

  /** The first leaf under a node. */
  function First(h: nat, pos: nat): nat
    decreases h
  {
    if h == 0 then pos else First(h - 1, 2 * pos)
  }

  /** A node is in the tree when its first leaf is. */
  predicate InTree(n: nat, h: nat, pos: nat) {
    First(h, pos) < n
  }

  lemma HalfQuotient(a: int, p: int)
    requires p > 0 && a >= 0
    ensures (a / p) / 2 == a / (2 * p)
  {
    var q := a / p;
    assert p * q <= a < p * q + p;
    MulMono(p, 2 * (q / 2), q);
    MulMono(p, q + 1, 2 * (q / 2) + 2);
    DivModIs(a, 2 * p, q / 2, a - (2 * p) * (q / 2));
  }

  lemma ShiftOne(a: int, p: int)
    requires p > 0 && a >= 0
    ensures (a + p) / p == a / p + 1
  {
    var q := a / p;
    assert p * q <= a < p * q + p;
    Distribute(p, q, 1);
    DivModIs(a + p, p, q + 1, a % p);
  }

  lemma HalfWidth(n: int, p: int)
    requires p > 0 && n >= 0
    ensures ((n + p - 1) / p + 1) / 2 == (n + 2 * p - 1) / (2 * p)
  {
    ShiftOne(n + p - 1, p);
    HalfQuotient(n + 2 * p - 1, p);
  }

  /** CalcTreeWidth computes the width by shifting. */
  lemma {:induction false} WidthIsShift(n: nat, h: nat)
    ensures Width(n, h) == (n + Pow2(h) - 1) / Pow2(h)
    decreases h
  {
    if h > 0 {
      WidthIsShift(n, h - 1);
      HalfWidth(n, Pow2(h - 1));
    }
  }

  lemma {:induction false} FirstIsShift(h: nat, pos: nat)
    ensures First(h, pos) == Pow2(h) * pos
    decreases h
  {
    if h > 0 {
      FirstIsShift(h - 1, 2 * pos);
      assert Pow2(h - 1) * (2 * pos) == (2 * Pow2(h - 1)) * pos;
    }
  }

  lemma {:induction false} FirstAscends(h: nat, pos: nat)
    ensures First(h, pos) < First(h, pos + 1)
    decreases h
  {
    if h > 0 {
      FirstAscends(h - 1, 2 * pos);
      FirstAscends(h - 1, 2 * pos + 1);
    }
  }

  /** A node is in the tree exactly when its position is within the width of its level. */
  lemma {:induction false} InTreeIff(n: nat, h: nat, pos: nat)
    ensures InTree(n, h, pos) <==> pos < Width(n, h)
    decreases h
  {
    if h > 0 {
      InTreeIff(n, h - 1, 2 * pos);
    }
  }

  /** The height of the tree: the first level with at most one node. */
  function HeightFrom(n: nat, h: nat): (r: nat)
    ensures Width(n, r) <= 1
    decreases Width(n, h)
  {
    if Width(n, h) > 1 then HeightFrom(n, h + 1) else h
  }

  // ---------------------------------------------------------------- hashes of nodes

  /** CalcHash: the hash of a node; at height 0 the transaction ids themselves. */
  function CalcHash<H>(hs: Hasher<H>, txids: seq<H>, h: nat, pos: nat): H
    requires InTree(|txids|, h, pos)
    decreases h
  {
    if h == 0 then
      txids[pos]
    else
      var left := CalcHash(hs, txids, h - 1, 2 * pos);
      var right := if InTree(|txids|, h - 1, 2 * pos + 1) then CalcHash(hs, txids, h - 1, 2 * pos + 1) else left;
      hs.combine(left, right)
  }

  /** The two hashes that a node combines. */
  function Children<H>(hs: Hasher<H>, txids: seq<H>, h: nat, pos: nat): (r: (H, H))
    requires h > 0 && InTree(|txids|, h, pos)
    ensures CalcHash(hs, txids, h, pos) == hs.combine(r.0, r.1)
  {
    var left := CalcHash(hs, txids, h - 1, 2 * pos);
    (left, if InTree(|txids|, h - 1, 2 * pos + 1) then CalcHash(hs, txids, h - 1, 2 * pos + 1) else left)
  }

  /** Two nodes of one level, or their first descendants on a lower one, exhibit a collision. */
  predicate NodesClash<H(==)>(hs: Hasher<H>, txids: seq<H>, h: nat, a: nat, b: nat)
    requires InTree(|txids|, h, a) && InTree(|txids|, h, b)
    decreases h
  {
    h > 0 && (Collision(hs, Children(hs, txids, h, a), Children(hs, txids, h, b)) || NodesClash(hs, txids, h - 1, 2 * a, 2 * b))
  }

  /** Two nodes of one level have different hashes if the transaction ids differ, or else exhibit a collision. */
  lemma {:induction false} NodesDiffer<H>(hs: Hasher<H>, txids: seq<H>, h: nat, a: nat, b: nat)
    requires Distinct(txids) && a < b && InTree(|txids|, h, a) && InTree(|txids|, h, b)
    ensures CalcHash(hs, txids, h, a) != CalcHash(hs, txids, h, b) || NodesClash(hs, txids, h, a, b)
    decreases h
  {
    if h > 0 {
      NodesDiffer(hs, txids, h - 1, 2 * a, 2 * b);
    }
  }

  /** Some pair of siblings below a node exhibits a collision. */
  predicate SiblingsClash<H(==)>(hs: Hasher<H>, txids: seq<H>, h: nat, pos: nat)
    requires InTree(|txids|, h, pos)
    decreases h
  {
    && h > 0
    && (|| SiblingsClash(hs, txids, h - 1, 2 * pos)
        || (InTree(|txids|, h - 1, 2 * pos + 1)
            && (NodesClash(hs, txids, h - 1, 2 * pos, 2 * pos + 1) || SiblingsClash(hs, txids, h - 1, 2 * pos + 1))))
  }

  /** A hash without collisions exhibits none. */
  lemma {:induction false} NoSiblingsClash<H(!new)>(hs: Hasher<H>, txids: seq<H>, h: nat, pos: nat)
    requires Injective(hs) && InTree(|txids|, h, pos)
    ensures !SiblingsClash(hs, txids, h, pos)
    decreases h
  {
    if h > 0 {
      NoSiblingsClash(hs, txids, h - 1, 2 * pos);
      if InTree(|txids|, h - 1, 2 * pos + 1) {
        NoSiblingsClash(hs, txids, h - 1, 2 * pos + 1);
        NoNodesClash(hs, txids, h - 1, 2 * pos, 2 * pos + 1);
      }
    }
  }

  lemma {:induction false} NoNodesClash<H(!new)>(hs: Hasher<H>, txids: seq<H>, h: nat, a: nat, b: nat)
    requires Injective(hs) && InTree(|txids|, h, a) && InTree(|txids|, h, b)
    ensures !NodesClash(hs, txids, h, a, b)
    decreases h
  {
    if h > 0 {
      NoNodesClash(hs, txids, h - 1, 2 * a, 2 * b);
    }
  }

  // ---------------------------------------------------------------- building

  /** Whether any leaf from lo up to hi is matched. */
  predicate AnyMatch(m: seq<bool>, lo: nat, hi: nat) {
    exists p :: lo <= p < hi && p < |m| && m[p]
  }

  /** The matched leaves from lo up to hi, with their positions, in order. */
  function Matched<H>(txids: seq<H>, m: seq<bool>, lo: nat, hi: nat): seq<(H, nat)>
    requires |txids| == |m|
    decreases hi
  {
    if hi <= lo then []
    else Matched(txids, m, lo, hi - 1) + if hi - 1 < |m| && m[hi - 1] then [(txids[hi - 1], hi - 1)] else []
  }

  lemma {:induction false} MatchedSplit<H>(txids: seq<H>, m: seq<bool>, lo: nat, mid: nat, hi: nat)
    requires |txids| == |m| && lo <= mid <= hi
    ensures Matched(txids, m, lo, mid) + Matched(txids, m, mid, hi) == Matched(txids, m, lo, hi)
    decreases hi
  {
    if mid < hi {
      MatchedSplit(txids, m, lo, mid, hi - 1);
    }
  }

  lemma {:induction false} MatchedNone<H>(txids: seq<H>, m: seq<bool>, lo: nat, hi: nat)
    requires |txids| == |m| && (!AnyMatch(m, lo, hi) || lo >= |m|)
    ensures Matched(txids, m, lo, hi) == []
    decreases hi
  {
    if lo < hi {
      MatchedNone(txids, m, lo, hi - 1);
    }
  }

  function Flag(m: seq<bool>, h: nat, pos: nat): bool {
    AnyMatch(m, First(h, pos), First(h, pos + 1))
  }

  /** What a subtree contributes to a proof, what is matched in it, and its hash. */
  datatype Part<H> = Part(bits: seq<bool>, hashes: seq<H>, matched: seq<(H, nat)>, hash: H)

  /** The part of a node that is descended into. */
  function Join<H>(hs: Hasher<H>, l: Part<H>, r: Part<H>): Part<H> {
    Part([true] + (l.bits + r.bits), l.hashes + r.hashes, l.matched + r.matched, hs.combine(l.hash, r.hash))
  }

  /** The bits and hashes that TraverseAndBuild appends for a node. */
  function Build<H>(hs: Hasher<H>, txids: seq<H>, m: seq<bool>, h: nat, pos: nat): Part<H>
    requires |txids| == |m| && InTree(|txids|, h, pos)
    decreases h
  {
    var f := Flag(m, h, pos);
    if h == 0 then Part([f], [txids[pos]], if f then [(txids[pos], pos)] else [], txids[pos])
    else
      var l := Build(hs, txids, m, h - 1, 2 * pos);
      var two := InTree(|txids|, h - 1, 2 * pos + 1);
      var r := if two then Build(hs, txids, m, h - 1, 2 * pos + 1) else Part([], [], [], l.hash);
      if f then Join(hs, l, r)
      else var hash := hs.combine(l.hash, r.hash); Part([false], [hash], [], hash)
  }

  lemma {:induction false} BuildHash<H>(hs: Hasher<H>, txids: seq<H>, m: seq<bool>, h: nat, pos: nat)
    requires |txids| == |m| && InTree(|txids|, h, pos)
    ensures Build(hs, txids, m, h, pos).hash == CalcHash(hs, txids, h, pos)
    decreases h
  {
    if h > 0 {
      BuildHash(hs, txids, m, h - 1, 2 * pos);
      if InTree(|txids|, h - 1, 2 * pos + 1) {
        BuildHash(hs, txids, m, h - 1, 2 * pos + 1);
      }
    }
  }

  /** What is matched below a node: exactly the matched leaves, in order, with their positions. */
  lemma {:induction false} BuildMatched<H>(hs: Hasher<H>, txids: seq<H>, m: seq<bool>, h: nat, pos: nat)
    requires |txids| == |m| && InTree(|txids|, h, pos)
    ensures Build(hs, txids, m, h, pos).matched == Matched(txids, m, First(h, pos), First(h, pos + 1))
    decreases h
  {
    if !Flag(m, h, pos) {
      MatchedNone(txids, m, First(h, pos), First(h, pos + 1));
    } else if h == 0 {
      assert Matched(txids, m, pos, pos) == [];
    } else {
      var lo, mid, hi := First(h, pos), First(h - 1, 2 * pos + 1), First(h, pos + 1);
      FirstAscends(h - 1, 2 * pos);
      FirstAscends(h - 1, 2 * pos + 1);
      MatchedSplit(txids, m, lo, mid, hi);
      BuildMatched(hs, txids, m, h - 1, 2 * pos);
      if InTree(|txids|, h - 1, 2 * pos + 1) {
        BuildMatched(hs, txids, m, h - 1, 2 * pos + 1);
      } else {
        MatchedNone(txids, m, mid, hi);
      }
    }
  }

  // ---------------------------------------------------------------- extracting

  /** What a proof consists of. */
  datatype Proof<H> = Proof(n: nat, bits: seq<bool>, hashes: seq<H>)

  /** Cursors into a proof, the failure flag and the matches found so far. */
  datatype Cursor<H> = Cursor(bitsUsed: nat, hashUsed: nat, bad: bool, found: seq<(H, nat)>)

  /** TraverseAndExtract. */
  function Extract<H(==)>(hs: Hasher<H>, t: Proof<H>, h: nat, pos: nat, c: Cursor<H>): (Cursor<H>, H)
    decreases h
  {
    if c.bitsUsed >= |t.bits| then (c.(bad := true), hs.zero)
    else
      var flag := t.bits[c.bitsUsed];
      var c1 := c.(bitsUsed := c.bitsUsed + 1);
      if h == 0 || !flag then
        if c1.hashUsed >= |t.hashes| then (c1.(bad := true), hs.zero)
        else
          var hash := t.hashes[c1.hashUsed];
          var c2 := c1.(hashUsed := c1.hashUsed + 1);
          (if h == 0 && flag then c2.(found := c2.found + [(hash, pos)]) else c2, hash)
      else
        var (cl, left) := Extract(hs, t, h - 1, 2 * pos, c1);
        if InTree(t.n, h - 1, 2 * pos + 1) then
          var (cr, right) := Extract(hs, t, h - 1, 2 * pos + 1, cl);
          (if right == left then cr.(bad := true) else cr, hs.combine(left, right))
        else
          (cl, hs.combine(left, left))
  }

  /** ExtractMatches: the root, or the zero hash where the source refuses the proof, and the matches. */
  function ExtractMatches<H(==)>(hs: Hasher<H>, t: Proof<H>, bad: bool, maxTransactions: nat): (H, seq<(H, nat)>) {
    if t.n == 0 || t.n > maxTransactions || |t.hashes| > t.n || |t.bits| < |t.hashes| then (hs.zero, [])
    else
      var (c, root) := Extract(hs, t, HeightFrom(t.n, 0), 0, Cursor(0, 0, bad, []));
      if c.bad || (c.bitsUsed + 7) / 8 != (|t.bits| + 7) / 8 || c.hashUsed != |t.hashes| then (hs.zero, c.found)
      else (root, c.found)
  }

  // ---------------------------------------------------------------- soundness

  /** The matches are only appended to, and the failure flag is never taken back. */
  lemma {:induction false} ExtractAppends<H>(hs: Hasher<H>, t: Proof<H>, h: nat, pos: nat, c: Cursor<H>)
    ensures var c' := Extract(hs, t, h, pos, c).0;
            c.found <= c'.found && (c.bad ==> c'.bad)
    decreases h
  {
    if c.bitsUsed < |t.bits| && h > 0 && t.bits[c.bitsUsed] {
      var c1 := c.(bitsUsed := c.bitsUsed + 1);
      ExtractAppends(hs, t, h - 1, 2 * pos, c1);
      if InTree(t.n, h - 1, 2 * pos + 1) {
        ExtractAppends(hs, t, h - 1, 2 * pos + 1, Extract(hs, t, h - 1, 2 * pos, c1).0);
      }
    }
  }

  /** A claimed match is true of a list of transaction ids. */
  predicate TrueOf<H(==)>(txids: seq<H>, claim: (H, nat)) {
    claim.1 < |txids| && txids[claim.1] == claim.0
  }

  ghost predicate AllTrue<H>(txids: seq<H>, claims: seq<(H, nat)>) {
    forall k :: 0 <= k < |claims| ==> TrueOf(txids, claims[k])
  }

  /** At some node that the proof descends into, its two hashes and those of the list are a collision. */
  ghost predicate Forged<H>(hs: Hasher<H>, txids: seq<H>, t: Proof<H>, h: nat, pos: nat, c: Cursor<H>)
    requires InTree(|txids|, h, pos)
    decreases h
  {
    h > 0 && c.bitsUsed < |t.bits| && t.bits[c.bitsUsed] &&
    var c1 := c.(bitsUsed := c.bitsUsed + 1);
    var (cl, left) := Extract(hs, t, h - 1, 2 * pos, c1);
    var two := InTree(|txids|, h - 1, 2 * pos + 1);
    var right := if two then Extract(hs, t, h - 1, 2 * pos + 1, cl).1 else left;
    || Collision(hs, (left, right), Children(hs, txids, h, pos))
    || Forged(hs, txids, t, h - 1, 2 * pos, c1)
    || (two && Forged(hs, txids, t, h - 1, 2 * pos + 1, cl))
  }

  /** Below a node whose hash is right every claim is true, whatever the proof consists of, or else it holds a collision. */
  lemma {:induction false} NodeSound<H>(hs: Hasher<H>, txids: seq<H>, t: Proof<H>, h: nat, pos: nat, c: Cursor<H>)
    requires t.n == |txids| && InTree(|txids|, h, pos) && AllTrue(txids, c.found)
    requires !Extract(hs, t, h, pos, c).0.bad && Extract(hs, t, h, pos, c).1 == CalcHash(hs, txids, h, pos)
    ensures AllTrue(txids, Extract(hs, t, h, pos, c).0.found) || Forged(hs, txids, t, h, pos, c)
    decreases h
  {
    if h > 0 && t.bits[c.bitsUsed] && !Forged(hs, txids, t, h, pos, c) {
      var c1 := c.(bitsUsed := c.bitsUsed + 1);
      var cl := Extract(hs, t, h - 1, 2 * pos, c1).0;
      if InTree(t.n, h - 1, 2 * pos + 1) {
        ExtractAppends(hs, t, h - 1, 2 * pos + 1, cl);
        NodeSound(hs, txids, t, h - 1, 2 * pos, c1);
        NodeSound(hs, txids, t, h - 1, 2 * pos + 1, cl);
      } else {
        NodeSound(hs, txids, t, h - 1, 2 * pos, c1);
      }
    }
  }

  /** A hash without collisions admits no forgery. */
  lemma {:induction false} NotForged<H(!new)>(hs: Hasher<H>, txids: seq<H>, t: Proof<H>, h: nat, pos: nat, c: Cursor<H>)
    requires Injective(hs) && InTree(|txids|, h, pos)
    ensures !Forged(hs, txids, t, h, pos, c)
    decreases h
  {
    if h > 0 && c.bitsUsed < |t.bits| && t.bits[c.bitsUsed] {
      var c1 := c.(bitsUsed := c.bitsUsed + 1);
      NotForged(hs, txids, t, h - 1, 2 * pos, c1);
      if InTree(|txids|, h - 1, 2 * pos + 1) {
        NotForged(hs, txids, t, h - 1, 2 * pos + 1, Extract(hs, t, h - 1, 2 * pos, c1).0);
      }
    }
  }

  lemma {:induction false} RootInTree(n: nat, h: nat)
    requires n > 0
    ensures First(h, 0) == 0 && InTree(n, h, 0)
    decreases h
  {
    if h > 0 {
      RootInTree(n, h - 1);
    }
  }

  /** The Merkle root of a list. */
  function Root<H>(hs: Hasher<H>, txids: seq<H>): H
    requires txids != []
  {
    RootInTree(|txids|, HeightFrom(|txids|, 0));
    CalcHash(hs, txids, HeightFrom(|txids|, 0), 0)
  }

  /**
   * Soundness: any proof, honest or not, that extracts to the root of a list of the same length
   * claims only transactions that are in that list, at the positions that it claims, or else it
   * exhibits two different pairs with the same hash.
   */
  lemma ExtractSound<H>(hs: Hasher<H>, txids: seq<H>, t: Proof<H>, bad: bool, maxTransactions: nat)
    requires txids != [] && t.n == |txids| && Root(hs, txids) != hs.zero
    requires ExtractMatches(hs, t, bad, maxTransactions).0 == Root(hs, txids)
    ensures var h := HeightFrom(t.n, 0);
            && InTree(t.n, h, 0)
            && (|| AllTrue(txids, ExtractMatches(hs, t, bad, maxTransactions).1)
                || Forged(hs, txids, t, h, 0, Cursor(0, 0, bad, [])))
  {
    RootInTree(t.n, HeightFrom(t.n, 0));
    NodeSound(hs, txids, t, HeightFrom(t.n, 0), 0, Cursor(0, 0, bad, []));
  }

  // ---------------------------------------------------------------- round trip

  /** A sequence continues with a given part from a given index. */
  ghost predicate HasAt<T>(s: seq<T>, i: nat, part: seq<T>) {
    i + |part| <= |s| && s[i..i + |part|] == part
  }

  lemma HasAtSplit<T>(s: seq<T>, i: nat, a: seq<T>, b: seq<T>)
    requires HasAt(s, i, a + b)
    ensures HasAt(s, i, a) && HasAt(s, i + |a|, b)
  {
    assert s[i..i + |a|] == s[i..i + |a + b|][..|a|];
    assert s[i + |a|..i + |a| + |b|] == s[i..i + |a + b|][|a|..];
  }

  lemma HasAtHead<T>(s: seq<T>, i: nat, x: T, b: seq<T>)
    requires HasAt(s, i, [x] + b)
    ensures i < |s| && s[i] == x && HasAt(s, i + 1, b)
  {
    assert s[i] == s[i..i + |[x] + b|][0];
    HasAtSplit(s, i, [x], b);
  }

  /** From this node extraction uses up exactly what was built for it, and finds its matches and its hash. */
  ghost predicate Recovers<H>(hs: Hasher<H>, t: Proof<H>, h: nat, pos: nat, c: Cursor<H>, b: Part<H>) {
    Extract(hs, t, h, pos, c)
    == (Cursor(c.bitsUsed + |b.bits|, c.hashUsed + |b.hashes|, false, c.found + b.matched), b.hash)
  }

  /** A proof continues, from a cursor, with a part. */
  ghost predicate Continues<H>(t: Proof<H>, c: Cursor<H>, b: Part<H>) {
    !c.bad && HasAt(t.bits, c.bitsUsed, b.bits) && HasAt(t.hashes, c.hashUsed, b.hashes)
  }

  lemma LeafRecovers<H>(hs: Hasher<H>, t: Proof<H>, h: nat, pos: nat, c: Cursor<H>, f: bool, hash: H)
    requires h == 0 || !f
    requires Continues(t, c, Part([f], [hash], if f then [(hash, pos)] else [], hash))
    ensures Recovers(hs, t, h, pos, c, Part([f], [hash], if f then [(hash, pos)] else [], hash))
  {
    HasAtHead(t.bits, c.bitsUsed, f, []);
    HasAtHead(t.hashes, c.hashUsed, hash, []);
    assert c.found + [] == c.found;
  }

  /** A cursor advanced over a part. */
  function Advanced<H>(c: Cursor<H>, b: Part<H>): Cursor<H> {
    Cursor(c.bitsUsed + |b.bits|, c.hashUsed + |b.hashes|, false, c.found + b.matched)
  }

  lemma PairContinues<H>(hs: Hasher<H>, t: Proof<H>, c: Cursor<H>, l: Part<H>, r: Part<H>)
    requires Continues(t, c, Join(hs, l, r))
    ensures c.bitsUsed < |t.bits| && t.bits[c.bitsUsed]
    ensures var c1 := c.(bitsUsed := c.bitsUsed + 1); Continues(t, c1, l) && Continues(t, Advanced(c1, l), r)
  {
    HasAtHead(t.bits, c.bitsUsed, true, l.bits + r.bits);
    HasAtSplit(t.bits, c.bitsUsed + 1, l.bits, r.bits);
    HasAtSplit(t.hashes, c.hashUsed, l.hashes, r.hashes);
  }

  lemma PairRecovers<H>(hs: Hasher<H>, t: Proof<H>, h: nat, pos: nat, c: Cursor<H>, l: Part<H>, r: Part<H>)
    requires h > 0 && c.bitsUsed < |t.bits| && t.bits[c.bitsUsed] && InTree(t.n, h - 1, 2 * pos + 1) && l.hash != r.hash
    requires Recovers(hs, t, h - 1, 2 * pos, c.(bitsUsed := c.bitsUsed + 1), l)
    requires Recovers(hs, t, h - 1, 2 * pos + 1, Advanced(c.(bitsUsed := c.bitsUsed + 1), l), r)
    ensures Recovers(hs, t, h, pos, c, Join(hs, l, r))
  {
    assert (c.found + l.matched) + r.matched == c.found + (l.matched + r.matched);
  }

  lemma SingleRecovers<H>(hs: Hasher<H>, t: Proof<H>, h: nat, pos: nat, c: Cursor<H>, l: Part<H>)
    requires h > 0 && c.bitsUsed < |t.bits| && t.bits[c.bitsUsed] && !InTree(t.n, h - 1, 2 * pos + 1)
    requires Recovers(hs, t, h - 1, 2 * pos, c.(bitsUsed := c.bitsUsed + 1), l)
    ensures Recovers(hs, t, h, pos, c, Join(hs, l, Part([], [], [], l.hash)))
  {
    assert l.bits + [] == l.bits && l.hashes + [] == l.hashes && l.matched + [] == l.matched;
  }

  /** Two siblings below a node that is descended into have the same hash. */
  predicate TwinsBelow<H(==)>(hs: Hasher<H>, txids: seq<H>, m: seq<bool>, h: nat, pos: nat)
    requires InTree(|txids|, h, pos)
    decreases h
  {
    && h > 0 && Flag(m, h, pos)
    && (|| TwinsBelow(hs, txids, m, h - 1, 2 * pos)
        || (InTree(|txids|, h - 1, 2 * pos + 1)
            && (|| TwinsBelow(hs, txids, m, h - 1, 2 * pos + 1)
                || CalcHash(hs, txids, h - 1, 2 * pos) == CalcHash(hs, txids, h - 1, 2 * pos + 1))))
  }

  /** Among distinct ids there are none, or else the list itself exhibits a collision. */
  lemma {:induction false} TwinsClash<H>(hs: Hasher<H>, txids: seq<H>, m: seq<bool>, h: nat, pos: nat)
    requires Distinct(txids) && InTree(|txids|, h, pos)
    ensures TwinsBelow(hs, txids, m, h, pos) ==> SiblingsClash(hs, txids, h, pos)
    decreases h
  {
    if h > 0 {
      TwinsClash(hs, txids, m, h - 1, 2 * pos);
      if InTree(|txids|, h - 1, 2 * pos + 1) {
        TwinsClash(hs, txids, m, h - 1, 2 * pos + 1);
        NodesDiffer(hs, txids, h - 1, 2 * pos, 2 * pos + 1);
      }
    }
  }

  /** Where a proof holds what was built for a node, extraction recovers the node and its matches. */
  lemma {:induction false} ExtractBuilt<H>(hs: Hasher<H>, txids: seq<H>, m: seq<bool>, t: Proof<H>, h: nat, pos: nat, c: Cursor<H>)
    requires |txids| == |m| == t.n && InTree(|txids|, h, pos) && !TwinsBelow(hs, txids, m, h, pos)
    requires Continues(t, c, Build(hs, txids, m, h, pos))
    ensures Recovers(hs, t, h, pos, c, Build(hs, txids, m, h, pos))
    decreases h
  {
    var f := Flag(m, h, pos);
    if h == 0 || !f {
      LeafRecovers(hs, t, h, pos, c, f, Build(hs, txids, m, h, pos).hash);
    } else {
      var l := Build(hs, txids, m, h - 1, 2 * pos);
      var c1 := c.(bitsUsed := c.bitsUsed + 1);
      if InTree(|txids|, h - 1, 2 * pos + 1) {
        var r := Build(hs, txids, m, h - 1, 2 * pos + 1);
        PairContinues(hs, t, c, l, r);
        ExtractBuilt(hs, txids, m, t, h - 1, 2 * pos, c1);
        ExtractBuilt(hs, txids, m, t, h - 1, 2 * pos + 1, Advanced(c1, l));
        BuildHash(hs, txids, m, h - 1, 2 * pos);
        BuildHash(hs, txids, m, h - 1, 2 * pos + 1);
        PairRecovers(hs, t, h, pos, c, l, r);
      } else {
        PairContinues(hs, t, c, l, Part([], [], [], l.hash));
        ExtractBuilt(hs, txids, m, t, h - 1, 2 * pos, c1);
        SingleRecovers(hs, t, h, pos, c, l);
      }
    }
  }

  /** A failure on the left or on the right, and equal children, make a node fail. */
  lemma NodeRefused<H>(hs: Hasher<H>, t: Proof<H>, h: nat, pos: nat, c: Cursor<H>)
    requires h > 0 && c.bitsUsed < |t.bits| && t.bits[c.bitsUsed]
    requires var (cl, left) := Extract(hs, t, h - 1, 2 * pos, c.(bitsUsed := c.bitsUsed + 1));
             || cl.bad
             || (&& InTree(t.n, h - 1, 2 * pos + 1)
                 && var (cr, right) := Extract(hs, t, h - 1, 2 * pos + 1, cl); cr.bad || left == right)
    ensures Extract(hs, t, h, pos, c).0.bad
  {
    var cl := Extract(hs, t, h - 1, 2 * pos, c.(bitsUsed := c.bitsUsed + 1)).0;
    ExtractAppends(hs, t, h - 1, 2 * pos + 1, cl);
  }

  /** A proof that continues with a node that is descended into continues with its children. */
  lemma ChildrenContinue<H>(hs: Hasher<H>, txids: seq<H>, m: seq<bool>, t: Proof<H>, h: nat, pos: nat, c: Cursor<H>)
    requires |txids| == |m| && InTree(|txids|, h, pos) && h > 0 && Flag(m, h, pos)
    requires Continues(t, c, Build(hs, txids, m, h, pos))
    ensures c.bitsUsed < |t.bits| && t.bits[c.bitsUsed]
    ensures var l, c1 := Build(hs, txids, m, h - 1, 2 * pos), c.(bitsUsed := c.bitsUsed + 1);
            && Continues(t, c1, l)
            && (InTree(|txids|, h - 1, 2 * pos + 1) ==> Continues(t, Advanced(c1, l), Build(hs, txids, m, h - 1, 2 * pos + 1)))
  {
    var l := Build(hs, txids, m, h - 1, 2 * pos);
    if InTree(|txids|, h - 1, 2 * pos + 1) {
      PairContinues(hs, t, c, l, Build(hs, txids, m, h - 1, 2 * pos + 1));
    } else {
      PairContinues(hs, t, c, l, Part([], [], [], l.hash));
    }
  }

  /** With two siblings of one hash in it, extraction refuses what was built. */
  lemma {:induction false} TwinsRefused<H>(hs: Hasher<H>, txids: seq<H>, m: seq<bool>, t: Proof<H>, h: nat, pos: nat, c: Cursor<H>)
    requires |txids| == |m| == t.n && InTree(|txids|, h, pos) && TwinsBelow(hs, txids, m, h, pos)
    requires Continues(t, c, Build(hs, txids, m, h, pos))
    ensures Extract(hs, t, h, pos, c).0.bad
    decreases h, 1
  {
    var l := Build(hs, txids, m, h - 1, 2 * pos);
    var c1 := c.(bitsUsed := c.bitsUsed + 1);
    ChildrenContinue(hs, txids, m, t, h, pos, c);
    if TwinsBelow(hs, txids, m, h - 1, 2 * pos) {
      TwinsRefused(hs, txids, m, t, h - 1, 2 * pos, c1);
    } else {
      ExtractBuilt(hs, txids, m, t, h - 1, 2 * pos, c1);
      RightRefused(hs, txids, m, t, h, pos, Advanced(c1, l));
    }
    NodeRefused(hs, t, h, pos, c);
  }

  lemma {:induction false} RightRefused<H>(hs: Hasher<H>, txids: seq<H>, m: seq<bool>, t: Proof<H>, h: nat, pos: nat, c: Cursor<H>)
    requires |txids| == |m| == t.n && InTree(|txids|, h, pos) && TwinsBelow(hs, txids, m, h, pos)
    requires InTree(|txids|, h - 1, 2 * pos + 1) && !TwinsBelow(hs, txids, m, h - 1, 2 * pos)
    requires Continues(t, c, Build(hs, txids, m, h - 1, 2 * pos + 1))
    ensures var (cr, right) := Extract(hs, t, h - 1, 2 * pos + 1, c);
            cr.bad || right == Build(hs, txids, m, h - 1, 2 * pos).hash
    decreases h, 0
  {
    if TwinsBelow(hs, txids, m, h - 1, 2 * pos + 1) {
      TwinsRefused(hs, txids, m, t, h - 1, 2 * pos + 1, c);
    } else {
      ExtractBuilt(hs, txids, m, t, h - 1, 2 * pos + 1, c);
      BuildHash(hs, txids, m, h - 1, 2 * pos);
      BuildHash(hs, txids, m, h - 1, 2 * pos + 1);
    }
  }

  /** The number of leaves below a node. */
  function Leaves(n: nat, h: nat, pos: nat): int {
    Min(First(h, pos + 1), n) - First(h, pos)
  }

  lemma LeavesBelow(n: nat, h: nat, pos: nat)
    requires InTree(n, h, pos)
    ensures Leaves(n, h, pos) >= 1
    ensures h > 0 ==> Leaves(n, h, pos) == Leaves(n, h - 1, 2 * pos)
                      + if InTree(n, h - 1, 2 * pos + 1) then Leaves(n, h - 1, 2 * pos + 1) else 0
  {
    FirstAscends(h, pos);
    if h > 0 {
      FirstAscends(h - 1, 2 * pos);
      FirstAscends(h - 1, 2 * pos + 1);
    }
  }

  /** A node that is descended into selects something. */
  lemma FlagSelects<H>(hs: Hasher<H>, txids: seq<H>, m: seq<bool>, h: nat, pos: nat)
    requires |txids| == |m| && InTree(|txids|, h, pos) && Flag(m, h, pos)
    ensures |Build(hs, txids, m, h, pos).matched| >= 1
  {
    BuildMatched(hs, txids, m, h, pos);
    var p :| First(h, pos) <= p < First(h, pos + 1) && p < |m| && m[p];
    MatchedExact(txids, m, First(h, pos), First(h, pos + 1), (txids[p], p));
  }

  lemma HashesFit(l: int, r: int, a: int, b: int, h: int)
    requires l <= 1 + a * (h - 1) && r <= 1 + b * (h - 1) && a + b >= 1
    ensures l + r <= 1 + (a + b) * h
  {
  }

  /**
   * A part has at least one hash, at most one for each leaf and, besides one, at most as many as the height for each
   * selected leaf; and it has at least as many bits as hashes.
   */
  lemma {:induction false} PartSizes<H>(hs: Hasher<H>, txids: seq<H>, m: seq<bool>, h: nat, pos: nat)
    requires |txids| == |m| && InTree(|txids|, h, pos)
    ensures var b := Build(hs, txids, m, h, pos);
            && 1 <= |b.hashes| <= |b.bits| && |b.hashes| <= Leaves(|txids|, h, pos)
            && |b.hashes| <= 1 + |b.matched| * h
    decreases h
  {
    LeavesBelow(|txids|, h, pos);
    if h > 0 && Flag(m, h, pos) {
      FlagSelects(hs, txids, m, h, pos);
      PartSizes(hs, txids, m, h - 1, 2 * pos);
      var l := Build(hs, txids, m, h - 1, 2 * pos);
      if InTree(|txids|, h - 1, 2 * pos + 1) {
        PartSizes(hs, txids, m, h - 1, 2 * pos + 1);
        var r := Build(hs, txids, m, h - 1, 2 * pos + 1);
        HashesFit(|l.hashes|, |r.hashes|, |l.matched|, |r.matched|, h);
      } else {
        HashesFit(|l.hashes|, 0, |l.matched|, 0, h);
      }
    }
  }

  /** The nodes with one child that are descended into. */
  function Lone(n: nat, m: seq<bool>, h: nat, pos: nat): nat
    requires InTree(n, h, pos)
    decreases h
  {
    if h == 0 || !Flag(m, h, pos) then 0
    else Lone(n, m, h - 1, 2 * pos) + if InTree(n, h - 1, 2 * pos + 1) then Lone(n, m, h - 1, 2 * pos + 1) else 1
  }

  /** How many bits a part has, exactly: one less than twice its hashes, and one more for every such node. */
  lemma {:induction false} PartBits<H>(hs: Hasher<H>, txids: seq<H>, m: seq<bool>, h: nat, pos: nat)
    requires |txids| == |m| && InTree(|txids|, h, pos)
    ensures var b := Build(hs, txids, m, h, pos);
            |b.bits| == 2 * |b.hashes| - 1 + Lone(|txids|, m, h, pos)
    decreases h
  {
    if h > 0 && Flag(m, h, pos) {
      PartBits(hs, txids, m, h - 1, 2 * pos);
      if InTree(|txids|, h - 1, 2 * pos + 1) {
        PartBits(hs, txids, m, h - 1, 2 * pos + 1);
      }
    }
  }

  /** A node with one child and a matched leaf. */
  predicate LoneAt(n: nat, m: seq<bool>, k: nat, q: nat) {
    k > 0 && InTree(n, k, q) && !InTree(n, k - 1, 2 * q + 1) && Flag(m, k, q)
  }

  /** Nodes do not straddle nodes of a higher level. */
  lemma {:induction false} FirstAligned(h: nat, pos: nat, k: nat, q: nat)
    requires k <= h && First(k, q) < First(h, pos)
    ensures First(k, q + 1) <= First(h, pos)
    decreases h
  {
    if k < h {
      FirstAligned(h - 1, 2 * pos, k, q);
    } else {
      FirstIsShift(k, q);
      FirstIsShift(k, pos);
      FirstIsShift(k, q + 1);
      if q < pos {
        MulMono(Pow2(k), q + 1, pos);
      } else {
        MulMono(Pow2(k), pos, q);
      }
    }
  }

  /** Such a node anywhere below is counted. */
  lemma {:induction false} LoneCounted(n: nat, m: seq<bool>, h: nat, pos: nat, k: nat, q: nat)
    requires |m| == n && InTree(n, h, pos) && k <= h && First(h, pos) <= First(k, q) < First(h, pos + 1) && LoneAt(n, m, k, q)
    ensures Lone(n, m, h, pos) > 0
    decreases h
  {
    FirstAligned(h, pos + 1, k, q);
    assert Flag(m, h, pos);
    if k < h {
      if First(k, q) < First(h - 1, 2 * pos + 1) {
        LoneCounted(n, m, h - 1, 2 * pos, k, q);
      } else {
        LoneCounted(n, m, h - 1, 2 * pos + 1, k, q);
      }
    } else {
      FirstIsShift(h, pos);
      FirstIsShift(h, q);
      FirstIsShift(h, pos + 1);
      SameNode(Pow2(h), pos, q);
    }
  }

  lemma SameNode(p: int, a: int, b: int)
    requires p > 0 && p * a <= p * b < p * (a + 1)
    ensures a == b
  {
    if b < a {
      MulMono(p, b + 1, a);
    } else if b > a {
      MulMono(p, a + 1, b);
    }
  }

  lemma {:induction false} LoneFound(n: nat, m: seq<bool>, h: nat, pos: nat) returns (k: nat, q: nat)
    requires InTree(n, h, pos) && Lone(n, m, h, pos) > 0
    ensures k <= h && LoneAt(n, m, k, q)
    decreases h
  {
    if !InTree(n, h - 1, 2 * pos + 1) {
      k, q := h, pos;
    } else if Lone(n, m, h - 1, 2 * pos) > 0 {
      k, q := LoneFound(n, m, h - 1, 2 * pos);
    } else {
      k, q := LoneFound(n, m, h - 1, 2 * pos + 1);
    }
  }

  /**
   * The documented bound of twice the hashes less one on the bits holds if and only if no matched leaf is below a node
   * with one child.
   */
  lemma BitsBoundIff<H>(hs: Hasher<H>, txids: seq<H>, m: seq<bool>)
    requires |txids| == |m| && txids != []
    ensures var b := BuildAll(hs, txids, m);
            |b.bits| <= 2 * |b.hashes| - 1 <==> !exists k: nat, q: nat :: k <= HeightFrom(|txids|, 0) && LoneAt(|txids|, m, k, q)
  {
    var n, h := |txids|, HeightFrom(|txids|, 0);
    RootInTree(n, h);
    RootSpans(n);
    PartBits(hs, txids, m, h, 0);
    if k: nat, q: nat :| k <= h && LoneAt(n, m, k, q) {
      LoneCounted(n, m, h, 0, k, q);
    } else if Lone(n, m, h, 0) > 0 {
      var k, q := LoneFound(n, m, h, 0);
    }
  }

  /** Three ids of which the last one is matched need four bits and two hashes. */
  lemma BitsBoundFails<H>(hs: Hasher<H>, txids: seq<H>, m: seq<bool>)
    requires |txids| == 3 && m == [false, false, true]
    ensures var b := BuildAll(hs, txids, m);
            |b.bits| > 2 * |b.hashes| - 1
  {
    assert m[2] && Flag(m, 1, 1) && LoneAt(|txids|, m, 1, 1);
    assert Width(3, 1) == 2 && HeightFrom(3, 0) >= 1;
    BitsBoundIff(hs, txids, m);
  }

  /** The root spans every leaf. */
  lemma RootSpans(n: nat)
    ensures First(HeightFrom(n, 0), 1) >= n
  {
    InTreeIff(n, HeightFrom(n, 0), 1);
  }

  /** The matched leaves of a list, with their positions. */
  function Selection<H>(txids: seq<H>, m: seq<bool>): seq<(H, nat)>
    requires |txids| == |m|
  {
    Matched(txids, m, 0, |m|)
  }

  /** A claim that is a matched leaf from lo up to hi. */
  predicate Claimed<H(==)>(txids: seq<H>, m: seq<bool>, lo: nat, hi: nat, claim: (H, nat))
    requires |txids| == |m|
  {
    lo <= claim.1 < hi && claim.1 < |m| && m[claim.1] && claim.0 == txids[claim.1]
  }

  /** A selection holds exactly the matched ids with their positions. */
  lemma {:induction false} MatchedExact<H>(txids: seq<H>, m: seq<bool>, lo: nat, hi: nat, claim: (H, nat))
    requires |txids| == |m|
    ensures claim in Matched(txids, m, lo, hi) <==> Claimed(txids, m, lo, hi, claim)
    decreases hi
  {
    if lo < hi {
      MatchedExact(txids, m, lo, hi - 1, claim);
    }
  }

  ghost predicate Ascending<H>(s: seq<(H, nat)>) {
    forall j, k :: 0 <= j < k < |s| ==> s[j].1 < s[k].1
  }

  /** A selection is in the order of the list. */
  lemma {:induction false} MatchedAscends<H>(txids: seq<H>, m: seq<bool>, lo: nat, hi: nat)
    requires |txids| == |m|
    ensures Ascending(Matched(txids, m, lo, hi))
    decreases hi
  {
    if lo < hi {
      var s := Matched(txids, m, lo, hi - 1);
      MatchedAscends(txids, m, lo, hi - 1);
      forall k | 0 <= k < |s|
        ensures s[k].1 < hi - 1
      {
        MatchedExact(txids, m, lo, hi - 1, s[k]);
      }
    }
  }

  /** What is built for a whole list. */
  function BuildAll<H>(hs: Hasher<H>, txids: seq<H>, m: seq<bool>): Part<H>
    requires |txids| == |m| && txids != []
  {
    RootInTree(|txids|, HeightFrom(|txids|, 0));
    Build(hs, txids, m, HeightFrom(|txids|, 0), 0)
  }

  /** It has the root of the list, and selects the matched ids. */
  lemma BuildRoot<H>(hs: Hasher<H>, txids: seq<H>, m: seq<bool>)
    requires |txids| == |m| && txids != []
    ensures var b := BuildAll(hs, txids, m);
            && b.hash == Root(hs, txids) && b.matched == Selection(txids, m) && |b.hashes| <= |txids| && |b.hashes| <= |b.bits|
            && |b.hashes| <= 1 + |Selection(txids, m)| * HeightFrom(|txids|, 0)
  {
    var h := HeightFrom(|txids|, 0);
    RootInTree(|txids|, h);
    RootSpans(|txids|);
    BuildHash(hs, txids, m, h, 0);
    BuildMatched(hs, txids, m, h, 0);
    PartSizes(hs, txids, m, h, 0);
    MatchedSplit(txids, m, 0, |m|, First(h, 1));
    MatchedNone(txids, m, |m|, First(h, 1));
  }

  // ---------------------------------------------------------------- bits as bytes

  /** The bits of bytes, least significant first. */
  function Unpack(bytes: seq<bv8>): seq<bool> {
    seq(8 * |bytes|, p requires 0 <= p < 8 * |bytes| => BitAt(bytes[p / 8], p % 8))
  }

  /** Bytes that hold bits, the last one padded with zeros. */
  ghost predicate Packs(bytes: seq<bv8>, bits: seq<bool>) {
    && |bytes| == (|bits| + 7) / 8
    && forall p :: 0 <= p < 8 * |bytes| ==> BitAt(bytes[p / 8], p % 8) == (p < |bits| && bits[p])
  }

  /** Unpacking packed bits gives the bits back, and fewer than eight zeros after them. */
  lemma UnpackPacked(bytes: seq<bv8>, bits: seq<bool>)
    requires Packs(bytes, bits)
    ensures bits <= Unpack(bytes) && |Unpack(bytes)| < |bits| + 8
    ensures forall p :: |bits| <= p < |Unpack(bytes)| ==> !Unpack(bytes)[p]
  {
    var u := Unpack(bytes);
    forall p | 0 <= p < |u|
      ensures u[p] == (p < |bits| && bits[p])
    {
      assert u[p] == BitAt(bytes[p / 8], p % 8);
    }
  }

  /** The bits of a proof as it was built, or as it was packed into bytes and unpacked again. */
  ghost predicate Carried(bits: seq<bool>, sent: seq<bool>) {
    bits == sent || exists bytes :: Packs(bytes, sent) && bits == Unpack(bytes)
  }

  lemma CarriedContinues<H>(n: nat, b: Part<H>, bits: seq<bool>)
    requires Carried(bits, b.bits)
    ensures Continues(Proof(n, bits, b.hashes), Cursor(0, 0, false, []), b)
    ensures |b.bits| <= |bits| && (|bits| + 7) / 8 == (|b.bits| + 7) / 8
  {
    if bits != b.bits {
      var bytes :| Packs(bytes, b.bits) && bits == Unpack(bytes);
      UnpackPacked(bytes, b.bits);
    }
    assert bits[0..|b.bits|] == b.bits && b.hashes[0..|b.hashes|] == b.hashes;
  }

  /**
   * Round trip: for any ids and any mask, the proof that is built, sent with its bits packed into bytes and unpacked
   * again, extracts to the root and to exactly the selection, unless two siblings in it have the same hash; then it
   * is refused.
   */
  lemma RoundTrip<H>(hs: Hasher<H>, txids: seq<H>, m: seq<bool>, bits: seq<bool>, maxTransactions: nat)
    requires |txids| == |m| && 0 < |txids| <= maxTransactions && Carried(bits, BuildAll(hs, txids, m).bits)
    ensures var h := HeightFrom(|txids|, 0);
            var r := ExtractMatches(hs, Proof(|txids|, bits, BuildAll(hs, txids, m).hashes), false, maxTransactions);
            && InTree(|txids|, h, 0)
            && if TwinsBelow(hs, txids, m, h, 0) then r.0 == hs.zero else r == (Root(hs, txids), Selection(txids, m))
  {
    var h := HeightFrom(|txids|, 0);
    RootInTree(|txids|, h);
    var b := BuildAll(hs, txids, m);
    BuildRoot(hs, txids, m);
    CarriedContinues(|txids|, b, bits);
    var t := Proof(|txids|, bits, b.hashes);
    var c := Cursor(0, 0, false, []);
    if TwinsBelow(hs, txids, m, h, 0) {
      TwinsRefused(hs, txids, m, t, h, 0, c);
    } else {
      ExtractBuilt(hs, txids, m, t, h, 0, c);
      assert c.found + b.matched == b.matched;
    }
  }

  /** In particular for distinct ids, or else the list itself exhibits a collision. */
  lemma DistinctRoundTrip<H>(hs: Hasher<H>, txids: seq<H>, m: seq<bool>, bits: seq<bool>, maxTransactions: nat)
    requires Distinct(txids) && |txids| == |m| && 0 < |txids| <= maxTransactions
    requires Carried(bits, BuildAll(hs, txids, m).bits)
    ensures var h := HeightFrom(|txids|, 0);
            var r := ExtractMatches(hs, Proof(|txids|, bits, BuildAll(hs, txids, m).hashes), false, maxTransactions);
            && InTree(|txids|, h, 0)
            && (r == (Root(hs, txids), Selection(txids, m)) || SiblingsClash(hs, txids, h, 0))
  {
    RoundTrip(hs, txids, m, bits, maxTransactions);
    TwinsClash(hs, txids, m, HeightFrom(|txids|, 0), 0);
  }
}
