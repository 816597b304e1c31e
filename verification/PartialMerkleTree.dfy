/**
 * CPartialMerkleTree (src/merkleblock.h, src/merkleblock.cpp) with its fields, and the two loops
 * that pack its bits for the wire.
 */
module PartialMerkleTree {
  import opened Common
  import opened Bits
  import opened PartialMerkle

  const MAX_DIP0001_BLOCK_SIZE: nat := 2000000

  /** 60 bytes is the least a serialized transaction takes. */
  const MAX_TRANSACTIONS: nat := MAX_DIP0001_BLOCK_SIZE / 60

  // ---------------------------------------------------------------- bits as bytes

  /** The first k bits are packed, and every other bit is zero. */
  ghost predicate PackedUpTo(bytes: seq<bv8>, bits: seq<bool>, k: nat) {
    && |bytes| == (|bits| + 7) / 8 && k <= |bits|
    && forall p :: 0 <= p < 8 * |bytes| ==> BitAt(bytes[p / 8], p % 8) == (p < k && bits[p])
  }

  /** A byte with a bit stored in it. */
  function Stored(a: bv8, i: int, f: bool): bv8
    requires 0 <= i < 8
  {
    a | (if f then Mask(i) else 0)
  }

  lemma StoredBit(a: bv8, i: int, f: bool, j: int)
    requires 0 <= i < 8 && 0 <= j < 8
    ensures BitAt(Stored(a, i, f), j) == (BitAt(a, j) || (i == j && f))
  {
    SetBit(a, i, j);
    assert a | 0 == a;
  }

  lemma PackOneAt(was: seq<bv8>, bits: seq<bool>, k: nat, i: nat, j: nat)
    requires |was| == (|bits| + 7) / 8 && k < |bits| && i < |was| && j < 8
    requires BitAt(was[i], j) == (8 * i + j < k && bits[8 * i + j])
    ensures BitAt(was[k / 8 := Stored(was[k / 8], k % 8, bits[k])][i], j) == (8 * i + j < k + 1 && bits[8 * i + j])
  {
    assert k == 8 * (k / 8) + k % 8;
    StoredBit(was[k / 8], k % 8, bits[k], j);
  }

  lemma PackOne(was: seq<bv8>, now: seq<bv8>, bits: seq<bool>, k: nat)
    requires PackedUpTo(was, bits, k) && k < |bits|
    requires now == was[k / 8 := Stored(was[k / 8], k % 8, bits[k])]
    ensures PackedUpTo(now, bits, k + 1)
  {
    forall p | 0 <= p < 8 * |now|
      ensures BitAt(now[p / 8], p % 8) == (p < k + 1 && bits[p])
    {
      assert BitAt(was[p / 8], p % 8) == (p < k && bits[p]);
      assert p == 8 * (p / 8) + p % 8;
      PackOneAt(was, bits, k, p / 8, p % 8);
    }
  }

  method BitsToBytes(bits: seq<bool>) returns (ret: array<bv8>)
    ensures fresh(ret) && Packs(ret[..], bits)
  {
    ret := new bv8[(|bits| + 7) / 8](_ => 0);
    var p := 0;
    while p < |bits|
      invariant 0 <= p <= |bits|
      invariant PackedUpTo(ret[..], bits, p)
    {
      ghost var was := ret[..];
      ret[p / 8] := Stored(ret[p / 8], p % 8, bits[p]);
      PackOne(was, ret[..], bits, p);
      p := p + 1;
    }
  }

  method BytesToBits(bytes: seq<bv8>) returns (ret: array<bool>)
    ensures fresh(ret) && ret[..] == Unpack(bytes)
  {
    ret := new bool[8 * |bytes|];
    var p := 0;
    while p < ret.Length
      invariant 0 <= p <= ret.Length
      invariant forall k :: 0 <= k < p ==> ret[k] == BitAt(bytes[k / 8], k % 8)
    {
      ret[p] := bytes[p / 8] & Mask(p % 8) != 0;
      p := p + 1;
    }
  }

  // ---------------------------------------------------------------- the tree

  /** The two lists that extraction fills, as the source keeps them. */
  function Ids<H>(found: seq<(H, nat)>): seq<H> {
    seq(|found|, i requires 0 <= i < |found| => found[i].0)
  }

  function Positions<H>(found: seq<(H, nat)>): seq<nat> {
    seq(|found|, i requires 0 <= i < |found| => found[i].1)
  }

  lemma Appended<T>(s: seq<T>, a: seq<T>, b: seq<T>)
    ensures (s + a) + b == s + (a + b) && s + (a + []) == s + a
  {
    assert a + [] == a;
  }

  class CPartialMerkleTree<H(!new, ==)> {
    const hs: Hasher<H>
    var nTransactions: nat
    var vBits: seq<bool>
    var vHash: seq<H>
    var fBad: bool

    ghost function Abstract(): Proof<H>
      reads this
    {
      Proof(nTransactions, vBits, vHash)
    }

    function CalcTreeWidth(height: nat): (w: nat)
      reads this
      ensures forall pos: nat :: pos < w <==> InTree(nTransactions, height, pos)
    {
      WidthIsShift(nTransactions, height);
      assert forall pos: nat :: pos < Width(nTransactions, height) <==> InTree(nTransactions, height, pos) by {
        forall pos: nat
          ensures pos < Width(nTransactions, height) <==> InTree(nTransactions, height, pos)
        {
          InTreeIff(nTransactions, height, pos);
        }
      }
      (nTransactions + Pow2(height) - 1) / Pow2(height)
    }

    method TreeHeight() returns (height: nat)
      ensures height == HeightFrom(nTransactions, 0)
    {
      height := 0;
      WidthIsShift(nTransactions, 0);
      while CalcTreeWidth(height) > 1
        invariant HeightFrom(nTransactions, height) == HeightFrom(nTransactions, 0)
        decreases Width(nTransactions, height)
      {
        WidthIsShift(nTransactions, height);
        height := height + 1;
      }
      WidthIsShift(nTransactions, height);
    }

    method ParentOfMatch(height: nat, pos: nat, vMatch: seq<bool>) returns (found: bool)
      requires |vMatch| == nTransactions
      ensures found == Flag(vMatch, height, pos)
    {
      FirstIsShift(height, pos);
      FirstIsShift(height, pos + 1);
      FirstAscends(height, pos);
      found := false;
      var p := Pow2(height) * pos;
      ghost var lo := p;
      while p < Pow2(height) * (pos + 1) && p < nTransactions
        invariant lo <= p <= First(height, pos + 1)
        invariant found <==> exists q :: lo <= q < p && q < |vMatch| && vMatch[q]
      {
        found := found || vMatch[p];
        p := p + 1;
      }
    }

    method TraverseAndBuild(height: nat, pos: nat, vTxid: seq<H>, vMatch: seq<bool>)
      requires |vTxid| == |vMatch| == nTransactions && InTree(nTransactions, height, pos)
      modifies this`vBits, this`vHash
      ensures vBits == old(vBits) + Build(hs, vTxid, vMatch, height, pos).bits
      ensures vHash == old(vHash) + Build(hs, vTxid, vMatch, height, pos).hashes
      decreases height
    {
      var fParentOfMatch := ParentOfMatch(height, pos, vMatch);
      vBits := vBits + [fParentOfMatch];
      if height == 0 || !fParentOfMatch {
        BuildHash(hs, vTxid, vMatch, height, pos);
        vHash := vHash + [CalcHash(hs, vTxid, height, pos)];
      } else {
        ghost var l, r := Descend(height, pos, vTxid, vMatch);
        Appended(old(vBits), [true], l.bits + r.bits);
      }
    }

    method Descend(height: nat, pos: nat, vTxid: seq<H>, vMatch: seq<bool>) returns (ghost l: Part<H>, ghost r: Part<H>)
      requires |vTxid| == |vMatch| == nTransactions && InTree(nTransactions, height, pos) && height > 0
      modifies this`vBits, this`vHash
      ensures l == Build(hs, vTxid, vMatch, height - 1, 2 * pos)
      ensures r == if InTree(nTransactions, height - 1, 2 * pos + 1) then Build(hs, vTxid, vMatch, height - 1, 2 * pos + 1)
                   else Part([], [], [], l.hash)
      ensures vBits == old(vBits) + (l.bits + r.bits) && vHash == old(vHash) + (l.hashes + r.hashes)
      decreases height, 0
    {
      l := Build(hs, vTxid, vMatch, height - 1, 2 * pos);
      r := Part([], [], [], l.hash);
      TraverseAndBuild(height - 1, 2 * pos, vTxid, vMatch);
      if 2 * pos + 1 < CalcTreeWidth(height - 1) {
        r := Build(hs, vTxid, vMatch, height - 1, 2 * pos + 1);
        TraverseAndBuild(height - 1, 2 * pos + 1, vTxid, vMatch);
      }
      Appended(old(vBits), l.bits, r.bits);
      Appended(old(vHash), l.hashes, r.hashes);
    }

    method TraverseAndExtract(height: nat, pos: nat, bitsUsed: nat, hashUsed: nat, vMatch: seq<H>, vnIndex: seq<nat>,
                              ghost found: seq<(H, nat)>, ghost before: seq<nat>)
      returns (nBitsUsed: nat, nHashUsed: nat, matches: seq<H>, indices: seq<nat>, hash: H, ghost found': seq<(H, nat)>)
      requires vMatch == Ids(found) && vnIndex == before + Positions(found)
      modifies this`fBad
      ensures matches == Ids(found') && indices == before + Positions(found')
      ensures (Cursor(nBitsUsed, nHashUsed, fBad, found'), hash)
              == Extract(hs, Abstract(), height, pos, Cursor(bitsUsed, hashUsed, old(fBad), found))
      decreases height
    {
      nBitsUsed, nHashUsed, matches, indices, hash, found' := bitsUsed, hashUsed, vMatch, vnIndex, hs.zero, found;
      if nBitsUsed >= |vBits| {
        fBad := true;
        return;
      }
      var fParentOfMatch := vBits[nBitsUsed];
      nBitsUsed := nBitsUsed + 1;
      if height == 0 || !fParentOfMatch {
        if nHashUsed >= |vHash| {
          fBad := true;
          return;
        }
        hash := vHash[nHashUsed];
        nHashUsed := nHashUsed + 1;
        if height == 0 && fParentOfMatch {
          matches := matches + [hash];
          indices := indices + [pos];
          found' := found' + [(hash, pos)];
        }
      } else {
        var left, right;
        nBitsUsed, nHashUsed, matches, indices, left, found' :=
          TraverseAndExtract(height - 1, 2 * pos, nBitsUsed, nHashUsed, matches, indices, found', before);
        if 2 * pos + 1 < CalcTreeWidth(height - 1) {
          nBitsUsed, nHashUsed, matches, indices, right, found' :=
            TraverseAndExtract(height - 1, 2 * pos + 1, nBitsUsed, nHashUsed, matches, indices, found', before);
          if right == left {
            fBad := true;
          }
        } else {
          right := left;
        }
        hash := hs.combine(left, right);
      }
    }

    /** The tree for a list of transaction ids and a mask over it. */
    constructor Of(hs: Hasher<H>, vTxid: seq<H>, vMatch: seq<bool>)
      requires |vTxid| == |vMatch| && vTxid != []
      ensures var b := BuildAll(hs, vTxid, vMatch);
              this.hs == hs && Abstract() == Proof(|vTxid|, b.bits, b.hashes) && !fBad
    {
      this.hs := hs;
      nTransactions := |vTxid|;
      vBits, vHash, fBad := [], [], false;
      new;
      var height := TreeHeight();
      RootInTree(|vTxid|, height);
      TraverseAndBuild(height, 0, vTxid, vMatch);
    }

    /** The empty tree, which extracts to nothing. */
    constructor (hs: Hasher<H>)
      ensures this.hs == hs && Abstract() == Proof(0, [], []) && fBad
    {
      this.hs := hs;
      nTransactions, vBits, vHash, fBad := 0, [], [], true;
    }

    method ExtractMatches(vnIndex: seq<nat>) returns (root: H, vMatch: seq<H>, indices: seq<nat>)
      modifies this`fBad
      ensures var (r, found) := PartialMerkle.ExtractMatches(hs, Abstract(), old(fBad), MAX_TRANSACTIONS);
              root == r && vMatch == Ids(found) && indices == vnIndex + Positions(found)
    {
      root, vMatch, indices := hs.zero, [], vnIndex;
      if nTransactions == 0 || nTransactions > MAX_TRANSACTIONS || |vHash| > nTransactions || |vBits| < |vHash| {
        return;
      }
      var height := TreeHeight();
      var nBitsUsed, nHashUsed, hashMerkleRoot;
      ghost var found;
      nBitsUsed, nHashUsed, vMatch, indices, hashMerkleRoot, found :=
        TraverseAndExtract(height, 0, 0, 0, vMatch, vnIndex, [], vnIndex);
      if fBad || (nBitsUsed + 7) / 8 != (|vBits| + 7) / 8 || nHashUsed != |vHash| {
        return;
      }
      root := hashMerkleRoot;
    }

    method Serialize() returns (n: nat, hashes: seq<H>, bytes: seq<bv8>)
      ensures n == nTransactions && hashes == vHash && Packs(bytes, vBits)
    {
      var packed := BitsToBytes(vBits);
      n, hashes, bytes := nTransactions, vHash, packed[..];
    }

    method Unserialize(n: nat, hashes: seq<H>, bytes: seq<bv8>)
      modifies this
      ensures Abstract() == Proof(n, Unpack(bytes), hashes) && !fBad
    {
      var bits := BytesToBits(bytes);
      nTransactions, vBits, vHash, fBad := n, bits[..], hashes, false;
    }
  }

  /**
   * What a node sends is what the other one finds: the list's root, and exactly the ids that were selected, unless the
   * list exhibits a collision.
   */
  method Relay<H(!new, ==)>(hs: Hasher<H>, vTxid: seq<H>, vMatch: seq<bool>) returns (root: H, ids: seq<H>, positions: seq<nat>)
    requires Distinct(vTxid) && |vTxid| == |vMatch| && 0 < |vTxid| <= MAX_TRANSACTIONS
    ensures var h := HeightFrom(|vTxid|, 0);
            && InTree(|vTxid|, h, 0)
            && (|| SiblingsClash(hs, vTxid, h, 0)
                || (&& root == Root(hs, vTxid)
                    && ids == Ids(Selection(vTxid, vMatch)) && positions == Positions(Selection(vTxid, vMatch))))
  {
    var sender := new CPartialMerkleTree.Of(hs, vTxid, vMatch);
    var n, hashes, bytes := sender.Serialize();
    var receiver := new CPartialMerkleTree(hs);
    receiver.Unserialize(n, hashes, bytes);
    DistinctRoundTrip(hs, vTxid, vMatch, Unpack(bytes), MAX_TRANSACTIONS);
    root, ids, positions := receiver.ExtractMatches([]);
  }
}
