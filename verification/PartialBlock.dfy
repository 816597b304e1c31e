/**
 * PartiallyDownloadedBlock (src/blockencodings.cpp) with its fields: a compact block is taken
 * apart slot by slot, and filled up with what was missing.
 */
module PartialBlock {
  import opened Common
  import opened CompactBlock

  datatype Status = StatusOk | StatusInvalid | StatusFailed | StatusCheckBlockFailed

  datatype CheckResult = Valid | Mutated | Bad

  /** What the receiver is told besides the message itself. */
  datatype Setting<!T> = Setting(
    headerIsNull: bool,           // whether the header of the message is null
    maxTransactions: nat,         // the block size limit over the least size of a transaction
    isNull: T -> bool,            // a transaction without inputs and outputs
    crowded: (seq<nat>) -> bool)  // whether a hash bucket holds more than 12 of these short ids

  /** No bucket is too full after any of the first n short ids. */
  ghost predicate NoneCrowded<T>(g: Setting<T>, shortIds: seq<nat>, n: nat)
    requires n <= |shortIds|
  {
    n == 0 || (NoneCrowded(g, shortIds, n - 1) && !g.crowded(shortIds[..n]))
  }

  lemma {:induction false} CrowdedStays<T>(g: Setting<T>, shortIds: seq<nat>, k: nat, n: nat)
    requires k <= n <= |shortIds| && !NoneCrowded(g, shortIds, k)
    ensures !NoneCrowded(g, shortIds, n)
  {
    if k < n {
      CrowdedStays(g, shortIds, k, n - 1);
    }
  }

  ghost predicate NoneNull<T>(g: Setting<T>, m: Message<T>) {
    forall k :: 0 <= k < |m.prefilled| ==> !g.isNull(m.prefilled[k].1)
  }

  predicate Plausible<T>(g: Setting<T>, m: Message<T>) {
    !g.headerIsNull && BlockTxCount(m) > 0 && BlockTxCount(m) <= g.maxTransactions
  }

  /** What taking a message apart answers. */
  ghost function InitStatus<T>(g: Setting<T>, m: Message<T>): Status {
    if !Plausible(g, m) || !NoneNull(g, m) || !PlacesOk(m) then StatusInvalid
    else ShortStatus(g, m)
  }

  ghost function ShortStatus<T>(g: Setting<T>, m: Message<T>): Status {
    if !NoneCrowded(g, m.shortIds, |m.shortIds|) || !Distinct(m.shortIds) then StatusFailed else StatusOk
  }

  /**
   * Exactly the messages that are refused as invalid: without a header or any transaction, with too many, with a null
   * transaction, or with one sent along whose place is outside the block or has more than 16 bits.
   */
  lemma InvalidIff<T>(g: Setting<T>, m: Message<T>)
    ensures InitStatus(g, m) == StatusInvalid
            <==> || g.headerIsNull || (m.shortIds == [] && m.prefilled == []) || |m.shortIds| + |m.prefilled| > g.maxTransactions
                 || (exists k :: 0 <= k < |m.prefilled| && g.isNull(m.prefilled[k].1))
                 || (m.prefilled != [] && Place(m, |m.prefilled| - 1) >= Min(|m.shortIds| + |m.prefilled|, 0x1_0000))
  {
    PlacesOkIff(m);
  }

  /** What was sent along is in place, and the count is the number of short ids whose slots are filled. */
  ghost predicate OnlyShortMatched<T>(m: Message<T>, avail: seq<Option<T>>, count: int)
    requires PlacesOk(m) && |avail| == BlockTxCount(m)
  {
    && (forall p :: 0 <= p < |avail| && Prefilled(m, |m.prefilled|)[p].Some? ==> avail[p] == Prefilled(m, |m.prefilled|)[p])
    && 0 <= count == FilledAt(avail, ShortSlots(m)) <= |m.shortIds|
  }

  class PartiallyDownloadedBlock<T(!new), H(!new, ==)> {
    const pool: seq<(H, T)>
    var headerIsNull: bool
    var txnAvailable: seq<Option<T>>
    var prefilledCount: nat
    var mempoolCount: int
    var extraCount: int

    constructor (pool: seq<(H, T)>)
      ensures this.pool == pool && headerIsNull && txnAvailable == [] && mempoolCount == 0 && extraCount == 0
    {
      this.pool := pool;
      headerIsNull, txnAvailable, prefilledCount, mempoolCount, extraCount := true, [], 0, 0, 0;
    }

    /** The transactions that were sent along; false, if one is null or out of place. */
    method PlacePrefilled(m: Message<T>, g: Setting<T>) returns (ok: bool)
      requires txnAvailable == seq(BlockTxCount(m), _ => None)
      modifies this`txnAvailable
      ensures ok <==> NoneNull(g, m) && PlacesOk(m)
      ensures ok ==> txnAvailable == Prefilled(m, |m.prefilled|)
    {
      var lastPrefilledIndex := -1;
      var i := 0;
      while i < |m.prefilled|
        invariant 0 <= i <= |m.prefilled|
        invariant forall k :: 0 <= k < i ==> PlaceOk(m, k) && !g.isNull(m.prefilled[k].1)
        invariant txnAvailable == Prefilled(m, i)
        invariant lastPrefilledIndex == if i == 0 then -1 else Place(m, i - 1)
      {
        if g.isNull(m.prefilled[i].1) {
          return false;
        }
        lastPrefilledIndex := lastPrefilledIndex + m.prefilled[i].0 + 1;
        assert lastPrefilledIndex == Place(m, i);
        if lastPrefilledIndex > 0xffff || lastPrefilledIndex > |m.shortIds| + i {
          assert !PlaceOk(m, i);
          return false;
        }
        PlaceFrom(m, i);
        assert PlaceOk(m, i);
        txnAvailable := txnAvailable[lastPrefilledIndex := Some(m.prefilled[i].1)];
        i := i + 1;
      }
      ok := true;
    }

    /** The slot search: from one gap to the next, never beyond the block. */
    method NextGap(i: nat, offset: nat, ghost gaps: seq<nat>) returns (indexOffset: nat)
      requires gaps == Gaps(txnAvailable) && i < |gaps| && |txnAvailable| <= 0xffff
      requires if i == 0 then offset == 0 else i - 1 + offset == gaps[i - 1]
      ensures i + indexOffset == gaps[i] && indexOffset <= 0xffff
    {
      indexOffset := offset;
      GapsAscend(txnAvailable);
      GapsExact(txnAvailable, gaps[i]);
      while txnAvailable[i + indexOffset].Some?
        invariant i + indexOffset <= gaps[i] && (i > 0 ==> gaps[i - 1] < i + indexOffset)
        decreases gaps[i] - indexOffset
      {
        indexOffset := indexOffset + 1;
      }
      GapsExact(txnAvailable, i + indexOffset);
      ghost var k :| 0 <= k < |gaps| && gaps[k] == i + indexOffset;
      assert k <= i && (i > 0 ==> k > i - 1);
    }

    /** The slot of each short id. */
    method IndexShortIds(shortIds: seq<nat>, g: Setting<T>, ghost gaps: seq<nat>) returns (ok: bool, shorttxids: map<nat, nat>)
      requires gaps == Gaps(txnAvailable) && |gaps| == |shortIds| && |txnAvailable| <= 0xffff
      ensures ok <==> NoneCrowded(g, shortIds, |shortIds|)
      ensures ok ==> shorttxids == IndexOf(shortIds, gaps)
    {
      shorttxids := map[];
      var indexOffset := 0;
      var i := 0;
      while i < |shortIds|
        invariant 0 <= i <= |shortIds|
        invariant shorttxids == IndexOf(shortIds[..i], gaps)
        invariant if i == 0 then indexOffset == 0 else i - 1 + indexOffset == gaps[i - 1]
        invariant NoneCrowded(g, shortIds, i)
      {
        indexOffset := NextGap(i, indexOffset, gaps);
        IndexOneMore(shortIds, gaps, i);
        shorttxids := shorttxids[shortIds[i] := i + indexOffset];
        if g.crowded(shortIds[..i + 1]) {
          CrowdedStays(g, shortIds, i + 1, |shortIds|);
          return false, shorttxids;
        }
        i := i + 1;
      }
      assert shortIds[..i] == shortIds;
      ok := true;
    }

    /** The pool, until every short id is matched. */
    method ScanPool(ids: Ids<T, H>, shorttxids: map<nat, nat>, have: seq<bool>) returns (haveTxn: seq<bool>)
      requires SlotsFit(Match(txnAvailable, have, mempoolCount), shorttxids)
      modifies this`txnAvailable, this`mempoolCount
      ensures Match(txnAvailable, haveTxn, mempoolCount)
              == Scan(ids, old(Match(txnAvailable, have, mempoolCount)), shorttxids, pool, false)
    {
      haveTxn := have;
      ghost var start := Match(txnAvailable, have, mempoolCount);
      var i := 0;
      assert pool[0..] == pool;
      while i < |pool|
        invariant 0 <= i <= |pool|
        invariant SlotsFit(Match(txnAvailable, haveTxn, mempoolCount), shorttxids)
        invariant Scan(ids, Match(txnAvailable, haveTxn, mempoolCount), shorttxids, pool[i..], false)
                  == Scan(ids, start, shorttxids, pool, false)
      {
        ghost var s := Match(txnAvailable, haveTxn, mempoolCount);
        TakeOneFits(ids, s, shorttxids, pool[i], false);
        assert pool[i..][1..] == pool[i + 1..] && pool[i..][0] == pool[i];
        var shortid := ids.short(pool[i].0);
        if shortid in shorttxids {
          var p := shorttxids[shortid];
          if !haveTxn[p] {
            txnAvailable := txnAvailable[p := Some(pool[i].1)];
            haveTxn := haveTxn[p := true];
            mempoolCount := mempoolCount + 1;
          } else if txnAvailable[p].Some? {
            txnAvailable := txnAvailable[p := None];
            mempoolCount := mempoolCount - 1;
          }
        }
        assert Match(txnAvailable, haveTxn, mempoolCount) == TakeOne(ids, s, shorttxids, pool[i], false);
        if mempoolCount == |shorttxids| {
          return;
        }
        i := i + 1;
      }
    }

    /** The extra transactions, likewise. */
    method ScanExtra(ids: Ids<T, H>, shorttxids: map<nat, nat>, have: seq<bool>, extra: seq<(H, T)>) returns (haveTxn: seq<bool>)
      requires SlotsFit(Match(txnAvailable, have, mempoolCount), shorttxids)
      modifies this`txnAvailable, this`mempoolCount, this`extraCount
      ensures Match(txnAvailable, haveTxn, mempoolCount)
              == Scan(ids, old(Match(txnAvailable, have, mempoolCount)), shorttxids, extra, true)
      ensures extraCount - old(extraCount) == mempoolCount - old(mempoolCount)
    {
      haveTxn := have;
      ghost var start := Match(txnAvailable, have, mempoolCount);
      var i := 0;
      assert extra[0..] == extra;
      while i < |extra|
        invariant 0 <= i <= |extra|
        invariant SlotsFit(Match(txnAvailable, haveTxn, mempoolCount), shorttxids)
        invariant Scan(ids, Match(txnAvailable, haveTxn, mempoolCount), shorttxids, extra[i..], true)
                  == Scan(ids, start, shorttxids, extra, true)
        invariant extraCount - old(extraCount) == mempoolCount - old(mempoolCount)
      {
        ghost var s := Match(txnAvailable, haveTxn, mempoolCount);
        TakeOneFits(ids, s, shorttxids, extra[i], true);
        assert extra[i..][1..] == extra[i + 1..] && extra[i..][0] == extra[i];
        var shortid := ids.short(extra[i].0);
        if shortid in shorttxids {
          var p := shorttxids[shortid];
          if !haveTxn[p] {
            txnAvailable := txnAvailable[p := Some(extra[i].1)];
            haveTxn := haveTxn[p := true];
            mempoolCount := mempoolCount + 1;
            extraCount := extraCount + 1;
          } else if txnAvailable[p].Some? && ids.hash(txnAvailable[p].value) != ids.hash(extra[i].1) {
            txnAvailable := txnAvailable[p := None];
            mempoolCount := mempoolCount - 1;
            extraCount := extraCount - 1;
          }
        }
        assert Match(txnAvailable, haveTxn, mempoolCount) == TakeOne(ids, s, shorttxids, extra[i], true);
        if mempoolCount == |shorttxids| {
          return;
        }
        i := i + 1;
      }
    }

    /** The block must be new; that it has at most 65535 transactions was checked when the message was read. */
    method InitData(ids: Ids<T, H>, m: Message<T>, g: Setting<T>, extra: seq<(H, T)>) returns (r: Status)
      requires headerIsNull && txnAvailable == [] && mempoolCount == 0 && BlockTxCount(m) <= 0xffff
      modifies this
      ensures r == InitStatus(g, m)
      ensures r == StatusOk ==> !headerIsNull && prefilledCount == |m.prefilled| && PlacesOk(m)
      ensures r == StatusOk ==> txnAvailable == Matched(ids, m, pool, extra).avail && mempoolCount == Matched(ids, m, pool, extra).count
      ensures r == StatusOk ==> |txnAvailable| == BlockTxCount(m) && OnlyShortMatched(m, txnAvailable, mempoolCount)
      ensures r == StatusOk ==> extraCount - old(extraCount) == mempoolCount - PoolCount(ids, m, pool)
    {
      if g.headerIsNull || (|m.shortIds| == 0 && |m.prefilled| == 0) {
        return StatusInvalid;
      }
      if |m.shortIds| + |m.prefilled| > g.maxTransactions {
        return StatusInvalid;
      }
      headerIsNull := false;
      txnAvailable := seq(BlockTxCount(m), _ => None);
      var ok := PlacePrefilled(m, g);
      if !ok {
        return StatusInvalid;
      }
      prefilledCount := |m.prefilled|;
      r := MatchShort(ids, m, g, extra);
    }

    /** The short ids are indexed, unless two are equal or too many share a bucket, and then matched. */
    method MatchShort(ids: Ids<T, H>, m: Message<T>, g: Setting<T>, extra: seq<(H, T)>) returns (r: Status)
      requires PlacesOk(m) && txnAvailable == Prefilled(m, |m.prefilled|) && mempoolCount == 0
      requires BlockTxCount(m) <= 0xffff
      modifies this`txnAvailable, this`mempoolCount, this`extraCount
      ensures r == ShortStatus(g, m)
      ensures r == StatusOk ==> txnAvailable == Matched(ids, m, pool, extra).avail && mempoolCount == Matched(ids, m, pool, extra).count
      ensures r == StatusOk ==> |txnAvailable| == BlockTxCount(m) && OnlyShortMatched(m, txnAvailable, mempoolCount)
      ensures r == StatusOk ==> extraCount - old(extraCount) == mempoolCount - PoolCount(ids, m, pool)
    {
      var ok, shorttxids;
      GapForEach(m);
      ghost var gaps := Gaps(txnAvailable);
      ok, shorttxids := IndexShortIds(m.shortIds, g, gaps);
      if !ok {
        return StatusFailed;
      }
      IndexSize(m.shortIds, gaps);
      if |shorttxids| != |m.shortIds| {
        return StatusFailed;
      }
      MatchKnown(ids, m, shorttxids, extra);
      MatchedCount(ids, m, pool, extra);
      return StatusOk;
    }

    /** The slots of short ids are filled from the pool, and then from the extra transactions. */
    method MatchKnown(ids: Ids<T, H>, ghost m: Message<T>, shorttxids: map<nat, nat>, extra: seq<(H, T)>)
      requires PlacesOk(m) && txnAvailable == Prefilled(m, |m.prefilled|) && mempoolCount == 0 && shorttxids == Index(m)
      modifies this`txnAvailable, this`mempoolCount, this`extraCount
      ensures txnAvailable == Matched(ids, m, pool, extra).avail && mempoolCount == Matched(ids, m, pool, extra).count
      ensures extraCount - old(extraCount) == mempoolCount - PoolCount(ids, m, pool)
    {
      var haveTxn := seq(|txnAvailable|, _ => false);
      assert Match(txnAvailable, haveTxn, mempoolCount) == Start(m);
      haveTxn := ScanPool(ids, shorttxids, haveTxn);
      ScanFits(ids, Start(m), shorttxids, pool, false);
      haveTxn := ScanExtra(ids, shorttxids, haveTxn, extra);
    }

    function IsTxAvailable(index: nat): (r: bool)
      requires !headerIsNull && index < |txnAvailable|
      reads this
      ensures r <==> index !in Gaps(txnAvailable)
    {
      GapsExact(txnAvailable, index);
      txnAvailable[index].Some?
    }

    /** The gaps are filled from the front of the list; too few or too many are refused. */
    method FillBlock(missing: seq<T>, check: seq<T> -> CheckResult) returns (r: Status, vtx: seq<T>)
      requires !headerIsNull
      modifies this`headerIsNull, this`txnAvailable
      ensures var filled := Fill(old(txnAvailable), missing);
              if filled.None? || filled.value.1 != |missing| then r == StatusInvalid
              else
                && vtx == filled.value.0
                && r == match check(vtx) case Valid => StatusOk case Mutated => StatusFailed case Bad => StatusCheckBlockFailed
      ensures Fill(old(txnAvailable), missing).Some? ==> headerIsNull && txnAvailable == []
    {
      ghost var avail := txnAvailable;
      vtx := [];
      var offset := 0;
      var i := 0;
      while i < |txnAvailable|
        invariant 0 <= i <= |txnAvailable| == |avail| && |vtx| == i
        invariant forall k :: i <= k < |avail| ==> txnAvailable[k] == avail[k]
        invariant offset <= |missing| && Fill(avail[..i], missing) == Some((vtx, offset))
      {
        assert avail[..i + 1][..i] == avail[..i];
        if txnAvailable[i].None? {
          if |missing| <= offset {
            StaysNone(avail, i + 1, missing);
            return StatusInvalid, vtx;
          }
          vtx := vtx + [missing[offset]];
          offset := offset + 1;
        } else {
          vtx := vtx + [txnAvailable[i].value];
          txnAvailable := txnAvailable[i := None];
        }
        i := i + 1;
      }
      assert avail[..i] == avail;
      headerIsNull := true;
      txnAvailable := [];
      if |missing| != offset {
        return StatusInvalid, vtx;
      }
      r := match check(vtx) case Valid => StatusOk case Mutated => StatusFailed case Bad => StatusCheckBlockFailed;
    }
  }

  lemma IndexOneMore(shortIds: seq<nat>, gaps: seq<nat>, i: nat)
    requires i < |shortIds| <= |gaps|
    ensures IndexOf(shortIds[..i + 1], gaps) == IndexOf(shortIds[..i], gaps)[shortIds[i] := gaps[i]]
  {
    assert shortIds[..i + 1][..i] == shortIds[..i];
  }

  /** Where a prefix runs out of transactions, so does the whole. */
  lemma {:induction false} StaysNone<T>(avail: seq<Option<T>>, i: nat, missing: seq<T>)
    requires i <= |avail| && Fill(avail[..i], missing).None?
    ensures Fill(avail, missing).None?
  {
    if i < |avail| {
      assert avail[..|avail| - 1][..i] == avail[..i];
      StaysNone(avail[..|avail| - 1], i, missing);
    } else {
      assert avail[..i] == avail;
    }
  }

  /**
   * Relay of a block: the receiver knows a pool and extra transactions, asks for what is missing,
   * and ends up with the sender's list.
   */
  method Relay<T(!new), H(!new, ==)>(ids: Ids<T, H>, vtx: seq<T>, pool: seq<(H, T)>, extra: seq<(H, T)>, g: Setting<T>, check: seq<T> -> CheckResult)
    returns (r: Status, assembled: seq<T>)
    requires vtx != [] && |vtx| <= 0xffff && InitStatus(g, MessageOf(ids, vtx)) == StatusOk
    requires NoImpostor(ids, pool, vtx) && NoImpostor(ids, extra, vtx)
    ensures assembled == vtx
    ensures check(vtx) == Valid ==> r == StatusOk
  {
    var m := MessageOf(ids, vtx);
    var block := new PartiallyDownloadedBlock(pool);
    var status := block.InitData(ids, m, g, extra);
    MessageDescribes(ids, vtx);
    Reconstructs(ids, m, vtx, pool, extra);
    var missing := CollectMissing(block, vtx);
    r, assembled := block.FillBlock(missing, check);
  }

  /** The sender's answer to the indexes that are not available. */
  method CollectMissing<T(!new), H(!new, ==)>(block: PartiallyDownloadedBlock<T, H>, vtx: seq<T>) returns (missing: seq<T>)
    requires !block.headerIsNull && |block.txnAvailable| == |vtx|
    ensures missing == Missing(block.txnAvailable, vtx) && |missing| == |Gaps(block.txnAvailable)|
    ensures forall i :: 0 <= i < |missing| ==> missing[i] == vtx[Gaps(block.txnAvailable)[i]]
  {
    ghost var avail := block.txnAvailable;
    missing := [];
    var i := 0;
    while i < |vtx|
      invariant 0 <= i <= |vtx| && missing == Missing(avail[..i], vtx[..i])
    {
      assert avail[..i + 1][..i] == avail[..i] && vtx[..i + 1][..i] == vtx[..i];
      if !block.IsTxAvailable(i) {
        missing := missing + [vtx[i]];
      }
      i := i + 1;
    }
    assert avail[..i] == avail && vtx[..i] == vtx;
    MissingIsGaps(avail, vtx);
  }
}
