/**
 * Which known transaction ends up in a slot of a compact block (src/blockencodings.cpp): the first one with the short
 * id of the slot, unless a second one contradicts it.
 */
module CompactMatch {
  import opened Common
  import opened CompactBlock

  // ---------------------------------------------------------------- how far a list is read

  /** All transactions of a list, without the early exit. */
  function ScanAll<T, H(==)>(ids: Ids<T, H>, s: Match<T>, index: map<nat, nat>, known: seq<(H, T)>, extra: bool): (t: Match<T>)
    requires SlotsFit(s, index)
    ensures SlotsFit(t, index)
  {
    if known == [] then s
    else
      var n := |known| - 1;
      TakeOneFits(ids, ScanAll(ids, s, index, known[..n], extra), index, known[n], extra);
      TakeOne(ids, ScanAll(ids, s, index, known[..n], extra), index, known[n], extra)
  }

  /** How many transactions of a list are read: all, unless every short id is matched before. */
  function Read<T, H(==)>(ids: Ids<T, H>, s: Match<T>, index: map<nat, nat>, known: seq<(H, T)>, extra: bool): (n: nat)
    requires SlotsFit(s, index)
    ensures n <= |known|
    decreases |known|
  {
    if known == [] then 0
    else
      TakeOneFits(ids, s, index, known[0], extra);
      var t := TakeOne(ids, s, index, known[0], extra);
      if t.count == |index| then 1 else 1 + Read(ids, t, index, known[1..], extra)
  }

  lemma {:induction false} ScanAllFront<T, H>(ids: Ids<T, H>, s: Match<T>, index: map<nat, nat>, known: seq<(H, T)>, extra: bool)
    requires SlotsFit(s, index) && known != []
    ensures SlotsFit(TakeOne(ids, s, index, known[0], extra), index)
    ensures ScanAll(ids, s, index, known, extra) == ScanAll(ids, TakeOne(ids, s, index, known[0], extra), index, known[1..], extra)
    decreases |known|
  {
    TakeOneFits(ids, s, index, known[0], extra);
    var n := |known| - 1;
    if n > 0 {
      ScanAllFront(ids, s, index, known[..n], extra);
      assert known[..n][1..] == known[1..][..n - 1];
    } else {
      assert known[..0] == [] && known[1..] == [];
    }
  }

  /** A scan reads a front of its list; if that is not all, every short id is matched. */
  lemma {:induction false} ScanReads<T, H>(ids: Ids<T, H>, s: Match<T>, index: map<nat, nat>, known: seq<(H, T)>, extra: bool)
    requires SlotsFit(s, index)
    ensures var n := Read(ids, s, index, known, extra);
            && Scan(ids, s, index, known, extra) == ScanAll(ids, s, index, known[..n], extra)
            && (n < |known| ==> Scan(ids, s, index, known, extra).count == |index|)
    decreases |known|
  {
    if known != [] {
      TakeOneFits(ids, s, index, known[0], extra);
      var t := TakeOne(ids, s, index, known[0], extra);
      var n := Read(ids, s, index, known, extra);
      ScanAllFront(ids, s, index, known[..n], extra);
      if t.count == |index| {
        assert known[..1][1..] == [];
      } else {
        ScanReads(ids, t, index, known[1..], extra);
        assert known[..n][1..] == known[1..][..n - 1];
      }
    }
  }

  // ---------------------------------------------------------------- one slot

  /** The transactions of a list with a given short id. */
  function Hits<T, H>(ids: Ids<T, H>, known: seq<(H, T)>, id: nat): seq<T> {
    if known == [] then []
    else
      var n := |known| - 1;
      Hits(ids, known[..n], id) + if ids.short(known[n].0) == id then [known[n].1] else []
  }

  /** All transactions of a list have the hash of a given one. */
  ghost predicate Agree<T, H>(ids: Ids<T, H>, txs: seq<T>, tx: T) {
    forall k :: 0 <= k < |txs| ==> ids.hash(txs[k]) == ids.hash(tx)
  }

  /** Different short ids lead to different slots. */
  ghost predicate OneEach(index: map<nat, nat>) {
    forall a, b :: a in index && b in index && index[a] == index[b] ==> a == b
  }

  /** What a slot holds after the pool: the one transaction with its short id, and nothing if there are more. */
  lemma {:induction false} PoolSlot<T, H>(ids: Ids<T, H>, s: Match<T>, index: map<nat, nat>, known: seq<(H, T)>, id: nat)
    requires SlotsFit(s, index) && OneEach(index) && id in index && !s.have[index[id]] && s.avail[index[id]].None?
    ensures var t, hits := ScanAll(ids, s, index, known, false), Hits(ids, known, id);
            && t.have[index[id]] == (hits != [])
            && t.avail[index[id]] == if |hits| == 1 then Some(hits[0]) else None
  {
    if known != [] {
      PoolSlot(ids, s, index, known[..|known| - 1], id);
    }
  }

  /** An extra transaction fills an unmatched slot, and empties one that holds a transaction with another hash. */
  ghost function AfterExtra<T, H>(ids: Ids<T, H>, have: bool, avail: Option<T>, hits: seq<T>): Option<T> {
    if hits == [] then avail
    else if !have then if Agree(ids, hits, hits[0]) then Some(hits[0]) else None
    else if avail.Some? && Agree(ids, hits, avail.value) then avail
    else None
  }

  lemma AgreeMore<T, H>(ids: Ids<T, H>, txs: seq<T>, more: T, tx: T)
    ensures Agree(ids, txs + [more], tx) <==> Agree(ids, txs, tx) && ids.hash(more) == ids.hash(tx)
  {
    var all := txs + [more];
    if Agree(ids, all, tx) {
      assert all[|txs|] == more;
      assert forall k :: 0 <= k < |txs| ==> all[k] == txs[k];
    }
  }

  lemma {:induction false} ExtraSlot<T, H>(ids: Ids<T, H>, s: Match<T>, index: map<nat, nat>, known: seq<(H, T)>, id: nat)
    requires SlotsFit(s, index) && OneEach(index) && id in index && (!s.have[index[id]] ==> s.avail[index[id]].None?)
    ensures var t, hits := ScanAll(ids, s, index, known, true), Hits(ids, known, id);
            && t.have[index[id]] == (s.have[index[id]] || hits != [])
            && t.avail[index[id]] == AfterExtra(ids, s.have[index[id]], s.avail[index[id]], hits)
  {
    if known != [] {
      var n := |known| - 1;
      ExtraSlot(ids, s, index, known[..n], id);
      var hits := Hits(ids, known[..n], id);
      if ids.short(known[n].0) == id {
        OneMoreExtra(ids, s.have[index[id]], s.avail[index[id]], hits, known[n].1);
      } else {
        assert Hits(ids, known, id) == hits;
      }
    }
  }

  lemma OneMoreExtra<T, H>(ids: Ids<T, H>, have: bool, avail: Option<T>, hits: seq<T>, tx: T)
    requires !have ==> avail.None?
    ensures var was := AfterExtra(ids, have, avail, hits);
            AfterExtra(ids, have, avail, hits + [tx])
            == if !have && hits == [] then Some(tx)
               else if was.Some? && ids.hash(was.value) != ids.hash(tx) then None
               else was
  {
    if hits != [] {
      AgreeMore(ids, hits, tx, hits[0]);
      assert (hits + [tx])[0] == hits[0];
    }
    if avail.Some? {
      AgreeMore(ids, hits, tx, avail.value);
    }
    assert Agree(ids, [tx], tx);
  }

  // ---------------------------------------------------------------- a block

  /** The transactions of the pool that are read. */
  function PoolRead<T, H(==)>(ids: Ids<T, H>, m: Message<T>, pool: seq<(H, T)>): seq<(H, T)>
    requires PlacesOk(m)
  {
    pool[..Read(ids, Start(m), Index(m), pool, false)]
  }

  /** The extra transactions that are read. */
  function ExtraRead<T, H(==)>(ids: Ids<T, H>, m: Message<T>, pool: seq<(H, T)>, extra: seq<(H, T)>): seq<(H, T)>
    requires PlacesOk(m)
  {
    ScanFits(ids, Start(m), Index(m), pool, false);
    extra[..Read(ids, Scan(ids, Start(m), Index(m), pool, false), Index(m), extra, true)]
  }

  /**
   * The candidate for a short id: the first transaction with it, from the pool before the extra ones; none, if the
   * pool has a second one, or if any has another hash than the first.
   */
  ghost function Candidate<T, H>(ids: Ids<T, H>, pool: seq<(H, T)>, extra: seq<(H, T)>, id: nat): Option<T> {
    var fromPool := Hits(ids, pool, id);
    var all := fromPool + Hits(ids, extra, id);
    if all != [] && |fromPool| <= 1 && Agree(ids, all, all[0]) then Some(all[0]) else None
  }

  lemma IndexOneEach<T>(m: Message<T>)
    requires PlacesOk(m) && Distinct(m.shortIds)
    ensures OneEach(Index(m))
  {
    GapForEach(m);
    GapsAscend(Prefilled(m, |m.prefilled|));
    var gaps, index := ShortSlots(m), Index(m);
    forall a, b | a in index && b in index && index[a] == index[b]
      ensures a == b
    {
      var i :| 0 <= i < |m.shortIds| && m.shortIds[i] == a;
      var j :| 0 <= j < |m.shortIds| && m.shortIds[j] == b;
      IndexAt(m.shortIds, gaps, i);
      IndexAt(m.shortIds, gaps, j);
    }
  }

  lemma BothSlots<T, H>(ids: Ids<T, H>, pool: seq<(H, T)>, extra: seq<(H, T)>, id: nat)
    ensures var hits := Hits(ids, pool, id);
            AfterExtra(ids, hits != [], if |hits| == 1 then Some(hits[0]) else None, Hits(ids, extra, id))
            == Candidate(ids, pool, extra, id)
  {
    var a, b := Hits(ids, pool, id), Hits(ids, extra, id);
    var all := a + b;
    assert forall k :: 0 <= k < |a| ==> all[k] == a[k];
    assert forall k :: 0 <= k < |b| ==> all[|a| + k] == b[k];
    if all != [] {
      assert Agree(ids, all, all[0]) ==> Agree(ids, b, all[0]);
      if |a| <= 1 && Agree(ids, b, all[0]) {
        assert Agree(ids, all, all[0]);
      }
    }
  }

  /** Exactly what every slot of a short id holds in the end. */
  lemma SlotExact<T, H>(ids: Ids<T, H>, m: Message<T>, pool: seq<(H, T)>, extra: seq<(H, T)>, i: nat)
    requires PlacesOk(m) && Distinct(m.shortIds) && i < |m.shortIds|
    ensures |ShortSlots(m)| == |m.shortIds| && |Matched(ids, m, pool, extra).avail| == BlockTxCount(m)
    ensures Matched(ids, m, pool, extra).avail[ShortSlots(m)[i]]
            == Candidate(ids, PoolRead(ids, m, pool), ExtraRead(ids, m, pool, extra), m.shortIds[i])
  {
    MatchedFilled(ids, m, pool, extra);
    GapForEach(m);
    var index, id := Index(m), m.shortIds[i];
    IndexAt(m.shortIds, ShortSlots(m), i);
    IndexOneEach(m);
    StartInv(m);
    ScanReads(ids, Start(m), index, pool, false);
    PoolSlot(ids, Start(m), index, PoolRead(ids, m, pool), id);
    var s := Scan(ids, Start(m), index, pool, false);
    ScanFits(ids, Start(m), index, pool, false);
    ScanReads(ids, s, index, extra, true);
    ExtraSlot(ids, s, index, ExtraRead(ids, m, pool, extra), id);
    BothSlots(ids, PoolRead(ids, m, pool), ExtraRead(ids, m, pool, extra), id);
  }

  /** Everything is read, or every short id is matched. */
  lemma ReadsAllOrFills<T, H>(ids: Ids<T, H>, m: Message<T>, pool: seq<(H, T)>, extra: seq<(H, T)>)
    requires PlacesOk(m) && Distinct(m.shortIds)
    ensures |PoolRead(ids, m, pool)| < |pool| ==> PoolCount(ids, m, pool) == |m.shortIds|
    ensures |ExtraRead(ids, m, pool, extra)| < |extra| ==> Matched(ids, m, pool, extra).count == |m.shortIds|
  {
    GapForEach(m);
    IndexSize(m.shortIds, ShortSlots(m));
    ScanReads(ids, Start(m), Index(m), pool, false);
    ScanFits(ids, Start(m), Index(m), pool, false);
    ScanReads(ids, Scan(ids, Start(m), Index(m), pool, false), Index(m), extra, true);
  }

  // ---------------------------------------------------------------- what is missing

  /** Known transactions are listed under their hashes. */
  ghost predicate Truthful<T, H>(ids: Ids<T, H>, known: seq<(H, T)>) {
    forall j :: 0 <= j < |known| ==> known[j].0 == ids.hash(known[j].1)
  }

  ghost predicate DistinctHashes<T, H>(known: seq<(H, T)>) {
    forall j, k :: 0 <= j < k < |known| ==> known[j].0 != known[k].0
  }

  ghost predicate Knows<T, H>(known: seq<(H, T)>, tx: T) {
    exists j :: 0 <= j < |known| && known[j].1 == tx
  }

  /** No other known transaction than the block's own has the short id of a slot. */
  ghost predicate NoneElse<T, H>(ids: Ids<T, H>, known: seq<(H, T)>, id: nat, tx: T) {
    forall j :: 0 <= j < |known| && ids.short(known[j].0) == id ==> known[j].1 == tx
  }

  lemma {:induction false} HitsAre<T, H>(ids: Ids<T, H>, known: seq<(H, T)>, id: nat, tx: T)
    requires NoneElse(ids, known, id, tx)
    ensures forall k :: 0 <= k < |Hits(ids, known, id)| ==> Hits(ids, known, id)[k] == tx
    ensures Hits(ids, known, id) != [] ==> Knows(known, tx)
  {
    if known != [] {
      var n := |known| - 1;
      HitsAre(ids, known[..n], id, tx);
      if Hits(ids, known[..n], id) != [] {
        var j :| 0 <= j < |known[..n]| && known[..n][j].1 == tx;
        assert known[j].1 == tx;
      }
    }
  }

  lemma {:induction false} KnownHits<T, H>(ids: Ids<T, H>, known: seq<(H, T)>, id: nat, j: nat)
    requires j < |known| && ids.short(known[j].0) == id
    ensures Hits(ids, known, id) != []
  {
    if j < |known| - 1 {
      KnownHits(ids, known[..|known| - 1], id, j);
    }
  }

  lemma {:induction false} OneHit<T, H>(ids: Ids<T, H>, known: seq<(H, T)>, id: nat, tx: T)
    requires Truthful(ids, known) && DistinctHashes(known)
    requires NoneElse(ids, known, id, tx)
    ensures |Hits(ids, known, id)| <= 1
  {
    if known != [] {
      var n := |known| - 1;
      OneHit(ids, known[..n], id, tx);
      HitsAre(ids, known[..n], id, tx);
      assert Knows(known[..n], tx) ==> known[n].0 != ids.hash(tx);
    }
  }

  lemma {:induction false} AllFilled<T>(avail: seq<Option<T>>, slots: seq<nat>, i: nat)
    requires (forall k :: 0 <= k < |slots| ==> slots[k] < |avail|) && FilledAt(avail, slots) == |slots| && i < |slots|
    ensures avail[slots[i]].Some?
  {
    if i < |slots| - 1 {
      AllFilled(avail, slots[..|slots| - 1], i);
    }
  }

  lemma CandidateIs<T, H>(ids: Ids<T, H>, pool: seq<(H, T)>, extra: seq<(H, T)>, id: nat, tx: T)
    requires Truthful(ids, pool) && DistinctHashes(pool) && NoneElse(ids, pool, id, tx) && NoneElse(ids, extra, id, tx)
    ensures Candidate(ids, pool, extra, id).Some? <==> Hits(ids, pool, id) != [] || Hits(ids, extra, id) != []
  {
    OneHit(ids, pool, id, tx);
    HitsAre(ids, pool, id, tx);
    HitsAre(ids, extra, id, tx);
    var a, b := Hits(ids, pool, id), Hits(ids, extra, id);
    assert forall k :: 0 <= k < |a + b| ==> (a + b)[k] == tx;
  }

  /** The pool settles a slot if it was not read to the end. */
  lemma UnreadIsSettled<T, H>(ids: Ids<T, H>, m: Message<T>, pool: seq<(H, T)>, i: nat)
    requires PlacesOk(m) && Distinct(m.shortIds) && i < |m.shortIds| && |PoolRead(ids, m, pool)| < |pool|
    ensures Hits(ids, PoolRead(ids, m, pool), m.shortIds[i]) != []
  {
    var none: seq<(H, T)> := [];
    ReadsAllOrFills(ids, m, pool, none);
    MatchedCount(ids, m, pool, none);
    AllFilled(Matched(ids, m, pool, none).avail, ShortSlots(m), i);
    SlotExact(ids, m, pool, none, i);
    assert Hits(ids, ExtraRead(ids, m, pool, none), m.shortIds[i]) == [];
  }

  /**
   * What is found: if no other known transaction shares a short id with one of the block's and the pool lists each of
   * its own once, a slot is filled if and only if the pool or the extra transactions have the block's transaction.
   */
  lemma FoundIff<T, H>(ids: Ids<T, H>, m: Message<T>, vtx: seq<T>, pool: seq<(H, T)>, extra: seq<(H, T)>, i: nat)
    requires Describes(ids, m, vtx) && Distinct(m.shortIds) && NoImpostor(ids, pool, vtx) && NoImpostor(ids, extra, vtx)
    requires Truthful(ids, pool) && DistinctHashes(pool) && Truthful(ids, extra) && i < |m.shortIds|
    ensures |ShortSlots(m)| == |m.shortIds| && |Matched(ids, m, pool, extra).avail| == |vtx|
    ensures var p := ShortSlots(m)[i];
            Matched(ids, m, pool, extra).avail[p].Some? <==> Knows(pool, vtx[p]) || Knows(extra, vtx[p])
  {
    SlotExact(ids, m, pool, extra, i);
    var p, id := ShortSlots(m)[i], m.shortIds[i];
    assert id == ids.short(ids.hash(vtx[p]));
    CandidateIs(ids, PoolRead(ids, m, pool), ExtraRead(ids, m, pool, extra), id, vtx[p]);
    HitsKnown(ids, pool, PoolRead(ids, m, pool), id, vtx[p]);
    HitsKnown(ids, extra, ExtraRead(ids, m, pool, extra), id, vtx[p]);
    if Knows(pool, vtx[p]) && |PoolRead(ids, m, pool)| < |pool| {
      UnreadIsSettled(ids, m, pool, i);
    } else if Knows(extra, vtx[p]) && |ExtraRead(ids, m, pool, extra)| < |extra| {
      ReadsAllOrFills(ids, m, pool, extra);
      MatchedCount(ids, m, pool, extra);
      AllFilled(Matched(ids, m, pool, extra).avail, ShortSlots(m), i);
    }
  }

  lemma HitsKnown<T, H>(ids: Ids<T, H>, known: seq<(H, T)>, read: seq<(H, T)>, id: nat, tx: T)
    requires read <= known && NoneElse(ids, known, id, tx) && Truthful(ids, known) && id == ids.short(ids.hash(tx))
    ensures Hits(ids, read, id) != [] ==> Knows(known, tx)
    ensures |read| == |known| && Knows(known, tx) ==> Hits(ids, read, id) != []
  {
    HitsAre(ids, read, id, tx);
    if Knows(read, tx) {
      var j :| 0 <= j < |read| && read[j].1 == tx;
      assert known[j].1 == tx;
    }
    if |read| == |known| && Knows(known, tx) {
      var j :| 0 <= j < |known| && known[j].1 == tx;
      KnownHits(ids, read, id, j);
    }
  }

  /** So what is missing is exactly what was sent by its short id and is in neither. */
  lemma MissingIff<T, H>(ids: Ids<T, H>, m: Message<T>, vtx: seq<T>, pool: seq<(H, T)>, extra: seq<(H, T)>, p: nat)
    requires Describes(ids, m, vtx) && Distinct(m.shortIds) && NoImpostor(ids, pool, vtx) && NoImpostor(ids, extra, vtx)
    requires Truthful(ids, pool) && DistinctHashes(pool) && Truthful(ids, extra) && p < |vtx|
    ensures p in Gaps(Matched(ids, m, pool, extra).avail)
            <==> p in ShortSlots(m) && !Knows(pool, vtx[p]) && !Knows(extra, vtx[p])
  {
    MatchedCount(ids, m, pool, extra);
    GapsExact(Matched(ids, m, pool, extra).avail, p);
    GapsExact(Prefilled(m, |m.prefilled|), p);
    if p in ShortSlots(m) {
      var i :| 0 <= i < |ShortSlots(m)| && ShortSlots(m)[i] == p;
      FoundIff(ids, m, vtx, pool, extra, i);
    }
  }

  /** A short id that two transactions of the pool share, as far as it is read, leaves its slot empty. */
  lemma SharedInPool<T, H>(ids: Ids<T, H>, m: Message<T>, pool: seq<(H, T)>, extra: seq<(H, T)>, i: nat, j: nat, k: nat)
    requires PlacesOk(m) && Distinct(m.shortIds) && i < |m.shortIds| && j < k < |PoolRead(ids, m, pool)|
    requires ids.short(pool[j].0) == m.shortIds[i] == ids.short(pool[k].0)
    ensures |ShortSlots(m)| == |m.shortIds| && |Matched(ids, m, pool, extra).avail| == BlockTxCount(m)
    ensures Matched(ids, m, pool, extra).avail[ShortSlots(m)[i]].None?
  {
    SlotExact(ids, m, pool, extra, i);
    TwoHits(ids, PoolRead(ids, m, pool), m.shortIds[i], j, k);
  }

  lemma {:induction false} TwoHits<T, H>(ids: Ids<T, H>, known: seq<(H, T)>, id: nat, j: nat, k: nat)
    requires j < k < |known| && ids.short(known[j].0) == id == ids.short(known[k].0)
    ensures |Hits(ids, known, id)| >= 2
  {
    if k < |known| - 1 {
      TwoHits(ids, known[..|known| - 1], id, j, k);
    } else {
      KnownHits(ids, known[..k], id, j);
    }
  }

  lemma {:induction false} HitAt<T, H>(ids: Ids<T, H>, known: seq<(H, T)>, id: nat, j: nat) returns (k: nat)
    requires j < |known| && ids.short(known[j].0) == id
    ensures k < |Hits(ids, known, id)| && Hits(ids, known, id)[k] == known[j].1
  {
    if j < |known| - 1 {
      k := HitAt(ids, known[..|known| - 1], id, j);
    } else {
      k := |Hits(ids, known, id)| - 1;
    }
  }

  /** So do one of the pool and an extra one with different hashes, as far as they are read. */
  lemma SharedWithExtra<T, H>(ids: Ids<T, H>, m: Message<T>, pool: seq<(H, T)>, extra: seq<(H, T)>, i: nat, j: nat, k: nat)
    requires PlacesOk(m) && Distinct(m.shortIds) && i < |m.shortIds|
    requires j < |PoolRead(ids, m, pool)| && k < |ExtraRead(ids, m, pool, extra)|
    requires ids.short(pool[j].0) == m.shortIds[i] == ids.short(extra[k].0) && ids.hash(pool[j].1) != ids.hash(extra[k].1)
    ensures |ShortSlots(m)| == |m.shortIds| && |Matched(ids, m, pool, extra).avail| == BlockTxCount(m)
    ensures Matched(ids, m, pool, extra).avail[ShortSlots(m)[i]].None?
  {
    SlotExact(ids, m, pool, extra, i);
    var id, a, b := m.shortIds[i], PoolRead(ids, m, pool), ExtraRead(ids, m, pool, extra);
    var x := HitAt(ids, a, id, j);
    var y := HitAt(ids, b, id, k);
    NoCandidate(ids, a, b, id, x, y);
  }

  lemma NoCandidate<T, H>(ids: Ids<T, H>, a: seq<(H, T)>, b: seq<(H, T)>, id: nat, x: nat, y: nat)
    requires x < |Hits(ids, a, id)| && y < |Hits(ids, b, id)|
    requires ids.hash(Hits(ids, a, id)[x]) != ids.hash(Hits(ids, b, id)[y])
    ensures Candidate(ids, a, b, id) == None
  {
    var all := Hits(ids, a, id) + Hits(ids, b, id);
    assert all[x] == Hits(ids, a, id)[x] && all[|Hits(ids, a, id)| + y] == Hits(ids, b, id)[y];
  }
}
