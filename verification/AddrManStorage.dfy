/**
 * Writing and reading the address manager (Serialize and Unserialize in src/addrman.h), with their loops
 * over the maps and the tables, proved against the functions of module AddrManFile.
 */
module AddrManStorage {
  import opened Common
  import opened AddrMan
  import opened AddrManTables
  import opened AddrManFile

  // ---------------------------------------------------------------- writing

  lemma IndexInAppend(ids: seq<int>, x: int, id: int)
    ensures id in ids ==> IndexIn(ids + [x], id) == IndexIn(ids, id)
    ensures x !in ids ==> IndexIn(ids + [x], x) == |ids|
  {
    if ids != [] {
      assert (ids + [x])[1..] == ids[1..] + [x];
      IndexInAppend(ids[1..], x, id);
    }
  }

  /** The numbers given to the new entries so far are their places in the file. */
  ghost predicate Numbered(m: map<int, Info>, order: seq<int>, unkIds: map<int, int>)
    requires Exist(m, order)
  {
    forall id :: id in NewOrder(m, order) ==> id in unkIds && unkIds[id] == IndexIn(NewOrder(m, order), id)
  }

  lemma NextNumber(m: map<int, Info>, order: seq<int>, i: nat, unkIds: map<int, int>)
    requires Exist(m, order) && Distinct(order) && i < |order| && Numbered(m, order[..i], unkIds)
    ensures Numbered(m, order[..i + 1], unkIds[order[i] := |NewOrder(m, order[..i])|])
  {
    var news := NewOrder(m, order[..i]);
    assert order[..i + 1][..i] == order[..i] && order[..i + 1][i] == order[i];
    OrderMembers(m, order[..i]);
    assert order[i] !in order[..i];
    var more, u := NewOrder(m, order[..i + 1]), unkIds[order[i] := |news|];
    assert more == if m[order[i]].nRefCount != 0 then news + [order[i]] else news;
    forall id | id in more
      ensures id in u && u[id] == IndexIn(more, id)
    {
      IndexInAppend(news, order[i], id);
    }
  }

  /** Fewer entries come before one more: the counts that are asserted while writing are not reached. */
  lemma {:induction false} OrderGrows(m: map<int, Info>, order: seq<int>, i: nat)
    requires Exist(m, order) && i <= |order|
    ensures |NewOrder(m, order[..i])| <= |NewOrder(m, order)| && |TriedOrder(m, order[..i])| <= |TriedOrder(m, order)|
  {
    if i < |order| {
      var n := |order| - 1;
      OrderGrows(m, order[..n], i);
      assert order[..n][..i] == order[..i];
    } else {
      assert order[..i] == order;
    }
  }

  method WriteNew(am: CAddrMan, order: seq<int>) returns (records: seq<Record>, unkIds: map<int, int>)
    requires Inv(am.cfg, am.Abstract(), {}) && Lists(am.mapInfo, order)
    ensures records == Records(am.mapInfo, NewOrder(am.mapInfo, order)) && Numbered(am.mapInfo, order, unkIds)
  {
    records, unkIds := [], map[];
    var nIds, i := 0, 0;
    CountsWritten(am.cfg, am.Abstract(), order);
    while i < |order|
      invariant 0 <= i <= |order| && nIds == |NewOrder(am.mapInfo, order[..i])|
      invariant records == Records(am.mapInfo, NewOrder(am.mapInfo, order[..i]))
      invariant Numbered(am.mapInfo, order[..i], unkIds)
    {
      NextNumber(am.mapInfo, order, i, unkIds);
      OrderGrows(am.mapInfo, order, i + 1);
      assert order[..i + 1][..i] == order[..i];
      unkIds := unkIds[order[i] := nIds];
      var info := am.mapInfo[order[i]];
      if info.nRefCount != 0 {
        assert nIds != am.nNew;
        records := records + [RecordOf(info)];
        nIds := nIds + 1;
      }
      i := i + 1;
    }
    assert order[..i] == order;
  }

  method WriteTried(am: CAddrMan, order: seq<int>) returns (records: seq<Record>)
    requires Inv(am.cfg, am.Abstract(), {}) && Lists(am.mapInfo, order)
    ensures records == Records(am.mapInfo, TriedOrder(am.mapInfo, order))
  {
    records := [];
    var nIds, i := 0, 0;
    CountsWritten(am.cfg, am.Abstract(), order);
    while i < |order|
      invariant 0 <= i <= |order| && nIds == |TriedOrder(am.mapInfo, order[..i])|
      invariant records == Records(am.mapInfo, TriedOrder(am.mapInfo, order[..i]))
    {
      OrderGrows(am.mapInfo, order, i + 1);
      assert order[..i + 1][..i] == order[..i];
      var info := am.mapInfo[order[i]];
      if info.fInTried {
        assert nIds != am.nTried;
        records := records + [RecordOf(info)];
        nIds := nIds + 1;
      }
      i := i + 1;
    }
    assert order[..i] == order;
  }

  /** The size of a bucket, which is written before its entries. */
  method CountBucket(table: BucketTable, bucket: nat) returns (nSize: nat)
    requires table.Valid() && bucket < table.data.Length0
    ensures nSize == |BucketSlots(table.occupied, bucket, table.data.Length1)|
  {
    nSize := 0;
    var i := 0;
    while i < table.data.Length1
      invariant 0 <= i <= table.data.Length1 && nSize == |BucketSlots(table.occupied, bucket, i)|
    {
      var id := table.Get(Slot(bucket, i));
      if id != -1 {
        nSize := nSize + 1;
      }
      i := i + 1;
    }
  }

  /** The numbers of a bucket's entries. */
  method WriteBucket(table: BucketTable, bucket: nat, unkIds: map<int, int>, ghost news: seq<int>)
    returns (numbers: seq<int>)
    requires table.Valid() && bucket < table.data.Length0
    requires forall p :: p in table.occupied ==>
      table.occupied[p] in unkIds && unkIds[table.occupied[p]] == IndexIn(news, table.occupied[p])
    ensures numbers == Numbers(table.occupied, news, BucketSlots(table.occupied, bucket, table.data.Length1))
  {
    numbers := [];
    var i := 0;
    while i < table.data.Length1
      invariant 0 <= i <= table.data.Length1
      invariant numbers == Numbers(table.occupied, news, BucketSlots(table.occupied, bucket, i))
    {
      var id := table.Get(Slot(bucket, i));
      if id != -1 {
        numbers := numbers + [unkIds[id]];
      }
      i := i + 1;
    }
  }

  /** Every reference of the new table is to a numbered entry. */
  lemma ReferencesNumbered(c: Config, s: State, order: seq<int>, unkIds: map<int, int>)
    requires Inv(c, s, {}) && Lists(s.mapInfo, order) && Numbered(s.mapInfo, order, unkIds)
    ensures forall p :: p in s.vvNew ==>
      s.vvNew[p] in unkIds && unkIds[s.vvNew[p]] == IndexIn(NewOrder(s.mapInfo, order), s.vvNew[p])
  {
    OrderMembers(s.mapInfo, order);
    forall p | p in s.vvNew
      ensures s.vvNew[p] in unkIds && unkIds[s.vvNew[p]] == IndexIn(NewOrder(s.mapInfo, order), s.vvNew[p])
    {
      var id := s.vvNew[p];
      Look(c, s, {});
      KindsDiffer(c, s, id);
      assert id in NewOrder(s.mapInfo, order);
    }
  }

  method WriteBuckets(table: BucketTable, unkIds: map<int, int>, ghost news: seq<int>) returns (buckets: seq<seq<int>>)
    requires table.Valid()
    requires forall p :: p in table.occupied ==>
      table.occupied[p] in unkIds && unkIds[table.occupied[p]] == IndexIn(news, table.occupied[p])
    ensures buckets == Buckets(table.occupied, news, table.data.Length1, table.data.Length0)
  {
    buckets := [];
    var bucket := 0;
    while bucket < table.data.Length0
      invariant 0 <= bucket <= table.data.Length0
      invariant buckets == Buckets(table.occupied, news, table.data.Length1, bucket)
    {
      var nSize := CountBucket(table, bucket);
      var numbers := WriteBucket(table, bucket, unkIds, news);
      assert nSize == |numbers|;
      buckets := buckets + [numbers];
      bucket := bucket + 1;
    }
  }

  /** Serialize; `order` is the order in which the map of entries is traversed. */
  method Serialize(am: CAddrMan, order: seq<int>, checksum: nat) returns (f: File)
    requires am.Valid() && Lists(am.mapInfo, order)
    ensures f == Save(am.Abstract(), order, checksum)
  {
    var news, unkIds := WriteNew(am, order);
    var trieds := WriteTried(am, order);
    ReferencesNumbered(am.cfg, am.Abstract(), order, unkIds);
    var buckets := WriteBuckets(am.vvNew, unkIds, NewOrder(am.mapInfo, order));
    f := File(am.nNew, am.nTried, NEW_BUCKET_COUNT, news, trieds, buckets, checksum);
  }

  // ---------------------------------------------------------------- reading

  /** The counts of the file are the numbers of records and buckets that follow them. */
  ghost predicate Framed(f: File) {
    && (f.nNew >= 0 ==> |f.newRecords| == f.nNew)
    && (f.nTried >= 0 ==> |f.triedRecords| == f.nTried)
    && (f.bucketCount >= 0 ==> |f.buckets| == f.bucketCount)
  }

  /** The entries of the new table, numbered from 0; the count of ids is set at the end. */
  method ReadNew(am: CAddrMan, records: seq<Record>)
    requires am.nIdCount == 0 && am.vRandom == []
    modifies am`mapInfo, am`mapAddr, am`vRandom, am`nIdCount
    ensures am.Abstract() == LoadNew(old(am.Abstract()), records)
  {
    ghost var s := am.Abstract();
    var n := 0;
    while n < |records|
      invariant 0 <= n <= |records| && |am.vRandom| == n && am.nIdCount == 0
      invariant am.Abstract().(nIdCount := n) == LoadNew(s, records[..n])
    {
      assert records[..n + 1][..n] == records[..n];
      am.mapInfo := am.mapInfo[n := InfoOf(records[n], |am.vRandom|, false)];
      am.mapAddr := am.mapAddr[records[n].service.addr := n];
      am.vRandom := am.vRandom + [n];
      n := n + 1;
    }
    assert records[..n] == records;
    am.nIdCount := n;
  }

  /** The lost entries are taken off the count. */
  ghost function FewerTried(s: State, lost: nat): State {
    s.(nTried := s.nTried - lost)
  }

  /** One tried entry, unless its slot is taken. */
  method ReadOneTried(am: CAddrMan, r: Record) returns (lost: bool)
    requires am.Shaped() && am.nIdCount >= 0
    modifies am`mapInfo, am`mapAddr, am`vRandom, am`nIdCount, am.vvTried, am.vvTried.data
    ensures am.Shaped() && am.nIdCount >= 0
    ensures am.nTried == old(am.nTried)
    ensures FewerTried(am.Abstract(), if lost then 1 else 0) == LoadOneTried(am.cfg, old(am.Abstract()), r)
  {
    var slot := TriedSlot(am.cfg, r.service);
    PositionInRange(am.cfg, false, slot.bucket, r.service);
    var id := am.vvTried.Get(slot);
    lost := id != -1;
    if !lost {
      am.mapInfo := am.mapInfo[am.nIdCount := InfoOf(r, |am.vRandom|, true)];
      am.vRandom := am.vRandom + [am.nIdCount];
      am.mapAddr := am.mapAddr[r.service.addr := am.nIdCount];
      am.vvTried.Set(slot, am.nIdCount);
      am.nIdCount := am.nIdCount + 1;
    }
  }

  /** Entries that are lost do not depend on the count of tried entries. */
  lemma LoseOne(c: Config, s: State, r: Record, n: int)
    ensures LoadOneTried(c, s.(nTried := n), r) == LoadOneTried(c, s, r).(nTried := LoadOneTried(c, s, r).nTried - s.nTried + n)
  {}

  lemma NextTried(c: Config, s: State, records: seq<Record>, n: nat, was: State, now: State, nLost: nat, lost: bool)
    requires n < |records| && FewerTried(was, nLost) == LoadTried(c, s, records[..n])
    requires FewerTried(now, if lost then 1 else 0) == LoadOneTried(c, was, records[n]) && now.nTried == was.nTried
    ensures FewerTried(now, if lost then nLost + 1 else nLost) == LoadTried(c, s, records[..n + 1])
  {
    assert records[..n + 1][..n] == records[..n];
    LoseOne(c, was, records[n], was.nTried - nLost);
  }

  method ReadNextTried(am: CAddrMan, records: seq<Record>, n: nat, nLost: nat, ghost s: State) returns (lost: nat)
    requires am.Shaped() && am.nIdCount >= 0 && n < |records|
    requires FewerTried(am.Abstract(), nLost) == LoadTried(am.cfg, s, records[..n])
    modifies am`mapInfo, am`mapAddr, am`vRandom, am`nIdCount, am.vvTried, am.vvTried.data
    ensures am.Shaped() && am.nIdCount >= 0
    ensures FewerTried(am.Abstract(), lost) == LoadTried(am.cfg, s, records[..n + 1])
  {
    ghost var was := am.Abstract();
    var isLost := ReadOneTried(am, records[n]);
    ghost var now := am.Abstract();
    lost := if isLost then nLost + 1 else nLost;
    NextTried(am.cfg, s, records, n, was, now, nLost, isLost);
  }

  method ReadTried(am: CAddrMan, records: seq<Record>)
    requires am.Shaped() && am.nIdCount >= 0
    modifies am, am.vvTried, am.vvTried.data
    ensures am.Shaped() && am.Abstract() == LoadTried(am.cfg, old(am.Abstract()), records)
  {
    ghost var s := am.Abstract();
    var nLost, n := 0, 0;
    while n < |records|
      invariant 0 <= n <= |records| && am.Shaped() && am.nIdCount >= 0
      invariant FewerTried(am.Abstract(), nLost) == LoadTried(am.cfg, s, records[..n])
    {
      nLost := ReadNextTried(am, records, n, nLost, s);
      n := n + 1;
    }
    assert records[..n] == records;
    am.nTried := am.nTried - nLost;
  }

  /** The references that make sense, with their buckets. */
  method ReadBuckets(buckets: seq<seq<int>>, nNew: int) returns (entries: seq<(int, int)>)
    ensures entries == Entries(buckets, nNew)
    ensures forall i :: 0 <= i < |entries| ==> 0 <= entries[i].0 < |buckets| && 0 <= entries[i].1 < nNew
  {
    entries := [];
    var bucket := 0;
    while bucket < |buckets|
      invariant 0 <= bucket <= |buckets| && entries == Entries(buckets[..bucket], nNew)
      invariant forall i :: 0 <= i < |entries| ==> 0 <= entries[i].0 < |buckets| && 0 <= entries[i].1 < nNew
    {
      assert buckets[..bucket + 1][..bucket] == buckets[..bucket];
      var numbers := ReadBucket(bucket, buckets[bucket], nNew);
      entries := entries + numbers;
      bucket := bucket + 1;
    }
    assert buckets[..bucket] == buckets;
  }

  method ReadBucket(bucket: nat, numbers: seq<int>, nNew: int) returns (entries: seq<(int, int)>)
    ensures entries == BucketEntries(bucket, numbers, nNew)
    ensures forall i :: 0 <= i < |entries| ==> entries[i].0 == bucket && 0 <= entries[i].1 < nNew
  {
    entries := [];
    var n := 0;
    while n < |numbers|
      invariant 0 <= n <= |numbers| && entries == BucketEntries(bucket, numbers[..n], nNew)
      invariant forall i :: 0 <= i < |entries| ==> entries[i].0 == bucket && 0 <= entries[i].1 < nNew
    {
      assert numbers[..n + 1][..n] == numbers[..n];
      if numbers[n] >= 0 && numbers[n] < nNew {
        entries := entries + [(bucket, numbers[n])];
      }
      n := n + 1;
    }
    assert numbers[..n] == numbers;
  }

  /** Where a reference goes, if there is room for it. */
  method FindPlace(am: CAddrMan, restore: bool, bucket: nat, info: Info) returns (slot: Slot, there: int)
    requires am.Shaped() && (restore ==> bucket < NEW_BUCKET_COUNT)
    ensures am.vvNew.InRange(slot) && (there == -1 <==> slot !in am.vvNew.occupied)
    ensures var was := NewSlotIn(am.cfg, bucket, info.service);
            slot == if restore && was !in am.vvNew.occupied then was else HomeSlot(am.cfg, info)
  {
    slot := NewSlotIn(am.cfg, bucket, info.service);
    there := -1;
    PositionInRange(am.cfg, true, bucket, info.service);
    if restore {
      there := am.vvNew.Get(slot);
    }
    if !restore || there != -1 {
      slot := HomeSlot(am.cfg, info);
      PositionInRange(am.cfg, true, slot.bucket, info.service);
      there := am.vvNew.Get(slot);
    }
  }

  /** A reference is placed where it was, or else at the entry's primary place. */
  method PlaceEntry(am: CAddrMan, restore: bool, bucket: nat, id: nat)
    requires am.Shaped() && id in am.mapInfo && (restore ==> bucket < NEW_BUCKET_COUNT)
    modifies am`mapInfo, am.vvNew, am.vvNew.data
    ensures am.Shaped() && am.Abstract() == PlaceOne(am.cfg, restore, old(am.Abstract()), (bucket, id))
  {
    var info := am.mapInfo[id];
    if info.nRefCount >= NEW_BUCKETS_PER_ADDRESS {
      return;
    }
    var slot, there := FindPlace(am, restore, bucket, info);
    if there == -1 {
      AddReference(am, slot, id);
    }
  }

  method AddReference(am: CAddrMan, slot: Slot, id: nat)
    requires am.Shaped() && id in am.mapInfo && am.vvNew.InRange(slot)
    modifies am`mapInfo, am.vvNew, am.vvNew.data
    ensures am.Shaped() && am.Abstract() == Ref(old(am.Abstract()), slot, id)
  {
    am.vvNew.Set(slot, id);
    am.mapInfo := am.mapInfo[id := am.mapInfo[id].(nRefCount := am.mapInfo[id].nRefCount + 1)];
  }

  /** Placing changes nothing but reference counts and the new table. */
  ghost predicate OnlyPlaced(s: State, t: State) {
    && t.mapInfo.Keys == s.mapInfo.Keys && t.vRandom == s.vRandom
    && forall k :: k in t.mapInfo ==> t.mapInfo[k].nRandomPos == s.mapInfo[k].nRandomPos
  }

  lemma {:induction false} PlaceAllOnly(c: Config, restore: bool, s: State, entries: seq<(int, int)>)
    ensures OnlyPlaced(s, PlaceAll(c, restore, s, entries))
  {
    if entries != [] {
      PlaceAllOnly(c, restore, s, entries[..|entries| - 1]);
    }
  }

  method PlaceEntries(am: CAddrMan, restore: bool, entries: seq<(int, int)>)
    requires am.Shaped()
    requires forall i :: 0 <= i < |entries| ==>
      0 <= entries[i].0 && (restore ==> entries[i].0 < NEW_BUCKET_COUNT) && 0 <= entries[i].1 && entries[i].1 in am.mapInfo
    modifies am`mapInfo, am.vvNew, am.vvNew.data
    ensures am.Shaped() && am.Abstract() == PlaceAll(am.cfg, restore, old(am.Abstract()), entries)
  {
    ghost var s := am.Abstract();
    var n := 0;
    while n < |entries|
      invariant 0 <= n <= |entries| && am.Shaped()
      invariant am.Abstract() == PlaceAll(am.cfg, restore, s, entries[..n])
    {
      assert entries[..n + 1][..n] == entries[..n];
      PlaceAllOnly(am.cfg, restore, s, entries[..n]);
      PlaceEntry(am, restore, entries[n].0, entries[n].1);
      n := n + 1;
    }
    assert entries[..n] == entries;
  }

  // ---------------------------------------------------------------- entries without references are removed

  lemma SwapInverse(s: State, p1: int, p2: int)
    requires RandomInverse(s.mapInfo, s.vRandom) && 0 <= p1 < |s.vRandom| && 0 <= p2 < |s.vRandom|
    ensures CanSwap(s, p1, p2)
    ensures RandomInverse(SwapRandom(s, p1, p2).mapInfo, SwapRandom(s, p1, p2).vRandom)
  {
    if p1 != p2 {
      SwapRandomInverse(s.mapInfo, s.vRandom, p1, p2);
    }
  }

  lemma DeleteRandom(s: State, id: int)
    requires RandomInverse(s.mapInfo, s.vRandom) && Unreferenced(s, id)
    ensures CanDelete(s, id)
    ensures RandomInverse(Delete(s, id).mapInfo, Delete(s, id).vRandom)
  {
    var p, last := s.mapInfo[id].nRandomPos, |s.vRandom| - 1;
    DeletedIsLast(s, id);
    SwapInverse(s, p, last);
    var u := SwapRandom(s, p, last);
    RemoveLast(u.mapInfo, u.vRandom, id);
  }

  ghost function AddrsOf(m: map<int, Info>, ids: set<int>): set<NetAddr> {
    set id | id in ids && id in m :: m[id].service.addr
  }

  /** Some entries are gone, with their addresses; the others are as before, but for their places in vRandom. */
  ghost predicate Without(t: State, u: State, gone: set<int>) {
    && RandomInverse(u.mapInfo, u.vRandom)
    && (forall id :: id in gone ==> Unreferenced(t, id))
    && (forall id :: id in u.mapInfo <==> id in t.mapInfo && id !in gone)
    && (forall id :: id in u.mapInfo ==> u.mapInfo[id] == t.mapInfo[id].(nRandomPos := u.mapInfo[id].nRandomPos))
    && u.nNew == t.nNew - |gone|
    && u.mapAddr == t.mapAddr - AddrsOf(t.mapInfo, gone)
    && u == t.(mapInfo := u.mapInfo, mapAddr := u.mapAddr, vRandom := u.vRandom, nNew := u.nNew)
    && (gone == {} ==> u == t)
  }

  lemma DeleteIs(u: State, id: int)
    requires RandomInverse(u.mapInfo, u.vRandom) && Unreferenced(u, id)
    ensures CanDelete(u, id) && RandomInverse(Delete(u, id).mapInfo, Delete(u, id).vRandom)
    ensures var d := Delete(u, id);
            && (forall k :: k in d.mapInfo <==> k in u.mapInfo && k != id)
            && (forall k :: k in d.mapInfo ==> d.mapInfo[k] == u.mapInfo[k].(nRandomPos := d.mapInfo[k].nRandomPos))
            && d.nNew == u.nNew - 1 && d.mapAddr == u.mapAddr - {u.mapInfo[id].service.addr}
            && d == u.(mapInfo := d.mapInfo, mapAddr := d.mapAddr, vRandom := d.vRandom, nNew := d.nNew)
  {
    DeleteRandom(u, id);
    DeletedIsLast(u, id);
  }

  lemma DeleteOne(t: State, u: State, gone: set<int>, id: int)
    requires Without(t, u, gone) && Unreferenced(u, id)
    ensures CanDelete(u, id) && Without(t, Delete(u, id), gone + {id})
  {
    DeleteIs(u, id);
    assert AddrsOf(t.mapInfo, gone + {id}) == AddrsOf(t.mapInfo, gone) + {u.mapInfo[id].service.addr};
  }

  /** What pruning leaves: exactly the entries with a reference and the tried ones. */
  ghost predicate Pruned(t: State, u: State) {
    Without(t, u, set id | id in t.mapInfo && Unreferenced(t, id))
  }

  method PruneOne(am: CAddrMan, id: int, ghost t: State, ghost gone: set<int>) returns (ghost more: set<int>)
    requires am.Shaped() && Without(t, am.Abstract(), gone) && id in am.mapInfo
    modifies am`mapInfo, am`vRandom, am`mapAddr, am`nNew
    ensures am.Shaped() && Without(t, am.Abstract(), more) && gone <= more
    ensures Unreferenced(t, id) ==> id in more
    ensures forall k :: k in old(am.mapInfo) && k != id ==> k in am.mapInfo
  {
    more := gone;
    if !am.mapInfo[id].fInTried && am.mapInfo[id].nRefCount == 0 {
      DeleteOne(t, am.Abstract(), gone, id);
      am.Delete(id);
      more := gone + {id};
    }
  }

  method Prune(am: CAddrMan)
    requires am.Shaped() && RandomInverse(am.mapInfo, am.vRandom)
    modifies am`mapInfo, am`vRandom, am`mapAddr, am`nNew
    ensures am.Shaped() && Pruned(old(am.Abstract()), am.Abstract())
  {
    ghost var t := am.Abstract();
    ghost var gone: set<int> := {};
    var left := am.mapInfo.Keys;
    while |left| > 0
      invariant am.Shaped() && Without(t, am.Abstract(), gone)
      invariant forall id :: id in left ==> id in am.mapInfo
      invariant forall id :: Unreferenced(t, id) ==> id in left || id in gone
      decreases |left|
    {
      ghost var one := Pick(left);
      assert one in left;
      var id :| id in left;
      left := left - {id};
      gone := PruneOne(am, id, t, gone);
    }
    assert left == {};
    AllGone(t, gone);
  }

  lemma AllGone(t: State, gone: set<int>)
    requires (forall id :: id in gone ==> Unreferenced(t, id)) && forall id :: Unreferenced(t, id) ==> id in gone
    ensures gone == set id | id in t.mapInfo && Unreferenced(t, id)
  {
    var all := set id | id in t.mapInfo && Unreferenced(t, id);
    assert forall id :: id in gone ==> id in all;
    assert forall id :: id in all ==> id in gone;
  }

  // ---------------------------------------------------------------- all together

  lemma {:induction false} LoadNewRandom(f: File, records: seq<Record>)
    ensures var s := LoadNew(Blank(f), records);
            RandomInverse(s.mapInfo, s.vRandom) && s.nIdCount == |s.vRandom| == |records| && NumberedFrom0(s)
  {
    if records != [] {
      LoadNewRandom(f, records[..|records| - 1]);
    }
  }

  /** Ids and places in vRandom are the same. */
  ghost predicate NumberedFrom0(s: State) {
    && s.nIdCount == |s.vRandom| && (forall k :: k in s.mapInfo <==> 0 <= k < s.nIdCount)
    && (forall k :: k in s.mapInfo ==> s.mapInfo[k].nRandomPos == k) && (forall k :: 0 <= k < |s.vRandom| ==> s.vRandom[k] == k)
  }

  lemma {:induction false} LoadTriedRandom(c: Config, s: State, records: seq<Record>)
    requires NumberedFrom0(s)
    ensures NumberedFrom0(LoadTried(c, s, records)) && LoadTried(c, s, records).nIdCount >= s.nIdCount
  {
    if records != [] {
      LoadTriedRandom(c, s, records[..|records| - 1]);
    }
  }

  /** The ids and places after all entries are read. */
  lemma ReadNumbers(c: Config, f: File)
    ensures NumberedFrom0(LoadTried(c, LoadNew(Blank(f), f.newRecords), f.triedRecords))
    ensures LoadTried(c, LoadNew(Blank(f), f.newRecords), f.triedRecords).nIdCount >= |f.newRecords|
  {
    LoadNewRandom(f, f.newRecords);
    LoadTriedRandom(c, LoadNew(Blank(f), f.newRecords), f.triedRecords);
  }

  lemma PlacedRandom(c: Config, restore: bool, s: State, entries: seq<(int, int)>)
    requires NumberedFrom0(s)
    ensures var t := PlaceAll(c, restore, s, entries); RandomInverse(t.mapInfo, t.vRandom)
  {
    PlaceAllOnly(c, restore, s, entries);
  }

  /** Unserialize, into an address manager without entries; false for a corrupt count. */
  method Unserialize(am: CAddrMan, f: File, checksum: nat) returns (ok: bool)
    requires am.Shaped() && am.Abstract() == Empty && Framed(f)
    modifies am, am.vvNew, am.vvNew.data, am.vvTried, am.vvTried.data
    ensures am.Shaped() && (ok <==> Placed(am.cfg, f, checksum).Some?)
    ensures ok ==> Pruned(Placed(am.cfg, f, checksum).value, am.Abstract())
  {
    am.nNew, am.nTried := f.nNew, f.nTried;
    if am.nNew > NEW_BUCKET_COUNT * BUCKET_SIZE || am.nNew < 0 {
      return false;
    }
    if am.nTried > TRIED_BUCKET_COUNT * BUCKET_SIZE || am.nTried < 0 {
      return false;
    }
    assert am.Abstract() == Blank(f);
    ReadNumbers(am.cfg, f);
    LoadNewRandom(f, f.newRecords);
    ReadNew(am, f.newRecords);
    ReadTried(am, f.triedRecords);
    var entries := ReadBuckets(f.buckets, f.nNew);
    var restore := f.bucketCount == NEW_BUCKET_COUNT && f.checksum == checksum;
    PlacedRandom(am.cfg, restore, am.Abstract(), entries);
    PlaceEntries(am, restore, entries);
    assert am.Abstract() == Placed(am.cfg, f, checksum).value;
    Prune(am);
    ok := true;
  }

  lemma {:induction false} LoadTriedCollisions(c: Config, s: State, records: seq<Record>)
    ensures LoadTried(c, s, records).collisions == s.collisions
  {
    if records != [] {
      LoadTriedCollisions(c, s, records[..|records| - 1]);
    }
  }

  lemma {:induction false} LoadNewCollisions(s: State, records: seq<Record>)
    ensures LoadNew(s, records).collisions == s.collisions
  {
    if records != [] {
      LoadNewCollisions(s, records[..|records| - 1]);
    }
  }

  lemma {:induction false} PlaceCollisions(c: Config, restore: bool, s: State, entries: seq<(int, int)>)
    ensures PlaceAll(c, restore, s, entries).collisions == s.collisions
  {
    if entries != [] {
      PlaceCollisions(c, restore, s, entries[..|entries| - 1]);
    }
  }

  /** No collisions are recorded by reading. */
  lemma PlacedCollisions(c: Config, f: File, checksum: nat)
    ensures Placed(c, f, checksum).Some? ==> Placed(c, f, checksum).value.collisions == {}
  {
    LoadNewCollisions(Blank(f), f.newRecords);
    var news := LoadNew(Blank(f), f.newRecords);
    LoadTriedCollisions(c, news, f.triedRecords);
    var restore := f.bucketCount == NEW_BUCKET_COUNT && f.checksum == checksum;
    PlaceCollisions(c, restore, LoadTried(c, news, f.triedRecords), Entries(f.buckets, f.nNew));
  }

  lemma SavedIsFramed(c: Config, s: State, order: seq<int>, checksum: nat)
    requires Inv(c, s, {}) && Lists(s.mapInfo, order)
    ensures Framed(Save(s, order, checksum))
  {
    CountsWritten(c, s, order);
  }

  /** Nothing is pruned from a consistent address manager. */
  lemma PrunedNothing(c: Config, t: State, u: State)
    requires Inv(c, t, {}) && Pruned(t, u)
    ensures u == t
  {
    forall id
      ensures !Unreferenced(t, id)
    {
      NothingPruned(c, t, id);
    }
    AllGone(t, {});
  }

  /** f is what is written for s; this is looked into only where a proof asks for it. */
  ghost predicate Describes(f: File, s: State, order: seq<int>)
    requires Exist(s.mapInfo, order)
  {
    forall k {:trigger Asked(s, k)} :: Asked(s, k) ==> f == Save(s, order, f.checksum)
  }

  method SerializeFramed(am: CAddrMan, order: seq<int>, checksum: nat) returns (f: File)
    requires am.Valid() && Lists(am.mapInfo, order)
    ensures f.checksum == checksum && Framed(f) && Describes(f, am.Abstract(), order)
  {
    f := Serialize(am, order, checksum);
    SavedIsFramed(am.cfg, am.Abstract(), order, checksum);
  }

  /** What reading back leaves, after entries without references have been removed. */
  lemma ReloadedIs(c: Config, s: State, order: seq<int>, f: File, u: State)
    requires Inv(c, s, {}) && Lists(s.mapInfo, order) && Describes(f, s, order)
    requires Placed(c, f, f.checksum).Some? ==> Pruned(Placed(c, f, f.checksum).value, u)
    ensures Placed(c, f, f.checksum).Some? && Inv(c, u, {}) && u.collisions == {} && Renamed(s, u, Relisted(s, order))
  {
    assert Asked(s, 0);
    SaveThenLoad(c, s, order, f.checksum);
    var t := Placed(c, f, f.checksum).value;
    RenamedKeeps(c, s, t, Relisted(s, order));
    PrunedNothing(c, t, u);
    PlacedCollisions(c, f, f.checksum);
  }

  lemma ReloadedChecks(c: Config, s: State, u: State, ids: seq<int>)
    requires Consistent(c, u) && Renamed(s, u, ids)
    ensures TimesOk(s.mapInfo) ==> Checked(c, u)
  {
    if TimesOk(s.mapInfo) {
      RenamedTimes(s, u, ids);
      CheckedIff(c, u);
    }
  }

  /** Saved and loaded again, the address manager is the same up to the names of its entries. */
  method Reload(am: CAddrMan, order: seq<int>, checksum: nat) returns (copy: CAddrMan)
    requires am.Valid() && Lists(am.mapInfo, order)
    ensures fresh(copy) && copy.Valid() && Renamed(am.Abstract(), copy.Abstract(), Relisted(am.Abstract(), order))
    ensures TimesOk(am.mapInfo) ==> Checked(am.cfg, copy.Abstract())
  {
    ghost var s := am.Abstract();
    var f := SerializeFramed(am, order, checksum);
    copy := new CAddrMan(am.cfg);
    var ok := Unserialize(copy, f, checksum);
    ReloadedIs(am.cfg, s, order, f, copy.Abstract());
    ReloadedChecks(am.cfg, s, copy.Abstract(), Relisted(s, order));
  }
}
