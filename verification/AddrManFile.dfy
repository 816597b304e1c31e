/**
 * The address manager's file (src/addrman.h): what is written, how it is read back, and that a
 * consistent address manager comes back whole.
 */
module AddrManFile {
  import opened Common
  import opened AddrMan

  /** What is stored of an entry. */
  datatype Record = Record(
    service: Service, nTime: int, nServices: set<nat>, source: NetAddr, nLastSuccess: int, nAttempts: int)

  datatype File = File(
    nNew: int, nTried: int, bucketCount: int,
    newRecords: seq<Record>, triedRecords: seq<Record>,
    buckets: seq<seq<int>>,  // for each bucket of the new table, the numbers of its entries
    checksum: nat)           // of the address map that the buckets depend on

  function RecordOf(i: Info): Record {
    Record(i.service, i.nTime, i.nServices, i.source, i.nLastSuccess, i.nAttempts)
  }

  /** An entry as it is read, without references. */
  function InfoOf(r: Record, pos: int, inTried: bool): Info {
    Info(r.service, r.nTime, r.nServices, r.source, 0, 0, r.nLastSuccess, r.nAttempts, 0, inTried, pos)
  }

  // ---------------------------------------------------------------- writing

  /** Ids of entries that exist. */
  ghost predicate Exist(m: map<int, Info>, ids: seq<int>) {
    forall i :: 0 <= i < |ids| ==> ids[i] in m
  }

  /** The new entries, in the order in which the map of entries is traversed. */
  function NewOrder(m: map<int, Info>, order: seq<int>): (r: seq<int>)
    requires Exist(m, order)
    ensures Exist(m, r)
  {
    if order == [] then []
    else
      var n := |order| - 1;
      NewOrder(m, order[..n]) + if m[order[n]].nRefCount != 0 then [order[n]] else []
  }

  function TriedOrder(m: map<int, Info>, order: seq<int>): (r: seq<int>)
    requires Exist(m, order)
    ensures Exist(m, r)
  {
    if order == [] then []
    else
      var n := |order| - 1;
      TriedOrder(m, order[..n]) + if m[order[n]].fInTried then [order[n]] else []
  }

  function Records(m: map<int, Info>, ids: seq<int>): (r: seq<Record>)
    requires Exist(m, ids)
    ensures |r| == |ids|
  {
    seq(|ids|, i requires 0 <= i < |ids| => RecordOf(m[ids[i]]))
  }

  /** The place of an id in a list. */
  function IndexIn(ids: seq<int>, id: int): (k: nat)
    ensures k <= |ids| && (k < |ids| ==> ids[k] == id) && (id in ids ==> k < |ids|)
  {
    if ids == [] || ids[0] == id then 0 else 1 + IndexIn(ids[1..], id)
  }

  /** The occupied ones of the first n positions of a bucket, in order. */
  function BucketSlots(table: map<Slot, int>, b: int, n: nat): (slots: seq<Slot>)
    ensures forall p :: p in slots <==> p in table && p.bucket == b && 0 <= p.pos < n
  {
    if n == 0 then []
    else BucketSlots(table, b, n - 1) + if Slot(b, n - 1) in table then [Slot(b, n - 1)] else []
  }

  function Numbers(table: map<Slot, int>, ids: seq<int>, slots: seq<Slot>): (r: seq<int>)
    requires forall p :: p in slots ==> p in table
    ensures |r| == |slots|
  {
    seq(|slots|, i requires 0 <= i < |slots| => IndexIn(ids, table[slots[i]]))
  }

  /** The numbers of the entries in the first buckets, each of the given size. */
  function Buckets(table: map<Slot, int>, ids: seq<int>, size: nat, count: nat): (r: seq<seq<int>>)
    ensures |r| == count
  {
    if count == 0 then []
    else Buckets(table, ids, size, count - 1) + [Numbers(table, ids, BucketSlots(table, count - 1, size))]
  }

  /** Serialize; `order` is the order in which the map of entries is traversed. */
  function Save(s: State, order: seq<int>, checksum: nat): File
    requires Exist(s.mapInfo, order)
  {
    var news, trieds := NewOrder(s.mapInfo, order), TriedOrder(s.mapInfo, order);
    File(s.nNew, s.nTried, NEW_BUCKET_COUNT, Records(s.mapInfo, news), Records(s.mapInfo, trieds),
         Buckets(s.vvNew, news, BUCKET_SIZE, NEW_BUCKET_COUNT), checksum)
  }

  lemma {:induction false} OrderMembers(m: map<int, Info>, order: seq<int>)
    requires Exist(m, order)
    ensures forall id :: id in NewOrder(m, order) <==> id in order && m[id].nRefCount != 0
    ensures forall id :: id in TriedOrder(m, order) <==> id in order && m[id].fInTried
  {
    if order != [] {
      OrderMembers(m, order[..|order| - 1]);
      assert order == order[..|order| - 1] + [order[|order| - 1]];
    }
  }

  lemma {:induction false} OrderDistinct(m: map<int, Info>, order: seq<int>)
    requires Exist(m, order) && Distinct(order)
    ensures Distinct(NewOrder(m, order)) && Distinct(TriedOrder(m, order))
  {
    if order != [] {
      var n := |order| - 1;
      OrderDistinct(m, order[..n]);
      OrderMembers(m, order[..n]);
      assert order[n] !in order[..n];
    }
  }

  // ---------------------------------------------------------------- reading

  /** An empty address manager with the counts of a file. */
  function Blank(f: File): State {
    Empty.(nNew := f.nNew, nTried := f.nTried)
  }

  /** The next entry, under the next id. */
  function Append(s: State, r: Record, inTried: bool): State {
    s.(nIdCount := s.nIdCount + 1,
       mapInfo := s.mapInfo[s.nIdCount := InfoOf(r, |s.vRandom|, inTried)],
       mapAddr := s.mapAddr[r.service.addr := s.nIdCount],
       vRandom := s.vRandom + [s.nIdCount])
  }

  function LoadNew(s: State, records: seq<Record>): State {
    if records == [] then s
    else Append(LoadNew(s, records[..|records| - 1]), records[|records| - 1], false)
  }

  /** A tried entry is lost if its slot is taken. */
  function LoadOneTried(c: Config, s: State, r: Record): State {
    var slot := TriedSlot(c, r.service);
    if slot in s.vvTried then s.(nTried := s.nTried - 1)
    else Append(s, r, true).(vvTried := s.vvTried[slot := s.nIdCount])
  }

  function LoadTried(c: Config, s: State, records: seq<Record>): State {
    if records == [] then s
    else LoadOneTried(c, LoadTried(c, s, records[..|records| - 1]), records[|records| - 1])
  }

  /** The pairs of bucket and entry number that make sense. */
  function BucketEntries(b: int, numbers: seq<int>, nNew: int): seq<(int, int)> {
    if numbers == [] then []
    else
      var n := |numbers| - 1;
      BucketEntries(b, numbers[..n], nNew) + if 0 <= numbers[n] < nNew then [(b, numbers[n])] else []
  }

  function Entries(buckets: seq<seq<int>>, nNew: int): seq<(int, int)> {
    if buckets == [] then []
    else
      var n := |buckets| - 1;
      Entries(buckets[..n], nNew) + BucketEntries(n, buckets[n], nNew)
  }

  /** A reference for an entry: where it was, or else at its primary place, if that is free. */
  function PlaceOne(c: Config, restore: bool, s: State, e: (int, int)): State {
    if e.1 !in s.mapInfo || s.mapInfo[e.1].nRefCount >= NEW_BUCKETS_PER_ADDRESS then s
    else
      var i := s.mapInfo[e.1];
      var slot := NewSlotIn(c, e.0, i.service);
      if restore && slot !in s.vvNew then Ref(s, slot, e.1)
      else if HomeSlot(c, i) !in s.vvNew then Ref(s, HomeSlot(c, i), e.1)
      else s
  }

  function PlaceAll(c: Config, restore: bool, s: State, entries: seq<(int, int)>): State {
    if entries == [] then s
    else PlaceOne(c, restore, PlaceAll(c, restore, s, entries[..|entries| - 1]), entries[|entries| - 1])
  }

  /** Whether an entry is left without any reference. */
  predicate Unreferenced(s: State, id: int) {
    id in s.mapInfo && !s.mapInfo[id].fInTried && s.mapInfo[id].nRefCount == 0
  }

  /** Unserialize, up to the removal of entries that are left without a reference; none for a corrupt count. */
  function Placed(c: Config, f: File, checksum: nat): Option<State> {
    if f.nNew > NEW_BUCKET_COUNT * BUCKET_SIZE || f.nNew < 0 then None
    else if f.nTried > TRIED_BUCKET_COUNT * BUCKET_SIZE || f.nTried < 0 then None
    else
      var s := LoadTried(c, LoadNew(Blank(f), f.newRecords), f.triedRecords);
      var restore := f.bucketCount == NEW_BUCKET_COUNT && f.checksum == checksum;
      Some(PlaceAll(c, restore, s, Entries(f.buckets, f.nNew)))
  }

  // ---------------------------------------------------------------- listings

  /** A list of all ids, each once. */
  ghost predicate Lists(m: map<int, Info>, order: seq<int>) {
    Distinct(order) && Exist(m, order) && forall id :: id in m ==> id in order
  }

  /** The new entries, then the tried ones: the order of their ids after reading. */
  function Relisted(s: State, order: seq<int>): (r: seq<int>)
    requires Exist(s.mapInfo, order)
    ensures Exist(s.mapInfo, r)
  {
    NewOrder(s.mapInfo, order) + TriedOrder(s.mapInfo, order)
  }

  lemma KindsDiffer(c: Config, s: State, id: int)
    requires Inv(c, s, {}) && id in s.mapInfo
    ensures s.mapInfo[id].fInTried <==> s.mapInfo[id].nRefCount == 0
  {
    Look(c, s, {});
  }

  lemma RelistedLists(c: Config, s: State, order: seq<int>)
    requires Inv(c, s, {}) && Lists(s.mapInfo, order)
    ensures Lists(s.mapInfo, Relisted(s, order))
  {
    OrderMembers(s.mapInfo, order);
    OrderDistinct(s.mapInfo, order);
    var news, trieds := NewOrder(s.mapInfo, order), TriedOrder(s.mapInfo, order);
    var all := news + trieds;
    forall id | id in s.mapInfo
      ensures id in all
    {
      KindsDiffer(c, s, id);
    }
    forall i, j | 0 <= i < j < |all|
      ensures all[i] != all[j]
    {
      if i < |news| <= j {
        assert news[i] in news && trieds[j - |news|] in trieds;
        KindsDiffer(c, s, news[i]);
      } else if j < |news| {
        assert news[i] != news[j];
      } else {
        assert trieds[i - |news|] != trieds[j - |news|];
      }
    }
  }

  /** The counts are the numbers of entries written: the assertions while writing hold. */
  lemma CountsWritten(c: Config, s: State, order: seq<int>)
    requires Inv(c, s, {}) && Lists(s.mapInfo, order)
    ensures |NewOrder(s.mapInfo, order)| == s.nNew && |TriedOrder(s.mapInfo, order)| == s.nTried
  {
    OrderMembers(s.mapInfo, order);
    OrderDistinct(s.mapInfo, order);
    var news, trieds := NewOrder(s.mapInfo, order), TriedOrder(s.mapInfo, order);
    forall id
      ensures id in news <==> id in NewIds(s.mapInfo)
      ensures id in trieds <==> id in TriedIds(s.mapInfo)
    {
      if id in s.mapInfo {
        KindsDiffer(c, s, id);
      }
    }
    DistinctCount(news, NewIds(s.mapInfo));
    DistinctCount(trieds, TriedIds(s.mapInfo));
    Look(c, s, {});
  }

  // ---------------------------------------------------------------- reading entries back

  /** The entries with the given ids. */
  function Infos(m: map<int, Info>, ids: seq<int>): (r: seq<Info>)
    requires Exist(m, ids)
    ensures |r| == |ids| && forall k :: 0 <= k < |r| ==> r[k] == m[ids[k]]
  {
    seq(|ids|, i requires 0 <= i < |ids| => m[ids[i]])
  }

  /** The next entry, in its tried slot if it has one. */
  function Advance(c: Config, t: State, i: Info): State {
    var u := Append(t, RecordOf(i), i.fInTried);
    if i.fInTried then u.(vvTried := t.vvTried[TriedSlot(c, i.service) := t.nIdCount]) else u
  }

  /** The address manager after the first n entries have been read. */
  function Stage(c: Config, f: File, infos: seq<Info>, n: nat): State
    requires n <= |infos|
  {
    if n == 0 then Blank(f) else Advance(c, Stage(c, f, infos, n - 1), infos[n - 1])
  }

  /** The entry as it is read under a new id. */
  function Reread(i: Info, k: int): Info {
    InfoOf(RecordOf(i), k, i.fInTried)
  }

  /** What has been read: each entry under its place in the list. */
  ghost predicate EntriesRead(infos: seq<Info>, n: nat, t: State)
    requires n <= |infos|
  {
    && t.nIdCount == n && |t.vRandom| == n && (forall k :: 0 <= k < n ==> t.vRandom[k] == k)
    && (forall k :: k in t.mapInfo <==> 0 <= k < n)
    && (forall k :: 0 <= k < n ==> t.mapInfo[k] == Reread(infos[k], k))
  }

  ghost predicate AddressesRead(infos: seq<Info>, n: nat, a: map<NetAddr, int>)
    requires n <= |infos|
  {
    && (forall x :: x in a ==> 0 <= a[x] < n && infos[a[x]].service.addr == x)
    && (forall k :: 0 <= k < n ==> infos[k].service.addr in a)
  }

  /** The tried slots are those of the tried entries. */
  ghost predicate SlotsRead(c: Config, infos: seq<Info>, n: nat, table: map<Slot, int>)
    requires n <= |infos|
  {
    && (forall p :: p in table ==>
          0 <= table[p] < n && infos[table[p]].fInTried && p == TriedSlot(c, infos[table[p]].service))
    && (forall k :: 0 <= k < n && infos[k].fInTried ==> TriedSlot(c, infos[k].service) in table)
  }

  lemma {:induction false} StageIds(c: Config, f: File, infos: seq<Info>, n: nat)
    requires n <= |infos|
    ensures Stage(c, f, infos, n).nIdCount == n
  {
    if n > 0 {
      StageIds(c, f, infos, n - 1);
    }
  }

  lemma {:induction false} StageEntries(c: Config, f: File, infos: seq<Info>, n: nat)
    requires n <= |infos|
    ensures EntriesRead(infos, n, Stage(c, f, infos, n))
  {
    if n > 0 {
      StageEntries(c, f, infos, n - 1);
    }
  }

  function AddrMap(infos: seq<Info>, n: nat): map<NetAddr, int>
    requires n <= |infos|
  {
    if n == 0 then map[] else AddrMap(infos, n - 1)[infos[n - 1].service.addr := n - 1]
  }

  function SlotMap(c: Config, infos: seq<Info>, n: nat): map<Slot, int>
    requires n <= |infos|
  {
    if n == 0 then map[]
    else if infos[n - 1].fInTried then SlotMap(c, infos, n - 1)[TriedSlot(c, infos[n - 1].service) := n - 1]
    else SlotMap(c, infos, n - 1)
  }

  lemma {:induction false} AddressesAreRead(infos: seq<Info>, n: nat)
    requires n <= |infos|
    ensures AddressesRead(infos, n, AddrMap(infos, n))
  {
    if n > 0 {
      AddressesAreRead(infos, n - 1);
    }
  }

  lemma {:induction false} SlotsAreRead(c: Config, infos: seq<Info>, n: nat)
    requires n <= |infos|
    ensures SlotsRead(c, infos, n, SlotMap(c, infos, n))
  {
    if n > 0 {
      SlotsAreRead(c, infos, n - 1);
    }
  }

  lemma {:induction false} StageRest(c: Config, f: File, infos: seq<Info>, n: nat)
    requires n <= |infos|
    ensures var t := Stage(c, f, infos, n);
            && t.mapAddr == AddrMap(infos, n) && t.vvTried == SlotMap(c, infos, n)
            && t.nNew == f.nNew && t.nTried == f.nTried && t.vvNew == map[] && t.nLastGood == 1 && t.collisions == {}
  {
    if n > 0 {
      StageIds(c, f, infos, n - 1);
      StageRest(c, f, infos, n - 1);
    }
  }

  /** No two tried entries share a slot. */
  ghost predicate SlotsDiffer(c: Config, infos: seq<Info>) {
    forall i, j :: 0 <= i < j < |infos| && infos[i].fInTried && infos[j].fInTried ==>
      TriedSlot(c, infos[i].service) != TriedSlot(c, infos[j].service)
  }

  lemma ListedSlotsDiffer(c: Config, s: State, all: seq<int>)
    requires Inv(c, s, {}) && Lists(s.mapInfo, all)
    ensures SlotsDiffer(c, Infos(s.mapInfo, all))
  {
    Look(c, s, {});
    var infos := Infos(s.mapInfo, all);
    forall i, j | 0 <= i < j < |infos| && infos[i].fInTried && infos[j].fInTried
      ensures TriedSlot(c, infos[i].service) != TriedSlot(c, infos[j].service)
    {
      assert all[i] in s.mapInfo && all[j] in s.mapInfo && all[i] != all[j];
    }
  }

  /** The next tried entry is not lost: its slot is still free. */
  lemma NextSlotFree(c: Config, f: File, infos: seq<Info>, n: nat)
    requires SlotsDiffer(c, infos) && n < |infos| && infos[n].fInTried
    ensures LoadOneTried(c, Stage(c, f, infos, n), RecordOf(infos[n])) == Stage(c, f, infos, n + 1)
  {
    StageRest(c, f, infos, n);
    SlotsAreRead(c, infos, n);
    assert TriedSlot(c, infos[n].service) !in SlotMap(c, infos, n);
  }

  ghost predicate RecordsOf(records: seq<Record>, infos: seq<Info>, start: nat) {
    start + |records| <= |infos| && forall k :: 0 <= k < |records| ==> records[k] == RecordOf(infos[start + k])
  }

  lemma {:induction false} LoadNewIs(c: Config, f: File, infos: seq<Info>, records: seq<Record>)
    requires RecordsOf(records, infos, 0) && forall k :: 0 <= k < |records| ==> !infos[k].fInTried
    ensures LoadNew(Blank(f), records) == Stage(c, f, infos, |records|)
  {
    if records != [] {
      LoadNewIs(c, f, infos, records[..|records| - 1]);
    }
  }

  lemma LoadTriedLast(c: Config, s: State, records: seq<Record>)
    requires records != []
    ensures LoadTried(c, s, records) == LoadOneTried(c, LoadTried(c, s, records[..|records| - 1]), records[|records| - 1])
  {
  }

  /** No tried entry is lost. */
  lemma {:induction false} LoadTriedIs(c: Config, f: File, infos: seq<Info>, start: nat, records: seq<Record>)
    requires RecordsOf(records, infos, start) && SlotsDiffer(c, infos)
    requires forall k :: start <= k < |infos| ==> infos[k].fInTried
    ensures LoadTried(c, Stage(c, f, infos, start), records) == Stage(c, f, infos, start + |records|)
  {
    if records != [] {
      var n := |records| - 1;
      LoadTriedIs(c, f, infos, start, records[..n]);
      LoadTriedNext(c, f, infos, Stage(c, f, infos, start), start + n, records);
    }
  }

  lemma LoadTriedNext(c: Config, f: File, infos: seq<Info>, s: State, n: nat, records: seq<Record>)
    requires records != [] && SlotsDiffer(c, infos) && n < |infos| && infos[n].fInTried
    requires records[|records| - 1] == RecordOf(infos[n])
    requires LoadTried(c, s, records[..|records| - 1]) == Stage(c, f, infos, n)
    ensures LoadTried(c, s, records) == Stage(c, f, infos, n + 1)
  {
    LoadTriedLast(c, s, records);
    NextSlotFree(c, f, infos, n);
  }

  // ---------------------------------------------------------------- the buckets

  /** The occupied slots, bucket by bucket. */
  function AllSlots(table: map<Slot, int>, size: nat, count: nat): (slots: seq<Slot>)
    ensures forall p :: p in slots <==> p in table && 0 <= p.bucket < count && 0 <= p.pos < size
  {
    if count == 0 then [] else AllSlots(table, size, count - 1) + BucketSlots(table, count - 1, size)
  }

  ghost predicate EachOnce(slots: seq<Slot>) {
    slots == [] || (slots[|slots| - 1] !in slots[..|slots| - 1] && EachOnce(slots[..|slots| - 1]))
  }

  lemma {:induction false} BucketSlotsDiffer(table: map<Slot, int>, b: int, n: nat)
    ensures EachOnce(BucketSlots(table, b, n)) && |BucketSlots(table, b, n)| <= n
  {
    if n > 0 {
      BucketSlotsDiffer(table, b, n - 1);
      var front := BucketSlots(table, b, n - 1);
      assert (front + [Slot(b, n - 1)])[..|front|] == front;
      assert front + [] == front;
    }
  }

  lemma {:induction false} JoinDiffers(a: seq<Slot>, b: seq<Slot>)
    requires EachOnce(a) && EachOnce(b) && forall p :: p in b ==> p !in a
    ensures EachOnce(a + b)
  {
    if b == [] {
      assert a + b == a;
    } else {
      var n := |b| - 1;
      JoinDiffers(a, b[..n]);
      assert (a + b)[..|a| + n] == a + b[..n];
    }
  }

  lemma {:induction false} AllSlotsDiffer(table: map<Slot, int>, size: nat, count: nat)
    ensures EachOnce(AllSlots(table, size, count))
  {
    if count > 0 {
      AllSlotsDiffer(table, size, count - 1);
      BucketSlotsDiffer(table, count - 1, size);
      JoinDiffers(AllSlots(table, size, count - 1), BucketSlots(table, count - 1, size));
    }
  }

  lemma {:induction false} AllSlotsFit(table: map<Slot, int>, size: nat, count: nat)
    ensures |AllSlots(table, size, count)| <= count * size
  {
    if count > 0 {
      AllSlotsFit(table, size, count - 1);
      BucketSlotsDiffer(table, count - 1, size);
      assert count * size == (count - 1) * size + size;
    }
  }

  /** The references of a list of slots, as read back. */
  function Pairs(table: map<Slot, int>, ids: seq<int>, slots: seq<Slot>): (r: seq<(int, int)>)
    requires forall p :: p in slots ==> p in table
    ensures |r| == |slots|
  {
    seq(|slots|, i requires 0 <= i < |slots| => (slots[i].bucket, IndexIn(ids, table[slots[i]])))
  }

  lemma {:induction false} BucketEntriesAre(table: map<Slot, int>, ids: seq<int>, b: int, slots: seq<Slot>)
    requires forall p :: p in slots ==> p in table && p.bucket == b && table[p] in ids
    ensures BucketEntries(b, Numbers(table, ids, slots), |ids|) == Pairs(table, ids, slots)
  {
    if slots != [] {
      var n := |slots| - 1;
      BucketEntriesAre(table, ids, b, slots[..n]);
      assert slots[n] in slots;
      assert Numbers(table, ids, slots)[..n] == Numbers(table, ids, slots[..n]);
      assert Pairs(table, ids, slots) == Pairs(table, ids, slots[..n]) + [(b, IndexIn(ids, table[slots[n]]))];
    }
  }

  lemma PairsJoin(table: map<Slot, int>, ids: seq<int>, a: seq<Slot>, b: seq<Slot>)
    requires forall p :: p in a + b ==> p in table
    ensures (forall p :: p in a ==> p in table) && (forall p :: p in b ==> p in table)
    ensures Pairs(table, ids, a + b) == Pairs(table, ids, a) + Pairs(table, ids, b)
  {}

  /** Every reference that is written is read. */
  lemma {:induction false} EntriesAre(table: map<Slot, int>, ids: seq<int>, size: nat, count: nat)
    requires forall p :: p in table ==> table[p] in ids
    ensures Entries(Buckets(table, ids, size, count), |ids|) == Pairs(table, ids, AllSlots(table, size, count))
  {
    if count > 0 {
      var last := BucketSlots(table, count - 1, size);
      EntriesAre(table, ids, size, count - 1);
      BucketEntriesAre(table, ids, count - 1, last);
      assert Buckets(table, ids, size, count)[..count - 1] == Buckets(table, ids, size, count - 1);
      PairsJoin(table, ids, AllSlots(table, size, count - 1), last);
    }
  }

  /** How many of some slots hold an id. */
  function Uses(table: map<Slot, int>, slots: seq<Slot>, id: int): nat
    requires forall p :: p in slots ==> p in table
  {
    if slots == [] then 0
    else
      var n := |slots| - 1;
      Uses(table, slots[..n], id) + if table[slots[n]] == id then 1 else 0
  }

  lemma {:induction false} UsesCount(table: map<Slot, int>, slots: seq<Slot>, id: int, found: set<Slot>)
    requires (forall p :: p in slots ==> p in table) && EachOnce(slots)
    requires forall p :: p in found <==> p in slots && table[p] == id
    ensures Uses(table, slots, id) == |found|
  {
    if slots == [] {
      assert found == {};
    } else {
      var n := |slots| - 1;
      var last := slots[n];
      assert slots == slots[..n] + [last] && last !in slots[..n];
      if table[last] == id {
        UsesCount(table, slots[..n], id, found - {last});
      } else {
        UsesCount(table, slots[..n], id, found);
      }
    }
  }

  /** Ids that are all held are no more than the slots. */
  lemma {:induction false} HeldFit(table: map<Slot, int>, slots: seq<Slot>, ids: set<int>)
    requires forall p :: p in slots ==> p in table
    requires forall id :: id in ids ==> Uses(table, slots, id) >= 1
    ensures |ids| <= |slots|
  {
    if slots == [] {
      forall id
        ensures id !in ids
      {
        assert Uses(table, slots, id) == 0;
      }
      assert ids == {};
    } else {
      var n := |slots| - 1;
      assert table[slots[n]] == table[slots[n]];
      forall id | id in ids - {table[slots[n]]}
        ensures Uses(table, slots[..n], id) >= 1
      {
        assert Uses(table, slots, id) >= 1;
      }
      HeldFit(table, slots[..n], ids - {table[slots[n]]});
    }
  }

  // ---------------------------------------------------------------- placing the references

  /** Slots whose entries have been read: entry k of the list has id k. */
  ghost predicate Known(t: State, table: map<Slot, int>, ids: seq<int>, slots: seq<Slot>) {
    && (forall k :: 0 <= k < |ids| ==> k in t.mapInfo)
    && (forall p :: p in slots ==> p in table && table[p] in ids)
  }

  /** The references of some slots, one by one. */
  ghost function Refs(t: State, table: map<Slot, int>, ids: seq<int>, slots: seq<Slot>): (u: State)
    requires Known(t, table, ids, slots)
    ensures u.mapInfo.Keys == t.mapInfo.Keys
    decreases |slots|
  {
    if slots == [] then t
    else
      var n := |slots| - 1;
      assert slots[n] in slots;
      Ref(Refs(t, table, ids, slots[..n]), slots[n], IndexIn(ids, table[slots[n]]))
  }

  /** The places are taken exactly as in the table. */
  lemma {:induction false} RefsTable(t: State, table: map<Slot, int>, ids: seq<int>, slots: seq<Slot>)
    requires Known(t, table, ids, slots) && t.vvNew == map[]
    ensures var u := Refs(t, table, ids, slots);
            && (forall p :: p in u.vvNew <==> p in slots)
            && (forall p :: p in slots ==> u.vvNew[p] == IndexIn(ids, table[p]))
            && u == t.(mapInfo := u.mapInfo, vvNew := u.vvNew)
  {
    if slots != [] {
      RefsTable(t, table, ids, slots[..|slots| - 1]);
      assert slots == slots[..|slots| - 1] + [slots[|slots| - 1]];
    }
  }

  lemma {:induction false} RefsCount(t: State, table: map<Slot, int>, ids: seq<int>, slots: seq<Slot>, k: int)
    requires Known(t, table, ids, slots) && Distinct(ids) && k in t.mapInfo
    ensures var u := Refs(t, table, ids, slots);
            u.mapInfo[k] == t.mapInfo[k].(nRefCount :=
              t.mapInfo[k].nRefCount + if 0 <= k < |ids| then Uses(table, slots, ids[k]) else 0)
  {
    if slots != [] {
      var n := |slots| - 1;
      assert slots[n] in slots;
      RefsCount(t, table, ids, slots[..n], k);
    }
  }

  /** Each slot is the place of its entry in its bucket. */
  ghost predicate InPlace(c: Config, t: State, table: map<Slot, int>, ids: seq<int>, slots: seq<Slot>)
    requires Known(t, table, ids, slots)
  {
    forall p :: p in slots ==> p == NewSlotIn(c, p.bucket, t.mapInfo[IndexIn(ids, table[p])].service)
  }

  /** Entries without references, each with few enough slots. */
  ghost predicate FewUses(t: State, table: map<Slot, int>, ids: seq<int>, slots: seq<Slot>)
    requires Known(t, table, ids, slots)
  {
    forall k :: 0 <= k < |ids| ==> t.mapInfo[k].nRefCount == 0 && Uses(table, slots, ids[k]) <= NEW_BUCKETS_PER_ADDRESS
  }

  /** The next reference is placed where it was. */
  lemma PlaceNext(c: Config, t: State, table: map<Slot, int>, ids: seq<int>, slots: seq<Slot>)
    requires slots != [] && Known(t, table, ids, slots) && Distinct(ids) && EachOnce(slots) && t.vvNew == map[]
    requires InPlace(c, t, table, ids, slots) && FewUses(t, table, ids, slots)
    ensures Known(t, table, ids, slots[..|slots| - 1])
    ensures var last := slots[|slots| - 1];
            PlaceOne(c, true, Refs(t, table, ids, slots[..|slots| - 1]), (last.bucket, IndexIn(ids, table[last])))
            == Refs(t, table, ids, slots)
  {
    var n := |slots| - 1;
    var last, front := slots[n], slots[..n];
    assert last in slots;
    var k := IndexIn(ids, table[last]);
    RefsTable(t, table, ids, front);
    RefsCount(t, table, ids, front, k);
    assert Uses(table, slots, ids[k]) == Uses(table, front, ids[k]) + 1;
  }

  lemma {:induction false} PlaceAllIs(c: Config, t: State, table: map<Slot, int>, ids: seq<int>, slots: seq<Slot>)
    requires Known(t, table, ids, slots) && Distinct(ids) && EachOnce(slots) && t.vvNew == map[]
    requires InPlace(c, t, table, ids, slots) && FewUses(t, table, ids, slots)
    ensures PlaceAll(c, true, t, Pairs(table, ids, slots)) == Refs(t, table, ids, slots)
  {
    if slots != [] {
      var n := |slots| - 1;
      forall k | 0 <= k < |ids|
        ensures Uses(table, slots[..n], ids[k]) <= NEW_BUCKETS_PER_ADDRESS
      {
        assert Uses(table, slots, ids[k]) <= NEW_BUCKETS_PER_ADDRESS;
      }
      PlaceAllIs(c, t, table, ids, slots[..n]);
      PlaceNext(c, t, table, ids, slots);
      assert Pairs(table, ids, slots)[..n] == Pairs(table, ids, slots[..n]);
      PlaceAllLast(c, t, Pairs(table, ids, slots));
    }
  }

  lemma PlaceAllLast(c: Config, t: State, entries: seq<(int, int)>)
    requires entries != []
    ensures PlaceAll(c, true, t, entries)
            == PlaceOne(c, true, PlaceAll(c, true, t, entries[..|entries| - 1]), entries[|entries| - 1])
  {
  }

  // ---------------------------------------------------------------- there and back

  /** The positions of both tables. */
  ghost predicate Within(table: map<Slot, int>, size: nat, count: nat) {
    forall p :: p in table ==> 0 <= p.bucket < count && 0 <= p.pos < size
  }

  lemma TablesWithin(c: Config, s: State)
    requires Inv(c, s, {})
    ensures Within(s.vvNew, BUCKET_SIZE, NEW_BUCKET_COUNT) && Within(s.vvTried, BUCKET_SIZE, TRIED_BUCKET_COUNT)
  {
    Look(c, s, {});
  }

  lemma UsesAre(table: map<Slot, int>, size: nat, count: nat, id: int)
    requires Within(table, size, count)
    ensures Uses(table, AllSlots(table, size, count), id) == |SlotsOf(table, id)|
  {
    AllSlotsDiffer(table, size, count);
    UsesCount(table, AllSlots(table, size, count), id, SlotsOf(table, id));
  }

  /** Entries that each have a slot are no more than the slots of the table. */
  lemma HeldBound(table: map<Slot, int>, size: nat, count: nat, ids: set<int>)
    requires Within(table, size, count) && forall id :: id in ids ==> |SlotsOf(table, id)| >= 1
    ensures |ids| <= count * size
  {
    AllSlotsFit(table, size, count);
    forall id | id in ids
      ensures Uses(table, AllSlots(table, size, count), id) >= 1
    {
      UsesAre(table, size, count, id);
    }
    HeldFit(table, AllSlots(table, size, count), ids);
  }

  /** The counts never exceed the sizes of the tables, so that reading accepts them. */
  lemma CountsAccepted(c: Config, s: State)
    requires Inv(c, s, {})
    ensures 0 <= s.nNew <= NEW_BUCKET_COUNT * BUCKET_SIZE && 0 <= s.nTried <= TRIED_BUCKET_COUNT * BUCKET_SIZE
  {
    Look(c, s, {});
    TablesWithin(c, s);
    HeldBound(s.vvNew, BUCKET_SIZE, NEW_BUCKET_COUNT, NewIds(s.mapInfo));
    forall id | id in TriedIds(s.mapInfo)
      ensures |SlotsOf(s.vvTried, id)| >= 1
    {
      assert TriedSlot(c, s.mapInfo[id].service) in SlotsOf(s.vvTried, id);
    }
    HeldBound(s.vvTried, BUCKET_SIZE, TRIED_BUCKET_COUNT, TriedIds(s.mapInfo));
  }

  /** The new entries come first. */
  lemma KindsInOrder(c: Config, s: State, order: seq<int>, k: int)
    requires Inv(c, s, {}) && Lists(s.mapInfo, order) && 0 <= k < |Relisted(s, order)|
    ensures Relisted(s, order)[k] in s.mapInfo
    ensures s.mapInfo[Relisted(s, order)[k]].fInTried <==> k >= |NewOrder(s.mapInfo, order)|
  {
    OrderMembers(s.mapInfo, order);
    var news, trieds := NewOrder(s.mapInfo, order), TriedOrder(s.mapInfo, order);
    if k < |news| {
      assert Relisted(s, order)[k] == news[k] && news[k] in news;
      KindsDiffer(c, s, news[k]);
    } else {
      var j := k - |news|;
      assert Relisted(s, order)[k] == trieds[j] && trieds[j] in trieds;
    }
  }

  /** All entries are read, none is lost. */
  lemma AllRead(c: Config, f: File, infos: seq<Info>)
    requires SlotsDiffer(c, infos) && |infos| == |f.newRecords| + |f.triedRecords|
    requires RecordsOf(f.newRecords, infos, 0) && RecordsOf(f.triedRecords, infos, |f.newRecords|)
    requires forall k :: 0 <= k < |infos| ==> (infos[k].fInTried <==> k >= |f.newRecords|)
    ensures LoadTried(c, LoadNew(Blank(f), f.newRecords), f.triedRecords) == Stage(c, f, infos, |infos|)
  {
    LoadNewIs(c, f, infos, f.newRecords);
    LoadTriedIs(c, f, infos, |f.newRecords|, f.triedRecords);
  }

  /** An entry as it comes back: all but the times of the last attempts, which are not stored. */
  function Kept(i: Info, k: int): Info {
    i.(nLastTry := 0, nLastCountAttempt := 0, nRandomPos := k)
  }

  /** The same slots, with the entries renamed: new id k stands for ids[k]. */
  ghost predicate SameTable(was: map<Slot, int>, now: map<Slot, int>, ids: seq<int>) {
    && (forall p :: p in now <==> p in was)
    && (forall p :: p in now ==> 0 <= now[p] < |ids| && ids[now[p]] == was[p])
  }

  ghost predicate SameEntries(s: State, t: State, ids: seq<int>) {
    && (forall k :: k in t.mapInfo <==> 0 <= k < |ids|)
    && (forall k :: 0 <= k < |ids| ==> ids[k] in s.mapInfo && t.mapInfo[k] == Kept(s.mapInfo[ids[k]], k))
  }

  ghost predicate SameAddresses(s: State, t: State, ids: seq<int>) {
    && (forall a :: a in t.mapAddr <==> a in s.mapAddr)
    && (forall a :: a in t.mapAddr ==> 0 <= t.mapAddr[a] < |ids| && ids[t.mapAddr[a]] == s.mapAddr[a])
  }

  /** The same address manager up to the names of the entries. */
  ghost predicate Renamed(s: State, t: State, ids: seq<int>) {
    && t.nIdCount == |ids| && t.nNew == s.nNew && t.nTried == s.nTried
    && SameEntries(s, t, ids)
    && SameAddresses(s, t, ids)
    && SameTable(s.vvNew, t.vvNew, ids) && SameTable(s.vvTried, t.vvTried, ids)
    && |t.vRandom| == |ids| && (forall k :: 0 <= k < |ids| ==> t.vRandom[k] == k)
  }

  /** What is read before references are placed. */
  lemma SavedEntries(c: Config, s: State, order: seq<int>, checksum: nat)
    requires Inv(c, s, {}) && Lists(s.mapInfo, order)
    ensures Lists(s.mapInfo, Relisted(s, order))
    ensures var f := Save(s, order, checksum);
            LoadTried(c, LoadNew(Blank(f), f.newRecords), f.triedRecords)
            == Stage(c, f, Infos(s.mapInfo, Relisted(s, order)), |Relisted(s, order)|)
  {
    RelistedLists(c, s, order);
    ListedSlotsDiffer(c, s, Relisted(s, order));
    var infos := Infos(s.mapInfo, Relisted(s, order));
    forall k | 0 <= k < |infos|
      ensures infos[k].fInTried <==> k >= |NewOrder(s.mapInfo, order)|
    {
      KindsInOrder(c, s, order, k);
    }
    AllRead(c, Save(s, order, checksum), infos);
  }

  /** The entries that have been read, and the table whose references are still to be placed. */
  ghost predicate Loaded(c: Config, s: State, base: State, news: seq<int>, all: seq<int>)
    requires Lists(s.mapInfo, all)
  {
    && news <= all && (forall k :: 0 <= k < |all| ==> all[k] in s.mapInfo)
    && (forall k :: 0 <= k < |all| ==> (s.mapInfo[all[k]].fInTried <==> k >= |news|))
    && EntriesRead(Infos(s.mapInfo, all), |all|, base)
    && base.vvNew == map[]
  }

  lemma NewAreListed(c: Config, s: State, base: State, news: seq<int>, all: seq<int>)
    requires Inv(c, s, {}) && Lists(s.mapInfo, all) && Loaded(c, s, base, news, all)
    ensures Distinct(news) && forall p :: p in s.vvNew ==> s.vvNew[p] in news
  {
    Look(c, s, {});
    forall p | p in s.vvNew
      ensures s.vvNew[p] in news
    {
      var k := IndexIn(all, s.vvNew[p]);
      assert s.vvNew[p] in all;
      assert !s.mapInfo[all[k]].fInTried;
      assert news[k] == s.vvNew[p];
    }
  }

  /** Every reference of the table can be placed again. */
  lemma Placeable(c: Config, s: State, base: State, news: seq<int>, all: seq<int>, slots: seq<Slot>)
    requires Inv(c, s, {}) && Lists(s.mapInfo, all) && Loaded(c, s, base, news, all)
    requires (forall p :: p in slots <==> p in s.vvNew) && forall id :: Uses(s.vvNew, slots, id) == |SlotsOf(s.vvNew, id)|
    ensures Distinct(news) && Known(base, s.vvNew, news, slots)
    ensures InPlace(c, base, s.vvNew, news, slots) && FewUses(base, s.vvNew, news, slots)
  {
    Look(c, s, {});
    NewAreListed(c, s, base, news, all);
    forall p | p in slots
      ensures p == NewSlotIn(c, p.bucket, base.mapInfo[IndexIn(news, s.vvNew[p])].service)
    {
      var k := IndexIn(news, s.vvNew[p]);
      assert all[k] == s.vvNew[p] && base.mapInfo[k] == Reread(s.mapInfo[all[k]], k);
    }
    forall k | 0 <= k < |news|
      ensures base.mapInfo[k].nRefCount == 0 && Uses(s.vvNew, slots, news[k]) <= NEW_BUCKETS_PER_ADDRESS
    {
      assert news[k] == all[k] && base.mapInfo[k] == Reread(s.mapInfo[all[k]], k);
      assert Uses(s.vvNew, slots, news[k]) == |SlotsOf(s.vvNew, news[k])|;
    }
  }

  /** Placed again, the entries are those of before. */
  lemma PlacedEntries(c: Config, s: State, base: State, news: seq<int>, all: seq<int>, slots: seq<Slot>)
    requires Inv(c, s, {}) && Lists(s.mapInfo, all) && Loaded(c, s, base, news, all) && Distinct(news)
    requires Known(base, s.vvNew, news, slots) && forall id :: Uses(s.vvNew, slots, id) == |SlotsOf(s.vvNew, id)|
    ensures SameEntries(s, Refs(base, s.vvNew, news, slots), all)
  {
    Look(c, s, {});
    forall k | 0 <= k < |all|
      ensures Refs(base, s.vvNew, news, slots).mapInfo[k] == Kept(s.mapInfo[all[k]], k)
    {
      RefsCount(base, s.vvNew, news, slots, k);
      assert base.mapInfo[k] == Reread(s.mapInfo[all[k]], k);
      KindsDiffer(c, s, all[k]);
      if k < |news| {
        assert news[k] == all[k];
        assert Uses(s.vvNew, slots, news[k]) == |SlotsOf(s.vvNew, news[k])|;
      }
    }
  }

  lemma PlacedTable(s: State, base: State, news: seq<int>, all: seq<int>, slots: seq<Slot>)
    requires news <= all && Known(base, s.vvNew, news, slots) && base.vvNew == map[]
    requires forall p :: p in slots <==> p in s.vvNew
    ensures SameTable(s.vvNew, Refs(base, s.vvNew, news, slots).vvNew, all)
  {
    RefsTable(base, s.vvNew, news, slots);
  }

  lemma AddressesKept(c: Config, s: State, all: seq<int>, a: map<NetAddr, int>)
    requires Inv(c, s, {}) && Lists(s.mapInfo, all) && AddressesRead(Infos(s.mapInfo, all), |all|, a)
    ensures forall x :: x in a <==> x in s.mapAddr
    ensures forall x :: x in a ==> 0 <= a[x] < |all| && all[a[x]] == s.mapAddr[x]
  {
    Look(c, s, {});
    forall x | x in s.mapAddr
      ensures x in a
    {
      var k := IndexIn(all, s.mapAddr[x]);
      assert s.mapAddr[x] in all && Infos(s.mapInfo, all)[k].service.addr == x;
    }
    forall x | x in a
      ensures x in s.mapAddr && all[a[x]] == s.mapAddr[x]
    {
      var id := all[a[x]];
      assert id in s.mapInfo && s.mapInfo[id].service.addr == x;
    }
  }

  lemma TriedKept(c: Config, s: State, all: seq<int>, table: map<Slot, int>)
    requires Inv(c, s, {}) && Lists(s.mapInfo, all) && SlotsRead(c, Infos(s.mapInfo, all), |all|, table)
    ensures SameTable(s.vvTried, table, all)
  {
    Look(c, s, {});
    forall p | p in s.vvTried
      ensures p in table
    {
      var k := IndexIn(all, s.vvTried[p]);
      assert s.vvTried[p] in all && Infos(s.mapInfo, all)[k].fInTried;
    }
    forall p | p in table
      ensures p in s.vvTried && all[table[p]] == s.vvTried[p]
    {
      var id := all[table[p]];
      assert id in s.mapInfo && s.mapInfo[id].fInTried;
    }
  }

  /** After all references are placed: the same up to renaming. */
  lemma PlacedAll(c: Config, s: State, base: State, news: seq<int>, all: seq<int>, size: nat, count: nat)
    requires Inv(c, s, {}) && Lists(s.mapInfo, all) && Loaded(c, s, base, news, all) && Within(s.vvNew, size, count)
    requires AddressesRead(Infos(s.mapInfo, all), |all|, base.mapAddr)
    requires SlotsRead(c, Infos(s.mapInfo, all), |all|, base.vvTried)
    requires base.nNew == s.nNew == |news| && base.nTried == s.nTried
    ensures Renamed(s, PlaceAll(c, true, base, Entries(Buckets(s.vvNew, news, size, count), |news|)), all)
  {
    var slots := AllSlots(s.vvNew, size, count);
    AllSlotsDiffer(s.vvNew, size, count);
    forall id
      ensures Uses(s.vvNew, slots, id) == |SlotsOf(s.vvNew, id)|
    {
      UsesAre(s.vvNew, size, count, id);
    }
    NewAreListed(c, s, base, news, all);
    EntriesAre(s.vvNew, news, size, count);
    Placeable(c, s, base, news, all, slots);
    PlaceAllIs(c, base, s.vvNew, news, slots);
    RefsTable(base, s.vvNew, news, slots);
    PlacedEntries(c, s, base, news, all, slots);
    PlacedTable(s, base, news, all, slots);
    AddressesKept(c, s, all, base.mapAddr);
    TriedKept(c, s, all, base.vvTried);
  }

  /** Reading the entries of a file that describes s. */
  lemma SavedLoaded(c: Config, s: State, order: seq<int>, f: File, base: State)
    requires Inv(c, s, {}) && Lists(s.mapInfo, order) && f == Save(s, order, f.checksum)
    requires base == LoadTried(c, LoadNew(Blank(f), f.newRecords), f.triedRecords)
    ensures Lists(s.mapInfo, Relisted(s, order)) && Loaded(c, s, base, NewOrder(s.mapInfo, order), Relisted(s, order))
    ensures base.nNew == s.nNew == |NewOrder(s.mapInfo, order)| && base.nTried == s.nTried
    ensures AddressesRead(Infos(s.mapInfo, Relisted(s, order)), |Relisted(s, order)|, base.mapAddr)
    ensures SlotsRead(c, Infos(s.mapInfo, Relisted(s, order)), |Relisted(s, order)|, base.vvTried)
  {
    var all := Relisted(s, order);
    SavedEntries(c, s, order, f.checksum);
    var infos := Infos(s.mapInfo, all);
    StageEntries(c, f, infos, |all|);
    StageRest(c, f, infos, |all|);
    AddressesAreRead(infos, |all|);
    SlotsAreRead(c, infos, |all|);
    CountsWritten(c, s, order);
    forall k | 0 <= k < |all|
      ensures all[k] in s.mapInfo && (s.mapInfo[all[k]].fInTried <==> k >= |NewOrder(s.mapInfo, order)|)
    {
      KindsInOrder(c, s, order, k);
    }
  }

  lemma ReadBack(c: Config, s: State, order: seq<int>, f: File, base: State)
    requires Inv(c, s, {}) && Lists(s.mapInfo, order) && f == Save(s, order, f.checksum)
    requires base == LoadTried(c, LoadNew(Blank(f), f.newRecords), f.triedRecords)
    ensures Lists(s.mapInfo, Relisted(s, order))
    ensures Renamed(s, PlaceAll(c, true, base, Entries(f.buckets, f.nNew)), Relisted(s, order))
  {
    SavedLoaded(c, s, order, f, base);
    TablesWithin(c, s);
    PlacedAll(c, s, base, NewOrder(s.mapInfo, order), Relisted(s, order), BUCKET_SIZE, NEW_BUCKET_COUNT);
  }

  lemma SaveCounts(s: State, order: seq<int>, f: File)
    requires Exist(s.mapInfo, order) && f == Save(s, order, f.checksum)
    ensures f.nNew == s.nNew && f.nTried == s.nTried && f.bucketCount == NEW_BUCKET_COUNT
  {
  }

  /** What a file with acceptable counts and the right number of buckets is read as. */
  lemma PlacedIs(c: Config, f: File)
    requires 0 <= f.nNew <= NEW_BUCKET_COUNT * BUCKET_SIZE && 0 <= f.nTried <= TRIED_BUCKET_COUNT * BUCKET_SIZE
    requires f.bucketCount == NEW_BUCKET_COUNT
    ensures Placed(c, f, f.checksum) == Some(PlaceAll(c, true,
              LoadTried(c, LoadNew(Blank(f), f.newRecords), f.triedRecords), Entries(f.buckets, f.nNew)))
  {
  }

  /** The counts of a written file are accepted, and its buckets are used. */
  lemma Accepted(c: Config, s: State, order: seq<int>, f: File)
    requires Inv(c, s, {}) && Lists(s.mapInfo, order) && f == Save(s, order, f.checksum)
    ensures Placed(c, f, f.checksum) == Some(PlaceAll(c, true,
              LoadTried(c, LoadNew(Blank(f), f.newRecords), f.triedRecords), Entries(f.buckets, f.nNew)))
  {
    CountsAccepted(c, s);
    SaveCounts(s, order, f);
    PlacedIs(c, f);
  }

  /**
   * A consistent address manager that is written and read with the same address map comes back whole: the
   * same entries, addresses, tables, reference counts and counters, up to the names of the entries.
   */
  lemma SaveThenLoad(c: Config, s: State, order: seq<int>, checksum: nat)
    requires Inv(c, s, {}) && Lists(s.mapInfo, order)
    ensures Lists(s.mapInfo, Relisted(s, order))
    ensures Placed(c, Save(s, order, checksum), checksum).Some?
    ensures Renamed(s, Placed(c, Save(s, order, checksum), checksum).value, Relisted(s, order))
  {
    var f := Save(s, order, checksum);
    Accepted(c, s, order, f);
    ReadBack(c, s, order, f, LoadTried(c, LoadNew(Blank(f), f.newRecords), f.triedRecords));
  }

  // ---------------------------------------------------------------- what comes back is consistent

  lemma {:induction false} SameSize(a: set<int>, b: set<int>, ids: seq<int>)
    requires Distinct(ids)
    requires forall k :: k in a ==> 0 <= k < |ids| && ids[k] in b
    requires forall id :: id in b ==> id in ids && IndexIn(ids, id) in a
    ensures |a| == |b|
  {
    if |a| == 0 {
      assert forall id :: id !in b;
      assert b == {};
    } else {
      var k := Pick(a);
      assert forall id :: id in b - {ids[k]} ==> IndexIn(ids, id) != k;
      SameSize(a - {k}, b - {ids[k]}, ids);
    }
  }

  lemma SameSlots(was: map<Slot, int>, now: map<Slot, int>, ids: seq<int>, k: int)
    requires SameTable(was, now, ids) && Distinct(ids) && 0 <= k < |ids|
    ensures SlotsOf(now, k) == SlotsOf(was, ids[k])
  {
    assert forall p :: p in now && now[p] != k ==> ids[now[p]] != ids[k];
  }

  lemma CountsKept(s: State, t: State, ids: seq<int>)
    requires Lists(s.mapInfo, ids) && SameEntries(s, t, ids)
    ensures |TriedIds(t.mapInfo)| == |TriedIds(s.mapInfo)| && |NewIds(t.mapInfo)| == |NewIds(s.mapInfo)|
  {
    SameSize(TriedIds(t.mapInfo), TriedIds(s.mapInfo), ids);
    SameSize(NewIds(t.mapInfo), NewIds(s.mapInfo), ids);
  }

  lemma TriedTableKept(c: Config, s: State, t: State, ids: seq<int>)
    requires Lists(s.mapInfo, ids) && SameEntries(s, t, ids) && SameTable(s.vvTried, t.vvTried, ids)
    requires TriedTable(c, s.mapInfo, s.vvTried)
    ensures TriedTable(c, t.mapInfo, t.vvTried)
  {
    forall k | k in t.mapInfo && t.mapInfo[k].fInTried
      ensures TriedSlot(c, t.mapInfo[k].service) in t.vvTried && t.vvTried[TriedSlot(c, t.mapInfo[k].service)] == k
    {
      assert t.mapInfo[k] == Kept(s.mapInfo[ids[k]], k);
      var id := ids[k];
      assert id in s.mapInfo && s.mapInfo[id].fInTried;
      var slot := TriedSlot(c, s.mapInfo[id].service);
      assert slot in s.vvTried && slot in t.vvTried;
      assert ids[t.vvTried[slot]] == ids[k];
    }
    forall p | p in t.vvTried
      ensures t.mapInfo[t.vvTried[p]].fInTried && p == TriedSlot(c, t.mapInfo[t.vvTried[p]].service)
    {
      assert t.mapInfo[t.vvTried[p]] == Kept(s.mapInfo[ids[t.vvTried[p]]], t.vvTried[p]);
    }
  }

  lemma NewTableKept(c: Config, s: State, t: State, ids: seq<int>)
    requires Lists(s.mapInfo, ids) && SameEntries(s, t, ids) && SameTable(s.vvNew, t.vvNew, ids)
    requires NewTable(c, s.mapInfo, s.vvNew) && RefCounts(s.mapInfo, s.vvNew, {})
    ensures NewTable(c, t.mapInfo, t.vvNew) && RefCounts(t.mapInfo, t.vvNew, {})
  {
    forall p | p in t.vvNew
      ensures !t.mapInfo[t.vvNew[p]].fInTried && 0 <= p.bucket < NEW_BUCKET_COUNT
      ensures p == NewSlotIn(c, p.bucket, t.mapInfo[t.vvNew[p]].service)
    {
      assert t.mapInfo[t.vvNew[p]] == Kept(s.mapInfo[ids[t.vvNew[p]]], t.vvNew[p]);
    }
    forall k | k in t.mapInfo && !t.mapInfo[k].fInTried
      ensures 1 <= t.mapInfo[k].nRefCount == |SlotsOf(t.vvNew, k)| <= NEW_BUCKETS_PER_ADDRESS
    {
      assert t.mapInfo[k] == Kept(s.mapInfo[ids[k]], k);
      SameSlots(s.vvNew, t.vvNew, ids, k);
    }
  }

  lemma AddrInverseKept(s: State, t: State, ids: seq<int>)
    requires Lists(s.mapInfo, ids) && SameEntries(s, t, ids) && SameAddresses(s, t, ids)
    requires AddrInverse(s.nIdCount, s.mapInfo, s.mapAddr)
    ensures AddrInverse(|ids|, t.mapInfo, t.mapAddr)
  {
    forall k | k in t.mapInfo
      ensures t.mapInfo[k].service.addr in t.mapAddr && t.mapAddr[t.mapInfo[k].service.addr] == k
    {
      var id := ids[k];
      assert id in s.mapInfo && t.mapInfo[k] == Kept(s.mapInfo[id], k);
      var a := t.mapInfo[k].service.addr;
      assert a in s.mapAddr && a in t.mapAddr && ids[t.mapAddr[a]] == id;
    }
    forall a | a in t.mapAddr
      ensures t.mapInfo[t.mapAddr[a]].service.addr == a
    {
      assert t.mapInfo[t.mapAddr[a]] == Kept(s.mapInfo[ids[t.mapAddr[a]]], t.mapAddr[a]);
    }
  }

  lemma RandomKept(s: State, t: State, ids: seq<int>)
    requires SameEntries(s, t, ids) && |t.vRandom| == |ids| && forall k :: 0 <= k < |ids| ==> t.vRandom[k] == k
    ensures RandomInverse(t.mapInfo, t.vRandom)
  {
    assert forall k :: 0 <= k < |ids| ==> t.mapInfo[k].nRandomPos == k;
  }

  /** A renamed address manager is as consistent as the original. */
  lemma RenamedKeeps(c: Config, s: State, t: State, ids: seq<int>)
    requires Inv(c, s, {}) && Lists(s.mapInfo, ids) && Renamed(s, t, ids)
    ensures Inv(c, t, {})
  {
    Look(c, s, {});
    AddrInverseKept(s, t, ids);
    RandomKept(s, t, ids);
    CountsKept(s, t, ids);
    TriedTableKept(c, s, t, ids);
    NewTableKept(c, s, t, ids);
  }

  /** Times that pass the debug check still do after reading: the last attempts are reset, the last successes kept. */
  lemma RenamedTimes(s: State, t: State, ids: seq<int>)
    requires SameEntries(s, t, ids) && TimesOk(s.mapInfo)
    ensures TimesOk(t.mapInfo)
  {
    forall k | k in t.mapInfo
      ensures TimesFine(t.mapInfo[k])
    {
      var id := ids[k];
      assert id in s.mapInfo && t.mapInfo[k] == Kept(s.mapInfo[id], k);
    }
  }

  /** Reading back leaves no entry without a reference, so that none is removed afterwards. */
  lemma NothingPruned(c: Config, t: State, id: int)
    requires Inv(c, t, {})
    ensures !Unreferenced(t, id)
  {
    Look(c, t, {});
  }
}
