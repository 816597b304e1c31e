/**
 * Reading the address manager's file in any circumstances (Unserialize in src/addrman.h): after a change of the address
 * map or of the number of buckets entries move to their primary places, collisions lose entries, and what is left
 * is consistent.
 */
module AddrManRebucket {
  import opened Common
  import opened AddrMan
  import opened AddrManFile
  import opened AddrManStorage

  // ---------------------------------------------------------------- reading entries

  ghost predicate AddrsDiffer(records: seq<Record>) {
    forall i, j :: 0 <= i < j < |records| ==> records[i].service.addr != records[j].service.addr
  }

  ghost predicate NoneKnown(s: State, records: seq<Record>) {
    forall i :: 0 <= i < |records| ==> records[i].service.addr !in s.mapAddr
  }

  /** Entries that have been read, as many as given of each kind, before any has a reference. */
  ghost predicate Reading(c: Config, s: State, nTried: int, nNew: int) {
    && AddrInverse(s.nIdCount, s.mapInfo, s.mapAddr)
    && RandomInverse(s.mapInfo, s.vRandom)
    && CountsRight(s.mapInfo, nTried, nNew)
    && TriedTable(c, s.mapInfo, s.vvTried)
    && s.vvNew == map[] && (forall id :: id in s.mapInfo ==> s.mapInfo[id].nRefCount == 0)
  }

  lemma CountsMore(m: map<int, Info>, nTried: int, nNew: int, id: int, i: Info)
    requires CountsRight(m, nTried, nNew) && id !in m
    ensures CountsRight(m[id := i], nTried + (if i.fInTried then 1 else 0), nNew + if i.fInTried then 0 else 1)
  {
    IdsUpdate(m, id, i);
    assert TriedIds(m) - {id} == TriedIds(m) && NewIds(m) - {id} == NewIds(m);
  }

  lemma AppendReads(c: Config, s: State, r: Record, nTried: int, nNew: int)
    requires Reading(c, s, nTried, nNew) && r.service.addr !in s.mapAddr
    ensures Reading(c, Append(s, r, false), nTried, nNew + 1)
  {
    var i := InfoOf(r, |s.vRandom|, false);
    CreateAddr(s.nIdCount, s.mapInfo, s.mapAddr, i);
    CreateRandom(s.mapInfo, s.vRandom, s.nIdCount, i);
    CountsMore(s.mapInfo, nTried, nNew, s.nIdCount, i);
  }

  lemma TriedMore(c: Config, m: map<int, Info>, table: map<Slot, int>, id: int, i: Info)
    requires TriedTable(c, m, table) && id !in m && i.fInTried && i.nRefCount == 0 && TriedSlot(c, i.service) !in table
    ensures TriedTable(c, m[id := i], table[TriedSlot(c, i.service) := id])
  {
  }

  lemma AppendReadsTried(c: Config, s: State, r: Record, nTried: int, nNew: int)
    requires Reading(c, s, nTried, nNew) && r.service.addr !in s.mapAddr && TriedSlot(c, r.service) !in s.vvTried
    ensures Reading(c, LoadOneTried(c, s, r), nTried + 1, nNew)
  {
    var i := InfoOf(r, |s.vRandom|, true);
    CreateAddr(s.nIdCount, s.mapInfo, s.mapAddr, i);
    CreateRandom(s.mapInfo, s.vRandom, s.nIdCount, i);
    CountsMore(s.mapInfo, nTried, nNew, s.nIdCount, i);
    TriedMore(c, s.mapInfo, s.vvTried, s.nIdCount, i);
  }

  /** New entries come first; their numbers are their ids. */
  lemma {:induction false} NewAreRead(c: Config, f: File, records: seq<Record>)
    requires AddrsDiffer(records)
    ensures var s := LoadNew(Blank(f), records);
            && Reading(c, s, 0, |records|) && s.nIdCount == |records| && s.nNew == f.nNew && s.nTried == f.nTried
            && (forall id :: id in s.mapInfo ==> !s.mapInfo[id].fInTried)
  {
    if records == [] {
      assert TriedIds(map[]) == {} && NewIds(map[]) == {};
    } else {
      var n := |records| - 1;
      var s := LoadNew(Blank(f), records[..n]);
      NewAreRead(c, f, records[..n]);
      AddrsAreRead(f, records[..n]);
      assert records[n].service.addr !in s.mapAddr;
      AppendReads(c, s, records[n], 0, n);
    }
  }

  lemma {:induction false} AddrsAreRead(f: File, records: seq<Record>)
    ensures forall a :: a in LoadNew(Blank(f), records).mapAddr ==> exists i :: 0 <= i < |records| && records[i].service.addr == a
  {
    if records != [] {
      var n := |records| - 1;
      AddrsAreRead(f, records[..n]);
      forall a | a in LoadNew(Blank(f), records).mapAddr
        ensures exists i :: 0 <= i < |records| && records[i].service.addr == a
      {
        if a != records[n].service.addr {
          assert a in LoadNew(Blank(f), records[..n]).mapAddr;
          var i :| 0 <= i < n && records[..n][i].service.addr == a;
          assert records[i].service.addr == a;
        }
      }
    }
  }

  /** What reading tried entries adds: entries that are tried, under new ids and known addresses. */
  ghost predicate OnlyTriedAdded(s: State, t: State, records: seq<Record>) {
    && t.nIdCount >= s.nIdCount && t.nNew == s.nNew
    && (forall id :: id in s.mapInfo ==> id in t.mapInfo && t.mapInfo[id] == s.mapInfo[id])
    && (forall id :: id in t.mapInfo && id !in s.mapInfo ==> t.mapInfo[id].fInTried)
    && (forall a :: a in t.mapAddr && a !in s.mapAddr ==> exists i :: 0 <= i < |records| && records[i].service.addr == a)
  }

  lemma OneMoreTried(c: Config, s: State, t: State, records: seq<Record>)
    requires records != [] && OnlyTriedAdded(s, t, records[..|records| - 1])
    requires AddrInverse(t.nIdCount, t.mapInfo, t.mapAddr)
    ensures OnlyTriedAdded(s, LoadOneTried(c, t, records[|records| - 1]), records)
  {
    var n := |records| - 1;
    var u := LoadOneTried(c, t, records[n]);
    forall a | a in u.mapAddr && a !in s.mapAddr
      ensures exists i :: 0 <= i < |records| && records[i].service.addr == a
    {
      if a in t.mapAddr {
        var i :| 0 <= i < n && records[..n][i].service.addr == a;
        assert records[i].service.addr == a;
      }
    }
  }

  /** Tried entries are read, and every lost one is taken off the count. */
  lemma {:induction false} TriedAreRead(c: Config, s: State, records: seq<Record>, nNew: int) returns (loaded: nat)
    requires Reading(c, s, 0, nNew) && NoneKnown(s, records) && AddrsDiffer(records)
    ensures var t := LoadTried(c, s, records);
            && Reading(c, t, loaded, nNew) && t.nTried == s.nTried - (|records| - loaded)
            && OnlyTriedAdded(s, t, records)
  {
    if records == [] {
      loaded := 0;
    } else {
      var n := |records| - 1;
      loaded := TriedAreRead(c, s, records[..n], nNew);
      var t, r := LoadTried(c, s, records[..n]), records[n];
      OneMoreTried(c, s, t, records);
      if TriedSlot(c, r.service) !in t.vvTried {
        assert r.service.addr !in t.mapAddr;
        AppendReadsTried(c, t, r, loaded, nNew);
        loaded := loaded + 1;
      }
    }
  }

  // ---------------------------------------------------------------- placing references

  /** A bucket of the table, where it is used, and a new entry. */
  predicate Sensible(s: State, restore: bool, e: (int, int)) {
    && 0 <= e.0 && (restore ==> e.0 < NEW_BUCKET_COUNT)
    && e.1 in s.mapInfo && !s.mapInfo[e.1].fInTried
  }

  ghost predicate AllSensible(s: State, restore: bool, entries: seq<(int, int)>) {
    forall k :: 0 <= k < |entries| ==> Sensible(s, restore, entries[k])
  }

  lemma MorePending(c: Config, s: State, some: set<int>, more: set<int>)
    requires Inv(c, s, some) && some <= more
    ensures Inv(c, s, more)
  {
    Look(c, s, some);
  }

  lemma ReferKeeps(c: Config, s: State, slot: Slot, id: int, pending: set<int>)
    requires Inv(c, s, pending) && id in s.mapInfo && !s.mapInfo[id].fInTried && s.mapInfo[id].nRefCount < NEW_BUCKETS_PER_ADDRESS
    requires slot !in s.vvNew && 0 <= slot.bucket < NEW_BUCKET_COUNT && slot == NewSlotIn(c, slot.bucket, s.mapInfo[id].service)
    ensures Inv(c, Ref(s, slot, id), pending)
  {
    RefKeeps(c, s, slot, id, pending);
    MorePending(c, Ref(s, slot, id), pending - {id}, pending);
  }

  lemma PlaceOneKeeps(c: Config, restore: bool, s: State, e: (int, int), pending: set<int>)
    requires Inv(c, s, pending) && Sensible(s, restore, e)
    ensures Inv(c, PlaceOne(c, restore, s, e), pending)
  {
    var i := s.mapInfo[e.1];
    if i.nRefCount < NEW_BUCKETS_PER_ADDRESS {
      if restore && NewSlotIn(c, e.0, i.service) !in s.vvNew {
        ReferKeeps(c, s, NewSlotIn(c, e.0, i.service), e.1, pending);
      } else if HomeSlot(c, i) !in s.vvNew {
        ReferKeeps(c, s, HomeSlot(c, i), e.1, pending);
      }
    }
  }

  /** Placing changes nothing but references. */
  lemma {:induction false} PlaceAllKinds(c: Config, restore: bool, s: State, entries: seq<(int, int)>)
    ensures var t := PlaceAll(c, restore, s, entries);
            && (forall id :: id in t.mapInfo <==> id in s.mapInfo)
            && (forall id :: id in t.mapInfo ==> t.mapInfo[id] == s.mapInfo[id].(nRefCount := t.mapInfo[id].nRefCount))
            && t == s.(mapInfo := t.mapInfo, vvNew := t.vvNew)
  {
    if entries != [] {
      PlaceAllKinds(c, restore, s, entries[..|entries| - 1]);
    }
  }

  lemma {:induction false} PlaceAllKeeps(c: Config, restore: bool, s: State, entries: seq<(int, int)>, pending: set<int>)
    requires Inv(c, s, pending) && AllSensible(s, restore, entries)
    ensures Inv(c, PlaceAll(c, restore, s, entries), pending)
  {
    if entries != [] {
      var n := |entries| - 1;
      PlaceAllKeeps(c, restore, s, entries[..n], pending);
      PlaceAllKinds(c, restore, s, entries[..n]);
      var t, e := PlaceAll(c, restore, s, entries[..n]), entries[n];
      var id := e.1;
      assert Sensible(s, restore, e) && id in t.mapInfo;
      PlaceOneKeeps(c, restore, t, e, pending);
    }
  }

  lemma {:induction false} BucketEntriesNumbered(b: int, numbers: seq<int>, nNew: int)
    ensures forall e :: e in BucketEntries(b, numbers, nNew) ==> e.0 == b && 0 <= e.1 < nNew
  {
    if numbers != [] {
      BucketEntriesNumbered(b, numbers[..|numbers| - 1], nNew);
    }
  }

  lemma {:induction false} EntriesNumbered(buckets: seq<seq<int>>, nNew: int)
    ensures forall e :: e in Entries(buckets, nNew) ==> 0 <= e.0 < |buckets| && 0 <= e.1 < nNew
  {
    if buckets != [] {
      var n := |buckets| - 1;
      EntriesNumbered(buckets[..n], nNew);
      BucketEntriesNumbered(n, buckets[n], nNew);
    }
  }

  // ---------------------------------------------------------------- pruning

  /** What is left, entry by entry and address by address. */
  ghost predicate Left(t: State, u: State) {
    && (forall id :: id in u.mapInfo <==> id in t.mapInfo && !Unreferenced(t, id))
    && (forall id :: id in u.mapInfo ==> u.mapInfo[id] == t.mapInfo[id].(nRandomPos := u.mapInfo[id].nRandomPos))
    && (forall id :: id in u.mapInfo ==> t.mapInfo[id].service.addr in t.mapAddr && t.mapAddr[t.mapInfo[id].service.addr] == id ==>
          t.mapInfo[id].service.addr in u.mapAddr && u.mapAddr[t.mapInfo[id].service.addr] == id)
    && (forall a :: a in u.mapAddr ==> a in t.mapAddr && u.mapAddr[a] == t.mapAddr[a])
    && (forall id :: Unreferenced(t, id) ==> t.mapInfo[id].service.addr !in u.mapAddr)
  }

  lemma PrunedLeft(t: State, u: State)
    requires Pruned(t, u) && AddrInverse(t.nIdCount, t.mapInfo, t.mapAddr)
    ensures Left(t, u)
  {
    var gone := set id | id in t.mapInfo && Unreferenced(t, id);
    forall id
      ensures id in gone <==> Unreferenced(t, id)
    {
    }
    forall id | id in gone
      ensures t.mapInfo[id].service.addr in AddrsOf(t.mapInfo, gone)
    {
    }
  }

  lemma PrunedCounts(t: State, u: State)
    requires Pruned(t, u) && Left(t, u) && CountsRight(t.mapInfo, t.nTried, t.nNew)
    ensures CountsRight(u.mapInfo, u.nTried, u.nNew)
  {
    var gone := set id | id in t.mapInfo && Unreferenced(t, id);
    forall id
      ensures id in TriedIds(u.mapInfo) <==> id in TriedIds(t.mapInfo)
      ensures id in NewIds(u.mapInfo) <==> id in NewIds(t.mapInfo) - gone
    {
      assert id in u.mapInfo <==> id in t.mapInfo && !Unreferenced(t, id);
    }
    assert TriedIds(u.mapInfo) == TriedIds(t.mapInfo);
    assert NewIds(u.mapInfo) == NewIds(t.mapInfo) - gone && gone <= NewIds(t.mapInfo);
  }

  lemma PrunedAddrs(t: State, u: State)
    requires Left(t, u) && u.nIdCount == t.nIdCount && AddrInverse(t.nIdCount, t.mapInfo, t.mapAddr)
    ensures AddrInverse(u.nIdCount, u.mapInfo, u.mapAddr)
  {
  }

  lemma PrunedTables(c: Config, t: State, u: State, pending: set<int>)
    requires Left(t, u) && u.vvTried == t.vvTried && u.vvNew == t.vvNew
    requires TriedTable(c, t.mapInfo, t.vvTried) && NewTable(c, t.mapInfo, t.vvNew) && RefCounts(t.mapInfo, t.vvNew, pending)
    ensures TriedTable(c, u.mapInfo, u.vvTried) && NewTable(c, u.mapInfo, u.vvNew) && RefCounts(u.mapInfo, u.vvNew, {})
  {
    forall p | p in t.vvNew
      ensures t.vvNew[p] in u.mapInfo && !u.mapInfo[t.vvNew[p]].fInTried
      ensures p == NewSlotIn(c, p.bucket, u.mapInfo[t.vvNew[p]].service)
    {
      assert p in SlotsOf(t.vvNew, t.vvNew[p]);
    }
    forall p | p in t.vvTried
      ensures t.vvTried[p] in u.mapInfo && u.mapInfo[t.vvTried[p]].fInTried
      ensures p == TriedSlot(c, u.mapInfo[t.vvTried[p]].service)
    {
      assert !Unreferenced(t, t.vvTried[p]);
    }
  }

  /** Without its unreferenced entries an address manager is consistent. */
  lemma PrunedKeeps(c: Config, t: State, u: State, pending: set<int>)
    requires Inv(c, t, pending) && Pruned(t, u)
    ensures Inv(c, u, {})
  {
    Look(c, t, pending);
    PrunedLeft(t, u);
    PrunedAddrs(t, u);
    PrunedCounts(t, u);
    PrunedTables(c, t, u, pending);
  }

  // ---------------------------------------------------------------- any file

  lemma ReadingKeeps(c: Config, s: State)
    requires Reading(c, s, s.nTried, s.nNew)
    ensures Inv(c, s, s.mapInfo.Keys)
  {
    assert forall id :: SlotsOf(s.vvNew, id) == {};
  }

  lemma AllAreRead(c: Config, f: File, s: State)
    requires Framed(f) && f.nNew >= 0 && f.nTried >= 0 && AddrsDiffer(f.newRecords + f.triedRecords)
    requires s == LoadTried(c, LoadNew(Blank(f), f.newRecords), f.triedRecords)
    ensures Reading(c, s, s.nTried, s.nNew)
    ensures forall k :: 0 <= k < f.nNew ==> k in s.mapInfo && !s.mapInfo[k].fInTried
  {
    var s0 := LoadNew(Blank(f), f.newRecords);
    RecordsDiffer(f.newRecords, f.triedRecords);
    NewAreRead(c, f, f.newRecords);
    AddrsAreRead(f, f.newRecords);
    LoadNewRandom(f, f.newRecords);
    NoneAgain(s0, f.newRecords, f.triedRecords);
    var loaded := TriedAreRead(c, s0, f.triedRecords, |f.newRecords|);
    AllCounted(s0, s, f.triedRecords, f.nNew);
  }

  lemma AllCounted(s: State, t: State, records: seq<Record>, nNew: int)
    requires OnlyTriedAdded(s, t, records) && NumberedFrom0(s) && s.nIdCount == nNew
    requires forall id :: id in s.mapInfo ==> !s.mapInfo[id].fInTried
    ensures forall k :: 0 <= k < nNew ==> k in t.mapInfo && !t.mapInfo[k].fInTried
  {
  }

  lemma NoneAgain(s: State, first: seq<Record>, more: seq<Record>)
    requires forall a :: a in s.mapAddr ==> exists i :: 0 <= i < |first| && first[i].service.addr == a
    requires forall i, j :: 0 <= i < |first| && 0 <= j < |more| ==> first[i].service.addr != more[j].service.addr
    ensures NoneKnown(s, more)
  {
  }

  lemma RecordsDiffer(first: seq<Record>, more: seq<Record>)
    requires AddrsDiffer(first + more)
    ensures AddrsDiffer(first) && AddrsDiffer(more)
    ensures forall i, j :: 0 <= i < |first| && 0 <= j < |more| ==> first[i].service.addr != more[j].service.addr
  {
    var all, n := first + more, |first|;
    forall i, j | 0 <= i < |first| && 0 <= j < |more|
      ensures first[i].service.addr != more[j].service.addr
    {
      assert all[i] == first[i] && all[n + j] == more[j];
    }
    forall i, j | 0 <= i < j < |more|
      ensures more[i].service.addr != more[j].service.addr
    {
      assert all[n + i] == more[i] && all[n + j] == more[j];
    }
    forall i, j | 0 <= i < j < |first|
      ensures first[i].service.addr != first[j].service.addr
    {
      assert all[i] == first[i] && all[j] == first[j];
    }
  }

  /**
   * Whatever the address map and the number of buckets were, a file in which no address is repeated is read as a
   * consistent address manager.
   */
  lemma AnyFileIsConsistent(c: Config, f: File, checksum: nat, u: State)
    requires Framed(f) && AddrsDiffer(f.newRecords + f.triedRecords) && Placed(c, f, checksum).Some?
    requires Pruned(Placed(c, f, checksum).value, u)
    ensures Consistent(c, u)
  {
    var s := LoadTried(c, LoadNew(Blank(f), f.newRecords), f.triedRecords);
    var restore := f.bucketCount == NEW_BUCKET_COUNT && f.checksum == checksum;
    AllAreRead(c, f, s);
    ReadingKeeps(c, s);
    EntriesNumbered(f.buckets, f.nNew);
    var entries := Entries(f.buckets, f.nNew);
    forall k | 0 <= k < |entries|
      ensures Sensible(s, restore, entries[k])
    {
      assert entries[k] in entries;
    }
    PlaceAllKeeps(c, restore, s, entries, s.mapInfo.Keys);
    PrunedKeeps(c, Placed(c, f, checksum).value, u, s.mapInfo.Keys);
    PlacedCollisions(c, f, checksum);
  }

  // ---------------------------------------------------------------- who keeps a place

  /** The first of some entries whose primary place is p, or their number. */
  ghost function FirstClaim(c: Config, s: State, entries: seq<(int, int)>, p: Slot): (k: nat)
    requires AllSensible(s, false, entries)
    ensures k <= |entries| && (k < |entries| ==> HomeSlot(c, s.mapInfo[entries[k].1]) == p)
    ensures forall j :: 0 <= j < k ==> HomeSlot(c, s.mapInfo[entries[j].1]) != p
  {
    if entries == [] then 0
    else
      var n := |entries| - 1;
      var k := FirstClaim(c, s, entries[..n], p);
      assert forall j :: 0 <= j < n ==> entries[..n][j] == entries[j];
      assert Sensible(s, false, entries[n]);
      if k < n then k else if HomeSlot(c, s.mapInfo[entries[n].1]) == p then n else n + 1
  }

  /** A table that holds each entry at most once, at its primary place, which counts as a reference. */
  ghost predicate AtHome(c: Config, t: State) {
    && (forall p :: p in t.vvNew ==> t.vvNew[p] in t.mapInfo && HomeSlot(c, t.mapInfo[t.vvNew[p]]) == p)
    && (forall id :: id in t.mapInfo && !t.mapInfo[id].fInTried ==>
          t.mapInfo[id].nRefCount
          == if HomeSlot(c, t.mapInfo[id]) in t.vvNew && t.vvNew[HomeSlot(c, t.mapInfo[id])] == id then 1 else 0)
  }

  lemma {:induction false} PlacedAtHome(c: Config, s: State, entries: seq<(int, int)>)
    requires AllSensible(s, false, entries) && s.vvNew == map[]
    requires forall id :: id in s.mapInfo ==> s.mapInfo[id].nRefCount == 0
    ensures AtHome(c, PlaceAll(c, false, s, entries))
  {
    if entries != [] {
      var n := |entries| - 1;
      PlacedAtHome(c, s, entries[..n]);
      PlaceAllKinds(c, false, s, entries[..n]);
      assert Sensible(s, false, entries[n]);
    }
  }

  /** After a change a place goes to the first entry, in the order of the old buckets, that belongs there. */
  lemma {:induction false} FirstIsPlaced(c: Config, s: State, entries: seq<(int, int)>, p: Slot)
    requires AllSensible(s, false, entries) && s.vvNew == map[]
    requires forall id :: id in s.mapInfo ==> s.mapInfo[id].nRefCount == 0
    ensures var t, k := PlaceAll(c, false, s, entries), FirstClaim(c, s, entries, p);
            (p in t.vvNew <==> k < |entries|) && (k < |entries| ==> t.vvNew[p] == entries[k].1)
  {
    if entries != [] {
      var n := |entries| - 1;
      FirstIsPlaced(c, s, entries[..n], p);
      PlacedAtHome(c, s, entries[..n]);
      PlaceAllKinds(c, false, s, entries[..n]);
      var t, e := PlaceAll(c, false, s, entries[..n]), entries[n];
      var id := e.1;
      assert Sensible(s, false, e) && id in t.mapInfo;
      assert HomeSlot(c, t.mapInfo[id]) == HomeSlot(c, s.mapInfo[id]) && t.mapInfo[id].nRefCount <= 1;
    }
  }

  /** The first of some records whose tried slot is p, or their number. */
  function FirstTried(c: Config, records: seq<Record>, p: Slot): (k: nat)
    ensures k <= |records| && (k < |records| ==> TriedSlot(c, records[k].service) == p)
    ensures forall j :: 0 <= j < k ==> TriedSlot(c, records[j].service) != p
  {
    if records == [] then 0
    else
      var n := |records| - 1;
      var k := FirstTried(c, records[..n], p);
      assert forall j :: 0 <= j < n ==> records[..n][j] == records[j];
      if k < n then k else if TriedSlot(c, records[n].service) == p then n else n + 1
  }

  /** A tried slot goes to the first record that belongs there; the others that do are lost. */
  lemma {:induction false} FirstTriedIsKept(c: Config, s: State, records: seq<Record>, p: Slot)
    requires s.vvTried == map[] && forall id :: id in s.mapInfo ==> id < s.nIdCount
    ensures var t, k := LoadTried(c, s, records), FirstTried(c, records, p);
            && (forall id :: id in t.mapInfo ==> id < t.nIdCount)
            && (p in t.vvTried <==> k < |records|)
            && (k < |records| ==> t.vvTried[p] in t.mapInfo && t.mapInfo[t.vvTried[p]].fInTried
                                  && RecordOf(t.mapInfo[t.vvTried[p]]) == records[k])
  {
    if records != [] {
      FirstTriedIsKept(c, s, records[..|records| - 1], p);
    }
  }

  /** The entries of a file before their references are placed. */
  function Read(c: Config, f: File): State {
    LoadTried(c, LoadNew(Blank(f), f.newRecords), f.triedRecords)
  }

  lemma AllAreSensible(c: Config, f: File)
    requires Framed(f) && f.nNew >= 0 && f.nTried >= 0 && AddrsDiffer(f.newRecords + f.triedRecords)
    ensures AllSensible(Read(c, f), false, Entries(f.buckets, f.nNew))
    ensures forall k :: 0 <= k < f.nNew ==> k in Read(c, f).mapInfo && !Read(c, f).mapInfo[k].fInTried
  {
    AllAreRead(c, f, Read(c, f));
    EntriesNumbered(f.buckets, f.nNew);
    var entries := Entries(f.buckets, f.nNew);
    forall k | 0 <= k < |entries|
      ensures Sensible(Read(c, f), false, entries[k])
    {
      assert entries[k] in entries;
    }
  }

  /** Whether the file's buckets are not used. */
  predicate Changed(f: File, checksum: nat) {
    f.bucketCount != NEW_BUCKET_COUNT || f.checksum != checksum
  }

  lemma PrunedEntry(t: State, u: State, id: int)
    requires Pruned(t, u)
    ensures id in u.mapInfo <==> id in t.mapInfo && !Unreferenced(t, id)
    ensures id in u.mapInfo ==> u.mapInfo[id].nRefCount == t.mapInfo[id].nRefCount
    ensures u.vvNew == t.vvNew
  {
  }

  lemma Survivor(c: Config, s: State, entries: seq<(int, int)>, t: State, u: State, k: int)
    requires AllSensible(s, false, entries) && t == PlaceAll(c, false, s, entries) && Pruned(t, u)
    requires s.vvNew == map[] && (forall id :: id in s.mapInfo ==> s.mapInfo[id].nRefCount == 0)
    requires k in s.mapInfo && !s.mapInfo[k].fInTried
    ensures var p := HomeSlot(c, s.mapInfo[k]);
            var first := FirstClaim(c, s, entries, p);
            && (k in u.mapInfo <==> first < |entries| && entries[first].1 == k)
            && (k in u.mapInfo ==> p in u.vvNew && u.vvNew[p] == k && u.mapInfo[k].nRefCount == 1)
  {
    PlacedAtHome(c, s, entries);
    PlaceAllKinds(c, false, s, entries);
    FirstIsPlaced(c, s, entries, HomeSlot(c, s.mapInfo[k]));
    PrunedEntry(t, u, k);
    assert k in t.mapInfo && HomeSlot(c, t.mapInfo[k]) == HomeSlot(c, s.mapInfo[k]);
  }

  /**
   * After a change a new entry survives exactly if it is the first, in the order of the old buckets, of those with the
   * same primary place; then it has that place and one reference.
   */
  lemma SurvivesIff(c: Config, f: File, checksum: nat, u: State, k: nat)
    requires Framed(f) && AddrsDiffer(f.newRecords + f.triedRecords) && Placed(c, f, checksum).Some? && Changed(f, checksum)
    requires Pruned(Placed(c, f, checksum).value, u) && k < f.nNew
    ensures AllSensible(Read(c, f), false, Entries(f.buckets, f.nNew)) && k in Read(c, f).mapInfo
    ensures var p, entries := HomeSlot(c, Read(c, f).mapInfo[k]), Entries(f.buckets, f.nNew);
            var first := FirstClaim(c, Read(c, f), entries, p);
            && (k in u.mapInfo <==> first < |entries| && entries[first].1 == k)
            && (k in u.mapInfo ==> p in u.vvNew && u.vvNew[p] == k && u.mapInfo[k].nRefCount == 1)
  {
    AllAreRead(c, f, Read(c, f));
    AllAreSensible(c, f);
    Survivor(c, Read(c, f), Entries(f.buckets, f.nNew), Placed(c, f, checksum).value, u, k);
  }

  // ---------------------------------------------------------------- an address manager read elsewhere

  lemma SavedDiffer(c: Config, s: State, order: seq<int>, f: File)
    requires Inv(c, s, {}) && Lists(s.mapInfo, order) && f == Save(s, order, f.checksum)
    ensures AddrsDiffer(f.newRecords + f.triedRecords)
  {
    var all := Relisted(s, order);
    var records := f.newRecords + f.triedRecords;
    RelistedLists(c, s, order);
    Look(c, s, {});
    assert |records| == |all|;
    forall i | 0 <= i < |all|
      ensures records[i] == RecordOf(s.mapInfo[all[i]])
    {
    }
    IdsDiffer(s, all, records);
  }

  lemma IdsDiffer(s: State, ids: seq<int>, records: seq<Record>)
    requires AddrInverse(s.nIdCount, s.mapInfo, s.mapAddr) && Exist(s.mapInfo, ids) && Distinct(ids) && |records| == |ids|
    requires forall i :: 0 <= i < |ids| ==> records[i] == RecordOf(s.mapInfo[ids[i]])
    ensures AddrsDiffer(records)
  {
    forall i, j | 0 <= i < j < |records|
      ensures records[i].service.addr != records[j].service.addr
    {
      assert ids[i] != ids[j] && ids[i] in s.mapInfo && ids[j] in s.mapInfo;
    }
  }

  /** Every new entry is among those for which a place is sought. */
  lemma EveryNewIsListed(c: Config, s: State, order: seq<int>, f: File, k: nat) returns (j: nat)
    requires Inv(c, s, {}) && Lists(s.mapInfo, order) && f == Save(s, order, f.checksum) && k < f.nNew
    ensures j < |Entries(f.buckets, f.nNew)| && Entries(f.buckets, f.nNew)[j].1 == k
  {
    var news := NewOrder(s.mapInfo, order);
    Look(c, s, {});
    CountsWritten(c, s, order);
    OrderMembers(s.mapInfo, order);
    OrderDistinct(s.mapInfo, order);
    TablesWithin(c, s);
    var id := news[k];
    assert id in news;
    var p := Pick(SlotsOf(s.vvNew, id));
    NewIdsListed(c, s, order);
    EntriesAre(s.vvNew, news, BUCKET_SIZE, NEW_BUCKET_COUNT);
    var slots := AllSlots(s.vvNew, BUCKET_SIZE, NEW_BUCKET_COUNT);
    assert p in slots;
    j :| 0 <= j < |slots| && slots[j] == p;
  }

  lemma NewIdsListed(c: Config, s: State, order: seq<int>)
    requires Inv(c, s, {}) && Lists(s.mapInfo, order)
    ensures forall p :: p in s.vvNew ==> s.vvNew[p] in NewOrder(s.mapInfo, order)
  {
    Look(c, s, {});
    OrderMembers(s.mapInfo, order);
    forall p | p in s.vvNew
      ensures s.vvNew[p] in NewOrder(s.mapInfo, order)
    {
      KindsDiffer(c, s, s.vvNew[p]);
    }
  }

  /**
   * A consistent address manager that is written, and read with any other address map and any other hashes, is
   * consistent again.
   */
  lemma ReloadedElsewhere(c: Config, d: Config, s: State, order: seq<int>, f: File, checksum: nat, u: State)
    requires Inv(c, s, {}) && Lists(s.mapInfo, order) && f == Save(s, order, f.checksum)
    requires Placed(d, f, checksum).Some? ==> Pruned(Placed(d, f, checksum).value, u)
    ensures Placed(d, f, checksum).Some? && Consistent(d, u)
  {
    CountsAccepted(c, s);
    SaveCounts(s, order, f);
    CountsWritten(c, s, order);
    SavedDiffer(c, s, order, f);
    AnyFileIsConsistent(d, f, checksum, u);
  }

  /** After a change a new entry whose primary place no other new entry shares is never lost. */
  lemma AloneSurvives(c: Config, d: Config, s: State, order: seq<int>, f: File, checksum: nat, u: State, k: nat)
    requires Inv(c, s, {}) && Lists(s.mapInfo, order) && f == Save(s, order, f.checksum)
    requires Placed(d, f, checksum).Some? && Changed(f, checksum) && Pruned(Placed(d, f, checksum).value, u)
    requires k < f.nNew && (forall j :: 0 <= j < f.nNew ==> j in Read(d, f).mapInfo)
    requires forall j :: 0 <= j < f.nNew && j != k ==>
      HomeSlot(d, Read(d, f).mapInfo[j]) != HomeSlot(d, Read(d, f).mapInfo[k])
    ensures k in u.mapInfo
  {
    CountsWritten(c, s, order);
    SavedDiffer(c, s, order, f);
    SurvivesIff(d, f, checksum, u, k);
    var entries := Entries(f.buckets, f.nNew);
    var j := EveryNewIsListed(c, s, order, f, k);
    EntriesNumbered(f.buckets, f.nNew);
    var first := FirstClaim(d, Read(d, f), entries, HomeSlot(d, Read(d, f).mapInfo[k]));
    assert first < |entries| && entries[first] in entries;
  }
}
