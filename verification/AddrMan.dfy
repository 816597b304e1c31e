/**
 * The address manager (src/addrman.h, src/addrman.cpp) on values: six structures that describe the
 * same set of addresses, and the invariant that its debug check tests. The class in
 * AddrManTables.dfy is proved against these functions.
 */
module AddrMan {
  import opened Common

  const TRIED_BUCKET_COUNT := 256
  const NEW_BUCKET_COUNT := 1024
  const BUCKET_SIZE := 64
  const NEW_BUCKETS_PER_ADDRESS := 8
  const SET_TRIED_COLLISION_SIZE := 10
  const REPLACEMENT_HOURS := 4
  const TEST_WINDOW := 40 * 60
  const HORIZON_DAYS := 30
  const RETRIES := 3
  const MAX_FAILURES := 10
  const MIN_FAIL_DAYS := 7

  /** An address without port: the lookup key of mapAddr. */
  type NetAddr = nat
  datatype Service = Service(addr: NetAddr, port: nat)
  datatype Address = Address(service: Service, nTime: int, nServices: set<nat>)

  datatype Info = Info(
    service: Service, nTime: int, nServices: set<nat>, source: NetAddr,
    nLastTry: int, nLastCountAttempt: int, nLastSuccess: int, nAttempts: int,
    nRefCount: int, fInTried: bool, nRandomPos: int)

  /** A position in one of the two bucket tables. */
  datatype Slot = Slot(bucket: int, pos: int)

  /** Keyed hashes and address properties, which this model leaves open. */
  datatype Config = Config(
    triedHash: Service -> nat,
    newHash: (Service, NetAddr) -> nat,
    posHash: (bool, int, Service) -> nat,
    isRoutable: NetAddr -> bool,
    network: NetAddr -> nat,
    isValid: Service -> bool)

  datatype State = State(
    nIdCount: int,
    mapInfo: map<int, Info>,
    mapAddr: map<NetAddr, int>,
    vRandom: seq<int>,
    nTried: int,
    nNew: int,
    vvTried: map<Slot, int>,   // occupied slots only
    vvNew: map<Slot, int>,
    nLastGood: int,
    collisions: set<int>)

  const Empty := State(0, map[], map[], [], 0, 0, map[], map[], 1, {})

  // ---------------------------------------------------------------- bucket positions

  function Position(c: Config, isNew: bool, bucket: int, s: Service): int {
    c.posHash(isNew, bucket, s) % BUCKET_SIZE
  }

  function TriedSlot(c: Config, s: Service): Slot {
    var b := c.triedHash(s) % TRIED_BUCKET_COUNT;
    Slot(b, Position(c, false, b, s))
  }

  /** The position of an address in a given bucket of the new table. */
  function NewSlotIn(c: Config, bucket: int, s: Service): Slot {
    Slot(bucket, Position(c, true, bucket, s))
  }

  function NewSlot(c: Config, s: Service, source: NetAddr): Slot {
    NewSlotIn(c, c.newHash(s, source) % NEW_BUCKET_COUNT, s)
  }

  predicate IsTerrible(i: Info, now: int) {
    if now - i.nLastTry <= 60 then false
    else
      || i.nTime > now + 10 * 60
      || now - i.nTime > HORIZON_DAYS * 24 * 60 * 60
      || (i.nLastSuccess == 0 && i.nAttempts >= RETRIES)
      || (now - i.nLastSuccess > MIN_FAIL_DAYS * 24 * 60 * 60 && i.nAttempts >= MAX_FAILURES)
  }

  // ---------------------------------------------------------------- basic operations

  function Find(s: State, addr: Service): Option<int> {
    if addr.addr in s.mapAddr && s.mapAddr[addr.addr] in s.mapInfo then Some(s.mapAddr[addr.addr]) else None
  }

  predicate CanSwap(s: State, p1: int, p2: int) {
    p1 == p2 || (0 <= p1 < |s.vRandom| && 0 <= p2 < |s.vRandom| && s.vRandom[p1] in s.mapInfo && s.vRandom[p2] in s.mapInfo)
  }

  function SwapRandom(s: State, p1: int, p2: int): State
    requires CanSwap(s, p1, p2)
  {
    if p1 == p2 then s
    else
      var id1, id2 := s.vRandom[p1], s.vRandom[p2];
      var m := s.mapInfo[id1 := s.mapInfo[id1].(nRandomPos := p2)];
      s.(mapInfo := m[id2 := m[id2].(nRandomPos := p1)],
         vRandom := s.vRandom[p1 := id2][p2 := id1])
  }

  /** Create, together with the count that its only caller adds. */
  function Create(s: State, addr: Address, source: NetAddr, penalty: int): State {
    var nTime := if addr.nTime - penalty < 0 then 0 else addr.nTime - penalty;
    s.(nIdCount := s.nIdCount + 1,
       mapInfo := s.mapInfo[s.nIdCount :=
         Info(addr.service, nTime, addr.nServices, source, 0, 0, 0, 0, 0, false, |s.vRandom|)],
       mapAddr := s.mapAddr[addr.service.addr := s.nIdCount],
       vRandom := s.vRandom + [s.nIdCount],
       nNew := s.nNew + 1)
  }

  /** What the asserts of Delete and SwapRandom demand. */
  predicate CanDelete(s: State, id: int) {
    && id in s.mapInfo && !s.mapInfo[id].fInTried && s.mapInfo[id].nRefCount == 0
    && s.vRandom != [] && CanSwap(s, s.mapInfo[id].nRandomPos, |s.vRandom| - 1)
  }

  /** An entry that is the last of vRandom leaves all indexes. */
  function Drop(s: State, id: int, addr: NetAddr): State
    requires s.vRandom != []
  {
    s.(vRandom := s.vRandom[..|s.vRandom| - 1], mapAddr := s.mapAddr - {addr}, mapInfo := s.mapInfo - {id}, nNew := s.nNew - 1)
  }

  function Delete(s: State, id: int): State
    requires CanDelete(s, id)
  {
    Drop(SwapRandom(s, s.mapInfo[id].nRandomPos, |s.vRandom| - 1), id, s.mapInfo[id].service.addr)
  }

  /** One reference less for the entry in a slot of the new table. */
  function Unref(s: State, slot: Slot): State
    requires slot in s.vvNew && s.vvNew[slot] in s.mapInfo
  {
    var id := s.vvNew[slot];
    s.(mapInfo := s.mapInfo[id := s.mapInfo[id].(nRefCount := s.mapInfo[id].nRefCount - 1)], vvNew := s.vvNew - {slot})
  }

  predicate CanClear(s: State, slot: Slot) {
    slot in s.vvNew ==>
      && s.vvNew[slot] in s.mapInfo && s.mapInfo[s.vvNew[slot]].nRefCount > 0
      && (s.mapInfo[s.vvNew[slot]].nRefCount == 1 ==> CanDelete(Unref(s, slot), s.vvNew[slot]))
  }

  function ClearNew(s: State, slot: Slot): State
    requires CanClear(s, slot)
  {
    if slot !in s.vvNew then s
    else if s.mapInfo[s.vvNew[slot]].nRefCount == 1 then Delete(Unref(s, slot), s.vvNew[slot])
    else Unref(s, slot)
  }

  /** One reference more: the entry enters an empty slot of the new table. */
  function Ref(s: State, slot: Slot, id: int): State
    requires id in s.mapInfo
  {
    s.(mapInfo := s.mapInfo[id := s.mapInfo[id].(nRefCount := s.mapInfo[id].nRefCount + 1)], vvNew := s.vvNew[slot := id])
  }

  /** Whether bucket b holds an id in the position that its address hashes to. */
  predicate HoldsIn(c: Config, table: map<Slot, int>, addr: Service, id: int, b: int) {
    NewSlotIn(c, b, addr) in table && table[NewSlotIn(c, b, addr)] == id
  }

  /** Slots of the new table, in the first n buckets, that hold an id where its address hashes to. */
  function FoundBelow(c: Config, table: map<Slot, int>, addr: Service, id: int, n: int): set<Slot> {
    set b | 0 <= b < n && HoldsIn(c, table, addr, id, b) :: NewSlotIn(c, b, addr)
  }

  /** Slots of the new table that the loop of MakeTried finds for an entry. */
  function FoundSlots(c: Config, s: State, id: int): set<Slot>
    requires id in s.mapInfo
  {
    FoundBelow(c, s.vvNew, s.mapInfo[id].service, id, NEW_BUCKET_COUNT)
  }

  function Unlist(c: Config, s: State, id: int): State
    requires id in s.mapInfo
  {
    var found := FoundSlots(c, s, id);
    s.(mapInfo := s.mapInfo[id := s.mapInfo[id].(nRefCount := s.mapInfo[id].nRefCount - |found|)], vvNew := s.vvNew - found)
  }

  /** A tried entry leaves the tried table and counts as new again. */
  function Demote(s: State, slot: Slot): State
    requires slot in s.vvTried && s.vvTried[slot] in s.mapInfo
  {
    var id := s.vvTried[slot];
    s.(mapInfo := s.mapInfo[id := s.mapInfo[id].(fInTried := false)],
       vvTried := s.vvTried - {slot}, nTried := s.nTried - 1, nNew := s.nNew + 1)
  }

  /** An unlisted entry enters the tried table. */
  function Promote(s: State, slot: Slot, id: int): State
    requires id in s.mapInfo
  {
    s.(mapInfo := s.mapInfo[id := s.mapInfo[id].(fInTried := true)],
       vvTried := s.vvTried[slot := id], nTried := s.nTried + 1, nNew := s.nNew - 1)
  }

  /** An evicted entry has its one slot in the new table. */
  function Reenter(s: State, slot: Slot, id: int): State
    requires id in s.mapInfo
  {
    s.(mapInfo := s.mapInfo[id := s.mapInfo[id].(nRefCount := 1)], vvNew := s.vvNew[slot := id])
  }

  /** Where an entry evicted from tried goes. */
  function HomeSlot(c: Config, i: Info): Slot {
    NewSlot(c, i.service, i.source)
  }

  predicate CanEvict(c: Config, s: State, slot: Slot) {
    slot in s.vvTried ==>
      && s.vvTried[slot] in s.mapInfo
      && var t := Demote(s, slot);
         var home := HomeSlot(c, s.mapInfo[s.vvTried[slot]]);
         CanClear(t, home) && s.vvTried[slot] in ClearNew(t, home).mapInfo
  }

  /** The occupant of a tried slot moves back to the new table, deleting what is there. */
  function Evict(c: Config, s: State, slot: Slot): State
    requires CanEvict(c, s, slot)
  {
    if slot !in s.vvTried then s
    else
      var id := s.vvTried[slot];
      var home := HomeSlot(c, s.mapInfo[id]);
      Reenter(ClearNew(Demote(s, slot), home), home, id)
  }

  predicate CanMakeTried(c: Config, s: State, id: int) {
    && id in s.mapInfo
    && var t := Unlist(c, s, id);
       var slot := TriedSlot(c, s.mapInfo[id].service);
       t.mapInfo[id].nRefCount == 0 && CanEvict(c, t, slot) && id in Evict(c, t, slot).mapInfo
       && slot !in Evict(c, t, slot).vvTried
  }

  function MakeTried(c: Config, s: State, id: int): State
    requires CanMakeTried(c, s, id)
  {
    var slot := TriedSlot(c, s.mapInfo[id].service);
    Promote(Evict(c, Unlist(c, s, id), slot), slot, id)
  }

  // ---------------------------------------------------------------- invariant

  ghost function TriedIds(m: map<int, Info>): set<int> { set id | id in m && m[id].fInTried }
  ghost function NewIds(m: map<int, Info>): set<int> { set id | id in m && !m[id].fInTried }
  ghost function SlotsOf(table: map<Slot, int>, id: int): set<Slot> { set p | p in table && table[p] == id }

  /** mapAddr is the inverse of mapInfo, and ids are not reused. */
  ghost predicate AddrInverse(n: int, m: map<int, Info>, a: map<NetAddr, int>) {
    && n >= 0
    && (forall id :: id in m ==> 0 <= id < n && m[id].service.addr in a && a[m[id].service.addr] == id)
    && (forall k :: k in a ==> a[k] in m && m[a[k]].service.addr == k)
  }

  /** vRandom and nRandomPos are inverse. */
  ghost predicate RandomInverse(m: map<int, Info>, v: seq<int>) {
    && (forall id :: id in m ==> 0 <= m[id].nRandomPos < |v| && v[m[id].nRandomPos] == id)
    && (forall i :: 0 <= i < |v| ==> v[i] in m && m[v[i]].nRandomPos == i)
  }

  ghost predicate CountsRight(m: map<int, Info>, nTried: int, nNew: int) {
    nTried == |TriedIds(m)| && nNew == |NewIds(m)|
  }

  /** Every tried entry has exactly its one hashed slot and no reference from the new table. */
  ghost predicate TriedTable(c: Config, m: map<int, Info>, table: map<Slot, int>) {
    && (forall id :: id in m && m[id].fInTried ==>
          m[id].nRefCount == 0 && TriedSlot(c, m[id].service) in table && table[TriedSlot(c, m[id].service)] == id)
    && (forall p :: p in table ==> table[p] in m && m[table[p]].fInTried && p == TriedSlot(c, m[table[p]].service))
  }

  /** Every slot of the new table holds a new entry, in the position hashed for its bucket. */
  ghost predicate NewTable(c: Config, m: map<int, Info>, table: map<Slot, int>) {
    forall p :: p in table ==>
      && table[p] in m && !m[table[p]].fInTried
      && 0 <= p.bucket < NEW_BUCKET_COUNT && p == NewSlotIn(c, p.bucket, m[table[p]].service)
  }

  /** Reference counts are the numbers of slots, at most 8, and only pending entries have none. */
  ghost predicate RefCounts(m: map<int, Info>, table: map<Slot, int>, pending: set<int>) {
    forall id :: id in m && !m[id].fInTried ==>
      && m[id].nRefCount == |SlotsOf(table, id)| <= NEW_BUCKETS_PER_ADDRESS
      && (id !in pending ==> m[id].nRefCount >= 1)
  }

  /** The parts of the invariant, with entries in the middle of an operation allowed to be unreferenced. */
  ghost predicate Parts(c: Config, s: State, pending: set<int>) {
    && AddrInverse(s.nIdCount, s.mapInfo, s.mapAddr)
    && RandomInverse(s.mapInfo, s.vRandom)
    && CountsRight(s.mapInfo, s.nTried, s.nNew)
    && TriedTable(c, s.mapInfo, s.vvTried)
    && NewTable(c, s.mapInfo, s.vvNew)
    && RefCounts(s.mapInfo, s.vvNew, pending)
  }

  /** The invariant of the six structures. */
  ghost predicate Inv(c: Config, s: State, pending: set<int>) {
    forall k {:trigger Asked(s, k)} :: Asked(s, k) ==> Parts(c, s, pending)
  }

  lemma Look(c: Config, s: State, pending: set<int>)
    requires Inv(c, s, pending)
    ensures Parts(c, s, pending)
  {
    assert Asked(s, 0);
  }

  lemma LookRandom(c: Config, s: State, pending: set<int>)
    requires Inv(c, s, pending)
    ensures RandomInverse(s.mapInfo, s.vRandom)
  {
    Look(c, s, pending);
  }

  /** Recorded collisions still collide: the tried slot they wait for is occupied. */
  ghost predicate Colliding(c: Config, s: State) {
    forall id :: id in s.collisions ==>
      0 <= id < s.nIdCount && (id in s.mapInfo ==> TriedSlot(c, s.mapInfo[id].service) in s.vvTried)
  }

  ghost predicate Consistent(c: Config, s: State) {
    Inv(c, s, {}) && Colliding(c, s)
  }

  // ---------------------------------------------------------------- one entry changes

  lemma AddrUpdate(n: int, m: map<int, Info>, a: map<NetAddr, int>, id: int, i: Info)
    requires AddrInverse(n, m, a) && id in m && i.service == m[id].service
    ensures AddrInverse(n, m[id := i], a)
  {
  }

  lemma RandomUpdate(m: map<int, Info>, v: seq<int>, id: int, i: Info)
    requires RandomInverse(m, v) && id in m && i.nRandomPos == m[id].nRandomPos
    ensures RandomInverse(m[id := i], v)
  {
  }

  lemma IdsUpdate(m: map<int, Info>, id: int, i: Info)
    ensures TriedIds(m[id := i]) == if i.fInTried then TriedIds(m) + {id} else TriedIds(m) - {id}
    ensures NewIds(m[id := i]) == if i.fInTried then NewIds(m) - {id} else NewIds(m) + {id}
  {
  }

  lemma CountsUpdate(m: map<int, Info>, nTried: int, nNew: int, id: int, i: Info)
    requires CountsRight(m, nTried, nNew) && id in m
    ensures CountsRight(m[id := i],
                        nTried + (if i.fInTried then 1 else 0) - (if m[id].fInTried then 1 else 0),
                        nNew + (if i.fInTried then 0 else 1) - (if m[id].fInTried then 0 else 1))
  {
    IdsUpdate(m, id, i);
    assert id in TriedIds(m) <==> m[id].fInTried;
    assert id in NewIds(m) <==> !m[id].fInTried;
    if m[id].fInTried {
      assert TriedIds(m) + {id} == TriedIds(m);
      assert NewIds(m) - {id} == NewIds(m);
    } else {
      assert NewIds(m) + {id} == NewIds(m);
      assert TriedIds(m) - {id} == TriedIds(m);
    }
  }

  lemma TriedUpdate(c: Config, m: map<int, Info>, table: map<Slot, int>, id: int, i: Info)
    requires TriedTable(c, m, table) && id in m && i.service == m[id].service && i.fInTried == m[id].fInTried
    requires i.fInTried ==> i.nRefCount == 0
    ensures TriedTable(c, m[id := i], table)
  {
  }

  lemma NewUpdate(c: Config, m: map<int, Info>, table: map<Slot, int>, id: int, i: Info)
    requires NewTable(c, m, table) && id in m && i.service == m[id].service
    requires i.fInTried ==> m[id].fInTried || SlotsOf(table, id) == {}
    ensures NewTable(c, m[id := i], table)
  {
    forall p | p in table
      ensures table[p] != id || m[id].fInTried || !i.fInTried
    {
      assert table[p] == id ==> p in SlotsOf(table, id);
    }
  }

  lemma RefUpdate(m: map<int, Info>, table: map<Slot, int>, pending: set<int>, id: int, i: Info)
    requires RefCounts(m, table, pending) && id in m
    requires !i.fInTried ==> i.nRefCount == |SlotsOf(table, id)| <= NEW_BUCKETS_PER_ADDRESS
    ensures RefCounts(m[id := i], table, pending + {id})
    ensures i.fInTried || i.nRefCount >= 1 ==> RefCounts(m[id := i], table, pending)
    ensures i.fInTried || i.nRefCount >= 1 ==> RefCounts(m[id := i], table, pending - {id})
  {
  }

  lemma RefCountsMonotone(m: map<int, Info>, table: map<Slot, int>, small: set<int>, large: set<int>)
    requires RefCounts(m, table, small) && forall k :: k in small && k in m ==> k in large
    ensures RefCounts(m, table, large)
  {
  }

  lemma PendingChange(c: Config, s: State, small: set<int>, large: set<int>)
    requires Inv(c, s, small) && forall k :: k in small && k in s.mapInfo ==> k in large
    ensures Inv(c, s, large)
  {
    Look(c, s, small);
    RefCountsMonotone(s.mapInfo, s.vvNew, small, large);
  }

  /** The invariant does not speak of the last success or of recorded collisions. */
  lemma NotesKeep(c: Config, s: State, time: int, collisions: set<int>, pending: set<int>)
    requires Inv(c, s, pending)
    ensures Inv(c, s.(nLastGood := time, collisions := collisions), pending)
  {
    Look(c, s, pending);
  }

  /** The parts of the invariant that do not speak of vRandom, for a state with m as its mapInfo. */
  ghost predicate ButRandom(c: Config, s: State, m: map<int, Info>, pending: set<int>) {
    && AddrInverse(s.nIdCount, m, s.mapAddr) && CountsRight(m, s.nTried, s.nNew)
    && TriedTable(c, m, s.vvTried) && NewTable(c, m, s.vvNew) && RefCounts(m, s.vvNew, pending)
  }

  /** An entry whose address, table and references stay the same; its place in vRandom may change. */
  lemma SameKindKeeps(c: Config, s: State, m: map<int, Info>, id: int, i: Info, pending: set<int>)
    requires ButRandom(c, s, m, pending) && id in m
    requires i.service == m[id].service && i.fInTried == m[id].fInTried && i.nRefCount == m[id].nRefCount
    ensures ButRandom(c, s, m[id := i], pending)
  {
    AddrUpdate(s.nIdCount, m, s.mapAddr, id, i);
    CountsUpdate(m, s.nTried, s.nNew, id, i);
    TriedUpdate(c, m, s.vvTried, id, i);
    NewUpdate(c, m, s.vvNew, id, i);
    RefUpdate(m, s.vvNew, pending, id, i);
    if id in pending {
      assert pending + {id} == pending;
    }
  }

  function SetInfo(s: State, id: int, i: Info): State {
    s.(mapInfo := s.mapInfo[id := i])
  }

  /** Two records of one entry that differ in statistics only. */
  predicate StatsOnly(i: Info, j: Info) {
    && i.service == j.service && i.source == j.source && i.nRefCount == j.nRefCount
    && i.fInTried == j.fInTried && i.nRandomPos == j.nRandomPos
  }

  lemma StatsKeeps(c: Config, s: State, id: int, i: Info, pending: set<int>)
    requires Inv(c, s, pending) && id in s.mapInfo && StatsOnly(s.mapInfo[id], i)
    ensures Inv(c, SetInfo(s, id, i), pending)
  {
    Look(c, s, pending);
    SameKindKeeps(c, s, s.mapInfo, id, i, pending);
    RandomUpdate(s.mapInfo, s.vRandom, id, i);
  }

  // ---------------------------------------------------------------- vRandom

  lemma SwapRandomInverse(m: map<int, Info>, v: seq<int>, p1: int, p2: int)
    requires RandomInverse(m, v) && 0 <= p1 < |v| && 0 <= p2 < |v| && p1 != p2
    ensures v[p1] in m && v[p2] in m && v[p1] != v[p2]
    ensures var id1, id2 := v[p1], v[p2];
            RandomInverse(m[id1 := m[id1].(nRandomPos := p2)][id2 := m[id2].(nRandomPos := p1)], v[p1 := id2][p2 := id1])
  {
    var id1, id2 := v[p1], v[p2];
    var n := m[id1 := m[id1].(nRandomPos := p2)][id2 := m[id2].(nRandomPos := p1)];
    var w := v[p1 := id2][p2 := id1];
    assert forall i :: 0 <= i < |w| && i != p1 && i != p2 ==> w[i] == v[i];
  }

  lemma SwapKeeps(c: Config, s: State, p1: int, p2: int, pending: set<int>)
    requires Inv(c, s, pending) && (p1 == p2 || (0 <= p1 < |s.vRandom| && 0 <= p2 < |s.vRandom|))
    ensures CanSwap(s, p1, p2) && Inv(c, SwapRandom(s, p1, p2), pending)
  {
    Look(c, s, pending);
    if p1 != p2 {
      SwapRandomInverse(s.mapInfo, s.vRandom, p1, p2);
      var id1, id2 := s.vRandom[p1], s.vRandom[p2];
      var i1, i2 := s.mapInfo[id1].(nRandomPos := p2), s.mapInfo[id2].(nRandomPos := p1);
      SameKindKeeps(c, s, s.mapInfo, id1, i1, pending);
      SameKindKeeps(c, s, s.mapInfo[id1 := i1], id2, i2, pending);
    }
  }

  // ---------------------------------------------------------------- deletion

  lemma RemoveAddr(n: int, m: map<int, Info>, a: map<NetAddr, int>, id: int)
    requires AddrInverse(n, m, a) && id in m
    ensures AddrInverse(n, m - {id}, a - {m[id].service.addr})
  {
  }

  lemma RemoveLast(m: map<int, Info>, v: seq<int>, id: int)
    requires RandomInverse(m, v) && id in m && m[id].nRandomPos == |v| - 1
    ensures RandomInverse(m - {id}, v[..|v| - 1])
  {
  }

  lemma RemoveCounts(m: map<int, Info>, nTried: int, nNew: int, id: int)
    requires CountsRight(m, nTried, nNew) && id in m && !m[id].fInTried
    ensures CountsRight(m - {id}, nTried, nNew - 1)
  {
    assert id in NewIds(m) && id !in TriedIds(m);
    assert NewIds(m - {id}) == NewIds(m) - {id};
    assert TriedIds(m - {id}) == TriedIds(m);
  }

  lemma RemoveTables(c: Config, m: map<int, Info>, tried: map<Slot, int>, new_: map<Slot, int>, pending: set<int>, id: int)
    requires TriedTable(c, m, tried) && NewTable(c, m, new_) && RefCounts(m, new_, pending)
    requires id in m && !m[id].fInTried && m[id].nRefCount == 0
    ensures TriedTable(c, m - {id}, tried) && NewTable(c, m - {id}, new_) && RefCounts(m - {id}, new_, pending)
  {
    assert SlotsOf(new_, id) == {};
    forall p | p in new_
      ensures new_[p] != id
    {
      assert new_[p] == id ==> p in SlotsOf(new_, id);
    }
  }

  lemma DropKeeps(c: Config, s: State, id: int, pending: set<int>)
    requires Inv(c, s, pending) && id in s.mapInfo && !s.mapInfo[id].fInTried && s.mapInfo[id].nRefCount == 0
    requires s.vRandom != [] && s.mapInfo[id].nRandomPos == |s.vRandom| - 1
    ensures Inv(c, Drop(s, id, s.mapInfo[id].service.addr), pending)
  {
    Look(c, s, pending);
    RemoveAddr(s.nIdCount, s.mapInfo, s.mapAddr, id);
    RemoveLast(s.mapInfo, s.vRandom, id);
    RemoveCounts(s.mapInfo, s.nTried, s.nNew, id);
    RemoveTables(c, s.mapInfo, s.vvTried, s.vvNew, pending, id);
  }

  /** Delete's asserts hold on an unreferenced new entry, and removing it keeps the invariant. */
  lemma DeleteKeeps(c: Config, s: State, id: int, pending: set<int>)
    requires Inv(c, s, pending) && id in s.mapInfo && !s.mapInfo[id].fInTried && s.mapInfo[id].nRefCount == 0
    ensures CanDelete(s, id)
    ensures Inv(c, Delete(s, id), pending)
  {
    LookRandom(c, s, pending);
    var p := s.mapInfo[id].nRandomPos;
    SwapKeeps(c, s, p, |s.vRandom| - 1, pending);
    DeletedIsLast(s, id);
    DropKeeps(c, SwapRandom(s, p, |s.vRandom| - 1), id, pending);
  }

  lemma DeletedIsLast(s: State, id: int)
    requires RandomInverse(s.mapInfo, s.vRandom) && id in s.mapInfo
    ensures s.vRandom != [] && CanSwap(s, s.mapInfo[id].nRandomPos, |s.vRandom| - 1)
    ensures var u := SwapRandom(s, s.mapInfo[id].nRandomPos, |s.vRandom| - 1);
            && id in u.mapInfo && u.mapInfo[id] == s.mapInfo[id].(nRandomPos := |s.vRandom| - 1)
            && |u.vRandom| == |s.vRandom|
  {
  }

  /** Between two states only one entry may have gone or changed, but for positions in vRandom. */
  ghost predicate Unrelated(s: State, t: State, id: int) {
    && t.nIdCount == s.nIdCount && t.collisions == s.collisions && t.nLastGood == s.nLastGood
    && t.mapInfo.Keys <= s.mapInfo.Keys <= t.mapInfo.Keys + {id}
    && (forall k :: k in t.mapInfo ==> t.mapInfo[k].service == s.mapInfo[k].service)
    && (forall k :: k in t.mapInfo && k != id ==>
          t.mapInfo[k].nRefCount == s.mapInfo[k].nRefCount && t.mapInfo[k].fInTried == s.mapInfo[k].fInTried)
  }

  lemma DeleteRelated(s: State, id: int)
    requires CanDelete(s, id)
    ensures var t := Delete(s, id);
            Unrelated(s, t, id) && t.vvNew == s.vvNew && t.vvTried == s.vvTried && id !in t.mapInfo
  {
  }

  // ---------------------------------------------------------------- the new table

  lemma SlotRemoved(table: map<Slot, int>, slot: Slot)
    requires slot in table
    ensures SlotsOf(table - {slot}, table[slot]) == SlotsOf(table, table[slot]) - {slot}
    ensures |SlotsOf(table - {slot}, table[slot])| == |SlotsOf(table, table[slot])| - 1
    ensures forall k :: k != table[slot] ==> SlotsOf(table - {slot}, k) == SlotsOf(table, k)
  {
    assert slot in SlotsOf(table, table[slot]);
  }

  lemma SlotAdded(table: map<Slot, int>, slot: Slot, id: int)
    requires slot !in table
    ensures SlotsOf(table[slot := id], id) == SlotsOf(table, id) + {slot}
    ensures |SlotsOf(table[slot := id], id)| == |SlotsOf(table, id)| + 1
    ensures forall k :: k != id ==> SlotsOf(table[slot := id], k) == SlotsOf(table, k)
  {
    assert slot !in SlotsOf(table, id);
  }

  lemma OccupantReferenced(c: Config, s: State, slot: Slot, pending: set<int>)
    requires NewTable(c, s.mapInfo, s.vvNew) && RefCounts(s.mapInfo, s.vvNew, pending) && slot in s.vvNew
    ensures s.vvNew[slot] in s.mapInfo && s.mapInfo[s.vvNew[slot]].nRefCount >= 1 && !s.mapInfo[s.vvNew[slot]].fInTried
  {
    SlotRemoved(s.vvNew, slot);
  }

  lemma UnrefTables(c: Config, s: State, slot: Slot, pending: set<int>)
    requires NewTable(c, s.mapInfo, s.vvNew) && RefCounts(s.mapInfo, s.vvNew, pending) && slot in s.vvNew
    requires s.vvNew[slot] in s.mapInfo && !s.mapInfo[s.vvNew[slot]].fInTried
    ensures var t := Unref(s, slot);
            && NewTable(c, t.mapInfo, t.vvNew) && RefCounts(t.mapInfo, t.vvNew, pending + {s.vvNew[slot]})
            && (s.mapInfo[s.vvNew[slot]].nRefCount >= 2 ==> RefCounts(t.mapInfo, t.vvNew, pending))
  {
    SlotRemoved(s.vvNew, slot);
  }

  lemma UnrefKeeps(c: Config, s: State, slot: Slot, pending: set<int>)
    requires Inv(c, s, pending) && slot in s.vvNew
    ensures s.vvNew[slot] in s.mapInfo && s.mapInfo[s.vvNew[slot]].nRefCount >= 1 && !s.mapInfo[s.vvNew[slot]].fInTried
    ensures Inv(c, Unref(s, slot), pending + {s.vvNew[slot]})
    ensures s.mapInfo[s.vvNew[slot]].nRefCount >= 2 ==> Inv(c, Unref(s, slot), pending)
  {
    OccupantIs(c, s, slot, pending);
    UnrefPending(c, s, slot, pending);
    if s.mapInfo[s.vvNew[slot]].nRefCount >= 2 {
      UnrefReferenced(c, s, slot, pending);
    }
  }

  lemma OccupantIs(c: Config, s: State, slot: Slot, pending: set<int>)
    requires Inv(c, s, pending) && slot in s.vvNew
    ensures s.vvNew[slot] in s.mapInfo && s.mapInfo[s.vvNew[slot]].nRefCount >= 1 && !s.mapInfo[s.vvNew[slot]].fInTried
  {
    Look(c, s, pending);
    OccupantReferenced(c, s, slot, pending);
  }

  lemma UnrefPending(c: Config, s: State, slot: Slot, pending: set<int>)
    requires Inv(c, s, pending) && slot in s.vvNew && s.vvNew[slot] in s.mapInfo && !s.mapInfo[s.vvNew[slot]].fInTried
    ensures Inv(c, Unref(s, slot), pending + {s.vvNew[slot]})
  {
    Look(c, s, pending);
    UnrefTables(c, s, slot, pending);
    UnrefIndexes(c, s, s.vvNew[slot]);
  }

  lemma UnrefReferenced(c: Config, s: State, slot: Slot, pending: set<int>)
    requires Inv(c, s, pending) && slot in s.vvNew && s.vvNew[slot] in s.mapInfo && !s.mapInfo[s.vvNew[slot]].fInTried
    requires s.mapInfo[s.vvNew[slot]].nRefCount >= 2
    ensures Inv(c, Unref(s, slot), pending)
  {
    Look(c, s, pending);
    UnrefTables(c, s, slot, pending);
    UnrefIndexes(c, s, s.vvNew[slot]);
  }

  /** A reference count does not matter to the parts that do not speak of the new table. */
  lemma UnrefIndexes(c: Config, s: State, id: int)
    requires AddrInverse(s.nIdCount, s.mapInfo, s.mapAddr) && RandomInverse(s.mapInfo, s.vRandom)
    requires CountsRight(s.mapInfo, s.nTried, s.nNew) && TriedTable(c, s.mapInfo, s.vvTried)
    requires id in s.mapInfo && !s.mapInfo[id].fInTried
    ensures var m := s.mapInfo[id := s.mapInfo[id].(nRefCount := s.mapInfo[id].nRefCount - 1)];
            && AddrInverse(s.nIdCount, m, s.mapAddr) && RandomInverse(m, s.vRandom)
            && CountsRight(m, s.nTried, s.nNew) && TriedTable(c, m, s.vvTried)
  {
    var i := s.mapInfo[id].(nRefCount := s.mapInfo[id].nRefCount - 1);
    AddrUpdate(s.nIdCount, s.mapInfo, s.mapAddr, id, i);
    RandomUpdate(s.mapInfo, s.vRandom, id, i);
    CountsUpdate(s.mapInfo, s.nTried, s.nNew, id, i);
    TriedUpdate(c, s.mapInfo, s.vvTried, id, i);
  }

  /** ClearNew's assert holds, and clearing any slot keeps the invariant. */
  lemma ClearNewKeeps(c: Config, s: State, slot: Slot, pending: set<int>)
    requires Inv(c, s, pending)
    ensures CanClear(s, slot)
    ensures Inv(c, ClearNew(s, slot), pending)
  {
    Look(c, s, pending);
    if slot in s.vvNew {
      UnrefKeeps(c, s, slot, pending);
      var id := s.vvNew[slot];
      if s.mapInfo[id].nRefCount == 1 {
        var u := Unref(s, slot);
        DeleteKeeps(c, u, id, pending + {id});
        DeleteRelated(u, id);
        PendingChange(c, Delete(u, id), pending + {id}, pending);
      }
    }
  }

  /** The slot is empty afterwards, and only its occupant is affected. */
  lemma ClearNewRelated(s: State, slot: Slot)
    requires CanClear(s, slot)
    ensures var t := ClearNew(s, slot);
            && t.vvNew == s.vvNew - {slot} && t.vvTried == s.vvTried
            && Unrelated(s, t, if slot in s.vvNew then s.vvNew[slot] else -1)
  {
    if slot in s.vvNew {
      if s.mapInfo[s.vvNew[slot]].nRefCount == 1 {
        DeleteRelated(Unref(s, slot), s.vvNew[slot]);
      }
    } else {
      assert s.vvNew - {slot} == s.vvNew;
    }
  }

  lemma RefTables(c: Config, s: State, slot: Slot, id: int, pending: set<int>)
    requires NewTable(c, s.mapInfo, s.vvNew) && RefCounts(s.mapInfo, s.vvNew, pending)
    requires id in s.mapInfo && !s.mapInfo[id].fInTried && s.mapInfo[id].nRefCount < NEW_BUCKETS_PER_ADDRESS
    requires slot !in s.vvNew && 0 <= slot.bucket < NEW_BUCKET_COUNT && slot == NewSlotIn(c, slot.bucket, s.mapInfo[id].service)
    ensures var t := Ref(s, slot, id);
            NewTable(c, t.mapInfo, t.vvNew) && RefCounts(t.mapInfo, t.vvNew, pending - {id})
  {
    RefCounted(s, slot, id, pending);
  }

  lemma RefCounted(s: State, slot: Slot, id: int, pending: set<int>)
    requires RefCounts(s.mapInfo, s.vvNew, pending) && slot !in s.vvNew
    requires id in s.mapInfo && !s.mapInfo[id].fInTried && s.mapInfo[id].nRefCount < NEW_BUCKETS_PER_ADDRESS
    ensures var t := Ref(s, slot, id);
            RefCounts(t.mapInfo, t.vvNew, pending - {id})
  {
    SlotAdded(s.vvNew, slot, id);
  }

  lemma RefKeeps(c: Config, s: State, slot: Slot, id: int, pending: set<int>)
    requires Inv(c, s, pending) && id in s.mapInfo && !s.mapInfo[id].fInTried && s.mapInfo[id].nRefCount < NEW_BUCKETS_PER_ADDRESS
    requires slot !in s.vvNew && 0 <= slot.bucket < NEW_BUCKET_COUNT && slot == NewSlotIn(c, slot.bucket, s.mapInfo[id].service)
    ensures Inv(c, Ref(s, slot, id), pending - {id})
  {
    Look(c, s, pending);
    RefTables(c, s, slot, id, pending);
    var i := s.mapInfo[id].(nRefCount := s.mapInfo[id].nRefCount + 1);
    AddrUpdate(s.nIdCount, s.mapInfo, s.mapAddr, id, i);
    RandomUpdate(s.mapInfo, s.vRandom, id, i);
    CountsUpdate(s.mapInfo, s.nTried, s.nNew, id, i);
    TriedUpdate(c, s.mapInfo, s.vvTried, id, i);
  }

  // ---------------------------------------------------------------- moving to the tried table

  /** The loop of MakeTried finds every slot of the entry. */
  lemma FindsAllSlots(c: Config, s: State, id: int)
    requires NewTable(c, s.mapInfo, s.vvNew) && id in s.mapInfo
    ensures FoundSlots(c, s, id) == SlotsOf(s.vvNew, id)
  {
    forall p | p in SlotsOf(s.vvNew, id)
      ensures p in FoundSlots(c, s, id)
    {
      assert HoldsIn(c, s.vvNew, s.mapInfo[id].service, id, p.bucket);
    }
  }

  lemma SlotsCleared(table: map<Slot, int>, id: int)
    ensures SlotsOf(table - SlotsOf(table, id), id) == {}
    ensures forall k :: k != id ==> SlotsOf(table - SlotsOf(table, id), k) == SlotsOf(table, k)
  {
  }

  lemma UnlistTables(c: Config, s: State, id: int, pending: set<int>)
    requires NewTable(c, s.mapInfo, s.vvNew) && RefCounts(s.mapInfo, s.vvNew, pending) && id in s.mapInfo && !s.mapInfo[id].fInTried
    ensures var t := Unlist(c, s, id);
            && t.mapInfo[id].nRefCount == 0
            && NewTable(c, t.mapInfo, t.vvNew) && RefCounts(t.mapInfo, t.vvNew, pending + {id})
  {
    FindsAllSlots(c, s, id);
    SlotsCleared(s.vvNew, id);
  }

  lemma UnlistKeeps(c: Config, s: State, id: int, pending: set<int>)
    requires Inv(c, s, pending) && id in s.mapInfo && !s.mapInfo[id].fInTried
    ensures Unlist(c, s, id).mapInfo[id].nRefCount == 0
    ensures Inv(c, Unlist(c, s, id), pending + {id})
  {
    Look(c, s, pending);
    UnlistTables(c, s, id, pending);
    var i := Unlist(c, s, id).mapInfo[id];
    AddrUpdate(s.nIdCount, s.mapInfo, s.mapAddr, id, i);
    RandomUpdate(s.mapInfo, s.vRandom, id, i);
    CountsUpdate(s.mapInfo, s.nTried, s.nNew, id, i);
    TriedUpdate(c, s.mapInfo, s.vvTried, id, i);
  }

  lemma DemoteTables(c: Config, s: State, slot: Slot, pending: set<int>)
    requires TriedTable(c, s.mapInfo, s.vvTried) && NewTable(c, s.mapInfo, s.vvNew) && RefCounts(s.mapInfo, s.vvNew, pending)
    requires slot in s.vvTried
    ensures s.vvTried[slot] in s.mapInfo
    ensures var t := Demote(s, slot);
            && TriedTable(c, t.mapInfo, t.vvTried) && NewTable(c, t.mapInfo, t.vvNew)
            && RefCounts(t.mapInfo, t.vvNew, pending + {s.vvTried[slot]})
  {
    assert SlotsOf(s.vvNew, s.vvTried[slot]) == {};
  }

  lemma DemoteKeeps(c: Config, s: State, slot: Slot, pending: set<int>)
    requires Inv(c, s, pending) && slot in s.vvTried
    ensures s.vvTried[slot] in s.mapInfo && Inv(c, Demote(s, slot), pending + {s.vvTried[slot]})
  {
    Look(c, s, pending);
    DemoteTables(c, s, slot, pending);
    var id := s.vvTried[slot];
    var i := s.mapInfo[id].(fInTried := false);
    AddrUpdate(s.nIdCount, s.mapInfo, s.mapAddr, id, i);
    RandomUpdate(s.mapInfo, s.vRandom, id, i);
    CountsUpdate(s.mapInfo, s.nTried, s.nNew, id, i);
  }

  lemma PromoteTables(c: Config, s: State, slot: Slot, id: int, pending: set<int>)
    requires TriedTable(c, s.mapInfo, s.vvTried) && NewTable(c, s.mapInfo, s.vvNew) && RefCounts(s.mapInfo, s.vvNew, pending)
    requires id in s.mapInfo && !s.mapInfo[id].fInTried && s.mapInfo[id].nRefCount == 0
    requires slot == TriedSlot(c, s.mapInfo[id].service) && slot !in s.vvTried
    ensures var t := Promote(s, slot, id);
            && TriedTable(c, t.mapInfo, t.vvTried) && NewTable(c, t.mapInfo, t.vvNew)
            && RefCounts(t.mapInfo, t.vvNew, pending - {id})
  {
    var i := s.mapInfo[id].(fInTried := true);
    assert SlotsOf(s.vvNew, id) == {};
    NewUpdate(c, s.mapInfo, s.vvNew, id, i);
    RefUpdate(s.mapInfo, s.vvNew, pending, id, i);
  }

  lemma PromoteKeeps(c: Config, s: State, slot: Slot, id: int, pending: set<int>)
    requires Inv(c, s, pending) && id in s.mapInfo && !s.mapInfo[id].fInTried && s.mapInfo[id].nRefCount == 0
    requires slot == TriedSlot(c, s.mapInfo[id].service) && slot !in s.vvTried
    ensures Inv(c, Promote(s, slot, id), pending - {id})
  {
    Look(c, s, pending);
    PromoteTables(c, s, slot, id, pending);
    var i := s.mapInfo[id].(fInTried := true);
    AddrUpdate(s.nIdCount, s.mapInfo, s.mapAddr, id, i);
    RandomUpdate(s.mapInfo, s.vRandom, id, i);
    CountsUpdate(s.mapInfo, s.nTried, s.nNew, id, i);
  }

  /** Making room in the tried table: the asserts hold and the invariant is kept. */
  lemma EvictKeeps(c: Config, s: State, slot: Slot, pending: set<int>)
    requires Inv(c, s, pending)
    ensures CanEvict(c, s, slot)
    ensures Inv(c, Evict(c, s, slot), pending)
  {
    if slot in s.vvTried {
      var id := s.vvTried[slot];
      TriedOccupant(c, s, slot, pending);
      DemoteKeeps(c, s, slot, pending);
      var d := Demote(s, slot);
      var home := HomeSlot(c, s.mapInfo[id]);
      ClearNewKeeps(c, d, home, pending + {id});
      ClearNewRelated(d, home);
      NewOccupant(c, d, home, pending + {id});
      var e := ClearNew(d, home);
      RefKeeps(c, e, home, id, pending + {id});
      assert Reenter(e, home, id) == Ref(e, home, id);
      PendingChange(c, Ref(e, home, id), pending + {id} - {id}, pending);
    }
  }

  lemma TriedUnreferenced(c: Config, m: map<int, Info>, table: map<Slot, int>, id: int)
    requires TriedTable(c, m, table) && id in m && m[id].fInTried
    ensures m[id].nRefCount == 0
  {
  }

  lemma TriedOccupant(c: Config, s: State, slot: Slot, pending: set<int>)
    requires Inv(c, s, pending) && slot in s.vvTried
    ensures s.vvTried[slot] in s.mapInfo && s.mapInfo[s.vvTried[slot]].fInTried && s.mapInfo[s.vvTried[slot]].nRefCount == 0
  {
    Look(c, s, pending);
    TriedUnreferenced(c, s.mapInfo, s.vvTried, s.vvTried[slot]);
  }

  lemma NewOccupant(c: Config, s: State, slot: Slot, pending: set<int>)
    requires Inv(c, s, pending)
    ensures slot in s.vvNew ==> s.vvNew[slot] in s.mapInfo && s.mapInfo[s.vvNew[slot]].nRefCount >= 1
  {
    if slot in s.vvNew {
      Look(c, s, pending);
      OccupantReferenced(c, s, slot, pending);
    }
  }

  /** Making room in the tried table leaves unreferenced entries alone. */
  lemma EvictRelated(c: Config, s: State, slot: Slot, pending: set<int>)
    requires TriedTable(c, s.mapInfo, s.vvTried) && NewTable(c, s.mapInfo, s.vvNew) && RefCounts(s.mapInfo, s.vvNew, pending)
    requires CanEvict(c, s, slot)
    ensures var t := Evict(c, s, slot);
            && t.vvTried == s.vvTried - {slot}
            && t.nIdCount == s.nIdCount && t.collisions == s.collisions && t.nLastGood == s.nLastGood
            && t.mapInfo.Keys <= s.mapInfo.Keys
            && (forall k :: k in t.mapInfo ==> t.mapInfo[k].service == s.mapInfo[k].service)
            && (forall k :: k in s.mapInfo && !s.mapInfo[k].fInTried && s.mapInfo[k].nRefCount == 0 ==>
                  k in t.mapInfo && !t.mapInfo[k].fInTried && t.mapInfo[k].nRefCount == 0)
  {
    if slot in s.vvTried {
      var home := HomeSlot(c, s.mapInfo[s.vvTried[slot]]);
      ClearNewRelated(Demote(s, slot), home);
      if home in s.vvNew {
        OccupantReferenced(c, s, home, pending);
      }
    } else {
      assert s.vvTried - {slot} == s.vvTried;
    }
  }

  /** All asserts in MakeTried hold on a new entry. */
  lemma MakeTriedKeeps(c: Config, s: State, id: int)
    requires Inv(c, s, {}) && id in s.mapInfo && !s.mapInfo[id].fInTried
    ensures CanMakeTried(c, s, id)
    ensures Inv(c, MakeTried(c, s, id), {})
  {
    var slot := TriedSlot(c, s.mapInfo[id].service);
    UnlistKeeps(c, s, id, {});
    var u := Unlist(c, s, id);
    assert {} + {id} == {id};
    EvictKeeps(c, u, slot, {id});
    Look(c, u, {id});
    EvictRelated(c, u, slot, {id});
    PromoteKeeps(c, Evict(c, u, slot), slot, id, {id});
    assert {id} - {id} == {};
  }

  /** Tried slots never become empty again, so recorded collisions stay collisions. */
  lemma MakeTriedRelated(c: Config, s: State, id: int)
    requires Inv(c, s, {}) && id in s.mapInfo && !s.mapInfo[id].fInTried && CanMakeTried(c, s, id)
    ensures KeepsAddresses(s, MakeTried(c, s, id))
    ensures TriedSlot(c, s.mapInfo[id].service) in MakeTried(c, s, id).vvTried
  {
    Look(c, s, {});
    var slot := TriedSlot(c, s.mapInfo[id].service);
    UnlistTables(c, s, id, {});
    var u := Unlist(c, s, id);
    TriedUpdate(c, s.mapInfo, s.vvTried, id, u.mapInfo[id]);
    EvictRelated(c, u, slot, {id});
  }

  /** No entry appears or changes its address, and no tried slot is freed. */
  ghost predicate KeepsAddresses(s: State, t: State) {
    && t.nIdCount == s.nIdCount && t.collisions == s.collisions
    && s.vvTried.Keys <= t.vvTried.Keys && t.mapInfo.Keys <= s.mapInfo.Keys
    && forall k :: k in t.mapInfo ==> t.mapInfo[k].service == s.mapInfo[k].service
  }

  lemma CollidingKept(c: Config, s: State, t: State)
    requires Colliding(c, s) && KeepsAddresses(s, t)
    ensures Colliding(c, t)
  {
  }

  // ---------------------------------------------------------------- public operations

  /** The entry for exactly this address and port, which is what most operations act on. */
  function FindExact(s: State, addr: Service): Option<int> {
    match Find(s, addr)
    case None => None
    case Some(id) => if id in s.mapInfo && s.mapInfo[id].service == addr then Some(id) else None
  }

  function Attempt(s: State, addr: Service, countFailure: bool, time: int): State {
    match FindExact(s, addr)
    case None => s
    case Some(id) =>
      if id !in s.mapInfo then s
      else
        var i := s.mapInfo[id].(nLastTry := time);
        SetInfo(s, id, if countFailure && i.nLastCountAttempt < s.nLastGood
                       then i.(nLastCountAttempt := time, nAttempts := i.nAttempts + 1) else i)
  }

  function Connected(s: State, addr: Service, time: int): State {
    match FindExact(s, addr)
    case None => s
    case Some(id) =>
      if id !in s.mapInfo then s
      else var i := s.mapInfo[id]; SetInfo(s, id, if time - i.nTime > 20 * 60 then i.(nTime := time) else i)
  }

  function SetServices(s: State, addr: Service, services: set<nat>): State {
    match FindExact(s, addr)
    case None => s
    case Some(id) =>
      if id !in s.mapInfo then s else SetInfo(s, id, s.mapInfo[id].(nServices := services))
  }

  /** The entry is in the new table slot for this source, or is put there, or is dropped. */
  ghost function Place(c: Config, s: State, id: int, source: NetAddr, now: int): State
    requires Inv(c, s, {id}) && id in s.mapInfo && !s.mapInfo[id].fInTried
  {
    Look(c, s, {id});
    var slot := NewSlot(c, s.mapInfo[id].service, source);
    if slot in s.vvNew && s.vvNew[slot] == id then s
    else
      var insert := || slot !in s.vvNew
                    || IsTerrible(s.mapInfo[s.vvNew[slot]], now)
                    || (s.mapInfo[s.vvNew[slot]].nRefCount > 1 && s.mapInfo[id].nRefCount == 0);
      if insert then
        ClearNewKeeps(c, s, slot, {id});
        ClearNewRelated(s, slot);
        Ref(ClearNew(s, slot), slot, id)
      else if s.mapInfo[id].nRefCount == 0 then
        DeleteKeeps(c, s, id, {id});
        Delete(s, id)
      else s
  }

  function Factor(n: int): int
    decreases n
  {
    if n <= 0 then 1 else 2 * Factor(n - 1)
  }

  /** The entry of an address that is announced again. */
  function Refreshed(i: Info, addr: Address, penalty: int, now: int): Info {
    var interval := if now - addr.nTime < 24 * 60 * 60 then 60 * 60 else 24 * 60 * 60;
    var nTime := if i.nTime < addr.nTime - interval - penalty then Max(0, addr.nTime - penalty) else i.nTime;
    i.(nTime := nTime, nServices := i.nServices + addr.nServices)
  }

  /** Whether an announcement of a known address adds no reference; `rnd` is the drawn number. */
  predicate KeepsRefs(i: Info, addr: Address, rnd: nat) {
    || addr.nTime <= i.nTime
    || i.fInTried
    || i.nRefCount == NEW_BUCKETS_PER_ADDRESS
    || (Factor(i.nRefCount) > 1 && rnd % Factor(i.nRefCount) != 0)
  }

  /** An announcement of a known address. */
  ghost function AddKnown(c: Config, s: State, id: int, addr: Address, source: NetAddr, now: int, rnd: nat): State
    requires Inv(c, s, {}) && id in s.mapInfo
  {
    if KeepsRefs(s.mapInfo[id], addr, rnd) then s
    else
      PendingChange(c, s, {}, {id});
      Place(c, s, id, source, now)
  }

  function Penalty(addr: Address, source: NetAddr, timePenalty: int): int {
    if addr.service.addr == source then 0 else timePenalty
  }

  ghost function Add(c: Config, s: State, addr: Address, source: NetAddr, timePenalty: int, now: int, rnd: nat): State
    requires Inv(c, s, {})
  {
    if !c.isRoutable(addr.service.addr) then s
    else
      var penalty := Penalty(addr, source, timePenalty);
      match Find(s, addr.service)
      case Some(id) =>
        var i := Refreshed(s.mapInfo[id], addr, penalty, now);
        StatsKeeps(c, s, id, i, {});
        AddKnown(c, SetInfo(s, id, i), id, addr, source, now, rnd)
      case None =>
        CreateKeeps(c, s, addr, source, penalty);
        Place(c, Create(s, addr, source, penalty), s.nIdCount, source, now)
  }

  /** The part of Good that follows the update of statistics: record a collision or move to tried. */
  ghost function GoodMove(c: Config, s: State, id: int, testBeforeEvict: bool): State
    requires Inv(c, s, {}) && id in s.mapInfo
  {
    if s.mapInfo[id].fInTried || FoundSlots(c, s, id) == {} then s
    else if testBeforeEvict && TriedSlot(c, s.mapInfo[id].service) in s.vvTried then
      if |s.collisions| < SET_TRIED_COLLISION_SIZE then s.(collisions := s.collisions + {id}) else s
    else
      MakeTriedKeeps(c, s, id);
      MakeTried(c, s, id)
  }

  /** The state in which Good decides: last success recorded. */
  function GoodNoted(s: State, id: int, time: int): State
    requires id in s.mapInfo
  {
    SetInfo(s.(nLastGood := time), id, s.mapInfo[id].(nLastSuccess := time, nLastTry := time, nAttempts := 0))
  }

  ghost function Good(c: Config, s: State, addr: Service, testBeforeEvict: bool, time: int): State
    requires Inv(c, s, {})
  {
    match FindExact(s, addr)
    case None => s.(nLastGood := time)
    case Some(id) =>
      NotesKeep(c, s, time, s.collisions, {});
      StatsKeeps(c, s.(nLastGood := time), id, GoodNoted(s, id, time).mapInfo[id], {});
      GoodMove(c, GoodNoted(s, id, time), id, testBeforeEvict)
  }

  /** What ResolveCollisions does with one recorded id. */
  datatype Verdict = Forget | Wait | Replace

  function Judge(c: Config, s: State, id: int, now: int): Verdict {
    if id !in s.mapInfo then Forget
    else
      var i := s.mapInfo[id];
      var slot := TriedSlot(c, i.service);
      if !c.isValid(i.service) then Forget
      else if slot !in s.vvTried then Replace
      else if s.vvTried[slot] !in s.mapInfo then Wait
      else
        var occupant := s.mapInfo[s.vvTried[slot]];
        if now - occupant.nLastSuccess < REPLACEMENT_HOURS * (60 * 60) then Forget
        else if now - occupant.nLastTry < REPLACEMENT_HOURS * (60 * 60) then
          if now - occupant.nLastTry > 60 then Replace else Wait
        else if now - i.nLastSuccess > TEST_WINDOW then Replace
        else Wait
  }

  ghost function ResolveOne(c: Config, s: State, id: int, now: int): State
    requires Inv(c, s, {})
  {
    match Judge(c, s, id, now)
    case Forget => s.(collisions := s.collisions - {id})
    case Wait => s
    case Replace =>
      var t := Good(c, s, s.mapInfo[id].service, false, now);
      t.(collisions := t.collisions - {id})
  }

  ghost predicate IsLeast(id: int, ids: set<int>) {
    id in ids && forall k :: k in ids ==> id <= k
  }

  lemma {:induction false} LeastExists(ids: set<int>)
    requires |ids| > 0
    ensures exists id :: IsLeast(id, ids)
  {
    var x := Pick(ids);
    if |ids - {x}| > 0 {
      LeastExists(ids - {x});
      var y :| IsLeast(y, ids - {x});
      assert ids == (ids - {x}) + {x};
      assert IsLeast(if x < y then x else y, ids);
    } else {
      assert ids == {x};
      assert IsLeast(x, ids);
    }
  }

  ghost function Least(ids: set<int>): (id: int)
    requires ids != {}
    ensures IsLeast(id, ids)
  {
    LeastExists(ids);
    var id :| IsLeast(id, ids); id
  }

  /** ResolveCollisions: the recorded ids in ascending order. */
  ghost function Resolve(c: Config, s: State, todo: set<int>, now: int): State
    requires Consistent(c, s)
    decreases |todo|
  {
    if todo == {} then s
    else
      var id := Least(todo);
      ResolveOneKeeps(c, s, id, now);
      Resolve(c, ResolveOne(c, s, id, now), todo - {id}, now)
  }

  /** SelectTriedCollision: the state afterwards and the tried entry that the chosen id would evict. */
  function SelectCollision(c: Config, s: State, id: int): (State, Option<Info>) {
    if id !in s.mapInfo then (s.(collisions := s.collisions - {id}), None)
    else
      var slot := TriedSlot(c, s.mapInfo[id].service);
      (s, if slot in s.vvTried then Lookup(s.mapInfo, s.vvTried[slot]) else None)
  }

  /** The position drawn for step n: one of the positions from n on. */
  function Drawn(rnd: nat, n: nat, size: nat): (p: nat)
    requires n < size
    ensures n <= p < size
  {
    rnd % (size - n) + n
  }

  /** The swaps of GetAddr: position n changes place with a later one, for each number drawn. */
  ghost function Shuffle(c: Config, s: State, n: nat, rnd: seq<nat>): State
    requires Inv(c, s, {})
    decreases |rnd|
  {
    if rnd == [] || n >= |s.vRandom| then s
    else
      var p := Drawn(rnd[0], n, |s.vRandom|);
      SwapKeeps(c, s, n, p, {});
      Shuffle(c, SwapRandom(s, n, p), n + 1, rnd[1..])
  }

  // ---------------------------------------------------------------- public operations keep the invariant

  lemma CreateAddr(n: int, m: map<int, Info>, a: map<NetAddr, int>, i: Info)
    requires AddrInverse(n, m, a) && i.service.addr !in a
    ensures AddrInverse(n + 1, m[n := i], a[i.service.addr := n])
  {
  }

  lemma CreateRandom(m: map<int, Info>, v: seq<int>, id: int, i: Info)
    requires RandomInverse(m, v) && id !in m && i.nRandomPos == |v|
    ensures RandomInverse(m[id := i], v + [id])
  {
  }

  lemma CreateCounts(m: map<int, Info>, nTried: int, nNew: int, id: int, i: Info)
    requires CountsRight(m, nTried, nNew) && id !in m && !i.fInTried
    ensures CountsRight(m[id := i], nTried, nNew + 1)
  {
    IdsUpdate(m, id, i);
    assert id !in TriedIds(m) && id !in NewIds(m);
    assert TriedIds(m) - {id} == TriedIds(m);
  }

  lemma CreateTables(c: Config, m: map<int, Info>, tried: map<Slot, int>, new_: map<Slot, int>, id: int, i: Info)
    requires TriedTable(c, m, tried) && NewTable(c, m, new_) && RefCounts(m, new_, {})
    requires id !in m && !i.fInTried && i.nRefCount == 0
    ensures TriedTable(c, m[id := i], tried) && NewTable(c, m[id := i], new_) && RefCounts(m[id := i], new_, {id})
  {
    assert SlotsOf(new_, id) == {};
  }

  lemma CreateKeeps(c: Config, s: State, addr: Address, source: NetAddr, penalty: int)
    requires Inv(c, s, {}) && Find(s, addr.service).None?
    ensures Inv(c, Create(s, addr, source, penalty), {s.nIdCount})
  {
    Look(c, s, {});
    var i := Create(s, addr, source, penalty).mapInfo[s.nIdCount];
    assert s.nIdCount !in s.mapInfo;
    CreateAddr(s.nIdCount, s.mapInfo, s.mapAddr, i);
    CreateRandom(s.mapInfo, s.vRandom, s.nIdCount, i);
    CreateCounts(s.mapInfo, s.nTried, s.nNew, s.nIdCount, i);
    CreateTables(c, s.mapInfo, s.vvTried, s.vvNew, s.nIdCount, i);
  }

  /** An entry enters a slot, whose occupant it replaces. */
  lemma InsertKeeps(c: Config, s: State, slot: Slot, id: int)
    requires Inv(c, s, {id}) && id in s.mapInfo && !s.mapInfo[id].fInTried && s.mapInfo[id].nRefCount < NEW_BUCKETS_PER_ADDRESS
    requires slot == NewSlotIn(c, slot.bucket, s.mapInfo[id].service) && 0 <= slot.bucket < NEW_BUCKET_COUNT
    requires slot in s.vvNew ==> s.vvNew[slot] != id
    ensures CanClear(s, slot) && id in ClearNew(s, slot).mapInfo && Inv(c, Ref(ClearNew(s, slot), slot, id), {})
  {
    ClearNewKeeps(c, s, slot, {id});
    ClearNewRelated(s, slot);
    RefKeeps(c, ClearNew(s, slot), slot, id, {id});
    assert {id} - {id} == {};
  }

  lemma PlaceKeeps(c: Config, s: State, id: int, source: NetAddr, now: int)
    requires Inv(c, s, {id}) && id in s.mapInfo && !s.mapInfo[id].fInTried
    requires s.mapInfo[id].nRefCount < NEW_BUCKETS_PER_ADDRESS
    ensures Inv(c, Place(c, s, id, source, now), {})
  {
    Look(c, s, {id});
    var slot := NewSlot(c, s.mapInfo[id].service, source);
    var t := Place(c, s, id, source, now);
    if slot in s.vvNew && s.vvNew[slot] == id {
      OccupantReferenced(c, s, slot, {id});
      RefUpdate(s.mapInfo, s.vvNew, {id}, id, s.mapInfo[id]);
      assert s.mapInfo[id := s.mapInfo[id]] == s.mapInfo && {id} - {id} == {};
    } else if slot !in s.vvNew || IsTerrible(s.mapInfo[s.vvNew[slot]], now)
              || (s.mapInfo[s.vvNew[slot]].nRefCount > 1 && s.mapInfo[id].nRefCount == 0) {
      InsertKeeps(c, s, slot, id);
    } else if s.mapInfo[id].nRefCount == 0 {
      DeleteKeeps(c, s, id, {id});
      DeleteRelated(s, id);
      RefCountsMonotone(t.mapInfo, t.vvNew, {id}, {});
    } else {
      RefUpdate(s.mapInfo, s.vvNew, {id}, id, s.mapInfo[id]);
      assert s.mapInfo[id := s.mapInfo[id]] == s.mapInfo && {id} - {id} == {};
    }
  }

  lemma InsertRelated(s: State, slot: Slot, id: int)
    requires CanClear(s, slot) && id in s.mapInfo && (slot in s.vvNew ==> s.vvNew[slot] != id)
    ensures id in ClearNew(s, slot).mapInfo && KeepsAddresses(s, Ref(ClearNew(s, slot), slot, id))
  {
    ClearNewRelated(s, slot);
  }

  lemma PlaceRelated(c: Config, s: State, id: int, source: NetAddr, now: int)
    requires Inv(c, s, {id}) && id in s.mapInfo && !s.mapInfo[id].fInTried
    ensures KeepsAddresses(s, Place(c, s, id, source, now))
  {
    Look(c, s, {id});
    var slot := NewSlot(c, s.mapInfo[id].service, source);
    if !(slot in s.vvNew && s.vvNew[slot] == id) {
      ClearNewKeeps(c, s, slot, {id});
      InsertRelated(s, slot, id);
      if s.mapInfo[id].nRefCount == 0 {
        DeleteKeeps(c, s, id, {id});
        DeleteRelated(s, id);
      }
    }
  }

  lemma AddKnownKeeps(c: Config, s: State, id: int, addr: Address, source: NetAddr, now: int, rnd: nat)
    requires Consistent(c, s) && id in s.mapInfo
    ensures Consistent(c, AddKnown(c, s, id, addr, source, now, rnd))
  {
    if !KeepsRefs(s.mapInfo[id], addr, rnd) {
      Look(c, s, {});
      PendingChange(c, s, {}, {id});
      PlaceKeeps(c, s, id, source, now);
      PlaceRelated(c, s, id, source, now);
      CollidingKept(c, s, Place(c, s, id, source, now));
    }
  }

  lemma AddUnknownKeeps(c: Config, s: State, addr: Address, source: NetAddr, penalty: int, now: int)
    requires Consistent(c, s) && Find(s, addr.service).None?
    ensures Inv(c, Create(s, addr, source, penalty), {s.nIdCount})
    ensures Consistent(c, Place(c, Create(s, addr, source, penalty), s.nIdCount, source, now))
  {
    CreateKeeps(c, s, addr, source, penalty);
    var t := Create(s, addr, source, penalty);
    assert Colliding(c, t);
    PlaceKeeps(c, t, s.nIdCount, source, now);
    PlaceRelated(c, t, s.nIdCount, source, now);
    CollidingKept(c, t, Place(c, t, s.nIdCount, source, now));
  }

  /** Add: every announcement, of any address, keeps the address manager consistent. */
  lemma AddKeeps(c: Config, s: State, addr: Address, source: NetAddr, timePenalty: int, now: int, rnd: nat)
    requires Consistent(c, s)
    ensures Consistent(c, Add(c, s, addr, source, timePenalty, now, rnd))
  {
    if c.isRoutable(addr.service.addr) {
      var penalty := Penalty(addr, source, timePenalty);
      match Find(s, addr.service)
      case Some(id) =>
        var i := Refreshed(s.mapInfo[id], addr, penalty, now);
        StatsConsistent(c, s, id, i);
        AddKnownKeeps(c, SetInfo(s, id, i), id, addr, source, now, rnd);
      case None =>
        AddUnknownKeeps(c, s, addr, source, penalty, now);
    }
  }

  lemma LastGoodKeeps(c: Config, s: State, time: int)
    requires Consistent(c, s)
    ensures Consistent(c, s.(nLastGood := time))
  {
    NotesKeep(c, s, time, s.collisions, {});
  }

  lemma IdBelow(c: Config, s: State, id: int)
    requires Inv(c, s, {}) && id in s.mapInfo
    ensures 0 <= id < s.nIdCount
  {
    Look(c, s, {});
  }

  lemma RecordCollisionKeeps(c: Config, s: State, id: int)
    requires Consistent(c, s) && id in s.mapInfo && TriedSlot(c, s.mapInfo[id].service) in s.vvTried
    ensures Consistent(c, s.(collisions := s.collisions + {id}))
  {
    IdBelow(c, s, id);
    NotesKeep(c, s, s.nLastGood, s.collisions + {id}, {});
  }

  lemma GoodMoveKeeps(c: Config, s: State, id: int, testBeforeEvict: bool)
    requires Consistent(c, s) && id in s.mapInfo
    ensures Consistent(c, GoodMove(c, s, id, testBeforeEvict))
    ensures !testBeforeEvict ==> GoodMove(c, s, id, testBeforeEvict).collisions == s.collisions
  {
    if !s.mapInfo[id].fInTried {
      MakeTriedKeeps(c, s, id);
      MakeTriedRelated(c, s, id);
      CollidingKept(c, s, MakeTried(c, s, id));
    }
    if TriedSlot(c, s.mapInfo[id].service) in s.vvTried {
      RecordCollisionKeeps(c, s, id);
    }
  }

  /** Good, in both modes. */
  lemma GoodKeeps(c: Config, s: State, addr: Service, testBeforeEvict: bool, time: int)
    requires Consistent(c, s)
    ensures Consistent(c, Good(c, s, addr, testBeforeEvict, time))
    ensures !testBeforeEvict ==> Good(c, s, addr, testBeforeEvict, time).collisions == s.collisions
  {
    LastGoodKeeps(c, s, time);
    if FindExact(s, addr).Some? {
      var id := FindExact(s, addr).value;
      StatsConsistent(c, s.(nLastGood := time), id, GoodNoted(s, id, time).mapInfo[id]);
      GoodMoveKeeps(c, GoodNoted(s, id, time), id, testBeforeEvict);
    }
  }

  /** "If no bucket is found, something bad happened": it does not happen. */
  lemma GoodFindsItsBucket(c: Config, s: State, addr: Service)
    requires Consistent(c, s) && FindExact(s, addr).Some? && !s.mapInfo[FindExact(s, addr).value].fInTried
    ensures FoundSlots(c, s, FindExact(s, addr).value) != {}
  {
    HasSlots(c, s, FindExact(s, addr).value);
  }

  lemma ForgetKeeps(c: Config, s: State, id: int)
    requires Consistent(c, s)
    ensures Consistent(c, s.(collisions := s.collisions - {id}))
  {
    NotesKeep(c, s, s.nLastGood, s.collisions - {id}, {});
  }

  lemma ResolveOneKeeps(c: Config, s: State, id: int, now: int)
    requires Consistent(c, s)
    ensures Consistent(c, ResolveOne(c, s, id, now))
    ensures ResolveOne(c, s, id, now).collisions <= s.collisions
  {
    ForgetKeeps(c, s, id);
    if Judge(c, s, id, now).Replace? {
      GoodKeeps(c, s, s.mapInfo[id].service, false, now);
      ForgetKeeps(c, Good(c, s, s.mapInfo[id].service, false, now), id);
    }
  }

  lemma {:induction false} ResolveKeeps(c: Config, s: State, todo: set<int>, now: int)
    requires Consistent(c, s)
    ensures Consistent(c, Resolve(c, s, todo, now)) && Resolve(c, s, todo, now).collisions <= s.collisions
    decreases |todo|
  {
    if todo != {} {
      var id := Least(todo);
      ResolveOneKeeps(c, s, id, now);
      ResolveKeeps(c, ResolveOne(c, s, id, now), todo - {id}, now);
    }
  }

  /**
   * A recorded collision that is still in the table always has an occupant to test, so
   * SelectTriedCollision never reads a missing entry, and ResolveCollisions never finds the
   * position empty.
   */
  lemma CollisionHasOccupant(c: Config, s: State, id: int, now: int)
    requires Consistent(c, s) && id in s.collisions && id in s.mapInfo
    ensures var (t, occupant) := SelectCollision(c, s, id);
            t == s && occupant.Some? && occupant.value.fInTried
    ensures Judge(c, s, id, now) == Replace ==> TriedSlot(c, s.mapInfo[id].service) in s.vvTried
  {
    Look(c, s, {});
  }

  lemma SwapRelated(s: State, p1: int, p2: int)
    requires CanSwap(s, p1, p2)
    ensures KeepsAddresses(s, SwapRandom(s, p1, p2))
  {
  }

  lemma SwapConsistent(c: Config, s: State, p1: int, p2: int)
    requires Consistent(c, s) && 0 <= p1 < |s.vRandom| && 0 <= p2 < |s.vRandom|
    ensures CanSwap(s, p1, p2) && Consistent(c, SwapRandom(s, p1, p2))
  {
    SwapKeeps(c, s, p1, p2, {});
    SwapRelated(s, p1, p2);
    CollidingKept(c, s, SwapRandom(s, p1, p2));
  }

  lemma {:induction false} ShuffleKeeps(c: Config, s: State, n: nat, rnd: seq<nat>)
    requires Consistent(c, s)
    ensures Consistent(c, Shuffle(c, s, n, rnd))
    decreases |rnd|
  {
    if rnd != [] && n < |s.vRandom| {
      var p := Drawn(rnd[0], n, |s.vRandom|);
      SwapConsistent(c, s, n, p);
      ShuffleKeeps(c, SwapRandom(s, n, p), n + 1, rnd[1..]);
    }
  }

  // ---------------------------------------------------------------- what the debug check counts

  lemma OneMoreId(n: map<int, Info>, id: int, i: Info)
    requires id !in n
    ensures var m := n[id := i]; |TriedIds(m)| + |NewIds(m)| == |TriedIds(n)| + |NewIds(n)| + 1
  {
    IdsUpdate(n, id, i);
    assert id !in TriedIds(n) && id !in NewIds(n);
    if i.fInTried {
      assert NewIds(n) - {id} == NewIds(n);
    } else {
      assert TriedIds(n) - {id} == TriedIds(n);
    }
  }

  lemma {:induction false} AllIds(m: map<int, Info>)
    ensures |m.Keys| == |TriedIds(m)| + |NewIds(m)|
    decreases |m|
  {
    if |m.Keys| > 0 {
      var id := Pick(m.Keys);
      var n := m - {id};
      assert n.Keys == m.Keys - {id};
      AllIds(n);
      OneMoreId(n, id, m[id]);
      assert m == n[id := m[id]];
    } else {
      assert forall id :: id in m ==> id in m.Keys;
      assert TriedIds(m) <= m.Keys && NewIds(m) <= m.Keys;
    }
  }

  /** vRandom lists every id once, and is as long as nTried + nNew. */
  lemma RandomCounts(s: State)
    requires RandomInverse(s.mapInfo, s.vRandom) && CountsRight(s.mapInfo, s.nTried, s.nNew)
    ensures |s.vRandom| == s.nTried + s.nNew == |s.mapInfo.Keys|
    ensures forall id :: id in s.mapInfo ==> id in s.vRandom
    ensures forall i, j :: 0 <= i < j < |s.vRandom| ==> s.vRandom[i] != s.vRandom[j]
  {
    forall id | id in s.mapInfo.Keys
      ensures id in s.vRandom
    {
      assert s.vRandom[s.mapInfo[id].nRandomPos] == id;
    }
    DistinctCount(s.vRandom, s.mapInfo.Keys);
    AllIds(s.mapInfo);
  }

  /** Both tables account for exactly the entries of their kind, as the last loops of Check_ test. */
  lemma TablesAccountForAll(c: Config, s: State, id: int)
    requires Inv(c, s, {})
    ensures id in TriedIds(s.mapInfo) <==> exists p :: p in s.vvTried && s.vvTried[p] == id
    ensures id in NewIds(s.mapInfo) <==> exists p :: p in s.vvNew && s.vvNew[p] == id
    ensures id in NewIds(s.mapInfo) ==> 1 <= |SlotsOf(s.vvNew, id)| <= NEW_BUCKETS_PER_ADDRESS
  {
    Look(c, s, {});
    if id in NewIds(s.mapInfo) {
      var p := Pick(SlotsOf(s.vvNew, id));
      assert p in s.vvNew && s.vvNew[p] == id;
    }
    if id in TriedIds(s.mapInfo) {
      assert TriedSlot(c, s.mapInfo[id].service) in s.vvTried;
    }
  }

  // ---------------------------------------------------------------- what GetAddr returns

  /** The filters of GetAddr. */
  predicate Wanted(c: Config, i: Info, network: Option<nat>, now: int) {
    (network.None? || c.network(i.service.addr) == network.value) && !IsTerrible(i, now)
  }

  function AddressOf(i: Info): Address { Address(i.service, i.nTime, i.nServices) }

  /** The addresses of the wanted entries among some ids, in their order. */
  function Chosen(c: Config, m: map<int, Info>, ids: seq<int>, network: Option<nat>, now: int): seq<Address> {
    if ids == [] then []
    else
      var front, last := ids[..|ids| - 1], ids[|ids| - 1];
      Chosen(c, m, front, network, now)
      + if last in m && Wanted(c, m[last], network, now) then [AddressOf(m[last])] else []
  }

  /** Two states of which one is the other with vRandom in another order. */
  ghost predicate Reordered(s: State, t: State) {
    && t == s.(mapInfo := t.mapInfo, vRandom := t.vRandom)
    && |t.vRandom| == |s.vRandom| && t.mapInfo.Keys == s.mapInfo.Keys
    && forall k :: k in t.mapInfo ==> t.mapInfo[k] == s.mapInfo[k].(nRandomPos := t.mapInfo[k].nRandomPos)
  }

  lemma SwapReorders(s: State, p1: int, p2: int)
    requires CanSwap(s, p1, p2)
    ensures Reordered(s, SwapRandom(s, p1, p2))
    ensures forall n :: 0 <= n <= p1 && n <= p2 && n <= |s.vRandom| ==> SwapRandom(s, p1, p2).vRandom[..n] == s.vRandom[..n]
  {
  }

  lemma ReorderedTwice(s: State, t: State, u: State)
    requires Reordered(s, t) && Reordered(t, u)
    ensures Reordered(s, u)
  {
  }

  lemma {:induction false} ChosenReordered(c: Config, s: State, t: State, ids: seq<int>, network: Option<nat>, now: int)
    requires Reordered(s, t)
    ensures Chosen(c, t.mapInfo, ids, network, now) == Chosen(c, s.mapInfo, ids, network, now)
  {
    if ids != [] {
      ChosenReordered(c, s, t, ids[..|ids| - 1], network, now);
    }
  }

  /** Over all ids, the choice holds each wanted entry, and nothing else. */
  lemma {:induction false} ChosenIsExact(c: Config, m: map<int, Info>, ids: seq<int>, network: Option<nat>, now: int, a: Address)
    ensures a in Chosen(c, m, ids, network, now)
            <==> exists k :: 0 <= k < |ids| && ids[k] in m && Wanted(c, m[ids[k]], network, now) && AddressOf(m[ids[k]]) == a
  {
    if ids != [] {
      var front, last := ids[..|ids| - 1], ids[|ids| - 1];
      ChosenIsExact(c, m, front, network, now, a);
      if a in Chosen(c, m, front, network, now) {
        var k :| 0 <= k < |front| && front[k] in m && Wanted(c, m[front[k]], network, now) && AddressOf(m[front[k]]) == a;
        assert ids[k] == front[k];
      }
      if k :| 0 <= k < |ids| && ids[k] in m && Wanted(c, m[ids[k]], network, now) && AddressOf(m[ids[k]]) == a {
        if k < |front| {
          assert front[k] == ids[k];
        }
      }
    }
  }

  // ---------------------------------------------------------------- whole runs

  /** Operations with their times and drawn numbers as arguments. */
  datatype Op =
    | AddOp(address: Address, source: NetAddr, penalty: int, now: int, rnd: nat)
    | GoodOp(addr: Service, testBeforeEvict: bool, time: int)
    | AttemptOp(addr: Service, countFailure: bool, time: int)
    | ConnectedOp(addr: Service, time: int)
    | SetServicesOp(addr: Service, services: set<nat>)
    | GetAddrOp(draws: seq<nat>)
    | ResolveOp(now: int)
    | SelectOp(id: int)

  ghost function Step(c: Config, s: State, o: Op): State
    requires Consistent(c, s)
  {
    match o
    case AddOp(address, source, penalty, now, rnd) => Add(c, s, address, source, penalty, now, rnd)
    case GoodOp(addr, tbe, time) => Good(c, s, addr, tbe, time)
    case AttemptOp(addr, countFailure, time) => Attempt(s, addr, countFailure, time)
    case ConnectedOp(addr, time) => Connected(s, addr, time)
    case SetServicesOp(addr, services) => SetServices(s, addr, services)
    case GetAddrOp(draws) => Shuffle(c, s, 0, draws)
    case ResolveOp(now) => Resolve(c, s, s.collisions, now)
    case SelectOp(id) => SelectCollision(c, s, id).0
  }

  lemma StatsOperationsKeep(c: Config, s: State, addr: Service, countFailure: bool, time: int, services: set<nat>)
    requires Consistent(c, s)
    ensures Consistent(c, Attempt(s, addr, countFailure, time))
    ensures Consistent(c, Connected(s, addr, time))
    ensures Consistent(c, SetServices(s, addr, services))
  {
    var found := FindExact(s, addr);
    if found.Some? {
      var id := found.value;
      StatsConsistent(c, s, id, Attempt(s, addr, countFailure, time).mapInfo[id]);
      StatsConsistent(c, s, id, Connected(s, addr, time).mapInfo[id]);
      StatsConsistent(c, s, id, SetServices(s, addr, services).mapInfo[id]);
    }
  }

  lemma StatsConsistent(c: Config, s: State, id: int, i: Info)
    requires Consistent(c, s) && id in s.mapInfo && StatsOnly(s.mapInfo[id], i)
    ensures Consistent(c, SetInfo(s, id, i))
  {
    StatsKeeps(c, s, id, i, {});
    CollidingKept(c, s, SetInfo(s, id, i));
  }

  lemma StepKeeps(c: Config, s: State, o: Op)
    requires Consistent(c, s)
    ensures Consistent(c, Step(c, s, o))
  {
    match o
    case AddOp(address, source, penalty, now, rnd) => AddKeeps(c, s, address, source, penalty, now, rnd);
    case GoodOp(addr, tbe, time) => GoodKeeps(c, s, addr, tbe, time);
    case AttemptOp(addr, countFailure, time) => StatsOperationsKeep(c, s, addr, countFailure, time, {});
    case ConnectedOp(addr, time) => StatsOperationsKeep(c, s, addr, false, time, {});
    case SetServicesOp(addr, services) => StatsOperationsKeep(c, s, addr, false, 0, services);
    case GetAddrOp(draws) => ShuffleKeeps(c, s, 0, draws);
    case ResolveOp(now) => ResolveKeeps(c, s, s.collisions, now);
    case SelectOp(id) => ForgetKeeps(c, s, id);
  }

  lemma EmptyConsistent(c: Config)
    ensures Consistent(c, Empty)
  {
    assert TriedIds(Empty.mapInfo) == {} && NewIds(Empty.mapInfo) == {};
  }

  /** Clear empties everything but the recorded collisions. */
  function Cleared(s: State): State {
    Empty.(collisions := s.collisions)
  }

  /** It keeps the invariant exactly when no collision is recorded, whatever the new key is. */
  lemma ClearKeepsIff(c: Config, s: State, key: Config)
    requires Consistent(c, s)
    ensures Consistent(key, Cleared(s)) <==> s.collisions == {}
  {
    EmptyConsistent(key);
    if s.collisions == {} {
      assert Cleared(s) == Empty;
    } else {
      var id := Pick(s.collisions);
      assert id >= Cleared(s).nIdCount;
    }
  }

  /** Otherwise a new entry can come by the number of a recorded collision while its tried slot is empty. */
  lemma ClearedCollisionLacksOccupant(key: Config, s: State, addr: Address, source: NetAddr, penalty: int)
    requires 0 in s.collisions
    ensures var t := Create(Cleared(s), addr, source, penalty);
            0 in t.collisions && 0 in t.mapInfo && SelectCollision(key, t, 0).1 == None
  {
    var t := Create(Cleared(s), addr, source, penalty);
    assert TriedSlot(key, t.mapInfo[0].service) !in t.vvTried;
  }

  /** The state after a run of operations; a state that broke the invariant would end the run. */
  ghost function Run(c: Config, s: State, ops: seq<Op>): State
    decreases |ops|
  {
    if ops == [] || !Consistent(c, s) then s else Run(c, Step(c, s, ops[0]), ops[1..])
  }

  /** Every run of every operation, from the empty address manager, keeps it consistent. */
  lemma {:induction false} RunKeeps(c: Config, s: State, ops: seq<Op>)
    requires Consistent(c, s)
    ensures Consistent(c, Run(c, s, ops))
    decreases |ops|
  {
    if ops != [] {
      StepKeeps(c, s, ops[0]);
      RunKeeps(c, Step(c, s, ops[0]), ops[1..]);
    }
  }

  /** Every run from the empty address manager keeps the six structures consistent, whatever the times are. */
  lemma EveryRunIsConsistent(c: Config, ops: seq<Op>)
    ensures Consistent(c, Run(c, Empty, ops))
  {
    EmptyConsistent(c);
    RunKeeps(c, Empty, ops);
  }

  // ---------------------------------------------------------------- times

  /** What the debug check asks of the times of an entry. */
  predicate TimesFine(i: Info) {
    i.nLastTry >= 0 && i.nLastSuccess >= 0 && (i.fInTried ==> i.nLastSuccess != 0)
  }

  ghost predicate TimesOk(m: map<int, Info>) {
    forall id :: id in m ==> TimesFine(m[id])
  }

  /** What an entry records of its address, without its places in the tables. */
  function Recorded(i: Info): Info {
    i.(nRefCount := 0, fInTried := false, nRandomPos := 0)
  }

  /** No entry appears, none enters the tried table, and all records are kept. */
  ghost predicate RecordsKept(m: map<int, Info>, n: map<int, Info>) {
    forall id :: id in n ==> id in m && Recorded(n[id]) == Recorded(m[id]) && (n[id].fInTried ==> m[id].fInTried)
  }

  lemma KeptTwice(m: map<int, Info>, n: map<int, Info>, o: map<int, Info>)
    requires RecordsKept(m, n) && RecordsKept(n, o)
    ensures RecordsKept(m, o)
  {}

  lemma KeptFine(m: map<int, Info>, n: map<int, Info>)
    requires TimesOk(m) && RecordsKept(m, n)
    ensures TimesOk(n)
  {}

  lemma DeleteTimes(s: State, id: int)
    requires CanDelete(s, id)
    ensures RecordsKept(s.mapInfo, Delete(s, id).mapInfo)
  {
    var t := SwapRandom(s, s.mapInfo[id].nRandomPos, |s.vRandom| - 1);
    SwapTimes(s, s.mapInfo[id].nRandomPos, |s.vRandom| - 1);
    RemoveTimes(t.mapInfo, id);
    KeptTwice(s.mapInfo, t.mapInfo, t.mapInfo - {id});
  }

  lemma SwapTimes(s: State, p1: int, p2: int)
    requires CanSwap(s, p1, p2)
    ensures RecordsKept(s.mapInfo, SwapRandom(s, p1, p2).mapInfo)
  {
  }

  lemma RemoveTimes(m: map<int, Info>, id: int)
    ensures RecordsKept(m, m - {id})
  {
  }

  lemma ClearNewTimes(s: State, slot: Slot)
    requires CanClear(s, slot)
    ensures RecordsKept(s.mapInfo, ClearNew(s, slot).mapInfo)
  {
    if slot in s.vvNew {
      var t := Unref(s, slot);
      assert RecordsKept(s.mapInfo, t.mapInfo);
      if s.mapInfo[s.vvNew[slot]].nRefCount == 1 {
        DeleteTimes(t, s.vvNew[slot]);
        KeptTwice(s.mapInfo, t.mapInfo, ClearNew(s, slot).mapInfo);
      }
    }
  }

  lemma RefTimes(s: State, slot: Slot, id: int)
    requires id in s.mapInfo
    ensures RecordsKept(s.mapInfo, Ref(s, slot, id).mapInfo) && RecordsKept(s.mapInfo, Reenter(s, slot, id).mapInfo)
  {}

  lemma EvictTimes(c: Config, s: State, slot: Slot)
    requires CanEvict(c, s, slot)
    ensures RecordsKept(s.mapInfo, Evict(c, s, slot).mapInfo)
  {
    if slot in s.vvTried {
      var id := s.vvTried[slot];
      var home := HomeSlot(c, s.mapInfo[id]);
      var t := Demote(s, slot);
      assert RecordsKept(s.mapInfo, t.mapInfo);
      ClearNewTimes(t, home);
      var u := ClearNew(t, home);
      RefTimes(u, home, id);
      KeptTwice(s.mapInfo, t.mapInfo, u.mapInfo);
      KeptTwice(s.mapInfo, u.mapInfo, Evict(c, s, slot).mapInfo);
    }
  }

  /** An entry moves to tried with its times; the others keep theirs. */
  lemma MakeTriedTimes(c: Config, s: State, id: int)
    requires CanMakeTried(c, s, id)
    ensures var m := MakeTried(c, s, id).mapInfo;
            && id in m && m[id].fInTried && Recorded(m[id]) == Recorded(s.mapInfo[id])
            && RecordsKept(s.mapInfo, m[id := m[id].(fInTried := s.mapInfo[id].fInTried)])
  {
    var t := Unlist(c, s, id);
    var slot := TriedSlot(c, s.mapInfo[id].service);
    assert RecordsKept(s.mapInfo, t.mapInfo);
    EvictTimes(c, t, slot);
    var u := Evict(c, t, slot);
    KeptTwice(s.mapInfo, t.mapInfo, u.mapInfo);
    PromotedTimes(s.mapInfo, u.mapInfo, id);
  }

  lemma PromotedTimes(m: map<int, Info>, n: map<int, Info>, id: int)
    requires RecordsKept(m, n) && id in m && id in n
    ensures var o := n[id := n[id].(fInTried := true)];
            RecordsKept(m, o[id := o[id].(fInTried := m[id].fInTried)])
  {}

  lemma PlaceTimes(c: Config, s: State, id: int, source: NetAddr, now: int)
    requires Inv(c, s, {id}) && id in s.mapInfo && !s.mapInfo[id].fInTried
    ensures RecordsKept(s.mapInfo, Place(c, s, id, source, now).mapInfo)
  {
    Look(c, s, {id});
    var slot := NewSlot(c, s.mapInfo[id].service, source);
    if !(slot in s.vvNew && s.vvNew[slot] == id) {
      InsertTimes(c, s, slot, id);
      if s.mapInfo[id].nRefCount == 0 {
        DeleteKeeps(c, s, id, {id});
        DeleteTimes(s, id);
      }
    }
  }

  lemma InsertTimes(c: Config, s: State, slot: Slot, id: int)
    requires Inv(c, s, {id}) && id in s.mapInfo && !s.mapInfo[id].fInTried && (slot in s.vvNew ==> s.vvNew[slot] != id)
    ensures CanClear(s, slot) && id in ClearNew(s, slot).mapInfo
    ensures RecordsKept(s.mapInfo, Ref(ClearNew(s, slot), slot, id).mapInfo)
  {
    ClearNewKeeps(c, s, slot, {id});
    ClearNewTimes(s, slot);
    InsertRelated(s, slot, id);
    RefTimes(ClearNew(s, slot), slot, id);
    KeptTwice(s.mapInfo, ClearNew(s, slot).mapInfo, Ref(ClearNew(s, slot), slot, id).mapInfo);
  }

  lemma AddTimes(c: Config, s: State, addr: Address, source: NetAddr, timePenalty: int, now: int, rnd: nat)
    requires Consistent(c, s) && TimesOk(s.mapInfo)
    ensures TimesOk(Add(c, s, addr, source, timePenalty, now, rnd).mapInfo)
  {
    if c.isRoutable(addr.service.addr) {
      var penalty := Penalty(addr, source, timePenalty);
      match Find(s, addr.service)
      case Some(id) =>
        var i := Refreshed(s.mapInfo[id], addr, penalty, now);
        StatsKeeps(c, s, id, i, {});
        var t := SetInfo(s, id, i);
        assert TimesOk(t.mapInfo);
        if !KeepsRefs(i, addr, rnd) {
          PendingChange(c, t, {}, {id});
          PlaceTimes(c, t, id, source, now);
          KeptFine(t.mapInfo, Place(c, t, id, source, now).mapInfo);
        }
      case None =>
        CreateKeeps(c, s, addr, source, penalty);
        var t := Create(s, addr, source, penalty);
        assert TimesOk(t.mapInfo);
        PlaceTimes(c, t, s.nIdCount, source, now);
        KeptFine(t.mapInfo, Place(c, t, s.nIdCount, source, now).mapInfo);
    }
  }

  /** Whether Good only records a collision for an entry. */
  predicate OnlyCollides(c: Config, s: State, id: int, testBeforeEvict: bool)
    requires id in s.mapInfo
  {
    !s.mapInfo[id].fInTried && testBeforeEvict && TriedSlot(c, s.mapInfo[id].service) in s.vvTried
  }

  /** After Good, an entry that does not only collide is in the tried table, with its last success at the given time. */
  lemma GoodMoveTimes(c: Config, s: State, id: int, testBeforeEvict: bool)
    requires Inv(c, s, {}) && id in s.mapInfo
    ensures var m := GoodMove(c, s, id, testBeforeEvict).mapInfo;
            && id in m && Recorded(m[id]) == Recorded(s.mapInfo[id])
            && (m[id].fInTried <==> !OnlyCollides(c, s, id, testBeforeEvict))
            && RecordsKept(s.mapInfo, m[id := m[id].(fInTried := s.mapInfo[id].fInTried)])
  {
    var m := GoodMove(c, s, id, testBeforeEvict).mapInfo;
    if s.mapInfo[id].fInTried || OnlyCollides(c, s, id, testBeforeEvict) {
      SameTimes(s.mapInfo, id);
    } else {
      HasSlots(c, s, id);
      MakeTriedKeeps(c, s, id);
      MakeTriedTimes(c, s, id);
    }
  }

  lemma HasSlots(c: Config, s: State, id: int)
    requires Inv(c, s, {}) && id in s.mapInfo && !s.mapInfo[id].fInTried
    ensures FoundSlots(c, s, id) != {}
  {
    Look(c, s, {});
    FindsAllSlots(c, s, id);
    assert |SlotsOf(s.vvNew, id)| >= 1;
  }

  lemma SameTimes(m: map<int, Info>, id: int)
    requires id in m
    ensures RecordsKept(m, m[id := m[id].(fInTried := m[id].fInTried)])
  {}

  /** Good keeps the times as the debug check wants them exactly under this condition on its argument. */
  lemma GoodTimesIff(c: Config, s: State, addr: Service, testBeforeEvict: bool, time: int)
    requires Consistent(c, s) && TimesOk(s.mapInfo)
    ensures TimesOk(Good(c, s, addr, testBeforeEvict, time).mapInfo)
            <==> FindExact(s, addr).None? || time >= 1
                 || (time == 0 && OnlyCollides(c, s, FindExact(s, addr).value, testBeforeEvict))
  {
    if FindExact(s, addr).Some? {
      var id := FindExact(s, addr).value;
      NotesKeep(c, s, time, s.collisions, {});
      StatsKeeps(c, s.(nLastGood := time), id, GoodNoted(s, id, time).mapInfo[id], {});
      var t := GoodNoted(s, id, time);
      GoodMoveTimes(c, t, id, testBeforeEvict);
      var n := GoodMove(c, t, id, testBeforeEvict).mapInfo;
      GoodOthers(s, t, n, id);
    }
  }

  lemma GoodOthers(s: State, t: State, n: map<int, Info>, id: int)
    requires TimesOk(s.mapInfo) && id in t.mapInfo && id in n && t.mapInfo == s.mapInfo[id := t.mapInfo[id]]
    requires RecordsKept(t.mapInfo, n[id := n[id].(fInTried := t.mapInfo[id].fInTried)])
    ensures TimesOk(n) <==> TimesFine(n[id])
  {
    var o := n[id := n[id].(fInTried := t.mapInfo[id].fInTried)];
    forall k | k in n && k != id
      ensures TimesFine(n[k])
    {
      assert k in o && o[k] == n[k] && t.mapInfo[k] == s.mapInfo[k];
    }
  }

  lemma {:induction false} ResolveTimes(c: Config, s: State, todo: set<int>, now: int)
    requires Consistent(c, s) && TimesOk(s.mapInfo) && now >= 1
    ensures TimesOk(Resolve(c, s, todo, now).mapInfo)
    decreases |todo|
  {
    if todo != {} {
      var id := Least(todo);
      ResolveOneKeeps(c, s, id, now);
      if Judge(c, s, id, now).Replace? {
        GoodTimesIff(c, s, s.mapInfo[id].service, false, now);
      }
      ResolveTimes(c, ResolveOne(c, s, id, now), todo - {id}, now);
    }
  }

  lemma {:induction false} ShuffleTimes(c: Config, s: State, n: nat, rnd: seq<nat>)
    requires Inv(c, s, {}) && TimesOk(s.mapInfo)
    ensures TimesOk(Shuffle(c, s, n, rnd).mapInfo)
    decreases |rnd|
  {
    if rnd != [] && n < |s.vRandom| {
      var p := Drawn(rnd[0], n, |s.vRandom|);
      SwapKeeps(c, s, n, p, {});
      SwapReorders(s, n, p);
      ShuffleTimes(c, SwapRandom(s, n, p), n + 1, rnd[1..]);
    }
  }

  /** An operation whose clock is not before the epoch, and past it where a success is recorded. */
  predicate Timely(o: Op) {
    match o
    case GoodOp(_, _, time) => time >= 1
    case AttemptOp(_, _, time) => time >= 0
    case ResolveOp(now) => now >= 1
    case _ => true
  }

  lemma StepTimes(c: Config, s: State, o: Op)
    requires Consistent(c, s) && TimesOk(s.mapInfo) && Timely(o)
    ensures TimesOk(Step(c, s, o).mapInfo)
  {
    match o
    case AddOp(address, source, penalty, now, rnd) => AddTimes(c, s, address, source, penalty, now, rnd);
    case GoodOp(addr, tbe, time) => GoodTimesIff(c, s, addr, tbe, time);
    case AttemptOp(addr, countFailure, time) =>
    case ConnectedOp(addr, time) =>
    case SetServicesOp(addr, services) =>
    case GetAddrOp(draws) => ShuffleTimes(c, s, 0, draws);
    case ResolveOp(now) => ResolveTimes(c, s, s.collisions, now);
    case SelectOp(id) =>
  }

  /** All that the debug check tests, code by code, but for the key of the hash functions. */
  ghost predicate Checked(c: Config, s: State) {
    && |s.vRandom| == s.nTried + s.nNew                                                         // -7
    && (forall id :: id in s.mapInfo ==> EntryChecked(s, id))
    && |TriedIds(s.mapInfo)| == s.nTried && |NewIds(s.mapInfo)| == s.nNew                       // -9, -10
    && (forall p :: p in s.vvTried ==> TriedSlotChecked(c, s, p))
    && (forall p :: p in s.vvNew ==> NewSlotChecked(c, s, p))
    && (forall id :: id in TriedIds(s.mapInfo) ==> |SlotsOf(s.vvTried, id)| == 1)               // -11 again, -13
    && (forall id :: id in NewIds(s.mapInfo) ==> |SlotsOf(s.vvNew, id)| == s.mapInfo[id].nRefCount)  // -12 again, -15
  }

  predicate EntryChecked(s: State, id: int)
    requires id in s.mapInfo
  {
    var i := s.mapInfo[id];
    && (if i.fInTried then i.nLastSuccess != 0 && i.nRefCount == 0                              // -1, -2
        else 0 < i.nRefCount <= NEW_BUCKETS_PER_ADDRESS)                                        // -3, -4
    && Lookup(s.mapAddr, i.service.addr) == Some(id)                                            // -5
    && 0 <= i.nRandomPos < |s.vRandom| && s.vRandom[i.nRandomPos] == id                         // -14
    && i.nLastTry >= 0 && i.nLastSuccess >= 0                                                   // -6, -8
  }

  ghost predicate TriedSlotChecked(c: Config, s: State, p: Slot)
    requires p in s.vvTried
  {
    s.vvTried[p] in TriedIds(s.mapInfo)                                                         // -11
    && p == TriedSlot(c, s.mapInfo[s.vvTried[p]].service)                                       // -17, -18
  }

  ghost predicate NewSlotChecked(c: Config, s: State, p: Slot)
    requires p in s.vvNew
  {
    s.vvNew[p] in NewIds(s.mapInfo)                                                             // -12
    && p.pos == Position(c, true, p.bucket, s.mapInfo[s.vvNew[p]].service)                      // -19
  }

  lemma OneTriedSlot(c: Config, s: State, id: int)
    requires TriedTable(c, s.mapInfo, s.vvTried) && id in TriedIds(s.mapInfo)
    ensures |SlotsOf(s.vvTried, id)| == 1
  {
    assert SlotsOf(s.vvTried, id) == {TriedSlot(c, s.mapInfo[id].service)};
  }

  /** A consistent address manager passes the debug check exactly when its times are fine. */
  lemma CheckedIff(c: Config, s: State)
    requires Consistent(c, s)
    ensures Checked(c, s) <==> TimesOk(s.mapInfo)
  {
    Look(c, s, {});
    RandomCounts(s);
    forall id | id in TriedIds(s.mapInfo)
      ensures |SlotsOf(s.vvTried, id)| == 1
    {
      OneTriedSlot(c, s, id);
    }
    forall id | id in s.mapInfo
      ensures EntryChecked(s, id) <==> TimesFine(s.mapInfo[id])
    {
    }
  }

  lemma {:induction false} RunTimes(c: Config, s: State, ops: seq<Op>)
    requires Consistent(c, s) && TimesOk(s.mapInfo) && forall k :: 0 <= k < |ops| ==> Timely(ops[k])
    ensures TimesOk(Run(c, s, ops).mapInfo)
    decreases |ops|
  {
    if ops != [] {
      StepKeeps(c, s, ops[0]);
      StepTimes(c, s, ops[0]);
      RunTimes(c, Step(c, s, ops[0]), ops[1..]);
    }
  }

  /** Every run with sensible clocks, from the empty address manager, passes the debug check. */
  lemma EveryRunPassesCheck(c: Config, ops: seq<Op>)
    requires forall k :: 0 <= k < |ops| ==> Timely(ops[k])
    ensures Checked(c, Run(c, Empty, ops))
  {
    EveryRunIsConsistent(c, ops);
    EmptyConsistent(c);
    RunTimes(c, Empty, ops);
    CheckedIff(c, Run(c, Empty, ops));
  }

  /** With a clock at zero it does not: a new address that is good at time 0 is tried without a success. */
  lemma TimeZeroFailsCheck(c: Config, address: Address, source: NetAddr, now: int)
    requires c.isRoutable(address.service.addr)
    ensures var s := Announced(c, address, source, now);
            Consistent(c, s) && Checked(c, s)
            && !Checked(c, Good(c, s, address.service, false, 0))
  {
    EmptyConsistent(c);
    AddKeeps(c, Empty, address, source, 0, now, 0);
    var s := Announced(c, address, source, now);
    AddTimes(c, Empty, address, source, 0, now, 0);
    CheckedIff(c, s);
    AddedIsFound(c, address, source, now);
    GoodTimesIff(c, s, address.service, false, 0);
    GoodKeeps(c, s, address.service, false, 0);
    CheckedIff(c, Good(c, s, address.service, false, 0));
  }

  /** One address announced to an empty address manager. */
  ghost function Announced(c: Config, address: Address, source: NetAddr, now: int): (s: State)
    ensures Consistent(c, s)
  {
    EmptyConsistent(c);
    AddKeeps(c, Empty, address, source, 0, now, 0);
    Add(c, Empty, address, source, 0, now, 0)
  }

  lemma AddedIsFound(c: Config, address: Address, source: NetAddr, now: int)
    requires c.isRoutable(address.service.addr)
    ensures FindExact(Announced(c, address, source, now), address.service) == Some(0)
  {
    EmptyConsistent(c);
    CreateKeeps(c, Empty, address, source, 0);
    var t := Create(Empty, address, source, 0);
    var slot := NewSlot(c, address.service, source);
    assert Place(c, t, 0, source, now) == Ref(t, slot, 0);
  }
}
