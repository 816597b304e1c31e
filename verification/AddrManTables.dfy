/**
 * The address manager with its mutable tables and maps. Every method is proved to act as the
 * function of module AddrMan does, loops and slot updates included.
 */
module AddrManTables {
  import opened Common
  import opened AddrMan

  /** A table of buckets: a fixed array with -1 in its empty slots. */
  class BucketTable {
    const data: array2<int>
    ghost var occupied: map<Slot, int>

    predicate InRange(slot: Slot) {
      0 <= slot.bucket < data.Length0 && 0 <= slot.pos < data.Length1
    }

    ghost predicate Valid()
      reads this, data
    {
      && (forall slot :: slot in occupied ==> InRange(slot) && occupied[slot] != -1)
      && (forall b, p :: 0 <= b < data.Length0 && 0 <= p < data.Length1 ==>
            data[b, p] == if Slot(b, p) in occupied then occupied[Slot(b, p)] else -1)
    }

    /** The nested loops of Clear. */
    constructor (buckets: nat, size: nat)
      ensures Valid() && occupied == map[] && fresh(data)
      ensures data.Length0 == buckets && data.Length1 == size
    {
      var a := new int[buckets, size];
      var bucket := 0;
      while bucket < buckets
        invariant 0 <= bucket <= buckets
        invariant forall b, p :: 0 <= b < bucket && 0 <= p < size ==> a[b, p] == -1
      {
        var entry := 0;
        while entry < size
          invariant 0 <= entry <= size
          invariant forall b, p :: 0 <= b < bucket && 0 <= p < size ==> a[b, p] == -1
          invariant forall p :: 0 <= p < entry ==> a[bucket, p] == -1
        {
          a[bucket, entry] := -1;
          entry := entry + 1;
        }
        bucket := bucket + 1;
      }
      data := a;
      occupied := map[];
    }

    method Get(slot: Slot) returns (id: int)
      requires Valid() && InRange(slot)
      ensures slot in occupied ==> id == occupied[slot] && id != -1
      ensures slot !in occupied ==> id == -1
    {
      id := data[slot.bucket, slot.pos];
    }

    method Set(slot: Slot, id: int)
      requires Valid() && InRange(slot) && id != -1
      modifies this, data
      ensures Valid() && occupied == old(occupied)[slot := id]
    {
      data[slot.bucket, slot.pos] := id;
      occupied := occupied[slot := id];
    }

    method Clear(slot: Slot)
      requires Valid() && InRange(slot)
      modifies this, data
      ensures Valid() && occupied == old(occupied) - {slot}
    {
      data[slot.bucket, slot.pos] := -1;
      occupied := occupied - {slot};
    }
  }

  class CAddrMan {
    const cfg: Config
    const vvNew: BucketTable
    const vvTried: BucketTable
    var nIdCount: int
    var mapInfo: map<int, Info>
    var mapAddr: map<NetAddr, int>
    var vRandom: seq<int>
    var nTried: int
    var nNew: int
    var nLastGood: int
    var triedCollisions: set<int>

    ghost predicate Shaped()
      reads vvNew, vvNew.data, vvTried, vvTried.data
    {
      && vvNew.data.Length0 == NEW_BUCKET_COUNT && vvNew.data.Length1 == BUCKET_SIZE
      && vvTried.data.Length0 == TRIED_BUCKET_COUNT && vvTried.data.Length1 == BUCKET_SIZE
      && vvNew != vvTried && vvNew.data != vvTried.data
      && vvNew.Valid() && vvTried.Valid()
    }

    ghost function Abstract(): State
      reads this, vvNew, vvTried
    {
      State(nIdCount, mapInfo, mapAddr, vRandom, nTried, nNew, vvTried.occupied, vvNew.occupied, nLastGood, triedCollisions)
    }

    ghost predicate Valid()
      reads this, vvNew, vvNew.data, vvTried, vvTried.data
    {
      Shaped() && Consistent(cfg, Abstract())
    }

    /** A new address manager. */
    constructor (cfg: Config)
      ensures this.cfg == cfg && Abstract() == Empty && Valid()
      ensures fresh(vvNew) && fresh(vvNew.data) && fresh(vvTried) && fresh(vvTried.data)
    {
      this.cfg := cfg;
      vvNew := new BucketTable(NEW_BUCKET_COUNT, BUCKET_SIZE);
      vvTried := new BucketTable(TRIED_BUCKET_COUNT, BUCKET_SIZE);
      nIdCount, mapInfo, mapAddr, vRandom := 0, map[], map[], [];
      nTried, nNew, nLastGood, triedCollisions := 0, 0, 1, {};
      new;
      EmptyConsistent(cfg);
    }

    method SwapRandom(p1: int, p2: int)
      requires CanSwap(Abstract(), p1, p2)
      modifies `mapInfo, `vRandom
      ensures Abstract() == AddrMan.SwapRandom(old(Abstract()), p1, p2)
    {
      if p1 == p2 {
        return;
      }
      var id1, id2 := vRandom[p1], vRandom[p2];
      mapInfo := mapInfo[id1 := mapInfo[id1].(nRandomPos := p2)];
      mapInfo := mapInfo[id2 := mapInfo[id2].(nRandomPos := p1)];
      vRandom := vRandom[p1 := id2];
      vRandom := vRandom[p2 := id1];
    }

    method Delete(id: int)
      requires CanDelete(Abstract(), id)
      modifies `mapInfo, `vRandom, `mapAddr, `nNew
      ensures Abstract() == AddrMan.Delete(old(Abstract()), id)
    {
      var addr := mapInfo[id].service.addr;
      SwapRandom(mapInfo[id].nRandomPos, |vRandom| - 1);
      vRandom := vRandom[..|vRandom| - 1];
      mapAddr := mapAddr - {addr};
      mapInfo := mapInfo - {id};
      nNew := nNew - 1;
    }

    method ClearNew(slot: Slot)
      requires Shaped() && vvNew.InRange(slot) && CanClear(Abstract(), slot)
      modifies `mapInfo, `vRandom, `mapAddr, `nNew, vvNew, vvNew.data
      ensures Shaped() && Abstract() == AddrMan.ClearNew(old(Abstract()), slot)
    {
      var id := vvNew.Get(slot);
      if id != -1 {
        mapInfo := mapInfo[id := mapInfo[id].(nRefCount := mapInfo[id].nRefCount - 1)];
        vvNew.Clear(slot);
        assert Abstract() == Unref(old(Abstract()), slot);
        if mapInfo[id].nRefCount == 0 {
          Delete(id);
        }
      }
    }

    /** The body of MakeTried's first loop, for one bucket. */
    method UnlistSlot(id: int, slot: Slot)
      requires Shaped() && id in mapInfo && id != -1 && vvNew.InRange(slot)
      modifies `mapInfo, vvNew, vvNew.data
      ensures Shaped()
      ensures if slot in old(vvNew.occupied) && old(vvNew.occupied)[slot] == id
              then vvNew.occupied == old(vvNew.occupied) - {slot}
                   && mapInfo == old(mapInfo)[id := old(mapInfo[id]).(nRefCount := old(mapInfo[id]).nRefCount - 1)]
              else vvNew.occupied == old(vvNew.occupied) && mapInfo == old(mapInfo)
    {
      var occupant := vvNew.Get(slot);
      if occupant == id {
        vvNew.Clear(slot);
        mapInfo := mapInfo[id := mapInfo[id].(nRefCount := mapInfo[id].nRefCount - 1)];
      }
    }

    /** The first loop of MakeTried: clears every slot of the new table that holds the id. */
    method UnlistLoop(id: int)
      requires Shaped() && id in mapInfo && id != -1
      modifies `mapInfo, vvNew, vvNew.data
      ensures Shaped()
      ensures (mapInfo, vvNew.occupied)
              == UnlistRounds(cfg, old(mapInfo), old(vvNew.occupied), id, old(mapInfo[id].service), NEW_BUCKET_COUNT)
    {
      ghost var m0, t0 := mapInfo, vvNew.occupied;
      var addr := mapInfo[id].service;
      var bucket := 0;
      while bucket < NEW_BUCKET_COUNT
        invariant 0 <= bucket <= NEW_BUCKET_COUNT && Shaped() && id in mapInfo
        invariant (mapInfo, vvNew.occupied) == UnlistRounds(cfg, m0, t0, id, addr, bucket)
      {
        PositionInRange(cfg, true, bucket, addr);
        UnlistSlot(id, NewSlotIn(cfg, bucket, addr));
        bucket := bucket + 1;
      }
    }

    method UnlistAll(id: int)
      requires Shaped() && id in mapInfo && id != -1
      modifies `mapInfo, vvNew, vvNew.data
      ensures Shaped() && Abstract() == Unlist(cfg, old(Abstract()), id)
    {
      UnlistRoundsAre(cfg, mapInfo, vvNew.occupied, id, NEW_BUCKET_COUNT);
      UnlistLoop(id);
    }

    /** The middle of MakeTried: the occupant of a tried slot goes back to the new table. */
    method EvictTried(slot: Slot)
      requires Shaped() && vvTried.InRange(slot) && CanEvict(cfg, Abstract(), slot)
      modifies `mapInfo, `vRandom, `mapAddr, `nNew, `nTried, vvNew, vvNew.data, vvTried, vvTried.data
      ensures Shaped() && Abstract() == Evict(cfg, old(Abstract()), slot)
    {
      var id := vvTried.Get(slot);
      if id != -1 {
        var home := HomeSlot(cfg, mapInfo[id]);
        PositionInRange(cfg, true, home.bucket, mapInfo[id].service);
        DemoteTried(slot, id);
        ClearNew(home);
        Reenter(home, id);
      }
    }

    method DemoteTried(slot: Slot, id: int)
      requires Shaped() && slot in vvTried.occupied && vvTried.occupied[slot] == id && id in mapInfo
      modifies `mapInfo, `nNew, `nTried, vvTried, vvTried.data
      ensures Shaped() && Abstract() == Demote(old(Abstract()), slot)
    {
      mapInfo := mapInfo[id := mapInfo[id].(fInTried := false)];
      vvTried.Clear(slot);
      nTried := nTried - 1;
      nNew := nNew + 1;
    }

    method Reenter(slot: Slot, id: int)
      requires Shaped() && vvNew.InRange(slot) && id in mapInfo && id != -1
      modifies `mapInfo, vvNew, vvNew.data
      ensures Shaped() && Abstract() == AddrMan.Reenter(old(Abstract()), slot, id)
    {
      mapInfo := mapInfo[id := mapInfo[id].(nRefCount := 1)];
      vvNew.Set(slot, id);
    }

    method MakeTried(id: int)
      requires Shaped() && CanMakeTried(cfg, Abstract(), id) && id != -1
      modifies `mapInfo, `vRandom, `mapAddr, `nNew, `nTried, vvNew, vvNew.data, vvTried, vvTried.data
      ensures Shaped() && Abstract() == AddrMan.MakeTried(cfg, old(Abstract()), id)
    {
      UnlistAll(id);
      var slot := TriedSlot(cfg, mapInfo[id].service);
      PositionInRange(cfg, false, slot.bucket, mapInfo[id].service);
      EvictTried(slot);
      PromoteTried(slot, id);
    }

    method PromoteTried(slot: Slot, id: int)
      requires Shaped() && vvTried.InRange(slot) && id in mapInfo && id != -1
      modifies `mapInfo, `nNew, `nTried, vvTried, vvTried.data
      ensures Shaped() && Abstract() == Promote(old(Abstract()), slot, id)
    {
      vvTried.Set(slot, id);
      nTried := nTried + 1;
      nNew := nNew - 1;
      mapInfo := mapInfo[id := mapInfo[id].(fInTried := true)];
    }

    // -------------------------------------------------------------- public operations

    method Find(addr: Service) returns (found: Option<int>)
      ensures found == AddrMan.Find(Abstract(), addr)
    {
      if addr.addr !in mapAddr {
        return None;
      }
      var id := mapAddr[addr.addr];
      if id !in mapInfo {
        return None;
      }
      return Some(id);
    }

    /** Create, and the update of the entry's time and of nNew that follow it in Add_. */
    method Create(addr: Address, source: NetAddr, penalty: int) returns (id: int)
      modifies `nIdCount, `mapInfo, `mapAddr, `vRandom, `nNew
      ensures id == old(nIdCount) && Abstract() == AddrMan.Create(old(Abstract()), addr, source, penalty)
    {
      id := nIdCount;
      nIdCount := nIdCount + 1;
      var info := Info(addr.service, addr.nTime, addr.nServices, source, 0, 0, 0, 0, 0, false, -1);
      mapAddr := mapAddr[addr.service.addr := id];
      info := info.(nRandomPos := |vRandom|);
      vRandom := vRandom + [id];
      info := info.(nTime := Max(0, info.nTime - penalty));
      mapInfo := mapInfo[id := info];
      nNew := nNew + 1;
    }

    method InsertNew(slot: Slot, id: int)
      requires Shaped() && vvNew.InRange(slot) && CanClear(Abstract(), slot) && id != -1
      requires id in AddrMan.ClearNew(Abstract(), slot).mapInfo
      modifies `mapInfo, `vRandom, `mapAddr, `nNew, vvNew, vvNew.data
      ensures Shaped() && Abstract() == Ref(AddrMan.ClearNew(old(Abstract()), slot), slot, id)
    {
      ClearNew(slot);
      mapInfo := mapInfo[id := mapInfo[id].(nRefCount := mapInfo[id].nRefCount + 1)];
      vvNew.Set(slot, id);
    }

    /** The end of Add_: enter the slot for this source, or drop an unreferenced entry. */
    method Place(id: int, source: NetAddr, now: int)
      requires Shaped() && Inv(cfg, Abstract(), {id}) && id in mapInfo && !mapInfo[id].fInTried && id != -1
      modifies `mapInfo, `vRandom, `mapAddr, `nNew, vvNew, vvNew.data
      ensures Shaped() && Abstract() == AddrMan.Place(cfg, old(Abstract()), id, source, now)
    {
      var slot := NewSlot(cfg, mapInfo[id].service, source);
      PositionInRange(cfg, true, slot.bucket, mapInfo[id].service);
      CanPlace(cfg, Abstract(), id, slot);
      var occupant := vvNew.Get(slot);
      if occupant != id {
        var insert := occupant == -1;
        if !insert {
          if IsTerrible(mapInfo[occupant], now) || (mapInfo[occupant].nRefCount > 1 && mapInfo[id].nRefCount == 0) {
            insert := true;
          }
        }
        if insert {
          InsertNew(slot, id);
        } else if mapInfo[id].nRefCount == 0 {
          Delete(id);
        }
      }
    }

    /** The loop that computes the factor of the stochastic test. */
    static method ComputeFactor(refCount: int) returns (factor: int)
      ensures factor == Factor(refCount)
    {
      factor := 1;
      var n := 0;
      while n < refCount
        invariant 0 <= n && (n <= refCount || n == 0)
        invariant factor == Factor(n)
      {
        factor := factor * 2;
        n := n + 1;
      }
      if refCount < 0 {
        FactorOfNegative(refCount);
      }
    }

    /** Add_ for a known address, after the refresh of its entry. */
    method AddKnown(id: int, addr: Address, source: NetAddr, now: int, rnd: nat)
      requires Shaped() && Inv(cfg, Abstract(), {}) && id in mapInfo
      modifies `mapInfo, `vRandom, `mapAddr, `nNew, vvNew, vvNew.data
      ensures Shaped() && Abstract() == AddrMan.AddKnown(cfg, old(Abstract()), id, addr, source, now, rnd)
    {
      var info := mapInfo[id];
      if addr.nTime <= info.nTime || info.fInTried || info.nRefCount == NEW_BUCKETS_PER_ADDRESS {
        return;
      }
      var factor := ComputeFactor(info.nRefCount);
      if factor > 1 && rnd % factor != 0 {
        return;
      }
      IdIsReal(cfg, Abstract(), id);
      PendingChange(cfg, Abstract(), {}, {id});
      Place(id, source, now);
    }

    method Refresh(id: int, addr: Address, penalty: int, now: int)
      requires id in mapInfo
      modifies `mapInfo
      ensures mapInfo == old(mapInfo)[id := Refreshed(old(mapInfo[id]), addr, penalty, now)]
    {
      var interval := if now - addr.nTime < 24 * 60 * 60 then 60 * 60 else 24 * 60 * 60;
      var info := mapInfo[id];
      if info.nTime < addr.nTime - interval - penalty {
        info := info.(nTime := Max(0, addr.nTime - penalty));
      }
      info := info.(nServices := info.nServices + addr.nServices);
      mapInfo := mapInfo[id := info];
    }

    /** Add_; `now` is the adjusted time and `rnd` the drawn number. */
    method Add(addr: Address, source: NetAddr, timePenalty: int, now: int, rnd: nat) returns (isNew: bool)
      requires Valid()
      modifies this, vvNew, vvNew.data
      ensures Valid() && Abstract() == AddrMan.Add(cfg, old(Abstract()), addr, source, timePenalty, now, rnd)
      ensures isNew <==> cfg.isRoutable(addr.service.addr) && AddrMan.Find(old(Abstract()), addr.service).None?
    {
      ghost var s := Abstract();
      AddKeeps(cfg, s, addr, source, timePenalty, now, rnd);
      if !cfg.isRoutable(addr.service.addr) {
        return false;
      }
      var penalty := Penalty(addr, source, timePenalty);
      var found := Find(addr.service);
      if found.Some? {
        StatsKeeps(cfg, s, found.value, Refreshed(mapInfo[found.value], addr, penalty, now), {});
        Refresh(found.value, addr, penalty, now);
        AddKnown(found.value, addr, source, now, rnd);
        isNew := false;
      } else {
        CreateKeeps(cfg, s, addr, source, penalty);
        NextIdIsReal(cfg, s);
        var id := Create(addr, source, penalty);
        Place(id, source, now);
        isNew := true;
      }
    }

    /** The search of Good_ for a bucket that holds the entry, from a drawn start. */
    method HasBucket(id: int, rnd: nat) returns (found: bool)
      requires Shaped() && id in mapInfo && id != -1
      ensures found <==> FoundSlots(cfg, Abstract(), id) != {}
    {
      var addr := mapInfo[id].service;
      var n := 0;
      while n < NEW_BUCKET_COUNT
        invariant 0 <= n <= NEW_BUCKET_COUNT
        invariant forall k :: 0 <= k < n ==> !HoldsIn(cfg, vvNew.occupied, addr, id, Rotated(k, rnd))
      {
        var b := Rotated(n, rnd);
        PositionInRange(cfg, true, b, addr);
        var occupant := vvNew.Get(NewSlotIn(cfg, b, addr));
        if occupant == id {
          assert NewSlotIn(cfg, b, addr) in FoundSlots(cfg, Abstract(), id);
          return true;
        }
        n := n + 1;
      }
      forall b | 0 <= b < NEW_BUCKET_COUNT
        ensures !HoldsIn(cfg, vvNew.occupied, addr, id, b)
      {
        var k := Unrotated(b, rnd);
        assert Rotated(k, rnd) == b;
      }
      assert FoundBelow(cfg, vvNew.occupied, addr, id, NEW_BUCKET_COUNT) == {};
      return false;
    }

    /** The end of Good_: record a collision or move to tried. */
    method GoodMove(id: int, testBeforeEvict: bool, rnd: nat)
      requires Shaped() && Inv(cfg, Abstract(), {}) && id in mapInfo
      modifies this, vvNew, vvNew.data, vvTried, vvTried.data
      ensures Shaped() && Abstract() == AddrMan.GoodMove(cfg, old(Abstract()), id, testBeforeEvict)
    {
      if mapInfo[id].fInTried {
        return;
      }
      IdIsReal(cfg, Abstract(), id);
      var hasBucket := HasBucket(id, rnd);
      if !hasBucket {
        return;
      }
      var slot := TriedSlot(cfg, mapInfo[id].service);
      PositionInRange(cfg, false, slot.bucket, mapInfo[id].service);
      var occupant := vvTried.Get(slot);
      if testBeforeEvict && occupant != -1 {
        if |triedCollisions| < SET_TRIED_COLLISION_SIZE {
          triedCollisions := triedCollisions + {id};
        }
      } else {
        MakeTriedKeeps(cfg, Abstract(), id);
        MakeTried(id);
      }
    }

    /** Good_; `rnd` is the drawn start of its search. */
    method Good(addr: Service, testBeforeEvict: bool, time: int, rnd: nat)
      requires Valid()
      modifies this, vvNew, vvNew.data, vvTried, vvTried.data
      ensures Valid() && Abstract() == AddrMan.Good(cfg, old(Abstract()), addr, testBeforeEvict, time)
    {
      ghost var s := Abstract();
      GoodKeeps(cfg, s, addr, testBeforeEvict, time);
      NotesKeep(cfg, s, time, s.collisions, {});
      nLastGood := time;
      var found := Find(addr);
      if found.None? || mapInfo[found.value].service != addr {
        return;
      }
      var id := found.value;
      mapInfo := mapInfo[id := mapInfo[id].(nLastSuccess := time, nLastTry := time, nAttempts := 0)];
      StatsKeeps(cfg, s.(nLastGood := time), id, mapInfo[id], {});
      GoodMove(id, testBeforeEvict, rnd);
    }

    method Attempt(addr: Service, countFailure: bool, time: int)
      requires Valid()
      modifies `mapInfo
      ensures Valid() && Abstract() == AddrMan.Attempt(old(Abstract()), addr, countFailure, time)
    {
      StatsOperationsKeep(cfg, Abstract(), addr, countFailure, time, {});
      var found := Find(addr);
      if found.None? || mapInfo[found.value].service != addr {
        return;
      }
      var id := found.value;
      mapInfo := mapInfo[id := mapInfo[id].(nLastTry := time)];
      if countFailure && mapInfo[id].nLastCountAttempt < nLastGood {
        mapInfo := mapInfo[id := mapInfo[id].(nLastCountAttempt := time, nAttempts := mapInfo[id].nAttempts + 1)];
        assert mapInfo == old(mapInfo)[id := mapInfo[id]];
      }
    }

    method SetServices(addr: Service, services: set<nat>)
      requires Valid()
      modifies `mapInfo
      ensures Valid() && Abstract() == AddrMan.SetServices(old(Abstract()), addr, services)
    {
      StatsOperationsKeep(cfg, Abstract(), addr, false, 0, services);
      var found := Find(addr);
      if found.None? || mapInfo[found.value].service != addr {
        return;
      }
      mapInfo := mapInfo[found.value := mapInfo[found.value].(nServices := services)];
    }

    /** One round of ResolveCollisions_; `rnd` is the drawn start of Good_'s search. */
    method ResolveOne(id: int, now: int, rnd: nat)
      requires Valid()
      modifies this, vvNew, vvNew.data, vvTried, vvTried.data
      ensures Valid() && Abstract() == AddrMan.ResolveOne(cfg, old(Abstract()), id, now)
    {
      ResolveOneKeeps(cfg, Abstract(), id, now);
      var verdict := JudgeCollision(id, now);
      if verdict == Replace {
        Good(mapInfo[id].service, false, now, rnd);
      }
      if verdict != Wait {
        triedCollisions := triedCollisions - {id};
      }
    }

    /** The tests of ResolveCollisions_: whether a recorded id is forgotten, has to wait, or replaces the occupant. */
    method JudgeCollision(id: int, now: int) returns (verdict: Verdict)
      requires Valid()
      ensures verdict == Judge(cfg, Abstract(), id, now)
    {
      if id !in mapInfo {
        return Forget;
      }
      var info := mapInfo[id];
      var slot := TriedSlot(cfg, info.service);
      PositionInRange(cfg, false, slot.bucket, info.service);
      var idOld := vvTried.Get(slot);
      if !cfg.isValid(info.service) {
        return Forget;
      } else if idOld == -1 {
        return Replace;
      }
      OccupantOfTried(cfg, Abstract(), slot);
      var infoOld := mapInfo[idOld];
      if now - infoOld.nLastSuccess < REPLACEMENT_HOURS * (60 * 60) {
        return Forget;
      } else if now - infoOld.nLastTry < REPLACEMENT_HOURS * (60 * 60) {
        return if now - infoOld.nLastTry > 60 then Replace else Wait;
      }
      return if now - info.nLastSuccess > TEST_WINDOW then Replace else Wait;
    }

    /** ResolveCollisions_: the recorded ids in ascending order. */
    method ResolveCollisions(now: int, rnd: nat)
      requires Valid()
      modifies this, vvNew, vvNew.data, vvTried, vvTried.data
      ensures Valid() && Abstract() == Resolve(cfg, old(Abstract()), old(triedCollisions), now)
    {
      var todo := triedCollisions;
      while todo != {}
        invariant Valid()
        invariant Resolve(cfg, Abstract(), todo, now) == Resolve(cfg, old(Abstract()), old(triedCollisions), now)
        decreases |todo|
      {
        ghost var least := Least(todo);
        assert IsLeast(least, todo);
        var id :| id in todo && forall k :: k in todo ==> id <= k;
        assert id == least;
        ResolveOne(id, now, rnd);
        todo := todo - {id};
      }
    }

    /** SelectTriedCollision_, for the id that the drawn number selects. */
    method SelectTriedCollision(id: int) returns (occupant: Option<Info>)
      requires Valid() && id in triedCollisions
      modifies `triedCollisions
      ensures Valid() && (Abstract(), occupant) == SelectCollision(cfg, old(Abstract()), id)
      ensures id in mapInfo ==> occupant.Some? && occupant.value.fInTried
    {
      ghost var s := Abstract();
      if id !in mapInfo {
        ForgetKeeps(cfg, s, id);
        triedCollisions := triedCollisions - {id};
        return None;
      }
      CollisionHasOccupant(cfg, s, id, 0);
      var slot := TriedSlot(cfg, mapInfo[id].service);
      PositionInRange(cfg, false, slot.bucket, mapInfo[id].service);
      var idOld := vvTried.Get(slot);
      return Some(mapInfo[idOld]);
    }

    /**
     * GetAddr_: the wanted entries among the first `scanned` of vRandom, which it reorders on the
     * way; it stops at the end of vRandom or when it has enough. `draws` are the drawn numbers.
     */
    method GetAddr(maxAddresses: nat, maxPct: nat, network: Option<nat>, now: int, draws: seq<nat>)
      returns (vAddr: seq<Address>, scanned: nat)
      requires Valid() && |draws| >= |vRandom|
      modifies `mapInfo, `vRandom
      ensures Valid() && Reordered(old(Abstract()), Abstract())
      ensures scanned <= |vRandom| && vAddr == Chosen(cfg, mapInfo, vRandom[..scanned], network, now)
      ensures |vAddr| <= Limit(|vRandom|, maxAddresses, maxPct)
      ensures scanned == |vRandom| || |vAddr| == Limit(|vRandom|, maxAddresses, maxPct)
    {
      ghost var s := Abstract();
      var nNodes := Limit(|vRandom|, maxAddresses, maxPct);
      vAddr, scanned := [], 0;
      while scanned < |vRandom|
        invariant Valid() && Reordered(s, Abstract())
        invariant scanned <= |vRandom| && |vAddr| <= nNodes
        invariant vAddr == Chosen(cfg, mapInfo, vRandom[..scanned], network, now)
      {
        if |vAddr| >= nNodes {
          break;
        }
        vAddr := GatherOne(scanned, draws[scanned], vAddr, network, now, s);
        scanned := scanned + 1;
      }
    }

    /** One round of GetAddr_: the entry that is drawn is added if it passes the filters. */
    method GatherOne(n: nat, rnd: nat, vAddr: seq<Address>, network: Option<nat>, now: int, ghost s: State) returns (r: seq<Address>)
      requires Valid() && Reordered(s, Abstract()) && n < |vRandom|
      requires vAddr == Chosen(cfg, mapInfo, vRandom[..n], network, now)
      modifies `mapInfo, `vRandom
      ensures Valid() && Reordered(s, Abstract())
      ensures r == Chosen(cfg, mapInfo, vRandom[..n + 1], network, now) && |r| <= |vAddr| + 1
    {
      ghost var before := Abstract();
      r := vAddr;
      var ai := DrawOne(n, rnd);
      ReorderedTwice(s, before, Abstract());
      ChosenReordered(cfg, before, Abstract(), vRandom[..n], network, now);
      assert vRandom[..n + 1][..n] == vRandom[..n];
      if network.Some? && cfg.network(ai.service.addr) != network.value {
        return;
      }
      if IsTerrible(ai, now) {
        return;
      }
      r := r + [AddressOf(ai)];
    }

    /** One draw of GetAddr_: the entry that comes to position n. */
    method DrawOne(n: nat, rnd: nat) returns (ai: Info)
      requires Valid() && n < |vRandom|
      modifies `mapInfo, `vRandom
      ensures Valid() && Reordered(old(Abstract()), Abstract())
      ensures vRandom[..n] == old(vRandom[..n]) && vRandom[n] in mapInfo && ai == mapInfo[vRandom[n]]
    {
      var p := Drawn(rnd, n, |vRandom|);
      SwapConsistent(cfg, Abstract(), n, p);
      SwapReorders(Abstract(), n, p);
      SwapRandom(n, p);
      AllListed(cfg, Abstract(), n);
      ai := mapInfo[vRandom[n]];
    }

    method Connected(addr: Service, time: int)
      requires Valid()
      modifies `mapInfo
      ensures Valid() && Abstract() == AddrMan.Connected(old(Abstract()), addr, time)
    {
      StatsOperationsKeep(cfg, Abstract(), addr, false, time, {});
      var found := Find(addr);
      if found.None? || mapInfo[found.value].service != addr {
        return;
      }
      var id := found.value;
      if time - mapInfo[id].nTime > 20 * 60 {
        mapInfo := mapInfo[id := mapInfo[id].(nTime := time)];
      }
    }
  }

  lemma FactorOfNegative(n: int)
    requires n < 0
    ensures Factor(n) == 1
  {
  }

  lemma IdIsReal(c: Config, s: State, id: int)
    requires Inv(c, s, {}) && id in s.mapInfo
    ensures id != -1
  {
    Look(c, s, {});
  }

  lemma OccupantOfTried(c: Config, s: State, slot: Slot)
    requires Inv(c, s, {}) && slot in s.vvTried
    ensures s.vvTried[slot] in s.mapInfo
  {
    Look(c, s, {});
  }

  /** How many addresses GetAddr_ gathers at most; 0 stands for no bound. */
  function Limit(size: nat, maxAddresses: nat, maxPct: nat): nat {
    var n := if maxPct != 0 then maxPct * size / 100 else size;
    if maxAddresses != 0 && maxAddresses < n then maxAddresses else n
  }

  lemma AllListed(c: Config, s: State, i: nat)
    requires Inv(c, s, {}) && i < |s.vRandom|
    ensures s.vRandom[i] in s.mapInfo
  {
    LookRandom(c, s, {});
  }

  lemma NextIdIsReal(c: Config, s: State)
    requires Inv(c, s, {})
    ensures s.nIdCount != -1
  {
    Look(c, s, {});
  }

  /** What the end of Add_ may rely on. */
  lemma CanPlace(c: Config, s: State, id: int, slot: Slot)
    requires Inv(c, s, {id}) && id in s.mapInfo && !s.mapInfo[id].fInTried
    ensures slot in s.vvNew ==> s.vvNew[slot] in s.mapInfo
    ensures CanClear(s, slot)
    ensures (slot in s.vvNew && s.vvNew[slot] == id) || id in AddrMan.ClearNew(s, slot).mapInfo
    ensures s.mapInfo[id].nRefCount == 0 ==> CanDelete(s, id)
  {
    ClearNewKeeps(c, s, slot, {id});
    ClearNewRelated(s, slot);
    if slot in s.vvNew {
      UnrefKeeps(c, s, slot, {id});
    }
    if s.mapInfo[id].nRefCount == 0 {
      DeleteKeeps(c, s, id, {id});
    }
  }

  /** The bucket that the search visits in its n-th round. */
  function Rotated(n: nat, rnd: nat): (b: nat)
    ensures b < NEW_BUCKET_COUNT
  {
    (n + rnd % NEW_BUCKET_COUNT) % NEW_BUCKET_COUNT
  }

  /** The round in which the search visits a bucket. */
  function Unrotated(b: nat, rnd: nat): (n: nat)
    requires b < NEW_BUCKET_COUNT
    ensures n < NEW_BUCKET_COUNT && Rotated(n, rnd) == b
  {
    var start := rnd % NEW_BUCKET_COUNT;
    if b >= start then b - start else b + NEW_BUCKET_COUNT - start
  }

  /** Infos and new table after the first n rounds of MakeTried's first loop. */
  ghost function UnlistBelow(c: Config, m: map<int, Info>, table: map<Slot, int>, id: int, n: int): (map<int, Info>, map<Slot, int>)
    requires id in m
  {
    var found := FoundBelow(c, table, m[id].service, id, n);
    (m[id := m[id].(nRefCount := m[id].nRefCount - |found|)], table - found)
  }

  /** The same, one round at a time. */
  ghost function UnlistRounds(c: Config, m: map<int, Info>, table: map<Slot, int>, id: int, addr: Service, n: nat)
    : (map<int, Info>, map<Slot, int>)
  {
    if n == 0 then (m, table)
    else
      var (m1, t1) := UnlistRounds(c, m, table, id, addr, n - 1);
      var slot := NewSlotIn(c, n - 1, addr);
      if slot in t1 && t1[slot] == id && id in m1
      then (m1[id := m1[id].(nRefCount := m1[id].nRefCount - 1)], t1 - {slot})
      else (m1, t1)
  }

  lemma {:induction false} UnlistRoundsAre(c: Config, m: map<int, Info>, table: map<Slot, int>, id: int, n: nat)
    requires id in m
    ensures UnlistRounds(c, m, table, id, m[id].service, n) == UnlistBelow(c, m, table, id, n)
  {
    if n == 0 {
      UnlistNone(c, m, table, id);
    } else {
      UnlistRoundsAre(c, m, table, id, n - 1);
      UnlistNext(c, m, table, id, n - 1);
    }
  }

  lemma UnlistNone(c: Config, m: map<int, Info>, table: map<Slot, int>, id: int)
    requires id in m
    ensures UnlistBelow(c, m, table, id, 0) == (m, table)
  {
    assert FoundBelow(c, table, m[id].service, id, 0) == {};
    assert table - {} == table;
    assert m[id := m[id].(nRefCount := m[id].nRefCount - 0)] == m;
  }

  lemma UnlistNext(c: Config, m: map<int, Info>, table: map<Slot, int>, id: int, n: nat)
    requires id in m
    ensures var slot := NewSlotIn(c, n, m[id].service);
            var (m1, t1) := UnlistBelow(c, m, table, id, n);
            && id in m1 && (slot in t1 <==> slot in table) && (slot in t1 ==> t1[slot] == table[slot])
            && UnlistBelow(c, m, table, id, n + 1)
               == if slot in t1 && t1[slot] == id
                  then (m1[id := m1[id].(nRefCount := m1[id].nRefCount - 1)], t1 - {slot})
                  else (m1, t1)
  {
    var slot := NewSlotIn(c, n, m[id].service);
    var found := FoundBelow(c, table, m[id].service, id, n);
    var found1 := FoundBelow(c, table, m[id].service, id, n + 1);
    FoundNext(c, table, m[id].service, id, n);
    if slot in table && table[slot] == id {
      assert table - found1 == table - found - {slot};
      var m1 := UnlistBelow(c, m, table, id, n).0;
      assert UnlistBelow(c, m, table, id, n + 1).0 == m1[id := m1[id].(nRefCount := m1[id].nRefCount - 1)];
    }
  }

  lemma FoundNext(c: Config, table: map<Slot, int>, addr: Service, id: int, n: nat)
    ensures var slot := NewSlotIn(c, n, addr);
            var found := FoundBelow(c, table, addr, id, n);
            && slot !in found
            && FoundBelow(c, table, addr, id, n + 1) == if slot in table && table[slot] == id then found + {slot} else found
  {
    var slot := NewSlotIn(c, n, addr);
    var found := FoundBelow(c, table, addr, id, n);
    var found1 := FoundBelow(c, table, addr, id, n + 1);
    if slot in table && table[slot] == id {
      assert found1 == found + {slot};
    } else {
      assert found1 == found;
    }
  }

  lemma PositionInRange(c: Config, isNew: bool, bucket: int, addr: Service)
    ensures 0 <= Position(c, isNew, bucket, addr) < BUCKET_SIZE
  {
  }
}
