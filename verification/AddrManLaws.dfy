/**
 * What the operations of the address manager (src/addrman.cpp) do, stated apart from how: who wins a tried slot
 * when collisions are resolved, who keeps a slot of the new table, and how times, services and failures are kept.
 */
module AddrManLaws {
  import opened AddrMan
  import opened Bits
  import opened Common

  // ---------------------------------------------------------------- the tried table

  /** An entry that was evicted from a tried slot has one reference, in its home slot of the new table. */
  ghost predicate WentHome(c: Config, s: State, t: State, slot: Slot) {
    slot in s.vvTried && s.vvTried[slot] in s.mapInfo ==>
      var was := s.vvTried[slot];
      var home := HomeSlot(c, s.mapInfo[was]);
      && was in t.mapInfo && !t.mapInfo[was].fInTried && t.mapInfo[was].nRefCount == 1
      && home in t.vvNew && t.vvNew[home] == was
  }

  lemma EvictedHome(c: Config, s: State, slot: Slot)
    requires CanEvict(c, s, slot)
    ensures WentHome(c, s, Evict(c, s, slot), slot)
  {
  }

  lemma PromotedHome(c: Config, s: State, u: State, t: State, slot: Slot, id: int)
    requires id in u.mapInfo && id in s.mapInfo && id in t.mapInfo && WentHome(c, s, t, slot)
    requires slot in s.vvTried && s.vvTried[slot] in s.mapInfo ==> s.vvTried[slot] != id
    requires u.vvTried == s.vvTried && s.mapInfo == u.mapInfo[id := s.mapInfo[id]]
    ensures WentHome(c, u, Promote(t, slot, id), slot)
  {
  }

  /** Moving an entry to tried changes exactly its slot there. */
  lemma MakeTriedExact(c: Config, s: State, id: int)
    requires Inv(c, s, {}) && id in s.mapInfo && !s.mapInfo[id].fInTried && CanMakeTried(c, s, id)
    ensures var slot := TriedSlot(c, s.mapInfo[id].service);
            var t := MakeTried(c, s, id);
            && t.vvTried == s.vvTried[slot := id] && id in t.mapInfo && t.mapInfo[id].fInTried
            && t.nLastGood == s.nLastGood && t.collisions == s.collisions && WentHome(c, s, t, slot)
  {
    Look(c, s, {});
    var slot := TriedSlot(c, s.mapInfo[id].service);
    UnlistTables(c, s, id, {});
    var u := Unlist(c, s, id);
    TriedUpdate(c, s.mapInfo, s.vvTried, id, u.mapInfo[id]);
    EvictRelated(c, u, slot, {id});
    EvictedHome(c, u, slot);
    PromotedHome(c, u, s, Evict(c, u, slot), slot, id);
    assert (s.vvTried - {slot})[slot := id] == s.vvTried[slot := id];
  }

  /** What marking an address good does to the tables. */
  ghost predicate GoodTables(c: Config, s: State, t: State, id: int, testBeforeEvict: bool)
    requires id in s.mapInfo
  {
    var slot := TriedSlot(c, s.mapInfo[id].service);
    if s.mapInfo[id].fInTried then
      t.vvTried == s.vvTried && t.vvNew == s.vvNew && t.collisions == s.collisions
    else if testBeforeEvict && slot in s.vvTried then
      && t.vvTried == s.vvTried && t.vvNew == s.vvNew
      && t.collisions == if |s.collisions| < 10 then s.collisions + {id} else s.collisions
    else
      && t.vvTried == s.vvTried[slot := id] && t.collisions == s.collisions
      && id in t.mapInfo && t.mapInfo[id].fInTried && WentHome(c, s, t, slot)
  }

  /** What it records: a success and a try at that time, and no failures since. */
  ghost predicate GoodRecords(s: State, t: State, id: int, time: int)
    requires id in s.mapInfo
  {
    && t.nLastGood == time
    && id in t.mapInfo
    && Recorded(t.mapInfo[id]) == Recorded(s.mapInfo[id].(nLastSuccess := time, nLastTry := time, nAttempts := 0))
    && forall k :: k in t.mapInfo && k != id ==> k in s.mapInfo && Recorded(t.mapInfo[k]) == Recorded(s.mapInfo[k])
  }

  lemma FoundByService(c: Config, s: State, id: int)
    requires Inv(c, s, {}) && id in s.mapInfo
    ensures FindExact(s, s.mapInfo[id].service) == Some(id)
  {
    Look(c, s, {});
  }

  lemma GoodNotedExact(c: Config, s: State, id: int, time: int)
    requires Consistent(c, s) && id in s.mapInfo
    ensures Consistent(c, GoodNoted(s, id, time))
  {
    LastGoodKeeps(c, s, time);
    StatsConsistent(c, s.(nLastGood := time), id, GoodNoted(s, id, time).mapInfo[id]);
  }

  /** Marking an address good: what is recorded, and where it ends up. */
  lemma GoodExact(c: Config, s: State, id: int, testBeforeEvict: bool, time: int)
    requires Consistent(c, s) && id in s.mapInfo
    ensures var t := Good(c, s, s.mapInfo[id].service, testBeforeEvict, time);
            GoodRecords(s, t, id, time) && GoodTables(c, s, t, id, testBeforeEvict)
  {
    FoundByService(c, s, id);
    GoodNotedExact(c, s, id, time);
    var n := GoodNoted(s, id, time);
    GoodMoveTimes(c, n, id, testBeforeEvict);
    var t := GoodMove(c, n, id, testBeforeEvict);
    GoodRecordsKept(s, n, t, id, time);
    if !n.mapInfo[id].fInTried && !(testBeforeEvict && TriedSlot(c, n.mapInfo[id].service) in n.vvTried) {
      HasSlots(c, n, id);
      MakeTriedKeeps(c, n, id);
      MakeTriedExact(c, n, id);
    } else if !n.mapInfo[id].fInTried {
      HasSlots(c, n, id);
    }
  }

  lemma GoodRecordsKept(s: State, n: State, t: State, id: int, time: int)
    requires id in s.mapInfo && n == GoodNoted(s, id, time) && id in t.mapInfo && t.nLastGood == time
    requires Recorded(t.mapInfo[id]) == Recorded(n.mapInfo[id])
    requires RecordsKept(n.mapInfo, t.mapInfo[id := t.mapInfo[id].(fInTried := n.mapInfo[id].fInTried)])
    ensures GoodRecords(s, t, id, time)
  {
    var m := t.mapInfo[id := t.mapInfo[id].(fInTried := n.mapInfo[id].fInTried)];
    forall k | k in t.mapInfo && k != id
      ensures k in s.mapInfo && Recorded(t.mapInfo[k]) == Recorded(s.mapInfo[k])
    {
      assert k in m && m[k] == t.mapInfo[k];
    }
  }

  // ---------------------------------------------------------------- collisions

  /** The id has the tried slot, as a success of now; whoever had it is in the new table. */
  ghost predicate Replaced(c: Config, s: State, t: State, id: int, slot: Slot, now: int) {
    && t.vvTried == s.vvTried[slot := id] && t.collisions == s.collisions - {id}
    && id in t.mapInfo && t.mapInfo[id].fInTried && t.mapInfo[id].nLastSuccess == now
    && (slot in s.vvTried && s.vvTried[slot] != id ==> WentHome(c, s, t, slot))
  }

  /** What becomes of a recorded collision with an entry of the tried table. */
  ghost predicate Settled(c: Config, s: State, t: State, id: int, candidate: Info, occupant: Info, slot: Slot, now: int) {
    var sinceSuccess, sinceTry := now - occupant.nLastSuccess, now - occupant.nLastTry;
    // a success in the last four hours: the occupant stays, and the collision is forgotten
    if sinceSuccess < 14400 then t == s.(collisions := s.collisions - {id})
    // tried in the last four hours, and more than a minute ago: it failed
    else if 60 < sinceTry < 14400 then Replaced(c, s, t, id, slot, now)
    // not tried for four hours, and the candidate has waited for forty minutes
    else if sinceTry >= 14400 && now - candidate.nLastSuccess > 2400 then Replaced(c, s, t, id, slot, now)
    else t == s
  }

  /** A recorded collision is settled by the last success and the last try of the occupant. */
  lemma ResolveSettles(c: Config, s: State, id: int, now: int)
    requires Consistent(c, s) && id in s.collisions
    ensures var t := ResolveOne(c, s, id, now);
            if id !in s.mapInfo || !c.isValid(s.mapInfo[id].service) then t == s.(collisions := s.collisions - {id})
            else
              var slot := TriedSlot(c, s.mapInfo[id].service);
              && slot in s.vvTried && s.vvTried[slot] in s.mapInfo
              && Settled(c, s, t, id, s.mapInfo[id], s.mapInfo[s.vvTried[slot]], slot, now)
  {
    if id in s.mapInfo {
      OccupantExists(c, s, id);
      if Judge(c, s, id, now).Replace? {
        ReplaceSettles(c, s, id, now);
      }
    }
  }

  lemma OccupantExists(c: Config, s: State, id: int)
    requires Consistent(c, s) && id in s.collisions && id in s.mapInfo
    ensures var slot := TriedSlot(c, s.mapInfo[id].service);
            slot in s.vvTried && s.vvTried[slot] in s.mapInfo
  {
    Look(c, s, {});
  }

  lemma ReplaceSettles(c: Config, s: State, id: int, now: int)
    requires Consistent(c, s) && id in s.mapInfo && Judge(c, s, id, now).Replace?
    ensures Replaced(c, s, ResolveOne(c, s, id, now), id, TriedSlot(c, s.mapInfo[id].service), now)
  {
    GoodReplaces(c, s, id, now);
  }

  lemma GoodReplaces(c: Config, s: State, id: int, now: int)
    requires Consistent(c, s) && id in s.mapInfo
    ensures var t := Good(c, s, s.mapInfo[id].service, false, now);
            Replaced(c, s, t.(collisions := t.collisions - {id}), id, TriedSlot(c, s.mapInfo[id].service), now)
  {
    var slot := TriedSlot(c, s.mapInfo[id].service);
    var t := Good(c, s, s.mapInfo[id].service, false, now);
    GoodExact(c, s, id, false, now);
    if s.mapInfo[id].fInTried {
      TriedHasSlot(c, s, id);
      assert s.vvTried[slot := id] == s.vvTried;
      GoodStaysTried(c, s, id, now);
    } else {
      assert t.vvTried == s.vvTried[slot := id];
    }
  }

  lemma TriedHasSlot(c: Config, s: State, id: int)
    requires Consistent(c, s) && id in s.mapInfo && s.mapInfo[id].fInTried
    ensures var slot := TriedSlot(c, s.mapInfo[id].service);
            slot in s.vvTried && s.vvTried[slot] == id
  {
    Look(c, s, {});
  }

  lemma GoodStaysTried(c: Config, s: State, id: int, now: int)
    requires Consistent(c, s) && id in s.mapInfo && s.mapInfo[id].fInTried
    ensures var t := Good(c, s, s.mapInfo[id].service, false, now);
            id in t.mapInfo && t.mapInfo[id].fInTried
  {
    FoundByService(c, s, id);
  }

  /** An entry of the tried table that succeeded in the last four hours, or was tried in the last minute. */
  ghost predicate Guarded(s: State, slot: Slot, now: int) {
    && slot in s.vvTried && s.vvTried[slot] in s.mapInfo
    && (now - s.mapInfo[s.vvTried[slot]].nLastSuccess < 14400 || now - s.mapInfo[s.vvTried[slot]].nLastTry <= 60)
  }

  lemma ResolveOneGuards(c: Config, s: State, id: int, now: int, slot: Slot)
    requires Consistent(c, s) && id in s.collisions && Guarded(s, slot, now)
    ensures var t := ResolveOne(c, s, id, now);
            Guarded(t, slot, now) && t.vvTried[slot] == s.vvTried[slot]
  {
    ResolveSettles(c, s, id, now);
    TriedAt(c, s, slot);
    if Judge(c, s, id, now).Replace? {
      ReplaceGuards(c, s, ResolveOne(c, s, id, now), id, now, slot);
    }
  }

  lemma ReplaceGuards(c: Config, s: State, t: State, id: int, now: int, slot: Slot)
    requires Consistent(c, s) && Guarded(s, slot, now) && id in s.mapInfo && t == ResolveOne(c, s, id, now)
    requires Judge(c, s, id, now).Replace? && TriedSlot(c, s.mapInfo[id].service) != slot
    requires slot in t.vvTried && t.vvTried[slot] == s.vvTried[slot] != id
    ensures Guarded(t, slot, now)
  {
    GoodExact(c, s, id, false, now);
    ResolveOneKeeps(c, s, id, now);
    TriedAt(c, t, slot);
  }

  lemma TriedAt(c: Config, s: State, slot: Slot)
    requires Consistent(c, s) && slot in s.vvTried
    ensures s.vvTried[slot] in s.mapInfo && slot == TriedSlot(c, s.mapInfo[s.vvTried[slot]].service)
  {
    Look(c, s, {});
  }

  /** Such an entry keeps its slot, however many collisions are resolved and in whatever order they come. */
  lemma {:induction false} ResolveGuards(c: Config, s: State, todo: set<int>, now: int, slot: Slot)
    requires Consistent(c, s) && Guarded(s, slot, now) && forall k :: k in todo ==> k in s.collisions
    ensures var t := Resolve(c, s, todo, now);
            Guarded(t, slot, now) && t.vvTried[slot] == s.vvTried[slot]
    decreases |todo|
  {
    if todo != {} {
      var id := Least(todo);
      ResolveOneKeeps(c, s, id, now);
      ResolveOneGuards(c, s, id, now, slot);
      ResolveOneOthers(c, s, id, now);
      ResolveGuards(c, ResolveOne(c, s, id, now), todo - {id}, now, slot);
    }
  }

  lemma ResolveOneOthers(c: Config, s: State, id: int, now: int)
    requires Consistent(c, s) && id in s.collisions
    ensures forall k :: k in s.collisions && k != id ==> k in ResolveOne(c, s, id, now).collisions
  {
    ResolveSettles(c, s, id, now);
  }

  /** Whether a collision is left for later. */
  ghost predicate Waits(c: Config, s: State, id: int, now: int) {
    && id in s.mapInfo && c.isValid(s.mapInfo[id].service)
    && var slot := TriedSlot(c, s.mapInfo[id].service);
       && slot in s.vvTried && s.vvTried[slot] in s.mapInfo
       && var occupant := s.mapInfo[s.vvTried[slot]];
          && now - occupant.nLastSuccess >= 14400
          && (now - occupant.nLastTry <= 60 || (now - occupant.nLastTry >= 14400 && now - s.mapInfo[id].nLastSuccess <= 2400))
  }

  /** While all of them wait, nothing changes. */
  lemma {:induction false} ResolveWaits(c: Config, s: State, todo: set<int>, now: int)
    requires Consistent(c, s) && forall k :: k in todo ==> k in s.collisions && Waits(c, s, k, now)
    ensures Resolve(c, s, todo, now) == s
    decreases |todo|
  {
    if todo != {} {
      var id := Least(todo);
      ResolveOneKeeps(c, s, id, now);
      ResolveSettles(c, s, id, now);
      ResolveWaits(c, s, todo - {id}, now);
    }
  }

  // ---------------------------------------------------------------- the new table

  /** Whether the entry in a slot of the new table gives way to another one. */
  predicate GivesWay(s: State, slot: Slot, id: int, now: int)
    requires slot in s.vvNew && s.vvNew[slot] in s.mapInfo && id in s.mapInfo
  {
    var occupant := s.mapInfo[s.vvNew[slot]];
    IsTerrible(occupant, now) || (occupant.nRefCount > 1 && s.mapInfo[id].nRefCount == 0)
  }

  /**
   * An entry that is to be referenced gets the slot for its source, if that is empty or its occupant gives way, and
   * nothing else changes in the table; otherwise the occupant stays, and an entry without references is gone.
   */
  lemma PlaceExact(c: Config, s: State, id: int, source: NetAddr, now: int)
    requires Inv(c, s, {id}) && id in s.mapInfo && !s.mapInfo[id].fInTried
    ensures var slot := NewSlot(c, s.mapInfo[id].service, source);
            var t := Place(c, s, id, source, now);
            && (slot in s.vvNew ==> s.vvNew[slot] in s.mapInfo)
            && if slot in s.vvNew && s.vvNew[slot] == id then t == s
               else if slot in s.vvNew && !GivesWay(s, slot, id, now) then
                 t.vvNew == s.vvNew && if s.mapInfo[id].nRefCount == 0 then id !in t.mapInfo else t == s
               else
                 && t.vvNew == s.vvNew[slot := id] && id in t.mapInfo && t.mapInfo[id].nRefCount == s.mapInfo[id].nRefCount + 1
                 && (slot in s.vvNew ==> (s.vvNew[slot] in t.mapInfo <==> s.mapInfo[s.vvNew[slot]].nRefCount > 1))
  {
    Look(c, s, {id});
    var slot := NewSlot(c, s.mapInfo[id].service, source);
    if slot in s.vvNew && s.vvNew[slot] != id {
      if GivesWay(s, slot, id, now) {
        PlaceInstead(c, s, id, source, now, slot);
      } else {
        PlaceRefused(c, s, id, source, now, slot);
      }
    }
  }

  lemma PlaceInstead(c: Config, s: State, id: int, source: NetAddr, now: int, slot: Slot)
    requires Inv(c, s, {id}) && id in s.mapInfo && !s.mapInfo[id].fInTried
    requires slot == NewSlot(c, s.mapInfo[id].service, source) && slot in s.vvNew && s.vvNew[slot] != id
    requires s.vvNew[slot] in s.mapInfo && GivesWay(s, slot, id, now)
    ensures var t := Place(c, s, id, source, now);
            && t.vvNew == s.vvNew[slot := id] && id in t.mapInfo && t.mapInfo[id].nRefCount == s.mapInfo[id].nRefCount + 1
            && (s.vvNew[slot] in t.mapInfo <==> s.mapInfo[s.vvNew[slot]].nRefCount > 1)
  {
    ClearNewKeeps(c, s, slot, {id});
    ClearNewRelated(s, slot);
    ClearedExact(s, slot);
  }

  lemma PlaceRefused(c: Config, s: State, id: int, source: NetAddr, now: int, slot: Slot)
    requires Inv(c, s, {id}) && id in s.mapInfo && !s.mapInfo[id].fInTried
    requires slot == NewSlot(c, s.mapInfo[id].service, source) && slot in s.vvNew && s.vvNew[slot] != id
    requires s.vvNew[slot] in s.mapInfo && !GivesWay(s, slot, id, now)
    ensures var t := Place(c, s, id, source, now);
            t.vvNew == s.vvNew && if s.mapInfo[id].nRefCount == 0 then id !in t.mapInfo else t == s
  {
  }

  lemma ClearedExact(s: State, slot: Slot)
    requires CanClear(s, slot) && slot in s.vvNew
    ensures var t := ClearNew(s, slot);
            && t.vvNew == s.vvNew - {slot}
            && (s.vvNew[slot] in t.mapInfo <==> s.mapInfo[s.vvNew[slot]].nRefCount > 1)
            && t.vvNew[slot := 0] == s.vvNew[slot := 0]
  {
  }

  /** Announced in the last month and not from the future, with a success to show or few failures. */
  predicate Healthy(i: Info, now: int) {
    && now - 30 * 86400 <= i.nTime <= now + 600
    && (i.nAttempts < 3 || (i.nLastSuccess != 0 && (i.nAttempts < 10 || now - i.nLastSuccess <= 7 * 86400)))
  }

  /** Such an entry, or one that was tried in the last minute, is never terrible; any other is. */
  lemma TerribleIff(i: Info, now: int)
    ensures IsTerrible(i, now) <==> now - i.nLastTry > 60 && !Healthy(i, now)
  {
  }

  // ---------------------------------------------------------------- announcements

  /**
   * An announcement of a known address adds its services, and moves its time forward to the announced one, less the
   * penalty, if that is later by more than an hour, or by more than a day for an address that was not seen for a day.
   */
  lemma RefreshedExact(i: Info, addr: Address, penalty: int, now: int)
    ensures var r := Refreshed(i, addr, penalty, now);
            var heard := addr.nTime - penalty;
            var interval := if now - addr.nTime < 86400 then 3600 else 86400;
            && r == i.(nTime := r.nTime, nServices := i.nServices + addr.nServices)
            && r.nTime >= i.nTime && (r.nTime == i.nTime || r.nTime == Max(0, heard))
            && (r.nTime == i.nTime <==> heard - i.nTime <= interval)
  {
  }

  /** What an announcement is discounted by: nothing, if the address announces itself. */
  function Discount(addr: Address, source: NetAddr, timePenalty: int): int {
    if addr.service.addr != source then timePenalty else 0
  }

  /** A known address stays known, its record is refreshed, and no other record changes. */
  lemma AddKnownExact(c: Config, s: State, addr: Address, source: NetAddr, timePenalty: int, now: int, rnd: nat)
    requires Consistent(c, s) && c.isRoutable(addr.service.addr) && Find(s, addr.service).Some?
    ensures var id := Find(s, addr.service).value;
            var t := Add(c, s, addr, source, timePenalty, now, rnd);
            && id in t.mapInfo && t.vvTried == s.vvTried
            && Recorded(t.mapInfo[id]) == Recorded(Refreshed(s.mapInfo[id], addr, Discount(addr, source, timePenalty), now))
            && (forall k :: k in t.mapInfo && k != id ==> k in s.mapInfo && Recorded(t.mapInfo[k]) == Recorded(s.mapInfo[k]))
            && (s.mapInfo[id].fInTried ==> t.vvNew == s.vvNew)
            && (t.vvNew == s.vvNew || t.vvNew == s.vvNew[NewSlot(c, s.mapInfo[id].service, source) := id])
  {
    var id := Find(s, addr.service).value;
    var i := Refreshed(s.mapInfo[id], addr, Penalty(addr, source, timePenalty), now);
    StatsKeeps(c, s, id, i, {});
    var u := SetInfo(s, id, i);
    if !KeepsRefs(i, addr, rnd) {
      PendingChange(c, u, {}, {id});
      Look(c, u, {});
      PlaceTimes(c, u, id, source, now);
      PlaceExact(c, u, id, source, now);
      PlacedTried(c, u, id, source, now);
    }
  }

  lemma {:induction false} FactorIs(n: nat)
    ensures Factor(n) == Pow2(n)
  {
    if n > 0 {
      FactorIs(n - 1);
    }
  }

  /**
   * A known entry of the new table gains a reference if it is announced as later seen, has fewer than eight, and one
   * draw in 2 to the number that it has succeeds; and then if the slot is not its own and is empty or terrible.
   */
  lemma ReferenceEarned(c: Config, s: State, addr: Address, source: NetAddr, timePenalty: int, now: int, rnd: nat)
    requires Consistent(c, s) && c.isRoutable(addr.service.addr) && Find(s, addr.service).Some?
    requires !s.mapInfo[Find(s, addr.service).value].fInTried
    ensures var id := Find(s, addr.service).value;
            var i, t := s.mapInfo[id], Add(c, s, addr, source, timePenalty, now, rnd);
            var slot := NewSlot(c, i.service, source);
            && id in t.mapInfo && i.nRefCount >= 0 && (slot in s.vvNew ==> s.vvNew[slot] in s.mapInfo)
            && t.mapInfo[id].nRefCount == i.nRefCount
               + (if && addr.nTime > t.mapInfo[id].nTime && i.nRefCount < 8 && rnd % Pow2(i.nRefCount) == 0
                     && (slot in s.vvNew ==> s.vvNew[slot] != id && IsTerrible(s.mapInfo[s.vvNew[slot]], now))
                  then 1 else 0)
  {
    AddKnownExact(c, s, addr, source, timePenalty, now, rnd);
    var id := Find(s, addr.service).value;
    var i := Refreshed(s.mapInfo[id], addr, Penalty(addr, source, timePenalty), now);
    Look(c, s, {});
    FactorIs(i.nRefCount);
    StatsKeeps(c, s, id, i, {});
    var u := SetInfo(s, id, i);
    if !KeepsRefs(i, addr, rnd) {
      PendingChange(c, u, {}, {id});
      PlaceExact(c, u, id, source, now);
    }
  }

  lemma PlacedTried(c: Config, s: State, id: int, source: NetAddr, now: int)
    requires Inv(c, s, {id}) && id in s.mapInfo && !s.mapInfo[id].fInTried
    ensures Place(c, s, id, source, now).vvTried == s.vvTried
  {
    Look(c, s, {id});
    var slot := NewSlot(c, s.mapInfo[id].service, source);
    ClearNewKeeps(c, s, slot, {id});
    ClearNewRelated(s, slot);
  }

  /** An address that is not known is entered exactly if its slot is empty or its occupant gives way. */
  lemma AddNewExact(c: Config, s: State, addr: Address, source: NetAddr, timePenalty: int, now: int, rnd: nat)
    requires Consistent(c, s) && c.isRoutable(addr.service.addr) && Find(s, addr.service).None?
    ensures var t := Add(c, s, addr, source, timePenalty, now, rnd);
            var slot := NewSlot(c, addr.service, source);
            && t.vvTried == s.vvTried && (slot in s.vvNew ==> s.vvNew[slot] in s.mapInfo)
            && if slot in s.vvNew && !Yields(s.mapInfo[s.vvNew[slot]], now) then
                 Find(t, addr.service).None? && t.vvNew == s.vvNew
               else
                 && Find(t, addr.service) == Some(s.nIdCount) && t.vvNew == s.vvNew[slot := s.nIdCount]
                 && Recorded(t.mapInfo[s.nIdCount])
                    == Info(addr.service, Max(0, addr.nTime - Discount(addr, source, timePenalty)), addr.nServices, source,
                            0, 0, 0, 0, 0, false, 0)
  {
    var penalty := Penalty(addr, source, timePenalty);
    CreateKeeps(c, s, addr, source, penalty);
    var id, u := s.nIdCount, Create(s, addr, source, penalty);
    Look(c, s, {});
    PlaceTimes(c, u, id, source, now);
    PlaceExact(c, u, id, source, now);
    PlacedTried(c, u, id, source, now);
    AddKeeps(c, s, addr, source, timePenalty, now, rnd);
    var t := Add(c, s, addr, source, timePenalty, now, rnd);
    Look(c, t, {});
    PlaceRelated(c, u, id, source, now);
  }

  /** An entry of the new table gives way to a newcomer if it is terrible or has another slot. */
  predicate Yields(i: Info, now: int) {
    IsTerrible(i, now) || i.nRefCount > 1
  }

  // ---------------------------------------------------------------- attempts and connections

  /** A call of Attempt: whether a failure counts, and when. */
  datatype Try = Try(counts: bool, time: int)

  function Tried(s: State, addr: Service, tries: seq<Try>): State {
    if tries == [] then s
    else Attempt(Tried(s, addr, tries[..|tries| - 1]), addr, tries[|tries| - 1].counts, tries[|tries| - 1].time)
  }

  predicate AnyCounts(tries: seq<Try>) {
    exists k :: 0 <= k < |tries| && tries[k].counts
  }

  /** However often an address is tried after the last success of any, at most one failure is counted. */
  lemma {:induction false} OneFailureCounted(s: State, addr: Service, tries: seq<Try>)
    requires FindExact(s, addr).Some? && forall k :: 0 <= k < |tries| ==> tries[k].time >= s.nLastGood
    ensures var id := FindExact(s, addr).value;
            var i, t := s.mapInfo[id], Tried(s, addr, tries);
            && FindExact(t, addr) == Some(id) && t == s.(mapInfo := s.mapInfo[id := t.mapInfo[id]])
            && t.mapInfo[id] == i.(nLastTry := t.mapInfo[id].nLastTry, nAttempts := t.mapInfo[id].nAttempts,
                                   nLastCountAttempt := t.mapInfo[id].nLastCountAttempt)
            && t.mapInfo[id].nLastTry == (if tries == [] then i.nLastTry else tries[|tries| - 1].time)
            && t.mapInfo[id].nAttempts == i.nAttempts + (if i.nLastCountAttempt < s.nLastGood && AnyCounts(tries) then 1 else 0)
            && (t.mapInfo[id].nLastCountAttempt < s.nLastGood <==> i.nLastCountAttempt < s.nLastGood && !AnyCounts(tries))
  {
    if tries != [] {
      var n := |tries| - 1;
      OneFailureCounted(s, addr, tries[..n]);
      OneMoreTry(tries);
    }
  }

  lemma OneMoreTry(tries: seq<Try>)
    requires tries != []
    ensures AnyCounts(tries) <==> AnyCounts(tries[..|tries| - 1]) || tries[|tries| - 1].counts
  {
    var front := tries[..|tries| - 1];
    if AnyCounts(front) {
      var k :| 0 <= k < |front| && front[k].counts;
      assert tries[k].counts;
    }
  }

  /** A connection moves the time of exactly that address and port forward, if it is more than twenty minutes old. */
  lemma ConnectedExact(s: State, addr: Service, time: int)
    ensures var t := Connected(s, addr, time);
            match FindExact(s, addr)
            case None => t == s
            case Some(id) =>
              && id in t.mapInfo
              && var was, now := s.mapInfo[id].nTime, t.mapInfo[id].nTime;
                 && t == s.(mapInfo := s.mapInfo[id := s.mapInfo[id].(nTime := now)])
                 && now >= was && now in {was, time} && time - now <= 1200 && (now == was <==> time - was <= 1200)
  {
    if FindExact(s, addr).Some? {
      var id := FindExact(s, addr).value;
      assert s.mapInfo[id].(nTime := s.mapInfo[id].nTime) == s.mapInfo[id];
    }
  }

  /** Services are set for exactly that address and port. */
  lemma SetServicesExact(s: State, addr: Service, services: set<nat>)
    ensures var t := SetServices(s, addr, services);
            match FindExact(s, addr)
            case None => t == s
            case Some(id) =>
              && FindExact(t, addr) == Some(id) && t.mapInfo[id].nServices == services
              && t == s.(mapInfo := s.mapInfo[id := s.mapInfo[id].(nServices := services)])
  {
  }

  /** An address is found under its own port only. */
  lemma OtherPortUnknown(c: Config, s: State, id: int, port: nat)
    requires Consistent(c, s) && id in s.mapInfo && port != s.mapInfo[id].service.port
    ensures FindExact(s, Service(s.mapInfo[id].service.addr, port)) == None
  {
    FoundByService(c, s, id);
  }

  // ---------------------------------------------------------------- recorded collisions over runs

  lemma AddCollisions(c: Config, s: State, addr: Address, source: NetAddr, timePenalty: int, now: int, rnd: nat)
    requires Consistent(c, s)
    ensures Add(c, s, addr, source, timePenalty, now, rnd).collisions == s.collisions
  {
    var penalty := Penalty(addr, source, timePenalty);
    match Find(s, addr.service)
    case None =>
      CreateKeeps(c, s, addr, source, penalty);
      PlaceRelated(c, Create(s, addr, source, penalty), s.nIdCount, source, now);
    case Some(id) =>
      var i := Refreshed(s.mapInfo[id], addr, penalty, now);
      StatsKeeps(c, s, id, i, {});
      if !KeepsRefs(i, addr, rnd) {
        PendingChange(c, SetInfo(s, id, i), {}, {id});
        PlaceRelated(c, SetInfo(s, id, i), id, source, now);
      }
  }

  lemma {:induction false} ShuffleCollisions(c: Config, s: State, n: nat, rnd: seq<nat>)
    requires Inv(c, s, {})
    ensures Shuffle(c, s, n, rnd).collisions == s.collisions
    decreases |rnd|
  {
    if rnd != [] && n < |s.vRandom| {
      var p := Drawn(rnd[0], n, |s.vRandom|);
      SwapKeeps(c, s, n, p, {});
      ShuffleCollisions(c, SwapRandom(s, n, p), n + 1, rnd[1..]);
    }
  }

  lemma GoodCollisions(c: Config, s: State, addr: Service, testBeforeEvict: bool, time: int)
    requires Consistent(c, s) && |s.collisions| <= 10
    ensures |Good(c, s, addr, testBeforeEvict, time).collisions| <= 10
  {
    match FindExact(s, addr)
    case None =>
    case Some(id) => GoodExact(c, s, id, testBeforeEvict, time);
  }

  lemma {:induction false} ResolveCollisionsFewer(c: Config, s: State, todo: set<int>, now: int)
    requires Consistent(c, s) && |s.collisions| <= 10
    ensures |Resolve(c, s, todo, now).collisions| <= 10
    decreases |todo|
  {
    if todo != {} {
      var id := Least(todo);
      var t := ResolveOne(c, s, id, now);
      ResolveOneKeeps(c, s, id, now);
      if Judge(c, s, id, now).Replace? {
        GoodCollisions(c, s, s.mapInfo[id].service, false, now);
      }
      ResolveCollisionsFewer(c, t, todo - {id}, now);
    }
  }

  lemma StepCollisions(c: Config, s: State, o: Op)
    requires Consistent(c, s) && |s.collisions| <= 10
    ensures |Step(c, s, o).collisions| <= 10
  {
    match o
    case AddOp(address, source, penalty, now, rnd) => AddCollisions(c, s, address, source, penalty, now, rnd);
    case GoodOp(addr, tbe, time) => GoodCollisions(c, s, addr, tbe, time);
    case AttemptOp(_, _, _) =>
    case ConnectedOp(_, _) =>
    case SetServicesOp(_, _) =>
    case GetAddrOp(draws) => ShuffleCollisions(c, s, 0, draws);
    case ResolveOp(now) => ResolveCollisionsFewer(c, s, s.collisions, now);
    case SelectOp(_) =>
  }

  lemma {:induction false} RunCollisions(c: Config, s: State, ops: seq<Op>)
    requires Consistent(c, s) && |s.collisions| <= 10
    ensures |Run(c, s, ops).collisions| <= 10
    decreases |ops|
  {
    if ops != [] {
      StepKeeps(c, s, ops[0]);
      StepCollisions(c, s, ops[0]);
      RunCollisions(c, Step(c, s, ops[0]), ops[1..]);
    }
  }

  /** Over every run at most ten collisions are recorded. */
  lemma AtMostTenCollisions(c: Config, ops: seq<Op>)
    ensures |Run(c, Empty, ops).collisions| <= 10
  {
    EmptyConsistent(c);
    RunCollisions(c, Empty, ops);
  }
}
