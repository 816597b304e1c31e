/**
 * Compact blocks (src/blockencodings.h, src/blockencodings.cpp; BIP 152) on values: where short
 * transaction ids belong, matching them against known transactions, and filling the gaps.
 */
module CompactBlock {
  import opened Common

  /** How transactions hash, and the short id of a hash under the keys of one block. */
  datatype Ids<!T, !H> = Ids(hash: T -> H, short: H -> nat)

  /** A compact block: short ids, and transactions sent along with their distance from the one before. */
  datatype Message<T> = Message(shortIds: seq<nat>, prefilled: seq<(nat, T)>)

  function BlockTxCount<T>(m: Message<T>): nat {
    |m.shortIds| + |m.prefilled|
  }

  // ---------------------------------------------------------------- slots

  function Filled<T>(avail: seq<Option<T>>): nat {
    if avail == [] then 0
    else Filled(avail[..|avail| - 1]) + if avail[|avail| - 1].Some? then 1 else 0
  }

  /** The empty slots in order. */
  function Gaps<T>(avail: seq<Option<T>>): (gaps: seq<nat>)
    ensures forall i :: 0 <= i < |gaps| ==> gaps[i] < |avail|
  {
    if avail == [] then []
    else
      var n := |avail| - 1;
      Gaps(avail[..n]) + if avail[n].None? then [n] else []
  }

  lemma {:induction false} GapsCount<T>(avail: seq<Option<T>>)
    ensures |Gaps(avail)| + Filled(avail) == |avail|
  {
    if avail != [] {
      GapsCount(avail[..|avail| - 1]);
    }
  }

  /** The gaps are exactly the empty slots, in ascending order. */
  lemma {:induction false} GapsExact<T>(avail: seq<Option<T>>, k: nat)
    ensures k in Gaps(avail) <==> k < |avail| && avail[k].None?
  {
    if avail != [] {
      GapsExact(avail[..|avail| - 1], k);
    }
  }

  ghost predicate Ascending(s: seq<nat>) {
    forall i, j :: 0 <= i < j < |s| ==> s[i] < s[j]
  }

  lemma {:induction false} GapsAscend<T>(avail: seq<Option<T>>)
    ensures Ascending(Gaps(avail))
  {
    if avail != [] {
      GapsAscend(avail[..|avail| - 1]);
    }
  }

  /** Filling an empty slot, or emptying a full one, changes the count by one. */
  lemma {:induction false} FilledUpdate<T>(avail: seq<Option<T>>, p: nat, x: Option<T>)
    requires p < |avail|
    ensures Filled(avail[p := x]) == Filled(avail) + (if x.Some? then 1 else 0) - (if avail[p].Some? then 1 else 0)
  {
    var n := |avail| - 1;
    if p < n {
      FilledUpdate(avail[..n], p, x);
      assert avail[p := x][..n] == avail[..n][p := x];
    } else {
      assert avail[p := x][..n] == avail[..n];
    }
  }

  lemma {:induction false} FilledNone<T>(n: nat)
    ensures Filled(seq(n, _ => Option<T>.None)) == 0
  {
    if n > 0 {
      FilledNone<T>(n - 1);
      assert seq(n, _ => Option<T>.None)[..n - 1] == seq(n - 1, _ => Option<T>.None);
    }
  }

  // ---------------------------------------------------------------- transactions sent along

  /** The position of the k-th transaction that was sent along. */
  function Place<T>(m: Message<T>, k: nat): int
    requires k < |m.prefilled|
  {
    (if k == 0 then -1 else Place(m, k - 1)) + m.prefilled[k].0 + 1
  }

  /** It may not lie beyond what the short ids and those before it account for. */
  predicate PlaceOk<T>(m: Message<T>, k: nat)
    requires k < |m.prefilled|
  {
    Place(m, k) <= 0xffff && Place(m, k) <= |m.shortIds| + k
  }

  ghost predicate PlacesOk<T>(m: Message<T>) {
    forall k :: 0 <= k < |m.prefilled| ==> PlaceOk(m, k)
  }

  lemma {:induction false} PlacesApart<T>(m: Message<T>, k: nat, n: nat)
    requires k <= n < |m.prefilled|
    ensures Place(m, k) + (n - k) <= Place(m, n)
    decreases n
  {
    if k < n {
      PlacesApart(m, k, n - 1);
    }
  }

  /** The places are accepted exactly if the last one lies in the block and has 16 bits. */
  lemma PlacesOkIff<T>(m: Message<T>)
    ensures PlacesOk(m)
            <==> (m.prefilled != [] ==> Place(m, |m.prefilled| - 1) < Min(|m.shortIds| + |m.prefilled|, 0x1_0000))
  {
    if m.prefilled != [] {
      var n := |m.prefilled| - 1;
      if Place(m, n) < Min(|m.shortIds| + |m.prefilled|, 0x1_0000) {
        forall k | 0 <= k < |m.prefilled|
          ensures PlaceOk(m, k)
        {
          PlacesApart(m, k, n);
        }
      } else {
        assert !PlaceOk(m, n);
      }
    }
  }

  lemma {:induction false} PlacesAscend<T>(m: Message<T>, j: nat, k: nat)
    requires j < k < |m.prefilled|
    ensures -1 < Place(m, j) < Place(m, k)
    decreases k
  {
    PlaceFrom(m, j);
    if j < k - 1 {
      PlacesAscend(m, j, k - 1);
    }
  }

  lemma {:induction false} PlaceFrom<T>(m: Message<T>, k: nat)
    requires k < |m.prefilled|
    ensures Place(m, k) >= k
  {
    if k > 0 {
      PlaceFrom(m, k - 1);
    }
  }

  /** The slots after the first k transactions have been put in place. */
  function Prefilled<T>(m: Message<T>, k: nat): (avail: seq<Option<T>>)
    requires k <= |m.prefilled| && forall i :: 0 <= i < k ==> PlaceOk(m, i)
    ensures |avail| == BlockTxCount(m)
  {
    if k == 0 then seq(BlockTxCount(m), _ => None)
    else
      PlaceFrom(m, k - 1);
      assert PlaceOk(m, k - 1);
      Prefilled(m, k - 1)[Place(m, k - 1) := Some(m.prefilled[k - 1].1)]
  }

  /** Each takes a slot of its own. */
  lemma {:induction false} PrefilledCount<T>(m: Message<T>, k: nat)
    requires k <= |m.prefilled| && forall i :: 0 <= i < k ==> PlaceOk(m, i)
    ensures Filled(Prefilled(m, k)) == k
    ensures forall p :: 0 <= p < BlockTxCount(m) && Prefilled(m, k)[p].Some? ==> k > 0 && p <= Place(m, k - 1)
  {
    if k == 0 {
      FilledNone<T>(BlockTxCount(m));
    } else {
      PrefilledCount(m, k - 1);
      PlaceFrom(m, k - 1);
      assert PlaceOk(m, k - 1);
      if k > 1 {
        PlacesAscend(m, k - 2, k - 1);
      }
      FilledUpdate(Prefilled(m, k - 1), Place(m, k - 1), Some(m.prefilled[k - 1].1));
    }
  }

  /** And is found there. */
  lemma {:induction false} PrefilledHolds<T>(m: Message<T>, k: nat, i: nat)
    requires i < k <= |m.prefilled| && forall j :: 0 <= j < k ==> PlaceOk(m, j)
    ensures 0 <= Place(m, i) < BlockTxCount(m) && Prefilled(m, k)[Place(m, i)] == Some(m.prefilled[i].1)
  {
    PlaceFrom(m, i);
    assert PlaceOk(m, i);
    if i < k - 1 {
      PlacesAscend(m, i, k - 1);
      PrefilledHolds(m, k - 1, i);
    }
  }

  /** So there are exactly as many gaps as short ids: the search for a gap never leaves the block. */
  lemma GapForEach<T>(m: Message<T>)
    requires PlacesOk(m)
    ensures |Gaps(Prefilled(m, |m.prefilled|))| == |m.shortIds|
  {
    PrefilledCount(m, |m.prefilled|);
    GapsCount(Prefilled(m, |m.prefilled|));
  }

  // ---------------------------------------------------------------- matching

  /** Slots with known transactions, which of them have ever been matched, and how many are filled that way. */
  datatype Match<T> = Match(avail: seq<Option<T>>, have: seq<bool>, count: int)

  /** A transaction from the pool for a slot; a second one empties the slot again. */
  function TakePool<T>(s: Match<T>, p: nat, tx: T): Match<T>
    requires p < |s.avail| == |s.have|
  {
    if !s.have[p] then Match(s.avail[p := Some(tx)], s.have[p := true], s.count + 1)
    else if s.avail[p].Some? then s.(avail := s.avail[p := None], count := s.count - 1)
    else s
  }

  /** Likewise for an extra transaction, but one with the same hash changes nothing. */
  function TakeExtra<T, H(==)>(ids: Ids<T, H>, s: Match<T>, p: nat, tx: T): Match<T>
    requires p < |s.avail| == |s.have|
  {
    if !s.have[p] then Match(s.avail[p := Some(tx)], s.have[p := true], s.count + 1)
    else if s.avail[p].Some? && ids.hash(s.avail[p].value) != ids.hash(tx) then
      s.(avail := s.avail[p := None], count := s.count - 1)
    else s
  }

  ghost predicate SlotsFit<T>(s: Match<T>, index: map<nat, nat>) {
    |s.avail| == |s.have| && forall id :: id in index ==> index[id] < |s.avail|
  }

  /** One known transaction, under its hash. */
  function TakeOne<T, H(==)>(ids: Ids<T, H>, s: Match<T>, index: map<nat, nat>, entry: (H, T), extra: bool): Match<T>
    requires SlotsFit(s, index)
  {
    var id := ids.short(entry.0);
    if id !in index then s
    else if extra then TakeExtra(ids, s, index[id], entry.1)
    else TakePool(s, index[id], entry.1)
  }

  lemma TakeOneFits<T, H>(ids: Ids<T, H>, s: Match<T>, index: map<nat, nat>, entry: (H, T), extra: bool)
    requires SlotsFit(s, index)
    ensures SlotsFit(TakeOne(ids, s, index, entry, extra), index)
    ensures |TakeOne(ids, s, index, entry, extra).avail| == |s.avail|
  {
  }

  /** All known transactions, until every short id is matched. */
  function Scan<T, H(==)>(ids: Ids<T, H>, s: Match<T>, index: map<nat, nat>, known: seq<(H, T)>, extra: bool): Match<T>
    requires SlotsFit(s, index)
    decreases |known|
  {
    if known == [] then s
    else
      TakeOneFits(ids, s, index, known[0], extra);
      var t := TakeOne(ids, s, index, known[0], extra);
      if t.count == |index| then t else Scan(ids, t, index, known[1..], extra)
  }

  /** What matching keeps: an unmatched slot is empty, and the count is that of filled slots. */
  ghost predicate MatchInv<T>(s: Match<T>, index: map<nat, nat>, sent: nat) {
    && SlotsFit(s, index)
    && (forall id :: id in index && !s.have[index[id]] ==> s.avail[index[id]].None?)
    && Filled(s.avail) == sent + s.count
  }

  lemma TakeOneKeeps<T, H>(ids: Ids<T, H>, s: Match<T>, index: map<nat, nat>, entry: (H, T), extra: bool, sent: nat)
    requires MatchInv(s, index, sent)
    ensures MatchInv(TakeOne(ids, s, index, entry, extra), index, sent)
  {
    var id := ids.short(entry.0);
    if id in index {
      FilledUpdate(s.avail, index[id], Some(entry.1));
      FilledUpdate(s.avail, index[id], None);
    }
  }

  lemma {:induction false} ScanKeeps<T, H>(ids: Ids<T, H>, s: Match<T>, index: map<nat, nat>, known: seq<(H, T)>, extra: bool, sent: nat)
    requires MatchInv(s, index, sent)
    ensures MatchInv(Scan(ids, s, index, known, extra), index, sent)
    decreases |known|
  {
    if known != [] {
      TakeOneKeeps(ids, s, index, known[0], extra, sent);
      var t := TakeOne(ids, s, index, known[0], extra);
      if t.count != |index| {
        ScanKeeps(ids, t, index, known[1..], extra, sent);
      }
    }
  }

  /** A slot that no short id leads to is left alone. */
  lemma {:induction false} ScanFrame<T, H>(ids: Ids<T, H>, s: Match<T>, index: map<nat, nat>, known: seq<(H, T)>, extra: bool, p: nat)
    requires SlotsFit(s, index) && p < |s.avail| && forall id :: id in index ==> index[id] != p
    ensures p < |Scan(ids, s, index, known, extra).avail| && Scan(ids, s, index, known, extra).avail[p] == s.avail[p]
    decreases |known|
  {
    if known != [] {
      TakeOneFits(ids, s, index, known[0], extra);
      var t := TakeOne(ids, s, index, known[0], extra);
      if t.count != |index| {
        ScanFrame(ids, t, index, known[1..], extra, p);
      }
    }
  }

  /** How many of some slots are filled. */
  function FilledAt<T>(avail: seq<Option<T>>, slots: seq<nat>): (n: nat)
    requires forall i :: 0 <= i < |slots| ==> slots[i] < |avail|
    ensures n <= |slots|
  {
    if slots == [] then 0
    else FilledAt(avail, slots[..|slots| - 1]) + if avail[slots[|slots| - 1]].Some? then 1 else 0
  }

  lemma {:induction false} FilledAtFront<T>(avail: seq<Option<T>>, n: nat, slots: seq<nat>)
    requires n <= |avail| && forall i :: 0 <= i < |slots| ==> slots[i] < n
    ensures FilledAt(avail, slots) == FilledAt(avail[..n], slots)
  {
    if slots != [] {
      FilledAtFront(avail, n, slots[..|slots| - 1]);
    }
  }

  /** Where full slots stay full, the filled ones are those and the gaps that have been filled. */
  lemma {:induction false} FilledSplit<T>(was: seq<Option<T>>, now: seq<Option<T>>)
    requires |was| == |now| && forall p :: 0 <= p < |was| && was[p].Some? ==> now[p].Some?
    ensures Filled(now) == Filled(was) + FilledAt(now, Gaps(was))
  {
    if was != [] {
      var n := |was| - 1;
      FilledSplit(was[..n], now[..n]);
      FilledAtFront(now, n, Gaps(was[..n]));
      if was[n].None? {
        assert Gaps(was)[..|Gaps(was)| - 1] == Gaps(was[..n]);
      } else {
        assert Gaps(was) == Gaps(was[..n]);
      }
    }
  }

  // ---------------------------------------------------------------- where short ids belong

  /** The slot of each short id; of equal ones the last counts. */
  function IndexOf(shortIds: seq<nat>, gaps: seq<nat>): (index: map<nat, nat>)
    requires |shortIds| <= |gaps|
    ensures forall id :: id in index <==> id in shortIds
  {
    if shortIds == [] then map[]
    else
      var n := |shortIds| - 1;
      IndexOf(shortIds[..n], gaps)[shortIds[n] := gaps[n]]
  }

  lemma {:induction false} IndexAt(shortIds: seq<nat>, gaps: seq<nat>, i: nat)
    requires |shortIds| <= |gaps| && Distinct(shortIds) && i < |shortIds|
    ensures IndexOf(shortIds, gaps)[shortIds[i]] == gaps[i]
  {
    var n := |shortIds| - 1;
    if i < n {
      IndexAt(shortIds[..n], gaps, i);
      assert shortIds[..n][i] == shortIds[i];
    }
  }

  lemma MapGrows(m: map<nat, nat>, k: nat, v: nat)
    ensures |m[k := v]| == |m| + if k in m then 0 else 1
  {
    if k in m {
      assert m[k := v].Keys == m.Keys;
    } else {
      assert m[k := v].Keys == m.Keys + {k};
    }
    assert |m[k := v]| == |m[k := v].Keys| && |m| == |m.Keys|;
  }

  lemma DistinctOneMore(front: seq<nat>, x: nat)
    ensures Distinct(front + [x]) <==> Distinct(front) && x !in front
  {
    var s := front + [x];
    if Distinct(s) {
      forall i, j | 0 <= i < j < |front|
        ensures front[i] != front[j]
      {
        assert s[i] != s[j];
      }
      forall i | 0 <= i < |front|
        ensures front[i] != x
      {
        assert s[i] != s[|front|];
      }
    }
  }

  /** The index is as large as the list of short ids exactly when they are distinct. */
  lemma {:induction false} IndexSize(shortIds: seq<nat>, gaps: seq<nat>)
    requires |shortIds| <= |gaps|
    ensures |IndexOf(shortIds, gaps)| <= |shortIds|
    ensures |IndexOf(shortIds, gaps)| == |shortIds| <==> Distinct(shortIds)
  {
    if shortIds != [] {
      var n := |shortIds| - 1;
      var front := shortIds[..n];
      IndexSize(front, gaps);
      MapGrows(IndexOf(front, gaps), shortIds[n], gaps[n]);
      assert shortIds == front + [shortIds[n]];
      DistinctOneMore(front, shortIds[n]);
    }
  }

  // ---------------------------------------------------------------- what a message describes

  /** A message describes a list: what was sent along and the short ids of the rest are true of it. */
  ghost predicate Describes<T, H>(ids: Ids<T, H>, m: Message<T>, vtx: seq<T>) {
    && |vtx| == BlockTxCount(m) && PlacesOk(m)
    && (forall k :: 0 <= k < |m.prefilled| ==> PlaceIn(m, k, vtx))
    && |Gaps(Prefilled(m, |m.prefilled|))| == |m.shortIds|
    && forall i :: 0 <= i < |m.shortIds| ==> m.shortIds[i] == ids.short(ids.hash(vtx[Gaps(Prefilled(m, |m.prefilled|))[i]]))
  }

  ghost predicate PlaceIn<T>(m: Message<T>, k: nat, vtx: seq<T>)
    requires k < |m.prefilled|
  {
    0 <= Place(m, k) < |vtx| && m.prefilled[k].1 == vtx[Place(m, k)]
  }

  /** CBlockHeaderAndShortTxIDs: the coinbase is sent along, the others by short id. */
  function MessageOf<T, H>(ids: Ids<T, H>, vtx: seq<T>): Message<T>
    requires vtx != []
  {
    Message(seq<nat>(|vtx| - 1, i requires 0 <= i < |vtx| - 1 => ids.short(ids.hash(vtx[i + 1]))), [(0, vtx[0])])
  }

  lemma {:induction false} GapsBehindFirst<T>(avail: seq<Option<T>>, i: nat)
    requires avail != [] && avail[0].Some? && (forall k :: 0 < k < |avail| ==> avail[k].None?) && i < |avail| - 1
    ensures |Gaps(avail)| == |avail| - 1 && Gaps(avail)[i] == i + 1
  {
    var n := |avail| - 1;
    if n > 1 {
      GapsBehindFirst(avail[..n], if i < n - 1 then i else 0);
    } else {
      assert Gaps(avail[..1]) == Gaps(avail[..0]);
    }
  }

  /** The message of a block describes it. */
  lemma MessageDescribes<T, H>(ids: Ids<T, H>, vtx: seq<T>)
    requires vtx != []
    ensures Describes(ids, MessageOf(ids, vtx), vtx)
  {
    var m := MessageOf(ids, vtx);
    assert Place(m, 0) == 0;
    assert PlacesOk(m);
    GapForEach(m);
    var avail := Prefilled(m, 1);
    assert Prefilled(m, 0)[0 := Some(vtx[0])] == avail;
    forall i | 0 <= i < |vtx| - 1
      ensures Gaps(avail)[i] == i + 1
    {
      GapsBehindFirst(avail, i);
    }
  }

  // ---------------------------------------------------------------- the right transactions

  /** Whatever is in a slot belongs there. */
  ghost predicate Right<T>(avail: seq<Option<T>>, vtx: seq<T>) {
    |avail| == |vtx| && forall p :: 0 <= p < |avail| && avail[p].Some? ==> avail[p].value == vtx[p]
  }

  lemma {:induction false} PrefilledRight<T, H>(ids: Ids<T, H>, m: Message<T>, vtx: seq<T>, k: nat)
    requires Describes(ids, m, vtx) && k <= |m.prefilled|
    ensures Right(Prefilled(m, k), vtx)
  {
    if k > 0 {
      PrefilledRight(ids, m, vtx, k - 1);
      assert PlaceOk(m, k - 1) && PlaceIn(m, k - 1, vtx);
    }
  }

  /** The short ids lead to slots of transactions with those short ids. */
  ghost predicate Leads<T, H>(ids: Ids<T, H>, index: map<nat, nat>, vtx: seq<T>) {
    forall id :: id in index ==> index[id] < |vtx| && ids.short(ids.hash(vtx[index[id]])) == id
  }

  /** No other known transaction shares a short id with one of the block's. */
  ghost predicate NoImpostor<T, H>(ids: Ids<T, H>, known: seq<(H, T)>, vtx: seq<T>) {
    forall j, p :: 0 <= j < |known| && 0 <= p < |vtx| && ids.short(known[j].0) == ids.short(ids.hash(vtx[p])) ==> known[j].1 == vtx[p]
  }

  lemma {:induction false} ScanRight<T, H>(ids: Ids<T, H>, s: Match<T>, index: map<nat, nat>, known: seq<(H, T)>, extra: bool, vtx: seq<T>)
    requires SlotsFit(s, index) && Right(s.avail, vtx) && Leads(ids, index, vtx) && NoImpostor(ids, known, vtx)
    ensures Right(Scan(ids, s, index, known, extra).avail, vtx)
    decreases |known|
  {
    if known != [] {
      var id := ids.short(known[0].0);
      if id in index {
        assert known[0].1 == vtx[index[id]];
      }
      var t := TakeOne(ids, s, index, known[0], extra);
      TakeOneFits(ids, s, index, known[0], extra);
      if t.count != |index| {
        assert forall j :: 0 <= j < |known[1..]| ==> known[1..][j] == known[j + 1];
        ScanRight(ids, t, index, known[1..], extra, vtx);
      }
    }
  }

  lemma IndexLeads<T, H>(ids: Ids<T, H>, m: Message<T>, vtx: seq<T>)
    requires Describes(ids, m, vtx) && Distinct(m.shortIds)
    ensures Leads(ids, IndexOf(m.shortIds, Gaps(Prefilled(m, |m.prefilled|))), vtx)
  {
    var gaps := Gaps(Prefilled(m, |m.prefilled|));
    var index := IndexOf(m.shortIds, gaps);
    forall id | id in index
      ensures index[id] < |vtx| && ids.short(ids.hash(vtx[index[id]])) == id
    {
      var i :| 0 <= i < |m.shortIds| && m.shortIds[i] == id;
      IndexAt(m.shortIds, gaps, i);
    }
  }

  // ---------------------------------------------------------------- filling the gaps

  /** The transactions that are missing, in order. */
  function Missing<T>(avail: seq<Option<T>>, vtx: seq<T>): seq<T>
    requires |avail| == |vtx|
  {
    if avail == [] then []
    else
      var n := |avail| - 1;
      Missing(avail[..n], vtx[..n]) + if avail[n].None? then [vtx[n]] else []
  }

  /** Gaps filled from the front of a list, and how many were needed; nothing if there are too few. */
  function Fill<T>(avail: seq<Option<T>>, missing: seq<T>): Option<(seq<T>, nat)> {
    if avail == [] then Some(([], 0))
    else
      var n := |avail| - 1;
      match Fill(avail[..n], missing)
      case None => None
      case Some((vtx, used)) =>
        if avail[n].Some? then Some((vtx + [avail[n].value], used))
        else if used < |missing| then Some((vtx + [missing[used]], used + 1))
        else None
  }

  /** Given right slots and what is missing, in order, the whole list comes out. */
  lemma {:induction false} FillExact<T>(avail: seq<Option<T>>, vtx: seq<T>, more: seq<T>)
    requires Right(avail, vtx)
    ensures Fill(avail, Missing(avail, vtx) + more) == Some((vtx, |Missing(avail, vtx)|))
  {
    if avail != [] {
      var n := |avail| - 1;
      var last := if avail[n].None? then [vtx[n]] else [];
      FillExact(avail[..n], vtx[..n], last + more);
      var front := Missing(avail[..n], vtx[..n]);
      assert Missing(avail, vtx) == front + last;
      assert (front + last) + more == front + (last + more);
      assert avail[n].None? ==> (front + (last + more))[|front|] == vtx[n];
      assert vtx == vtx[..n] + [vtx[n]];
    }
  }

  /** What is missing is what the gaps hold. */
  lemma {:induction false} MissingIsGaps<T>(avail: seq<Option<T>>, vtx: seq<T>)
    requires |avail| == |vtx|
    ensures |Missing(avail, vtx)| == |Gaps(avail)|
    ensures forall i :: 0 <= i < |Gaps(avail)| ==> Missing(avail, vtx)[i] == vtx[Gaps(avail)[i]]
  {
    if avail != [] {
      MissingIsGaps(avail[..|avail| - 1], vtx[..|avail| - 1]);
    }
  }

  // ---------------------------------------------------------------- reconstruction

  /** The slots before anything is matched. */
  function Start<T>(m: Message<T>): Match<T>
    requires PlacesOk(m)
  {
    Match(Prefilled(m, |m.prefilled|), seq(BlockTxCount(m), _ => false), 0)
  }

  function Index<T>(m: Message<T>): (index: map<nat, nat>)
    requires PlacesOk(m)
    ensures SlotsFit(Start(m), index)
  {
    GapForEach(m);
    var gaps := Gaps(Prefilled(m, |m.prefilled|));
    IndexInto(m.shortIds, gaps);
    IndexOf(m.shortIds, gaps)
  }

  lemma {:induction false} IndexInto(shortIds: seq<nat>, gaps: seq<nat>)
    requires |shortIds| <= |gaps|
    ensures forall id :: id in IndexOf(shortIds, gaps) ==> IndexOf(shortIds, gaps)[id] in gaps
  {
    if shortIds != [] {
      IndexInto(shortIds[..|shortIds| - 1], gaps);
    }
  }

  /** The slots after the pool and the extra transactions have been scanned. */
  function Matched<T, H(==)>(ids: Ids<T, H>, m: Message<T>, pool: seq<(H, T)>, extra: seq<(H, T)>): Match<T>
    requires PlacesOk(m)
  {
    var s := Scan(ids, Start(m), Index(m), pool, false);
    ScanFits(ids, Start(m), Index(m), pool, false);
    Scan(ids, s, Index(m), extra, true)
  }

  /** How many short ids are matched by the pool alone. */
  function PoolCount<T, H(==)>(ids: Ids<T, H>, m: Message<T>, pool: seq<(H, T)>): int
    requires PlacesOk(m)
  {
    Scan(ids, Start(m), Index(m), pool, false).count
  }

  lemma {:induction false} ScanFits<T, H>(ids: Ids<T, H>, s: Match<T>, index: map<nat, nat>, known: seq<(H, T)>, extra: bool)
    requires SlotsFit(s, index)
    ensures SlotsFit(Scan(ids, s, index, known, extra), index) && |Scan(ids, s, index, known, extra).avail| == |s.avail|
    decreases |known|
  {
    if known != [] {
      TakeOneFits(ids, s, index, known[0], extra);
      var t := TakeOne(ids, s, index, known[0], extra);
      if t.count != |index| {
        ScanFits(ids, t, index, known[1..], extra);
      }
    }
  }

  lemma StartInv<T>(m: Message<T>)
    requires PlacesOk(m)
    ensures MatchInv(Start(m), Index(m), |m.prefilled|)
  {
    GapForEach(m);
    PrefilledCount(m, |m.prefilled|);
    var gaps := Gaps(Prefilled(m, |m.prefilled|));
    IndexInto(m.shortIds, gaps);
    forall id | id in Index(m)
      ensures Start(m).avail[Index(m)[id]].None?
    {
      GapsExact(Prefilled(m, |m.prefilled|), Index(m)[id]);
    }
  }

  /** The slots that are left for short ids. */
  function ShortSlots<T>(m: Message<T>): seq<nat>
    requires PlacesOk(m)
  {
    Gaps(Prefilled(m, |m.prefilled|))
  }

  /** No scan touches a transaction that was sent along. */
  lemma SentStays<T, H>(ids: Ids<T, H>, m: Message<T>, pool: seq<(H, T)>, extra: seq<(H, T)>, p: nat)
    requires PlacesOk(m) && p < BlockTxCount(m) && Prefilled(m, |m.prefilled|)[p].Some?
    ensures p < |Matched(ids, m, pool, extra).avail| && Matched(ids, m, pool, extra).avail[p] == Prefilled(m, |m.prefilled|)[p]
  {
    GapForEach(m);
    IndexInto(m.shortIds, ShortSlots(m));
    GapsExact(Prefilled(m, |m.prefilled|), p);
    ScanFrame(ids, Start(m), Index(m), pool, false, p);
    ScanFits(ids, Start(m), Index(m), pool, false);
    ScanFrame(ids, Scan(ids, Start(m), Index(m), pool, false), Index(m), extra, true, p);
  }

  lemma MatchedFilled<T, H>(ids: Ids<T, H>, m: Message<T>, pool: seq<(H, T)>, extra: seq<(H, T)>)
    requires PlacesOk(m)
    ensures |Matched(ids, m, pool, extra).avail| == BlockTxCount(m)
    ensures Filled(Matched(ids, m, pool, extra).avail) == |m.prefilled| + Matched(ids, m, pool, extra).count
  {
    StartInv(m);
    ScanKeeps(ids, Start(m), Index(m), pool, false, |m.prefilled|);
    var s := Scan(ids, Start(m), Index(m), pool, false);
    ScanKeeps(ids, s, Index(m), extra, true, |m.prefilled|);
    ScanFits(ids, Start(m), Index(m), pool, false);
    ScanFits(ids, s, Index(m), extra, true);
  }

  /**
   * However transactions match and collide, what was sent along stays in place, and the count is the number of
   * short ids whose slots are filled; in particular it is never negative.
   */
  lemma MatchedCount<T, H>(ids: Ids<T, H>, m: Message<T>, pool: seq<(H, T)>, extra: seq<(H, T)>)
    requires PlacesOk(m)
    ensures |ShortSlots(m)| == |m.shortIds| && |Matched(ids, m, pool, extra).avail| == BlockTxCount(m)
    ensures forall p :: 0 <= p < BlockTxCount(m) && Prefilled(m, |m.prefilled|)[p].Some? ==>
              Matched(ids, m, pool, extra).avail[p] == Prefilled(m, |m.prefilled|)[p]
    ensures 0 <= Matched(ids, m, pool, extra).count == FilledAt(Matched(ids, m, pool, extra).avail, ShortSlots(m)) <= |m.shortIds|
  {
    MatchedFilled(ids, m, pool, extra);
    GapForEach(m);
    PrefilledCount(m, |m.prefilled|);
    var was, now := Prefilled(m, |m.prefilled|), Matched(ids, m, pool, extra).avail;
    forall p: nat | p < BlockTxCount(m) && was[p].Some?
      ensures now[p] == was[p]
    {
      SentStays(ids, m, pool, extra, p);
    }
    FilledSplit(was, now);
  }

  /**
   * A receiver that is then given, in order, what it found missing assembles exactly the sender's
   * list, if no other known transaction shares a short id with one of the block's.
   */
  lemma Reconstructs<T, H>(ids: Ids<T, H>, m: Message<T>, vtx: seq<T>, pool: seq<(H, T)>, extra: seq<(H, T)>)
    requires Describes(ids, m, vtx) && Distinct(m.shortIds) && NoImpostor(ids, pool, vtx) && NoImpostor(ids, extra, vtx)
    ensures |Matched(ids, m, pool, extra).avail| == |vtx| && Right(Matched(ids, m, pool, extra).avail, vtx)
    ensures var avail := Matched(ids, m, pool, extra).avail;
            Fill(avail, Missing(avail, vtx)) == Some((vtx, |Missing(avail, vtx)|))
  {
    PrefilledRight(ids, m, vtx, |m.prefilled|);
    IndexLeads(ids, m, vtx);
    ScanRight(ids, Start(m), Index(m), pool, false, vtx);
    var s := Scan(ids, Start(m), Index(m), pool, false);
    ScanFits(ids, Start(m), Index(m), pool, false);
    ScanRight(ids, s, Index(m), extra, true, vtx);
    var avail := Matched(ids, m, pool, extra).avail;
    FillExact(avail, vtx, []);
    assert Missing(avail, vtx) + [] == Missing(avail, vtx);
  }

  // ---------------------------------------------------------------- lists of indexes on the wire

  const MAX64: nat := 0xffff_ffff_ffff_ffff

  /** DifferenceFormatter: the distances between ascending indexes; none, where the source throws. */
  function Differences(shift: nat, indexes: seq<nat>): Option<seq<nat>>
    decreases |indexes|
  {
    if indexes == [] then Some([])
    else if indexes[0] < shift || indexes[0] >= MAX64 then None
    else
      match Differences(indexes[0] + 1, indexes[1..])
      case None => None
      case Some(rest) => Some([indexes[0] - shift] + rest)
  }

  function Wrap64(x: nat): (r: nat)
    ensures r <= MAX64 && (x <= MAX64 ==> r == x)
  {
    x % 0x1_0000_0000_0000_0000
  }

  /** The indexes from their distances, in 64-bit arithmetic, for indexes up to a limit. */
  function Restored(shift: nat, diffs: seq<nat>, limit: nat): Option<seq<nat>>
    decreases |diffs|
  {
    if diffs == [] then Some([])
    else
      var sum := Wrap64(shift + diffs[0]);
      if sum < diffs[0] || sum >= MAX64 || sum > limit then None
      else
        match Restored(sum + 1, diffs[1..], limit)
        case None => None
        case Some(rest) => Some([sum] + rest)
  }

  ghost predicate AscendingFrom(shift: nat, indexes: seq<nat>) {
    (indexes != [] ==> indexes[0] >= shift) && Ascending(indexes)
  }

  /** Exactly the ascending lists of indexes less than 2^64 - 1 can be written. */
  lemma {:induction false} WritableIff(shift: nat, indexes: seq<nat>)
    ensures Differences(shift, indexes).Some?
            <==> AscendingFrom(shift, indexes) && forall i :: 0 <= i < |indexes| ==> indexes[i] < 0xffff_ffff_ffff_ffff
    decreases |indexes|
  {
    if indexes != [] {
      var rest := indexes[1..];
      WritableIff(indexes[0] + 1, rest);
      assert forall i :: 0 <= i < |rest| ==> rest[i] == indexes[i + 1];
      if AscendingFrom(shift, indexes) {
        assert rest != [] ==> indexes[0] < indexes[1] == rest[0];
        assert Ascending(rest);
      }
      if AscendingFrom(indexes[0] + 1, rest) {
        forall i, j | 0 <= i < j < |indexes|
          ensures indexes[i] < indexes[j]
        {
          assert indexes[j] == rest[j - 1] && rest[0] <= rest[j - 1];
          assert i > 0 ==> indexes[i] == rest[i - 1];
        }
      }
    }
  }

  lemma RestoreOne(shift: nat, diffs: seq<nat>, limit: nat, x: nat)
    requires diffs != [] && shift + diffs[0] == x <= limit < MAX64
    ensures Restored(shift, diffs, limit)
            == match Restored(x + 1, diffs[1..], limit) case None => None case Some(rest) => Some([x] + rest)
  {
  }

  /** What was written is read back. */
  lemma {:induction false} DifferencesRestored(shift: nat, indexes: seq<nat>, limit: nat)
    requires Differences(shift, indexes).Some? && limit < MAX64 && forall i :: 0 <= i < |indexes| ==> indexes[i] <= limit
    ensures Restored(shift, Differences(shift, indexes).value, limit) == Some(indexes)
    decreases |indexes|
  {
    if indexes != [] {
      DifferencesRestored(indexes[0] + 1, indexes[1..], limit);
      var rest := Differences(indexes[0] + 1, indexes[1..]).value;
      RestoreOne(shift, [indexes[0] - shift] + rest, limit, indexes[0]);
      assert ([indexes[0] - shift] + rest)[1..] == rest;
      assert indexes == [indexes[0]] + indexes[1..];
    }
  }

  /** Whatever is read, it is an ascending list within the limit, and exactly its distances are read as it. */
  lemma {:induction false} RestoredOnly(shift: nat, diffs: seq<nat>, limit: nat, indexes: seq<nat>)
    requires shift <= MAX64 && (forall i :: 0 <= i < |diffs| ==> diffs[i] <= MAX64) && Restored(shift, diffs, limit) == Some(indexes)
    ensures Differences(shift, indexes) == Some(diffs) && forall i :: 0 <= i < |indexes| ==> indexes[i] <= limit
    decreases |diffs|
  {
    if diffs != [] {
      var sum := Wrap64(shift + diffs[0]);
      var rest := Restored(sum + 1, diffs[1..], limit).value;
      RestoredOnly(sum + 1, diffs[1..], limit, rest);
      assert indexes[1..] == rest;
      assert diffs == [diffs[0]] + diffs[1..];
    }
  }
}
