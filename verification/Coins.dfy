/**
 * The stack of unspent-output caches (src/coins.h, src/coins.cpp) over the coin database.
 *
 * A stack is specified on values by `Stack`; the classes in CoinsCache.dfy are proved against
 * these functions. The reference is a pile of plain maps from outpoint to unspent coin, one a
 * level: `Views`.
 */
module Coins {
  import opened Common

  datatype OutPoint = OutPoint(txid: nat, n: nat)
  datatype TxOut = TxOut(value: int, script: seq<Byte>)

  const OP_RETURN: Byte := 0x6a
  const MAX_SCRIPT_SIZE := 10000

  predicate IsUnspendable(script: seq<Byte>) {
    (|script| > 0 && script[0] == OP_RETURN) || |script| > MAX_SCRIPT_SIZE
  }

  /** Scripts that start with the byte 0x6a, and those of more than ten thousand bytes. */
  lemma UnspendableIff(script: seq<Byte>)
    ensures IsUnspendable(script) <==> [0x6a] <= script || |script| >= 10001
  {
  }

  datatype Coin = Coin(out: TxOut, coinbase: bool, height: nat) {
    predicate IsSpent() { out.value == -1 }

    /** Heap bytes of the script: scripts of up to 28 bytes are stored inline. */
    function DynamicMemoryUsage(): nat {
      if |out.script| <= 28 then 0 else (|out.script| + 31) / 16 * 16
    }
  }

  /** What Coin::Clear leaves behind, and also the empty coin. */
  const CoinEmpty := Coin(TxOut(-1, []), false, 0)

  /** A coin in one level of the cache, with its two flags. */
  datatype Entry = Entry(coin: Coin, isDirty: bool, isFresh: bool)

  type CoinsMap = map<OutPoint, Entry>
  type View = map<OutPoint, Coin>

  /** The five combinations that the header documents as valid. */
  predicate DocumentedState(e: Entry) {
    || (!e.coin.IsSpent() && e.isFresh && e.isDirty)
    || (!e.coin.IsSpent() && !e.isFresh && e.isDirty)
    || (!e.coin.IsSpent() && !e.isFresh && !e.isDirty)
    || (e.coin.IsSpent() && e.isFresh && !e.isDirty)
    || (e.coin.IsSpent() && !e.isFresh && e.isDirty)
  }

  /** Caches on top of the coin database, at any depth. */
  datatype Stack =
    | Database(coins: View)
    | Cache(entries: CoinsMap, usage: int, base: Stack)

  function UnspentOnly(c: Option<Coin>): Option<Coin> {
    if c.Some? && !c.value.IsSpent() then c else None
  }

  // ---------------------------------------------------------------- operations

  /** CCoinsViewCache::FetchCoin: the stack with this level's entry filled in from its base. */
  function FetchCoin(s: Stack, op: OutPoint): Stack
    requires s.Cache?
    decreases s, 0
  {
    if op in s.entries then s
    else
      var (b, found) := GetCoin(s.base, op);
      match found
      case None => s.(base := b)
      case Some(coin) =>
        Cache(s.entries[op := Entry(coin, false, coin.IsSpent())],
              s.usage + coin.DynamicMemoryUsage(), b)
  }

  /** GetCoin of a cache or of the database: the stack afterwards and the unspent coin, if any. */
  function GetCoin(s: Stack, op: OutPoint): (Stack, Option<Coin>)
    decreases s, 1
  {
    match s
    case Database(coins) => (s, Lookup(coins, op))
    case Cache(_, _, _) =>
      var t := FetchCoin(s, op);
      (t, if t.Cache? && op in t.entries && !t.entries[op].coin.IsSpent()
          then Some(t.entries[op].coin) else None)
  }

  /** CCoinsViewCache::AccessCoin. */
  function AccessCoin(s: Stack, op: OutPoint): (Stack, Coin)
    requires s.Cache?
  {
    var t := FetchCoin(s, op);
    (t, if t.Cache? && op in t.entries then t.entries[op].coin else CoinEmpty)
  }

  datatype AddResult = Added(stack: Stack) | OverwriteThrown

  /** CCoinsViewCache::AddCoin. */
  function AddCoin(s: Stack, op: OutPoint, coin: Coin, overwrite: bool): AddResult
    requires s.Cache? && !coin.IsSpent()
  {
    if IsUnspendable(coin.out.script) then Added(s)
    else
      var was := if op in s.entries then s.entries[op] else Entry(CoinEmpty, false, false);
      if !overwrite && !was.coin.IsSpent() then OverwriteThrown
      else
        var isFresh := !overwrite && !was.isDirty;
        Added(s.(entries := s.entries[op := Entry(coin, true, was.isFresh || isFresh)],
                 usage := s.usage - was.coin.DynamicMemoryUsage() + coin.DynamicMemoryUsage()))
  }

  /** CCoinsViewCache::SpendCoin: the stack afterwards and the coin moved out. */
  function SpendCoin(s: Stack, op: OutPoint): (Stack, Option<Coin>)
    requires s.Cache?
  {
    var t := FetchCoin(s, op);
    if !t.Cache? || op !in t.entries then (t, None)
    else
      var e := t.entries[op];
      var usage := t.usage - e.coin.DynamicMemoryUsage();
      if e.isFresh then
        (t.(entries := t.entries - {op}, usage := usage), Some(e.coin))
      else
        (t.(entries := t.entries[op := Entry(CoinEmpty, true, false)], usage := usage), Some(e.coin))
  }

  /** CCoinsViewCache::Uncache. */
  function Uncache(s: Stack, op: OutPoint): Stack
    requires s.Cache?
  {
    if op in s.entries && !s.entries[op].isDirty && !s.entries[op].isFresh then
      s.(entries := s.entries - {op}, usage := s.usage - s.entries[op].coin.DynamicMemoryUsage())
    else s
  }

  /** What one flushed entry of a child becomes in the parent's map. */
  function MergeEntry(child: Entry, parent: Option<Entry>): Option<Entry> {
    if !child.isDirty then parent
    else match parent
      case None =>
        if child.isFresh && child.coin.IsSpent() then None else Some(Entry(child.coin, true, child.isFresh))
      case Some(p) =>
        if p.isFresh && child.coin.IsSpent() then None else Some(Entry(child.coin, true, p.isFresh))
  }

  /** The guard of the "FRESH flag misapplied" throw, for one entry. */
  predicate Misapplied(child: Entry, parent: Option<Entry>) {
    child.isDirty && child.isFresh && parent.Some? && !parent.value.coin.IsSpent()
  }

  function MergedAt(child: CoinsMap, parent: CoinsMap, op: OutPoint): Option<Entry> {
    if op in child then MergeEntry(child[op], Lookup(parent, op)) else Lookup(parent, op)
  }

  function Merged(child: CoinsMap, parent: CoinsMap): CoinsMap {
    map op | op in child.Keys + parent.Keys && MergedAt(child, parent, op).Some?
      :: MergedAt(child, parent, op).value
  }

  /** One outpoint of the database after a batch write: dirty entries are written or erased. */
  function WrittenAt(child: CoinsMap, coins: View, op: OutPoint): Option<Coin> {
    if op in child && child[op].isDirty then UnspentOnly(Some(child[op].coin)) else Lookup(coins, op)
  }

  /** The database after CCoinsViewDB::BatchWrite of a child's map. */
  function Written(child: CoinsMap, coins: View): View {
    map op | op in child.Keys + coins.Keys && WrittenAt(child, coins, op).Some?
      :: WrittenAt(child, coins, op).value
  }

  /** BatchWrite on any level. */
  ghost function BatchWrite(s: Stack, child: CoinsMap): Stack {
    match s
    case Database(coins) => Database(Written(child, coins))
    case Cache(entries, usage, base) =>
      var merged := Merged(child, entries);
      Cache(merged, usage + SumUsage(merged) - SumUsage(entries), base)
  }

  /** Whether BatchWrite on this level throws. */
  ghost predicate BatchWriteThrows(s: Stack, child: CoinsMap) {
    s.Cache? && exists op :: op in child && Misapplied(child[op], Lookup(s.entries, op))
  }

  /** CCoinsViewCache::Flush. */
  ghost function Flush(s: Stack): Stack
    requires s.Cache?
  {
    Cache(map[], 0, BatchWrite(s.base, s.entries))
  }

  // ---------------------------------------------------------------- meaning and invariant

  /** The coins shown by a cache's entries over the view of its base. */
  ghost function Overlay(entries: CoinsMap, below: View): View {
    map op | op in entries.Keys + below.Keys && (op in entries ==> !entries[op].coin.IsSpent())
      :: if op in entries then entries[op].coin else below[op]
  }

  /** The unspent coins that a level shows. */
  ghost function ViewOf(s: Stack): View {
    match s
    case Database(coins) => coins
    case Cache(entries, _, base) => Overlay(entries, ViewOf(base))
  }

  /** The plain maps that the levels show, top first. */
  ghost function Views(s: Stack): seq<View> {
    match s
    case Database(coins) => [coins]
    case Cache(_, _, base) => [ViewOf(s)] + Views(base)
  }

  ghost function SumUsage(m: CoinsMap): nat {
    if m == map[] then 0
    else var op :| op in m; m[op].coin.DynamicMemoryUsage() + SumUsage(m - {op})
  }

  /** One entry is right for the view below it. */
  ghost predicate GoodEntry(e: Entry, op: OutPoint, below: View) {
    && (e.isFresh ==> op !in below && e.isDirty && !e.coin.IsSpent())
    && (!e.isDirty ==> op in below && below[op] == e.coin)
    && (e.coin.IsSpent() ==> e.coin == CoinEmpty)
  }

  ghost predicate GoodEntries(entries: CoinsMap, below: View) {
    forall op :: op in entries ==> GoodEntry(entries[op], op, below)
  }

  ghost predicate AllUnspent(v: View) {
    forall op :: op in v ==> !v[op].IsSpent()
  }

  ghost predicate Inv(s: Stack) {
    match s
    case Database(coins) => AllUnspent(coins)
    case Cache(entries, usage, base) =>
      && Inv(base)
      && usage == SumUsage(entries)
      && GoodEntries(entries, ViewOf(base))
  }

  // ---------------------------------------------------------------- sums over entries

  lemma {:induction false} SumRemove(m: CoinsMap, op: OutPoint)
    requires op in m
    ensures SumUsage(m) == m[op].coin.DynamicMemoryUsage() + SumUsage(m - {op})
    decreases |m|
  {
    var first :| first in m && SumUsage(m) == m[first].coin.DynamicMemoryUsage() + SumUsage(m - {first});
    if first != op {
      SumRemove(m - {first}, op);
      SumRemove(m - {op}, first);
      assert m - {first} - {op} == m - {op} - {first};
    }
  }

  lemma SumInsert(m: CoinsMap, op: OutPoint, e: Entry)
    ensures SumUsage(m[op := e])
            == SumUsage(m) - (if op in m then m[op].coin.DynamicMemoryUsage() else 0) + e.coin.DynamicMemoryUsage()
  {
    SumRemove(m[op := e], op);
    assert m[op := e] - {op} == m - {op};
    if op in m {
      SumRemove(m, op);
    } else {
      assert m - {op} == m;
    }
  }

  // ---------------------------------------------------------------- one level over a fixed base

  lemma OverlaySet(entries: CoinsMap, below: View, op: OutPoint, e: Entry)
    ensures Overlay(entries[op := e], below)
            == if e.coin.IsSpent() then Overlay(entries, below) - {op} else Overlay(entries, below)[op := e.coin]
  {
  }

  lemma OverlayRemove(entries: CoinsMap, below: View, op: OutPoint)
    ensures Overlay(entries - {op}, below)
            == if op in below then Overlay(entries, below)[op := below[op]] else Overlay(entries, below) - {op}
  {
  }

  lemma MergedEntryGood(child: CoinsMap, parent: CoinsMap, below: View, op: OutPoint)
    requires GoodEntries(parent, below) && GoodEntries(child, Overlay(parent, below))
    requires MergedAt(child, parent, op).Some?
    ensures GoodEntry(MergedAt(child, parent, op).value, op, below)
  {
    if op in child {
      assert GoodEntry(child[op], op, Overlay(parent, below));
    }
    if op in parent {
      assert GoodEntry(parent[op], op, below);
    }
  }

  lemma MergedShows(child: CoinsMap, parent: CoinsMap, below: View, op: OutPoint)
    requires GoodEntries(parent, below) && GoodEntries(child, Overlay(parent, below)) && AllUnspent(below)
    ensures Lookup(Overlay(Merged(child, parent), below), op)
            == Lookup(Overlay(child, Overlay(parent, below)), op)
  {
    if op in child {
      assert GoodEntry(child[op], op, Overlay(parent, below));
    }
    if op in parent {
      assert GoodEntry(parent[op], op, below);
    }
  }

  lemma WrittenShows(child: CoinsMap, coins: View, op: OutPoint)
    requires GoodEntries(child, coins) && AllUnspent(coins)
    ensures Lookup(Written(child, coins), op) == Lookup(Overlay(child, coins), op)
  {
    if op in child {
      assert GoodEntry(child[op], op, coins);
    }
  }

  lemma SameLookups(a: View, b: View)
    requires forall op :: Lookup(a, op) == Lookup(b, op)
    ensures a == b
  {
    forall op
      ensures op in a <==> op in b
      ensures op in a ==> a[op] == b[op]
    {
      assert Lookup(a, op) == Lookup(b, op);
    }
  }

  // ---------------------------------------------------------------- each operation against the views

  lemma {:induction false} ViewsUnspent(s: Stack)
    requires Inv(s)
    ensures AllUnspent(ViewOf(s))
  {
    if s.Cache? {
      ViewsUnspent(s.base);
    }
  }

  /** Reading fills caches on the way down, and changes what no level shows. */
  lemma {:induction false} FetchKeepsViews(s: Stack, op: OutPoint)
    requires Inv(s) && s.Cache?
    ensures var t := FetchCoin(s, op);
            && t.Cache? && Inv(t) && Views(t.base) == Views(s.base)
            && ViewOf(t.base) == ViewOf(s.base) && ViewOf(t) == ViewOf(s)
            && (if op in t.entries then UnspentOnly(Some(t.entries[op].coin)) else None) == Lookup(ViewOf(s), op)
    decreases s, 0
  {
    if op !in s.entries {
      GetAnswersView(s.base, op);
      ViewsUnspent(s.base);
      var found := GetCoin(s.base, op).1;
      if found.Some? {
        var e := Entry(found.value, false, found.value.IsSpent());
        SumInsert(s.entries, op, e);
        OverlaySet(s.entries, ViewOf(s.base), op, e);
        assert ViewOf(s)[op := e.coin] == ViewOf(s);
      }
    }
  }

  /** GetCoin answers exactly what the plain map of its level holds. */
  lemma {:induction false} GetAnswersView(s: Stack, op: OutPoint)
    requires Inv(s)
    ensures var (t, found) := GetCoin(s, op);
            && found == Lookup(ViewOf(s), op)
            && Inv(t) && Views(t) == Views(s) && ViewOf(t) == ViewOf(s) && t.Cache? == s.Cache?
    decreases s, 1
  {
    if s.Cache? {
      FetchKeepsViews(s, op);
    }
  }

  lemma AccessAnswersView(s: Stack, op: OutPoint)
    requires Inv(s) && s.Cache?
    ensures var (t, coin) := AccessCoin(s, op);
            && coin == (if op in ViewOf(s) then ViewOf(s)[op] else CoinEmpty)
            && t.Cache? && Inv(t) && Views(t) == Views(s)
  {
    FetchKeepsViews(s, op);
    var t := FetchCoin(s, op);
    if op in t.entries {
      assert GoodEntry(t.entries[op], op, ViewOf(t.base));
    }
  }

  /** AddCoin writes the coin into the top map, provided an add without overwrite meets no coin. */
  lemma AddUpdatesView(s: Stack, op: OutPoint, coin: Coin, overwrite: bool)
    requires Inv(s) && s.Cache? && !coin.IsSpent()
    requires overwrite || op !in ViewOf(s)
    ensures var r := AddCoin(s, op, coin, overwrite);
            && r.Added? && r.stack.Cache? && Inv(r.stack) && r.stack.base == s.base
            && ViewOf(r.stack) == (if IsUnspendable(coin.out.script) then ViewOf(s) else ViewOf(s)[op := coin])
  {
    if !IsUnspendable(coin.out.script) {
      ViewsUnspent(s.base);
      if op in s.entries {
        assert GoodEntry(s.entries[op], op, ViewOf(s.base));
      }
      var t := AddCoin(s, op, coin, overwrite).stack;
      SumInsert(s.entries, op, t.entries[op]);
      OverlaySet(s.entries, ViewOf(s.base), op, t.entries[op]);
      assert GoodEntry(t.entries[op], op, ViewOf(s.base));
    }
  }

  /**
   * The documented duty of the caller is exact: an add without overwrite, of a coin that can be
   * spent, goes through and keeps the invariant if and only if the level shows no coin there.
   */
  lemma AddWithoutOverwriteIff(s: Stack, op: OutPoint, coin: Coin)
    requires Inv(s) && s.Cache? && !coin.IsSpent() && !IsUnspendable(coin.out.script)
    ensures var r := AddCoin(s, op, coin, false);
            (r.Added? && Inv(r.stack)) <==> op !in ViewOf(s)
  {
    if op !in ViewOf(s) {
      AddUpdatesView(s, op, coin, false);
    } else if op !in s.entries {
      var t := AddCoin(s, op, coin, false).stack;
      assert !GoodEntry(t.entries[op], op, ViewOf(t.base));
    }
  }

  /** What breaks when the duty is ignored: the coin below comes back once the new one is spent. */
  lemma UnguardedAddResurrects()
    ensures var op, prior, added := OutPoint(1, 0), Coin(TxOut(5, []), false, 1), Coin(TxOut(9, []), false, 2);
            var s := Cache(map[], 0, Database(map[op := prior]));
            && Inv(s)
            && var r := AddCoin(s, op, added, false);
               && r.Added? && r.stack.Cache?
               && SpendCoin(r.stack, op).1 == Some(added)
               && op in ViewOf(SpendCoin(r.stack, op).0)
  {
    var op, prior, added := OutPoint(1, 0), Coin(TxOut(5, []), false, 1), Coin(TxOut(9, []), false, 2);
    var s := Cache(map[], 0, Database(map[op := prior]));
    var t := AddCoin(s, op, added, false).stack;
    var u := SpendCoin(t, op).0;
    assert u.entries == map[];
    assert op in ViewOf(u.base);
  }

  /** A fresh entry is forgotten when its coin is spent. */
  lemma ForgetFresh(t: Stack, op: OutPoint)
    requires Inv(t) && t.Cache? && op in t.entries && t.entries[op].isFresh
    ensures var u := t.(entries := t.entries - {op}, usage := t.usage - t.entries[op].coin.DynamicMemoryUsage());
            Inv(u) && ViewOf(u) == ViewOf(t) - {op}
  {
    assert GoodEntry(t.entries[op], op, ViewOf(t.base));
    SumRemove(t.entries, op);
    OverlayRemove(t.entries, ViewOf(t.base), op);
  }

  /** Any other entry stays, marked as spent. */
  lemma MarkSpent(t: Stack, op: OutPoint)
    requires Inv(t) && t.Cache? && op in t.entries
    ensures var u := t.(entries := t.entries[op := Entry(CoinEmpty, true, false)],
                        usage := t.usage - t.entries[op].coin.DynamicMemoryUsage());
            Inv(u) && ViewOf(u) == ViewOf(t) - {op}
  {
    SumInsert(t.entries, op, Entry(CoinEmpty, true, false));
    OverlaySet(t.entries, ViewOf(t.base), op, Entry(CoinEmpty, true, false));
  }

  /** SpendCoin removes the outpoint from the top map and hands out the coin it held. */
  lemma SpendUpdatesView(s: Stack, op: OutPoint)
    requires Inv(s) && s.Cache?
    ensures var (t, moved) := SpendCoin(s, op);
            && t.Cache? && Inv(t) && Views(t.base) == Views(s.base)
            && ViewOf(t) == ViewOf(s) - {op}
            && UnspentOnly(moved) == Lookup(ViewOf(s), op)
  {
    FetchKeepsViews(s, op);
    var f := FetchCoin(s, op);
    if op in f.entries {
      assert GoodEntry(f.entries[op], op, ViewOf(f.base));
      if f.entries[op].isFresh {
        ForgetFresh(f, op);
      } else {
        MarkSpent(f, op);
      }
    } else {
      assert ViewOf(s) - {op} == ViewOf(s);
    }
  }

  lemma UncacheKeepsViews(s: Stack, op: OutPoint)
    requires Inv(s) && s.Cache?
    ensures var t := Uncache(s, op);
            t.Cache? && Inv(t) && t.base == s.base && ViewOf(t) == ViewOf(s)
  {
    if op in s.entries && !s.entries[op].isDirty && !s.entries[op].isFresh {
      assert GoodEntry(s.entries[op], op, ViewOf(s.base));
      ViewsUnspent(s.base);
      SumRemove(s.entries, op);
      OverlayRemove(s.entries, ViewOf(s.base), op);
      assert ViewOf(s)[op := ViewOf(s.base)[op]] == ViewOf(s);
    }
  }

  /** On an invariant stack the "FRESH flag misapplied" throw is unreachable. */
  lemma FlushNeverThrows(s: Stack)
    requires Inv(s) && s.Cache?
    ensures !BatchWriteThrows(s.base, s.entries)
  {
    if s.base.Cache? {
      forall op | op in s.entries
        ensures !Misapplied(s.entries[op], Lookup(s.base.entries, op))
      {
        assert GoodEntry(s.entries[op], op, ViewOf(s.base));
      }
    }
  }

  /** Flush changes nothing that is visible at the top and moves the whole map one level down. */
  lemma FlushMovesView(s: Stack)
    requires Inv(s) && s.Cache?
    ensures var t := Flush(s);
            && t.Cache? && Inv(t) && t.entries == map[]
            && ViewOf(t) == ViewOf(s) && ViewOf(t.base) == ViewOf(s)
            && (s.base.Cache? ==> t.base.Cache? && t.base.base == s.base.base)
            && (s.base.Database? ==> t.base.Database?)
  {
    var t := Flush(s);
    ViewsUnspent(s);
    if s.base.Cache? {
      var child, parent, below := s.entries, s.base.entries, ViewOf(s.base.base);
      ViewsUnspent(s.base.base);
      forall op {
        MergedShows(child, parent, below, op);
      }
      SameLookups(ViewOf(t.base), ViewOf(s));
      forall op | op in Merged(child, parent)
        ensures GoodEntry(Merged(child, parent)[op], op, below)
      {
        MergedEntryGood(child, parent, below, op);
      }
    } else {
      forall op {
        WrittenShows(s.entries, s.base.coins, op);
      }
      SameLookups(ViewOf(t.base), ViewOf(s));
    }
    assert ViewOf(t) == ViewOf(t.base);
  }

  /** Entries are only ever in four of the five documented states: spent, FRESH and not DIRTY never arises. */
  lemma ReachableStates(s: Stack)
    requires Inv(s) && s.Cache?
    ensures forall op :: op in s.entries ==>
              && DocumentedState(s.entries[op])
              && !(s.entries[op].coin.IsSpent() && s.entries[op].isFresh && !s.entries[op].isDirty)
  {
    ViewsUnspent(s.base);
    forall op | op in s.entries
      ensures DocumentedState(s.entries[op])
      ensures !(s.entries[op].coin.IsSpent() && s.entries[op].isFresh && !s.entries[op].isDirty)
    {
      assert GoodEntry(s.entries[op], op, ViewOf(s.base));
    }
  }

  // ---------------------------------------------------------------- whole runs

  datatype Op =
    | GetOp(op: OutPoint)
    | AccessOp(op: OutPoint)
    | HaveOp(op: OutPoint)
    | AddOp(op: OutPoint, coin: Coin, overwrite: bool)
    | SpendOp(op: OutPoint)
    | UncacheOp(op: OutPoint)
    | FlushOp
    | PushOp   // a new cache on top of the current one
    | DropOp   // the top cache is destroyed without a flush

  datatype Answer = Done | Found(coin: Option<Coin>) | Have(yes: bool) | Spent(moved: Option<Coin>)

  /** One operation on the real stack. */
  ghost function Step(s: Stack, o: Op): (Stack, Answer)
    requires s.Cache?
  {
    match o
    case GetOp(op) => var (t, c) := GetCoin(s, op); (t, Found(c))
    case AccessOp(op) => var (t, c) := AccessCoin(s, op); (t, Found(UnspentOnly(Some(c))))
    case HaveOp(op) => var (t, c) := GetCoin(s, op); (t, Have(c.Some?))
    case AddOp(op, coin, overwrite) =>
      if coin.IsSpent() then (s, Done)
      else var r := AddCoin(s, op, coin, overwrite); (if r.Added? then r.stack else s, Done)
    case SpendOp(op) => var (t, c) := SpendCoin(s, op); (t, Spent(UnspentOnly(c)))
    case UncacheOp(op) => (Uncache(s, op), Done)
    case FlushOp => (Flush(s), Done)
    case PushOp => (Cache(map[], 0, s), Done)
    case DropOp => (if s.base.Cache? then s.base else s, Done)
  }

  /** The same operation on a pile of plain maps. */
  ghost function RefStep(v: seq<View>, o: Op): (seq<View>, Answer)
    requires |v| >= 2
  {
    match o
    case GetOp(op) => (v, Found(Lookup(v[0], op)))
    case AccessOp(op) => (v, Found(Lookup(v[0], op)))
    case HaveOp(op) => (v, Have(op in v[0]))
    case AddOp(op, coin, _) =>
      (if IsUnspendable(coin.out.script) then v else v[0 := v[0][op := coin]], Done)
    case SpendOp(op) => (v[0 := v[0] - {op}], Spent(Lookup(v[0], op)))
    case UncacheOp(_) => (v, Done)
    case FlushOp => (v[1 := v[0]], Done)
    case PushOp => ([v[0]] + v, Done)
    case DropOp => (v[1..], Done)
  }

  /** What the callers owe: real coins, no blind overwrite, and the last cache is kept. */
  ghost predicate Legal(v: seq<View>, o: Op)
    requires |v| >= 2
  {
    match o
    case AddOp(op, coin, overwrite) => !coin.IsSpent() && (overwrite || op !in v[0])
    case DropOp => |v| >= 3
    case _ => true
  }

  ghost predicate LegalRun(v: seq<View>, ops: seq<Op>)
    requires |v| >= 2
    decreases |ops|
  {
    ops == [] || (Legal(v, ops[0]) && |RefStep(v, ops[0]).0| >= 2 && LegalRun(RefStep(v, ops[0]).0, ops[1..]))
  }

  lemma {:induction false} ViewsDepth(s: Stack)
    ensures |Views(s)| >= 1 && (s.Cache? <==> |Views(s)| >= 2)
    ensures s.Cache? ==> Views(s)[1..] == Views(s.base)
    ensures Views(s)[0] == ViewOf(s)
  {
    if s.Cache? {
      ViewsDepth(s.base);
    }
  }

  lemma FlushShiftsViews(s: Stack)
    requires Inv(s) && s.Cache?
    ensures Views(s) == [ViewOf(s)] + Views(s.base) && |Views(s)| >= 2
    ensures Flush(s).Cache? && Inv(Flush(s)) && Views(Flush(s)) == Views(s)[1 := ViewOf(s)]
  {
    FlushMovesView(s);
    ShiftedViews(s, Flush(s));
  }

  lemma ShiftedViews(s: Stack, t: Stack)
    requires s.Cache? && t.Cache? && ViewOf(t) == ViewOf(s) && ViewOf(t.base) == ViewOf(s)
    requires s.base.Cache? ==> t.base.Cache? && t.base.base == s.base.base
    requires s.base.Database? ==> t.base.Database?
    ensures Views(s) == [ViewOf(s)] + Views(s.base) && |Views(s)| >= 2 && Views(t) == Views(s)[1 := ViewOf(s)]
  {
    ViewsDepth(s.base);
    ViewsDepth(t.base);
  }

  lemma TopReplaced(s: Stack, t: Stack)
    requires s.Cache? && t.Cache? && Views(s.base) == Views(t.base)
    ensures |Views(s)| >= 2 && Views(t) == Views(s)[0 := ViewOf(t)]
  {
    ViewsDepth(s);
  }

  /** One legal operation: the same answer, the same change of every level's map, the invariant kept. */
  lemma StepRefines(s: Stack, o: Op)
    requires Inv(s) && s.Cache? && |Views(s)| >= 2 && Legal(Views(s), o)
    ensures Step(s, o).0.Cache? && Inv(Step(s, o).0)
    ensures RefStep(Views(s), o).0 == Views(Step(s, o).0)
    ensures RefStep(Views(s), o).1 == Step(s, o).1
  {
    ViewsDepth(s);
    match o
    case GetOp(op) => GetAnswersView(s, op);
    case AccessOp(op) =>
      ViewsUnspent(s);
      AccessAnswersView(s, op);
    case HaveOp(op) => GetAnswersView(s, op);
    case AddOp(op, coin, overwrite) =>
      AddUpdatesView(s, op, coin, overwrite);
      TopReplaced(s, AddCoin(s, op, coin, overwrite).stack);
    case SpendOp(op) =>
      SpendUpdatesView(s, op);
      TopReplaced(s, SpendCoin(s, op).0);
    case UncacheOp(op) =>
      UncacheKeepsViews(s, op);
      TopReplaced(s, Uncache(s, op));
    case FlushOp => FlushShiftsViews(s);
    case PushOp => assert Overlay(map[], ViewOf(s)) == ViewOf(s);
    case DropOp => ViewsDepth(s.base);
  }

  ghost function Answers(s: Stack, ops: seq<Op>): seq<Answer>
    requires s.Cache?
    decreases |ops|
  {
    if ops == [] then []
    else
      var (t, a) := Step(s, ops[0]);
      if t.Cache? then [a] + Answers(t, ops[1..]) else [a]
  }

  ghost function Final(s: Stack, ops: seq<Op>): Stack
    requires s.Cache?
    decreases |ops|
  {
    if ops == [] then s
    else var t := Step(s, ops[0]).0; if t.Cache? then Final(t, ops[1..]) else t
  }

  ghost function RefAnswers(v: seq<View>, ops: seq<Op>): seq<Answer>
    requires |v| >= 2 && LegalRun(v, ops)
    decreases |ops|
  {
    if ops == [] then [] else var (w, a) := RefStep(v, ops[0]); [a] + RefAnswers(w, ops[1..])
  }

  ghost function RefFinal(v: seq<View>, ops: seq<Op>): seq<View>
    requires |v| >= 2 && LegalRun(v, ops)
    decreases |ops|
  {
    if ops == [] then v else RefFinal(RefStep(v, ops[0]).0, ops[1..])
  }

  /**
   * Every legal run, on a stack of any depth, gives the answers of the pile of plain maps, ends
   * with those maps at every level, and ends in the invariant.
   */
  lemma {:induction false} RunRefines(s: Stack, ops: seq<Op>)
    requires Inv(s) && s.Cache? && |Views(s)| >= 2 && LegalRun(Views(s), ops)
    ensures Answers(s, ops) == RefAnswers(Views(s), ops)
    ensures Final(s, ops).Cache? && Inv(Final(s, ops)) && Views(Final(s, ops)) == RefFinal(Views(s), ops)
    decreases |ops|
  {
    if ops != [] {
      StepRefines(s, ops[0]);
      RunRefines(Step(s, ops[0]).0, ops[1..]);
    }
  }
}
