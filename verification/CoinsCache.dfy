/**
 * The mutable form of the coin caches: a class per level, each holding a reference to its base,
 * with every method proved against the functions of module Coins.
 */
module CoinsCache {
  import opened Common
  import opened Coins

  /** The coin database at the bottom of the stack. */
  class CoinsDb {
    var coins: View

    constructor (coins: View)
      ensures this.coins == coins
    {
      this.coins := coins;
    }

    /** CCoinsViewDB::BatchWrite: consumes the child's map, in any order. */
    method BatchWrite(mapCoins: CoinsMap)
      modifies this
      ensures coins == Written(mapCoins, old(coins))
    {
      var todo := mapCoins;
      while todo != map[]
        invariant todo.Keys <= mapCoins.Keys
        invariant forall op :: op in todo ==> todo[op] == mapCoins[op]
        invariant forall op :: Lookup(coins, op)
                               == if op in todo then Lookup(old(coins), op) else WrittenAt(mapCoins, old(coins), op)
        decreases |todo|
      {
        var op :| op in todo;
        if todo[op].isDirty {
          if todo[op].coin.IsSpent() {
            coins := coins - {op};
          } else {
            coins := coins[op := todo[op].coin];
          }
        }
        todo := todo - {op};
      }
      forall op
        ensures Lookup(coins, op) == Lookup(Written(mapCoins, old(coins)), op)
      {
        assert Lookup(coins, op) == WrittenAt(mapCoins, old(coins), op);
      }
      SameLookups(coins, Written(mapCoins, old(coins)));
    }
  }

  /** What a cache reads through to. */
  datatype Base = OnDb(db: CoinsDb) | OnCache(cache: CoinsViewCache)

  class CoinsViewCache {
    const base: Base
    var cacheCoins: CoinsMap
    var cachedCoinsUsage: int
    ghost const Repr: set<object>

    /** The levels below are separate objects, so the stack is finite and has no sharing. */
    ghost predicate Valid()
      decreases Repr
    {
      && this in Repr
      && match base
         case OnDb(db) => db in Repr
         case OnCache(c) => c in Repr && c.Repr <= Repr && this !in c.Repr && c.Valid()
    }

    /** The stack of values that this object and those below it hold. */
    ghost function Abstract(): Stack
      requires Valid()
      reads Repr
      decreases Repr
    {
      Cache(cacheCoins, cachedCoinsUsage,
            match base
            case OnDb(db) => Database(db.coins)
            case OnCache(c) => c.Abstract())
    }

    constructor (base: Base)
      requires base.OnCache? ==> base.cache.Valid()
      ensures Valid()
      ensures Abstract() == Cache(map[], 0, match base case OnDb(db) => Database(db.coins) case OnCache(c) => c.Abstract())
    {
      this.base := base;
      this.Repr := {this} + (match base case OnDb(db) => {db} case OnCache(c) => c.Repr + {c});
      cacheCoins, cachedCoinsUsage := map[], 0;
    }

    /** FetchCoin; the result says whether this level now has an entry. */
    method FetchCoin(op: OutPoint) returns (found: bool)
      requires Valid()
      modifies Repr
      ensures Abstract() == Coins.FetchCoin(old(Abstract()), op)
      ensures found == (op in cacheCoins)
      decreases Repr, 0
    {
      if op in cacheCoins {
        return true;
      }
      var tmp: Option<Coin>;
      match base {
        case OnDb(db) => tmp := Lookup(db.coins, op);
        case OnCache(c) => tmp := c.GetCoin(op);
      }
      if tmp.None? {
        return false;
      }
      cacheCoins := cacheCoins[op := Entry(tmp.value, false, tmp.value.IsSpent())];
      cachedCoinsUsage := cachedCoinsUsage + tmp.value.DynamicMemoryUsage();
      return true;
    }

    method GetCoin(op: OutPoint) returns (coin: Option<Coin>)
      requires Valid()
      modifies Repr
      ensures (Abstract(), coin) == Coins.GetCoin(old(Abstract()), op)
      decreases Repr, 1
    {
      var found := FetchCoin(op);
      if found && !cacheCoins[op].coin.IsSpent() {
        return Some(cacheCoins[op].coin);
      }
      return None;
    }

    method AccessCoin(op: OutPoint) returns (coin: Coin)
      requires Valid()
      modifies Repr
      ensures (Abstract(), coin) == Coins.AccessCoin(old(Abstract()), op)
    {
      var found := FetchCoin(op);
      coin := if found then cacheCoins[op].coin else CoinEmpty;
    }

    method HaveCoin(op: OutPoint) returns (have: bool)
      requires Valid()
      modifies Repr
      ensures Abstract() == Coins.GetCoin(old(Abstract()), op).0
      ensures have == Coins.GetCoin(old(Abstract()), op).1.Some?
    {
      var found := FetchCoin(op);
      have := found && !cacheCoins[op].coin.IsSpent();
    }

    /** AddCoin; `ok` is false where the source throws. */
    method AddCoin(op: OutPoint, coin: Coin, possibleOverwrite: bool) returns (ok: bool)
      requires Valid() && !coin.IsSpent()
      modifies this
      ensures ok == Coins.AddCoin(old(Abstract()), op, coin, possibleOverwrite).Added?
      ensures ok ==> Added(Abstract()) == Coins.AddCoin(old(Abstract()), op, coin, possibleOverwrite)
    {
      if IsUnspendable(coin.out.script) {
        return true;
      }
      var inserted := op !in cacheCoins;
      if inserted {
        cacheCoins := cacheCoins[op := Entry(CoinEmpty, false, false)];
      } else {
        cachedCoinsUsage := cachedCoinsUsage - cacheCoins[op].coin.DynamicMemoryUsage();
      }
      var isFresh := false;
      if !possibleOverwrite {
        if !cacheCoins[op].coin.IsSpent() {
          return false;
        }
        isFresh := !cacheCoins[op].isDirty;
      }
      cacheCoins := cacheCoins[op := Entry(coin, true, cacheCoins[op].isFresh || isFresh)];
      cachedCoinsUsage := cachedCoinsUsage + coin.DynamicMemoryUsage();
      assert cacheCoins == old(cacheCoins)[op := cacheCoins[op]];
      return true;
    }

    method SpendCoin(op: OutPoint) returns (moveout: Option<Coin>)
      requires Valid()
      modifies Repr
      ensures (Abstract(), moveout) == Coins.SpendCoin(old(Abstract()), op)
    {
      var found := FetchCoin(op);
      if !found {
        return None;
      }
      cachedCoinsUsage := cachedCoinsUsage - cacheCoins[op].coin.DynamicMemoryUsage();
      moveout := Some(cacheCoins[op].coin);
      if cacheCoins[op].isFresh {
        cacheCoins := cacheCoins - {op};
      } else {
        cacheCoins := cacheCoins[op := Entry(CoinEmpty, true, cacheCoins[op].isFresh)];
      }
    }

    method Uncache(op: OutPoint)
      requires Valid()
      modifies this
      ensures Abstract() == Coins.Uncache(old(Abstract()), op)
    {
      if op in cacheCoins && !cacheCoins[op].isDirty && !cacheCoins[op].isFresh {
        cachedCoinsUsage := cachedCoinsUsage - cacheCoins[op].coin.DynamicMemoryUsage();
        cacheCoins := cacheCoins - {op};
      }
    }

    /** The body of BatchWrite's loop, for one entry of the child. */
    method MergeOne(op: OutPoint, child: Entry) returns (ok: bool)
      modifies `cacheCoins, `cachedCoinsUsage
      ensures ok == !Misapplied(child, Lookup(old(cacheCoins), op))
      ensures ok ==> forall other :: Lookup(cacheCoins, other)
                       == if other == op then MergeEntry(child, Lookup(old(cacheCoins), op))
                          else Lookup(old(cacheCoins), other)
      ensures ok ==> cachedCoinsUsage - SumUsage(cacheCoins) == old(cachedCoinsUsage) - SumUsage(old(cacheCoins))
    {
      if !child.isDirty {
        return true;
      }
      if op !in cacheCoins {
        if !(child.isFresh && child.coin.IsSpent()) {
          SumInsert(cacheCoins, op, Entry(child.coin, true, child.isFresh));
          cacheCoins := cacheCoins[op := Entry(child.coin, true, child.isFresh)];
          cachedCoinsUsage := cachedCoinsUsage + child.coin.DynamicMemoryUsage();
        }
      } else {
        var us := cacheCoins[op];
        if child.isFresh && !us.coin.IsSpent() {
          return false;
        }
        if us.isFresh && child.coin.IsSpent() {
          SumRemove(cacheCoins, op);
          cachedCoinsUsage := cachedCoinsUsage - us.coin.DynamicMemoryUsage();
          cacheCoins := cacheCoins - {op};
        } else {
          SumInsert(cacheCoins, op, Entry(child.coin, true, us.isFresh));
          cachedCoinsUsage := cachedCoinsUsage - us.coin.DynamicMemoryUsage() + child.coin.DynamicMemoryUsage();
          cacheCoins := cacheCoins[op := Entry(child.coin, true, us.isFresh)];
        }
      }
      return true;
    }

    /** BatchWrite's loop: the child's map is consumed in any order. */
    method MergeAll(mapCoins: CoinsMap) returns (ok: bool)
      modifies `cacheCoins, `cachedCoinsUsage
      ensures ok == forall op :: op in mapCoins ==> !Misapplied(mapCoins[op], Lookup(old(cacheCoins), op))
      ensures ok ==> cacheCoins == Merged(mapCoins, old(cacheCoins))
      ensures ok ==> cachedCoinsUsage - SumUsage(cacheCoins) == old(cachedCoinsUsage) - SumUsage(old(cacheCoins))
    {
      ghost var parent := cacheCoins;
      var todo := mapCoins;
      while todo != map[]
        invariant todo.Keys <= mapCoins.Keys
        invariant forall op :: op in todo ==> todo[op] == mapCoins[op]
        invariant forall op :: Lookup(cacheCoins, op)
                               == if op in todo then Lookup(parent, op) else MergedAt(mapCoins, parent, op)
        invariant forall op :: op in mapCoins && op !in todo ==> !Misapplied(mapCoins[op], Lookup(parent, op))
        invariant cachedCoinsUsage - SumUsage(cacheCoins) == old(cachedCoinsUsage) - SumUsage(parent)
        decreases |todo|
      {
        var op :| op in todo;
        ok := MergeOne(op, todo[op]);
        if !ok {
          return;
        }
        todo := todo - {op};
      }
      SameEntries(cacheCoins, mapCoins, parent);
      return true;
    }

    /** BatchWrite; `ok` is false where the source throws, and that does not depend on the order. */
    method BatchWrite(mapCoins: CoinsMap) returns (ok: bool)
      requires Valid()
      modifies this
      ensures ok == !BatchWriteThrows(old(Abstract()), mapCoins)
      ensures ok ==> Abstract() == Coins.BatchWrite(old(Abstract()), mapCoins)
    {
      ok := MergeAll(mapCoins);
    }

    /** Flush: pushes this level's changes down and empties it. */
    method Flush() returns (ok: bool)
      requires Valid()
      modifies Repr
      ensures ok == !BatchWriteThrows(old(Abstract()).base, old(Abstract()).entries)
      ensures ok ==> Abstract() == Coins.Flush(old(Abstract()))
    {
      match base {
        case OnDb(db) =>
          db.BatchWrite(cacheCoins);
          ok := true;
        case OnCache(c) =>
          ok := c.BatchWrite(cacheCoins);
      }
      cacheCoins := map[];
      cachedCoinsUsage := 0;
    }

    /** On a stack in the invariant Flush cannot throw, and the top shows the same coins afterwards. */
    method FlushSafely()
      requires Valid() && Inv(Abstract())
      modifies Repr
      ensures Inv(Abstract()) && ViewOf(Abstract()) == old(ViewOf(Abstract()))
      ensures ViewOf(Abstract().base) == old(ViewOf(Abstract()))
    {
      FlushNeverThrows(Abstract());
      FlushMovesView(Abstract());
      var ok := Flush();
      assert ok;
    }
  }

  lemma SameEntries(m: CoinsMap, child: CoinsMap, parent: CoinsMap)
    requires forall op :: Lookup(m, op) == MergedAt(child, parent, op)
    ensures m == Merged(child, parent)
  {
    forall op
      ensures op in m <==> op in Merged(child, parent)
      ensures op in m ==> m[op] == Merged(child, parent)[op]
    {
      assert Lookup(m, op) == MergedAt(child, parent, op);
    }
  }

  /** A transaction's output as AddCoins sees it. */
  function OutputCoin(tx: Transaction, i: nat, height: nat): Coin
    requires i < |tx.vout|
  {
    Coin(tx.vout[i], tx.isCoinBase, height)
  }

  datatype Transaction = Transaction(txid: nat, vout: seq<TxOut>, isCoinBase: bool)

  /** The plain map after the first n outputs of a transaction have been added. */
  ghost function WithOutputs(v: View, tx: Transaction, height: nat, n: nat): View
    requires n <= |tx.vout|
  {
    if n == 0 then v
    else
      var before := WithOutputs(v, tx, height, n - 1);
      if IsUnspendable(tx.vout[n - 1].script) then before
      else before[OutPoint(tx.txid, n - 1) := OutputCoin(tx, n - 1, height)]
  }

  lemma {:induction false} OtherOutputsUntouched(v: View, tx: Transaction, height: nat, n: nat, i: nat)
    requires n <= i && n <= |tx.vout|
    ensures OutPoint(tx.txid, i) in WithOutputs(v, tx, height, n) <==> OutPoint(tx.txid, i) in v
  {
    if n > 0 {
      OtherOutputsUntouched(v, tx, height, n - 1, i);
    }
  }

  /**
   * AddCoins: all spendable outputs enter the view. Without the overwrite check, outputs of an
   * ordinary transaction must not be visible yet; with it there is no such duty.
   */
  method AddCoins(cache: CoinsViewCache, tx: Transaction, height: nat, checkForOverwrite: bool)
    requires cache.Valid() && Inv(cache.Abstract())
    requires forall i :: 0 <= i < |tx.vout| ==> tx.vout[i].value != -1
    requires checkForOverwrite || tx.isCoinBase
             || forall i: nat :: i < |tx.vout| ==> OutPoint(tx.txid, i) !in ViewOf(cache.Abstract())
    modifies cache.Repr
    ensures Inv(cache.Abstract())
    ensures ViewOf(cache.Abstract()) == WithOutputs(old(ViewOf(cache.Abstract())), tx, height, |tx.vout|)
  {
    ghost var v0 := ViewOf(cache.Abstract());
    var i := 0;
    while i < |tx.vout|
      invariant 0 <= i <= |tx.vout| && OutputsAdded(cache.Abstract(), v0, tx, height, i)
    {
      AddOutput(cache, tx, height, checkForOverwrite, i, v0);
      i := i + 1;
    }
  }

  /** The first n outputs are in the view. */
  ghost predicate OutputsAdded(s: Stack, v0: View, tx: Transaction, height: nat, n: nat)
    requires n <= |tx.vout|
  {
    Inv(s) && ViewOf(s) == WithOutputs(v0, tx, height, n)
  }

  method AddOutput(cache: CoinsViewCache, tx: Transaction, height: nat, checkForOverwrite: bool, i: nat, ghost v0: View)
    requires cache.Valid() && i < |tx.vout| && tx.vout[i].value != -1 && OutputsAdded(cache.Abstract(), v0, tx, height, i)
    requires checkForOverwrite || tx.isCoinBase || OutPoint(tx.txid, i) !in v0
    modifies cache.Repr
    ensures OutputsAdded(cache.Abstract(), v0, tx, height, i + 1)
  {
    var op, overwrite := OutPoint(tx.txid, i), tx.isCoinBase;
    OtherOutputsUntouched(v0, tx, height, i, i);
    if checkForOverwrite {
      GetAnswersView(cache.Abstract(), op);
      overwrite := cache.HaveCoin(op);
    }
    AddUpdatesView(cache.Abstract(), op, OutputCoin(tx, i, height), overwrite);
    var ok := cache.AddCoin(op, OutputCoin(tx, i, height), overwrite);
  }
}
