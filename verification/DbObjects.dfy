/**
 * Transactions and their iterators as objects: the maps, cursors and counters of src/dbwrapper.h,
 * updated in place and nested to any depth.
 */
module DbObjects {
  import opened Common
  import opened DbTransaction

  class Database {
    var entries: Contents

    constructor (entries: Contents)
      ensures this.entries == entries
    {
      this.entries := entries;
    }

    method WriteBatch(ops: seq<BatchOp>)
      modifies this
      ensures entries == Apply(old(entries), ops)
    {
      var i := 0;
      while i < |ops|
        invariant 0 <= i <= |ops| && entries == Apply(old(entries), ops[..i])
      {
        assert ops[..i + 1][..i] == ops[..i];
        match ops[i] {
          case Put(k, v) => entries := entries[k := v];
          case Remove(k) => entries := entries - {k};
        }
        i := i + 1;
      }
      assert ops[..i] == ops;
    }
  }

  datatype Parent = OnDatabase(db: Database) | OnTransaction(tx: CDBTransaction)

  class CDBTransaction {
    const parent: Parent
    var writes: Contents
    var deletes: set<Key>
    var memoryUsage: int
    ghost const Repr: set<object>

    /** The levels below are separate objects. */
    ghost predicate Valid()
      decreases Repr
    {
      && this in Repr
      && match parent
         case OnDatabase(db) => db in Repr
         case OnTransaction(t) => t in Repr && t.Repr <= Repr && this !in t.Repr && t.Valid()
    }

    ghost function Abstract(): Store
      requires Valid()
      reads Repr
      decreases Repr
    {
      Transaction(writes, deletes, memoryUsage,
                  match parent
                  case OnDatabase(db) => DbTransaction.Database(db.entries)
                  case OnTransaction(t) => t.Abstract())
    }

    constructor (parent: Parent)
      requires parent.OnTransaction? ==> parent.tx.Valid()
      ensures Valid() && this.parent == parent && writes == map[] && deletes == {} && memoryUsage == 0
      ensures Repr == {this} + match parent case OnDatabase(db) => {db} case OnTransaction(t) => t.Repr + {t}
      ensures parent.OnTransaction? ==> Abstract().parent == parent.tx.Abstract()
    {
      this.parent := parent;
      this.Repr := {this} + (match parent case OnDatabase(db) => {db} case OnTransaction(t) => t.Repr + {t});
      writes, deletes, memoryUsage := map[], {}, 0;
    }

    method Write(k: Key, v: Value)
      requires Valid()
      modifies this
      ensures Abstract() == DbTransaction.Write(old(Abstract()), k, v)
    {
      if k in deletes {
        deletes := deletes - {k};
        memoryUsage := memoryUsage - |k|;
      }
      if k in writes {
        memoryUsage := memoryUsage - (|k| + |writes[k]|);
      }
      writes := writes[k := v];
      memoryUsage := memoryUsage + |k| + |v|;
      assert deletes == old(deletes) - {k};
    }

    method Read(k: Key) returns (value: Option<Value>)
      requires Valid()
      ensures value == DbTransaction.Read(Abstract(), k)
      decreases Repr
    {
      if k in deletes {
        return None;
      }
      if k in writes {
        return Some(writes[k]);
      }
      match parent {
        case OnDatabase(db) => value := Lookup(db.entries, k);
        case OnTransaction(t) => value := t.Read(k);
      }
    }

    method Exists(k: Key) returns (exists_: bool)
      requires Valid()
      ensures exists_ == DbTransaction.Exists(Abstract(), k)
      decreases Repr
    {
      if k in deletes {
        return false;
      }
      if k in writes {
        return true;
      }
      match parent {
        case OnDatabase(db) => exists_ := k in db.entries;
        case OnTransaction(t) => exists_ := t.Exists(k);
      }
    }

    method Erase(k: Key)
      requires Valid()
      modifies this
      ensures Abstract() == DbTransaction.Erase(old(Abstract()), k)
    {
      if k in writes {
        memoryUsage := memoryUsage - (|k| + |writes[k]|);
        writes := writes - {k};
      }
      if k !in deletes {
        deletes := deletes + {k};
        memoryUsage := memoryUsage + |k|;
      }
      assert writes == old(writes) - {k} && deletes == old(deletes) + {k};
    }

    ghost function ParentStore(): Store
      requires Valid()
      reads Repr
    {
      Abstract().parent
    }

    method EraseInParent(k: Key)
      requires Valid()
      modifies Repr - {this}
      ensures ParentStore() == DbTransaction.Erase(old(ParentStore()), k)
    {
      match parent {
        case OnDatabase(db) => db.entries := db.entries - {k};
        case OnTransaction(t) => t.Erase(k);
      }
    }

    method WriteInParent(k: Key, v: Value)
      requires Valid()
      modifies Repr - {this}
      ensures ParentStore() == DbTransaction.Write(old(ParentStore()), k, v)
    {
      match parent {
        case OnDatabase(db) => db.entries := db.entries[k := v];
        case OnTransaction(t) => t.Write(k, v);
      }
    }

    /** Commit's first loop. */
    method CommitDeletes()
      requires Valid() && Inv(ParentStore())
      modifies Repr - {this}
      ensures ParentStore() == EraseAll(old(ParentStore()), deletes)
    {
      ghost var p, q := ParentStore(), ParentStore();
      NoneErasedOrWritten(p);
      var todo := deletes;
      ghost var done: set<Key> := {};
      while todo != {}
        invariant done + todo == deletes
        invariant ParentStore() == q && q == EraseAll(p, done)
        decreases |todo|
      {
        var k :| k in todo;
        EraseOneMore(p, done, k);
        EraseInParent(k);
        q := DbTransaction.Erase(q, k);
        done := done + {k};
        todo := todo - {k};
      }
      assert done == deletes;
    }

    /** Commit's second loop. */
    method CommitWrites()
      requires Valid() && Inv(ParentStore())
      modifies Repr - {this}
      ensures ParentStore() == WriteAll(old(ParentStore()), writes)
    {
      ghost var p, q := ParentStore(), ParentStore();
      NoneErasedOrWritten(p);
      var todo := writes;
      ghost var done: Contents := map[];
      while todo != map[]
        invariant Split(writes, done, todo)
        invariant ParentStore() == q && q == WriteAll(p, done)
        decreases |todo|
      {
        var k :| k in todo;
        SplitOneMore(writes, done, todo, k);
        WriteOneMore(p, done, k, todo[k]);
        WriteInParent(k, todo[k]);
        q := DbTransaction.Write(q, k, todo[k]);
        done := done[k := todo[k]];
        todo := todo - {k};
      }
      AllDone(writes, done, todo);
    }

    method Commit()
      requires Valid() && Inv(Abstract())
      modifies Repr
      ensures Abstract() == DbTransaction.Commit(old(Abstract()))
    {
      EraseAllUpdates(ParentStore(), deletes);
      assert Inv(ParentStore());
      CommitDeletes();
      CommitWrites();
      Clear();
    }

    method Clear()
      modifies this
      ensures writes == map[] && deletes == {} && memoryUsage == 0
    {
      writes, deletes, memoryUsage := map[], {}, 0;
    }

    /** Commit's first loop where the target is a batch; `below` is what the batch will be applied to. */
    method DeletesToBatch(batch: seq<BatchOp>, ghost below: Contents) returns (ops: seq<BatchOp>)
      ensures Apply(below, ops) == Apply(below, batch) - deletes
    {
      ops := batch;
      var todo := deletes;
      ghost var done: set<Key> := {};
      ghost var was := Apply(below, batch);
      assert was - done == was;
      while todo != {}
        invariant done + todo == deletes && Apply(below, ops) == was - done
        decreases |todo|
      {
        var k :| k in todo;
        EraseInTurn(was, done, k);
        ApplyAppend(below, ops, Remove(k));
        ops := ops + [Remove(k)];
        done := done + {k};
        todo := todo - {k};
      }
      assert done == deletes;
    }

    /** Commit's second loop where the target is a batch. */
    method WritesToBatch(batch: seq<BatchOp>, ghost below: Contents) returns (ops: seq<BatchOp>)
      ensures Apply(below, ops) == Apply(below, batch) + writes
    {
      ops := batch;
      var todo := writes.Keys;
      PutsBegun(below, batch, writes);
      while todo != {}
        invariant PutsLeft(below, batch, ops, writes, todo)
        decreases |todo|
      {
        var k :| k in todo;
        PutOneMore(below, batch, ops, writes, todo, k);
        ops := ops + [Put(k, writes[k])];
        todo := todo - {k};
      }
      PutsDone(below, batch, ops, writes);
    }

    /** Commit with a batch as its target: applied later, the batch makes the overlay of what is below. */
    method CommitToBatch(batch: seq<BatchOp>, ghost below: Contents) returns (ops: seq<BatchOp>)
      modifies this
      ensures Apply(below, ops) == Overlay(Apply(below, batch), old(writes), old(deletes))
      ensures writes == map[] && deletes == {} && memoryUsage == 0
    {
      ops := DeletesToBatch(batch, below);
      ops := WritesToBatch(ops, below);
      Clear();
    }
  }

  /** Entries written already and entries still to write. */
  ghost predicate Split(all: Contents, done: Contents, todo: Contents) {
    && all.Keys == done.Keys + todo.Keys && done.Keys !! todo.Keys
    && forall k :: k in all ==> all[k] == if k in done then done[k] else todo[k]
  }

  /** The writes whose keys are not left to do have been put into a batch. */
  ghost predicate PutsLeft(below: Contents, batch: seq<BatchOp>, ops: seq<BatchOp>, writes: Contents, todo: set<Key>) {
    todo <= writes.Keys && Apply(below, ops) == Apply(below, batch) + (writes - todo)
  }

  lemma PutsBegun(below: Contents, batch: seq<BatchOp>, writes: Contents)
    ensures PutsLeft(below, batch, batch, writes, writes.Keys)
  {
    assert writes - writes.Keys == map[];
    assert Apply(below, batch) + map[] == Apply(below, batch);
  }

  lemma PutOneMore(below: Contents, batch: seq<BatchOp>, ops: seq<BatchOp>, writes: Contents, todo: set<Key>, k: Key)
    requires PutsLeft(below, batch, ops, writes, todo) && k in todo
    ensures PutsLeft(below, batch, ops + [Put(k, writes[k])], writes, todo - {k})
  {
    ApplyAppend(below, ops, Put(k, writes[k]));
    WriteInTurn(Apply(below, batch), writes - todo, k, writes[k]);
    assert (writes - todo)[k := writes[k]] == writes - (todo - {k});
  }

  lemma PutsDone(below: Contents, batch: seq<BatchOp>, ops: seq<BatchOp>, writes: Contents)
    requires PutsLeft(below, batch, ops, writes, {})
    ensures Apply(below, ops) == Apply(below, batch) + writes
  {
    assert writes - {} == writes;
  }

  lemma SplitOneMore(all: Contents, done: Contents, todo: Contents, k: Key)
    requires Split(all, done, todo) && k in todo
    ensures Split(all, done[k := todo[k]], todo - {k})
  {
  }

  lemma AllDone(all: Contents, done: Contents, todo: Contents)
    requires Split(all, done, todo) && todo == map[]
    ensures done == all
  {
  }

  // ---------------------------------------------------------------- iterators

  /** An iterator over the database: a cursor into its keys in order; past the end it is invalid. */
  class DatabaseIterator {
    const entries: Contents
    const keys: seq<Key>
    var pos: nat

    ghost predicate Valid()
      reads this
    {
      IsListing(keys, entries.Keys) && pos <= |keys|
    }

    ghost function Remaining(): seq<Key>
      requires Valid()
      reads this
    {
      keys[pos..]
    }

    constructor (entries: Contents, keys: seq<Key>)
      requires IsListing(keys, entries.Keys)
      ensures Valid() && Remaining() == [] && this.entries == entries
    {
      this.entries, this.keys, this.pos := entries, keys, |keys|;
    }

    method Seek(from: Key)
      requires Valid()
      modifies this
      ensures Valid() && IsListing(Remaining(), KeysFrom(entries, from))
    {
      pos := LowerBound(keys, from);
      LowerBoundLists(keys, entries, from, pos);
    }
  }

  /** std::map::lower_bound, as a scan. */
  method LowerBound(keys: seq<Key>, from: Key) returns (i: nat)
    requires Ascending(keys)
    ensures i <= |keys| && (forall j :: 0 <= j < i ==> Less(keys[j], from)) && (i < |keys| ==> !Less(keys[i], from))
  {
    i := 0;
    while i < |keys| && Less(keys[i], from)
      invariant i <= |keys| && forall j :: 0 <= j < i ==> Less(keys[j], from)
    {
      i := i + 1;
    }
  }

  lemma LowerBoundLists(keys: seq<Key>, m: Contents, from: Key, i: nat)
    requires IsListing(keys, m.Keys) && i <= |keys|
    requires (forall j :: 0 <= j < i ==> Less(keys[j], from)) && (i < |keys| ==> !Less(keys[i], from))
    ensures IsListing(keys[i..], KeysFrom(m, from))
  {
    forall k
      ensures k in keys[i..] <==> k in KeysFrom(m, from)
    {
      if k in keys[i..] {
        var j :| 0 <= j < |keys[i..]| && keys[i..][j] == k;
        if Less(k, from) {
          if j > 0 {
            LessTransitive(keys[i], k, from);
          }
        }
      }
      if k in KeysFrom(m, from) {
        assert k in keys;
        var j :| 0 <= j < |keys| && keys[j] == k;
        assert keys[i..][j - i] == k;
      }
    }
  }

  datatype ParentIterator = OverDatabase(d: DatabaseIterator) | OverTransaction(t: TransactionIterator)

  /** CDBTransactionIterator: two cursors, of which the one at the smaller key is current. */
  class TransactionIterator {
    const store: Store           // the transaction, which stays as it is while it is iterated over
    const writeKeys: seq<Key>    // the keys of its writes, in the order of std::map
    const parentIt: ParentIterator
    ghost const Repr: set<object>
    var transactionIt: nat
    var parentKey: Key
    var curIsParent: bool

    /** How the iterators are stacked; this never changes. */
    ghost predicate Stacked()
      decreases Repr
    {
      && store.Transaction? && IsListing(writeKeys, store.writes.Keys)
      && this in Repr
      && match parentIt
         case OverDatabase(d) => d in Repr && store.parent == DbTransaction.Database(d.entries)
         case OverTransaction(t) => t in Repr && t.Repr <= Repr && this !in t.Repr && t.store == store.parent && t.Stacked()
    }

    ghost predicate Valid()
      reads Repr
      decreases Repr, 2
    {
      && Stacked() && transactionIt <= |writeKeys|
      && ParentValid()
      && Positioned(writeKeys[transactionIt..], ParentRemaining(), store.writes, store.deletes, parentKey, curIsParent)
    }

    ghost predicate ParentValid()
      requires Stacked()
      reads Repr - {this}
      decreases Repr, 0
    {
      match parentIt
      case OverDatabase(d) => d.Valid()
      case OverTransaction(t) => t.Valid()
    }

    ghost function ParentRemaining(): seq<Key>
      requires Stacked() && ParentValid()
      reads Repr - {this}
      decreases Repr, 1
    {
      match parentIt
      case OverDatabase(d) => d.Remaining()
      case OverTransaction(t) => t.Remaining()
    }

    /** The keys that this iterator has still to visit, the current one first. */
    ghost function Remaining(): seq<Key>
      requires Valid()
      reads Repr
      decreases Repr, 3
    {
      Merge(writeKeys[transactionIt..], Visible(ParentRemaining(), store.writes, store.deletes))
    }

    constructor (store: Store, writeKeys: seq<Key>, parentIt: ParentIterator)
      requires store.Transaction? && IsListing(writeKeys, store.writes.Keys)
      requires match parentIt
               case OverDatabase(d) => d.Valid() && d.Remaining() == [] && store.parent == DbTransaction.Database(d.entries)
               case OverTransaction(t) => t.Valid() && t.Remaining() == [] && t.store == store.parent
      ensures Valid() && Remaining() == [] && this.store == store
    {
      this.store, this.writeKeys, this.parentIt := store, writeKeys, parentIt;
      this.Repr := {this} + (match parentIt case OverDatabase(d) => {d} case OverTransaction(t) => t.Repr + {t});
      transactionIt, parentKey, curIsParent := |writeKeys|, [], false;
    }

    method ParentHasKey() returns (b: bool)
      requires Stacked() && ParentValid()
      ensures b == (ParentRemaining() != [])
      decreases Repr, 0
    {
      match parentIt {
        case OverDatabase(d) => b := d.pos < |d.keys|;
        case OverTransaction(t) => b := t.HasKey();
      }
    }

    /** Valid() of the source. */
    method HasKey() returns (b: bool)
      requires Valid()
      ensures b == (Remaining() != [])
      decreases Repr, 1
    {
      VisibleHead(ParentRemaining(), store.writes, store.deletes);
      var p := ParentHasKey();
      b := transactionIt < |writeKeys| || p;
    }

    method ParentGetKey() returns (k: Key)
      requires Stacked() && ParentValid() && ParentRemaining() != []
      ensures k == ParentRemaining()[0]
      decreases Repr, 0
    {
      match parentIt {
        case OverDatabase(d) => k := d.keys[d.pos];
        case OverTransaction(t) => k := t.GetKey();
      }
    }

    /** GetKey; past the end it is the empty key. */
    method GetKey() returns (k: Key)
      requires Valid()
      ensures k == if Remaining() == [] then [] else Remaining()[0]
      decreases Repr, 2
    {
      var b := HasKey();
      if !b {
        return [];
      }
      VisibleHead(ParentRemaining(), store.writes, store.deletes);
      MergeHead(writeKeys[transactionIt..], ParentRemaining(), store.writes, store.deletes, parentKey, curIsParent);
      k := if curIsParent then parentKey else writeKeys[transactionIt];
    }

    method ParentNext()
      requires Stacked() && ParentValid() && ParentRemaining() != []
      modifies Repr - {this}
      ensures ParentValid() && ParentRemaining() == old(ParentRemaining())[1..]
      decreases Repr, 0
    {
      match parentIt {
        case OverDatabase(d) => d.pos := d.pos + 1;
        case OverTransaction(t) => t.Next();
      }
    }

    method ParentSeek(from: Key)
      requires Stacked() && ParentValid()
      modifies Repr - {this}
      ensures ParentValid() && IsListing(ParentRemaining(), KeysFrom(ViewOf(store.parent), from))
      decreases Repr, 0
    {
      match parentIt {
        case OverDatabase(d) => d.Seek(from);
        case OverTransaction(t) => t.Seek(from);
      }
    }

    method SkipDeletedAndOverwritten()
      requires Stacked() && ParentValid()
      modifies Repr - {this}, `parentKey
      ensures ParentValid()
      ensures Visible(ParentRemaining(), store.writes, store.deletes)
              == old(Visible(ParentRemaining(), store.writes, store.deletes))
      ensures ParentRemaining() != [] ==>
                parentKey == ParentRemaining()[0] && parentKey !in store.deletes && parentKey !in store.writes
      decreases Repr, 1
    {
      ghost var p := ParentRemaining();
      ghost var shown := Visible(p, store.writes, store.deletes);
      while true
        invariant ParentValid() && p == ParentRemaining() && Visible(p, store.writes, store.deletes) == shown
        decreases |p|
      {
        var more := ParentHasKey();
        if !more {
          return;
        }
        parentKey := ParentGetKey();
        if parentKey !in store.deletes && parentKey !in store.writes {
          return;
        }
        ParentNext();
        p := p[1..];
      }
    }

    method DecideCur()
      requires Stacked() && ParentValid() && transactionIt <= |writeKeys|
      requires ParentRemaining() != [] ==>
                 parentKey == ParentRemaining()[0] && parentKey !in store.deletes && parentKey !in store.writes
      modifies `curIsParent
      ensures Valid()
      decreases Repr, 1
    {
      var p := ParentHasKey();
      if transactionIt != |writeKeys| && !p {
        curIsParent := false;
      } else if transactionIt == |writeKeys| && p {
        curIsParent := true;
      } else if transactionIt != |writeKeys| && p {
        curIsParent := !Less(writeKeys[transactionIt], parentKey);
      }
    }

    /** Next: the current key is left behind, and no other; past the end nothing changes. */
    method Next()
      requires Valid()
      modifies Repr
      ensures Valid() && Remaining() == if old(Remaining()) == [] then [] else old(Remaining())[1..]
      decreases Repr, 2
    {
      VisibleHead(ParentRemaining(), store.writes, store.deletes);
      var p := ParentHasKey();
      if transactionIt == |writeKeys| && !p {
        return;
      }
      MergeHead(writeKeys[transactionIt..], ParentRemaining(), store.writes, store.deletes, parentKey, curIsParent);
      if curIsParent {
        ParentNext();
        SkipDeletedAndOverwritten();
      } else {
        transactionIt := transactionIt + 1;
      }
      DecideCur();
    }

    /** Seek: what remains is exactly the keys of the overlay from the given one on, in order. */
    method Seek(from: Key)
      requires Valid()
      modifies Repr
      ensures Valid() && IsListing(Remaining(), KeysFrom(ViewOf(store), from))
      decreases Repr, 2
    {
      transactionIt := LowerBound(writeKeys, from);
      LowerBoundLists(writeKeys, store.writes, from, transactionIt);
      ParentSeek(from);
      MergeLists(writeKeys[transactionIt..], ParentRemaining(), ViewOf(store.parent), store.writes, store.deletes, from);
      SkipDeletedAndOverwritten();
      DecideCur();
    }

    /** GetValue: the value that the overlay holds at the current key. */
    method GetValue() returns (v: Option<Value>)
      requires Valid() && Inv(store)
      ensures v == if Remaining() == [] then None else Lookup(ViewOf(store), Remaining()[0])
    {
      var b := HasKey();
      if !b {
        return None;
      }
      var k := GetKey();
      ReadsView(store, k);
      v := Read(store, k);
    }
  }

  /** The cursors are where SkipDeletedAndOverwritten and DecideCur leave them. */
  ghost predicate Positioned(w: seq<Key>, p: seq<Key>, writes: Contents, deletes: set<Key>, parentKey: Key, curIsParent: bool) {
    && (p != [] ==> parentKey == p[0] && p[0] !in deletes && p[0] !in writes)
    && (w != [] && p == [] ==> !curIsParent)
    && (w == [] && p != [] ==> curIsParent)
    && (w != [] && p != [] ==> curIsParent == !Less(w[0], p[0]))
  }

  lemma VisibleHead(p: seq<Key>, writes: Contents, deletes: set<Key>)
    requires p != [] ==> p[0] !in deletes && p[0] !in writes
    ensures p == [] <==> Visible(p, writes, deletes) == []
    ensures p != [] ==> Visible(p, writes, deletes)[0] == p[0]
                        && Visible(p, writes, deletes)[1..] == Visible(p[1..], writes, deletes)
  {
  }

  /** The current cursor is at the head of the merge, and moving it takes the head off. */
  lemma MergeHead(w: seq<Key>, p: seq<Key>, writes: Contents, deletes: set<Key>, parentKey: Key, curIsParent: bool)
    requires Positioned(w, p, writes, deletes, parentKey, curIsParent) && (w != [] || p != [])
    ensures var m := Merge(w, Visible(p, writes, deletes));
            && m != []
            && (curIsParent ==> p != [] && m[0] == p[0] && m[1..] == Merge(w, Visible(p[1..], writes, deletes)))
            && (!curIsParent ==> w != [] && m[0] == w[0] && m[1..] == Merge(w[1..], Visible(p, writes, deletes)))
  {
    VisibleHead(p, writes, deletes);
    if w == [] {
      assert Merge(w, Visible(p[1..], writes, deletes)) == Visible(p[1..], writes, deletes);
    }
  }
}
