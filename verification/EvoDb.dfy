/**
 * The database of deterministic masternode lists (CEvoDB in src/evo/evodb.h and src/evo/evodb.cpp): a current
 * transaction over a root transaction over the disk, where the root commits to a batch. The reference is
 * three plain maps.
 */
module EvoDb {
  import opened Common
  import opened DbTransaction
  import DbObjects

  // ---------------------------------------------------------------- operations on values

  /** The current transaction, over the root transaction, over the database. */
  predicate TwoLevels(s: Store) {
    s.Transaction? && s.parent.Transaction? && s.parent.parent.Database?
  }

  function Levels(cw: Contents, cd: set<Key>, cu: int, rw: Contents, rd: set<Key>, ru: int, entries: Contents): Store {
    Transaction(cw, cd, cu, Transaction(rw, rd, ru, Database(entries)))
  }

  predicate IsClean(s: Store)
    requires s.Transaction?
  {
    s.writes == map[] && s.deletes == {}
  }

  function Rollback(s: Store): Store
    requires s.Transaction?
  {
    s.(writes := map[], deletes := {}, memoryUsage := 0)
  }

  ghost function CommitRoot(s: Store): Store
    requires TwoLevels(s)
  {
    s.(parent := Commit(s.parent))
  }

  datatype Op =
    | WriteOp(k: Key, v: Value)
    | EraseOp(k: Key)
    | ReadOp(k: Key)
    | ExistsOp(k: Key)
    | CommitOp
    | RollbackOp
    | CommitRootOp

  datatype Answer = Nothing | Found(value: Option<Value>) | Existing(b: bool)

  ghost function Step(s: Store, o: Op): (Store, Answer)
    requires TwoLevels(s)
  {
    match o
    case WriteOp(k, v) => (Write(s, k, v), Nothing)
    case EraseOp(k) => (Erase(s, k), Nothing)
    case ReadOp(k) => (s, Found(Read(s, k)))
    case ExistsOp(k) => (s, Existing(Exists(s, k)))
    case CommitOp => (Commit(s), Nothing)
    case RollbackOp => (Rollback(s), Nothing)
    case CommitRootOp => (CommitRoot(s), Nothing)
  }

  // ---------------------------------------------------------------- the reference

  /** What is on disk, what has been committed, what is current, and whether nothing was done since. */
  datatype Plain = Plain(disk: Contents, root: Contents, cur: Contents, clean: bool)

  function RefStep(p: Plain, o: Op): (Plain, Answer) {
    match o
    case WriteOp(k, v) => (p.(cur := p.cur[k := v], clean := false), Nothing)
    case EraseOp(k) => (p.(cur := p.cur - {k}, clean := false), Nothing)
    case ReadOp(k) => (p, Found(Lookup(p.cur, k)))
    case ExistsOp(k) => (p, Existing(k in p.cur))
    case CommitOp => (p.(root := p.cur, clean := true), Nothing)
    case RollbackOp => (p.(cur := p.root, clean := true), Nothing)
    case CommitRootOp => (p.(disk := p.root), Nothing)
  }

  /** The root is committed only when the current transaction is clean, as the source asserts. */
  predicate Legal(p: Plain, o: Op) {
    o.CommitRootOp? ==> p.clean
  }

  ghost function PlainOf(s: Store): Plain
    requires TwoLevels(s)
  {
    Plain(s.parent.parent.entries, ViewOf(s.parent), ViewOf(s), IsClean(s))
  }

  lemma RollbackRefines(s: Store)
    requires Inv(s) && TwoLevels(s)
    ensures Inv(Rollback(s)) && PlainOf(Rollback(s)) == PlainOf(s).(cur := ViewOf(s.parent), clean := true)
  {
    NothingOverlaid(ViewOf(s.parent));
    NoUsage();
  }

  lemma NoUsage()
    ensures Usage(map[], {}) == 0
  {
  }

  lemma EmptyLevels(entries: Contents)
    ensures var s := Levels(map[], {}, 0, map[], {}, 0, entries);
            Inv(s.parent) && Inv(s) && PlainOf(s) == Plain(entries, entries, entries, true)
  {
    NothingOverlaid(entries);
    NoUsage();
    var s := Levels(map[], {}, 0, map[], {}, 0, entries);
    assert ViewOf(s.parent) == entries;
  }

  lemma CommitRefines(s: Store)
    requires Inv(s) && TwoLevels(s)
    ensures TwoLevels(Commit(s)) && Inv(Commit(s)) && PlainOf(Commit(s)) == PlainOf(s).(root := ViewOf(s), clean := true)
  {
    CommitMovesView(s);
  }

  /** Committing the root changes what is on disk, and nothing that is read. */
  lemma CommitRootRefines(s: Store)
    requires Inv(s) && TwoLevels(s)
    ensures TwoLevels(CommitRoot(s)) && Inv(CommitRoot(s)) && PlainOf(CommitRoot(s)) == PlainOf(s).(disk := ViewOf(s.parent))
  {
    CommitMovesView(s.parent);
  }

  lemma StepRefines(s: Store, o: Op)
    requires Inv(s) && TwoLevels(s) && Legal(PlainOf(s), o)
    ensures var (t, answer) := Step(s, o);
            TwoLevels(t) && Inv(t) && RefStep(PlainOf(s), o) == (PlainOf(t), answer)
  {
    match o
    case WriteOp(k, v) => WriteUpdates(s, k, v);
    case EraseOp(k) => EraseUpdates(s, k);
    case ReadOp(k) => ReadsView(s, k);
    case ExistsOp(k) => ReadsView(s, k);
    case CommitOp => CommitRefines(s);
    case RollbackOp => RollbackRefines(s);
    case CommitRootOp => CommitRootRefines(s);
  }

  // ---------------------------------------------------------------- whole runs

  ghost function Run(s: Store, ops: seq<Op>): (r: (Store, seq<Answer>))
    requires TwoLevels(s)
    decreases |ops|
  {
    if ops == [] then (s, [])
    else
      var (t, answer) := Step(s, ops[0]);
      if !TwoLevels(t) then (t, [answer])
      else var (u, answers) := Run(t, ops[1..]); (u, [answer] + answers)
  }

  function RefRun(p: Plain, ops: seq<Op>): (Plain, seq<Answer>)
    decreases |ops|
  {
    if ops == [] then (p, [])
    else
      var (q, answer) := RefStep(p, ops[0]);
      var (r, answers) := RefRun(q, ops[1..]);
      (r, [answer] + answers)
  }

  predicate LegalRun(p: Plain, ops: seq<Op>)
    decreases |ops|
  {
    ops == [] || (Legal(p, ops[0]) && LegalRun(RefStep(p, ops[0]).0, ops[1..]))
  }

  /** Every legal run gives the answers of the three plain maps, ends with them, and keeps the usage counts exact. */
  lemma {:induction false} RunRefines(s: Store, ops: seq<Op>)
    requires Inv(s) && TwoLevels(s) && LegalRun(PlainOf(s), ops)
    ensures var (t, answers) := Run(s, ops);
            TwoLevels(t) && Inv(t) && RefRun(PlainOf(s), ops) == (PlainOf(t), answers)
    decreases |ops|
  {
    if ops != [] {
      StepRefines(s, ops[0]);
      RunRefines(Step(s, ops[0]).0, ops[1..]);
    }
  }

  // ---------------------------------------------------------------- the object

  class CEvoDB {
    const db: DbObjects.Database
    const rootDBTransaction: DbObjects.CDBTransaction
    const curDBTransaction: DbObjects.CDBTransaction
    var rootBatch: seq<BatchOp>

    ghost predicate Valid()
      reads this, curDBTransaction.Repr
    {
      && rootDBTransaction.parent == DbObjects.OnDatabase(db)
      && curDBTransaction.parent == DbObjects.OnTransaction(rootDBTransaction)
      && curDBTransaction.Valid() && this !in curDBTransaction.Repr
      && Inv(curDBTransaction.Abstract()) && rootBatch == []
    }

    /** What the three levels hold. */
    ghost function Abstract(): (s: Store)
      requires Valid()
      reads this, db, curDBTransaction.Repr
      ensures TwoLevels(s)
      ensures s == Levels(curDBTransaction.writes, curDBTransaction.deletes, curDBTransaction.memoryUsage,
                          rootDBTransaction.writes, rootDBTransaction.deletes, rootDBTransaction.memoryUsage, db.entries)
    {
      assert rootDBTransaction.Abstract().parent == Database(db.entries);
      curDBTransaction.Abstract()
    }

    constructor (entries: Contents)
      ensures Valid() && PlainOf(Abstract()) == Plain(entries, entries, entries, true)
    {
      var disk := new DbObjects.Database(entries);
      var root := new DbObjects.CDBTransaction(DbObjects.OnDatabase(disk));
      var cur := new DbObjects.CDBTransaction(DbObjects.OnTransaction(root));
      db, rootDBTransaction, curDBTransaction, rootBatch := disk, root, cur, [];
      new;
      EmptyLevels(entries);
      assert rootDBTransaction.Abstract().parent == Database(db.entries);
      assert Inv(rootDBTransaction.Abstract()) && Inv(curDBTransaction.Abstract());
    }

    method Write(k: Key, v: Value)
      requires Valid()
      modifies curDBTransaction
      ensures Valid() && Abstract() == Step(old(Abstract()), WriteOp(k, v)).0
    {
      WriteUpdates(Abstract(), k, v);
      curDBTransaction.Write(k, v);
    }

    method Erase(k: Key)
      requires Valid()
      modifies curDBTransaction
      ensures Valid() && Abstract() == Step(old(Abstract()), EraseOp(k)).0
    {
      EraseUpdates(Abstract(), k);
      curDBTransaction.Erase(k);
    }

    method Read(k: Key) returns (value: Option<Value>)
      requires Valid()
      ensures Found(value) == Step(Abstract(), ReadOp(k)).1
    {
      value := curDBTransaction.Read(k);
    }

    method Exists(k: Key) returns (b: bool)
      requires Valid()
      ensures Existing(b) == Step(Abstract(), ExistsOp(k)).1
    {
      b := curDBTransaction.Exists(k);
    }

    method CommitCurTransaction()
      requires Valid()
      modifies curDBTransaction.Repr
      ensures Valid() && Abstract() == Step(old(Abstract()), CommitOp).0
    {
      CommitRefines(Abstract());
      curDBTransaction.Commit();
    }

    method RollbackCurTransaction()
      requires Valid()
      modifies curDBTransaction
      ensures Valid() && Abstract() == Step(old(Abstract()), RollbackOp).0
    {
      RollbackRefines(Abstract());
      curDBTransaction.Clear();
    }

    /** The root goes to the batch, and the batch to the disk; that the current transaction is clean is asserted. */
    method CommitRootTransaction()
      requires Valid() && IsClean(Abstract())
      modifies this, rootDBTransaction, db
      ensures Valid() && Abstract() == Step(old(Abstract()), CommitRootOp).0
    {
      CommitRootRefines(Abstract());
      rootBatch := rootDBTransaction.CommitToBatch(rootBatch, db.entries);
      db.WriteBatch(rootBatch);
      rootBatch := [];
    }
  }
}
