/**
 * Database transactions (CDBTransaction in src/dbwrapper.h): an overlay of writes and deletes on a
 * parent that is the database or another transaction. The reference is one plain map.
 */
module DbTransaction {
  import opened Common

  type Key = seq<Byte>
  type Value = seq<Byte>   // a value in its serialized form
  type Contents = map<Key, Value>

  /** A database, or a transaction over a store, at any depth. */
  datatype Store =
    | Database(entries: Contents)
    | Transaction(writes: Contents, deletes: set<Key>, memoryUsage: int, parent: Store)

  // ---------------------------------------------------------------- operations

  /** Write, on the database or on a transaction. */
  function Write(s: Store, k: Key, v: Value): Store {
    match s
    case Database(entries) => Database(entries[k := v])
    case Transaction(writes, deletes, usage, parent) =>
      var u1 := if k in deletes then usage - |k| else usage;
      var u2 := if k in writes then u1 - (|k| + |writes[k]|) else u1;
      Transaction(writes[k := v], deletes - {k}, u2 + |k| + |v|, parent)
  }

  function Erase(s: Store, k: Key): Store {
    match s
    case Database(entries) => Database(entries - {k})
    case Transaction(writes, deletes, usage, parent) =>
      var u1 := if k in writes then usage - (|k| + |writes[k]|) else usage;
      var u2 := if k !in deletes then u1 + |k| else u1;
      Transaction(writes - {k}, deletes + {k}, u2, parent)
  }

  function Read(s: Store, k: Key): Option<Value> {
    match s
    case Database(entries) => Lookup(entries, k)
    case Transaction(writes, deletes, _, parent) =>
      if k in deletes then None else if k in writes then Some(writes[k]) else Read(parent, k)
  }

  function Exists(s: Store, k: Key): bool {
    match s
    case Database(entries) => k in entries
    case Transaction(writes, deletes, _, parent) =>
      if k in deletes then false else if k in writes then true else Exists(parent, k)
  }

  ghost function Usage(writes: Contents, deletes: set<Key>): nat {
    DeletesUsage(deletes) + WritesUsage(writes)
  }

  /** A store after a set of keys has been erased, in whatever order. */
  ghost function EraseAll(s: Store, ks: set<Key>): Store {
    match s
    case Database(entries) => Database(entries - ks)
    case Transaction(writes, deletes, usage, parent) =>
      Transaction(writes - ks, deletes + ks, usage - Usage(writes, deletes) + Usage(writes - ks, deletes + ks), parent)
  }

  /** A store after some entries have been written, in whatever order. */
  ghost function WriteAll(s: Store, w: Contents): Store {
    match s
    case Database(entries) => Database(entries + w)
    case Transaction(writes, deletes, usage, parent) =>
      Transaction(writes + w, deletes - w.Keys, usage - Usage(writes, deletes) + Usage(writes + w, deletes - w.Keys), parent)
  }

  /** Commit: the parent takes the deletes and then the writes, and the transaction is clear. */
  ghost function Commit(s: Store): Store
    requires s.Transaction?
  {
    Transaction(map[], {}, 0, WriteAll(EraseAll(s.parent, s.deletes), s.writes))
  }

  // ---------------------------------------------------------------- batches

  /** A batch that is collected for the database: its operations in order. */
  datatype BatchOp = Put(key: Key, value: Value) | Remove(key: Key)

  function ApplyOne(entries: Contents, o: BatchOp): Contents {
    match o
    case Put(k, v) => entries[k := v]
    case Remove(k) => entries - {k}
  }

  function Apply(entries: Contents, ops: seq<BatchOp>): Contents {
    if ops == [] then entries else ApplyOne(Apply(entries, ops[..|ops| - 1]), ops[|ops| - 1])
  }

  lemma ApplyAppend(entries: Contents, ops: seq<BatchOp>, o: BatchOp)
    ensures Apply(entries, ops + [o]) == ApplyOne(Apply(entries, ops), o)
  {
    assert (ops + [o])[..|ops|] == ops;
  }

  // ---------------------------------------------------------------- meaning and invariant

  /** What a transaction's writes and deletes make of the contents below. */
  ghost function Overlay(below: Contents, writes: Contents, deletes: set<Key>): Contents {
    (below - deletes) + writes
  }

  ghost function ViewOf(s: Store): Contents {
    match s
    case Database(entries) => entries
    case Transaction(writes, deletes, _, parent) => Overlay(ViewOf(parent), writes, deletes)
  }

  ghost function DeletesUsage(ks: set<Key>): nat {
    if ks == {} then 0 else var k :| k in ks; |k| + DeletesUsage(ks - {k})
  }

  ghost function WritesUsage(w: Contents): nat {
    if w == map[] then 0 else var k :| k in w; |k| + |w[k]| + WritesUsage(w - {k})
  }

  /** Writes and deletes are disjoint, and the memory usage is exact, at every level. */
  ghost predicate Inv(s: Store) {
    s.Transaction? ==>
      && s.writes.Keys !! s.deletes
      && s.memoryUsage == Usage(s.writes, s.deletes)
      && Inv(s.parent)
  }

  // ---------------------------------------------------------------- sums

  lemma {:induction false} DeletesRemove(ks: set<Key>, k: Key)
    requires k in ks
    ensures DeletesUsage(ks) == |k| + DeletesUsage(ks - {k})
    decreases |ks|
  {
    var first :| first in ks && DeletesUsage(ks) == |first| + DeletesUsage(ks - {first});
    if first != k {
      DeletesRemove(ks - {first}, k);
      DeletesRemove(ks - {k}, first);
      assert ks - {first} - {k} == ks - {k} - {first};
    }
  }

  lemma {:induction false} WritesRemove(w: Contents, k: Key)
    requires k in w
    ensures WritesUsage(w) == |k| + |w[k]| + WritesUsage(w - {k})
    decreases |w|
  {
    var first :| first in w && WritesUsage(w) == |first| + |w[first]| + WritesUsage(w - {first});
    if first != k {
      WritesRemove(w - {first}, k);
      WritesRemove(w - {k}, first);
      assert w - {first} - {k} == w - {k} - {first};
    }
  }

  // ---------------------------------------------------------------- each operation against the view

  lemma OverlayWrite(below: Contents, writes: Contents, deletes: set<Key>, k: Key, v: Value)
    ensures Overlay(below, writes[k := v], deletes - {k}) == Overlay(below, writes, deletes)[k := v]
  {
  }

  lemma OverlayErase(below: Contents, writes: Contents, deletes: set<Key>, k: Key)
    ensures Overlay(below, writes - {k}, deletes + {k}) == Overlay(below, writes, deletes) - {k}
  {
  }

  lemma OverlayEraseAll(below: Contents, writes: Contents, deletes: set<Key>, ks: set<Key>)
    ensures Overlay(below, writes - ks, deletes + ks) == Overlay(below, writes, deletes) - ks
  {
  }

  lemma OverlayWriteAll(below: Contents, writes: Contents, deletes: set<Key>, w: Contents)
    ensures Overlay(below, writes + w, deletes - w.Keys) == Overlay(below, writes, deletes) + w
  {
  }

  lemma EraseInTurn(m: Contents, ks: set<Key>, k: Key)
    ensures m - ks - {k} == m - (ks + {k})
  {
  }

  lemma WriteInTurn(m: Contents, w: Contents, k: Key, v: Value)
    ensures (m + w)[k := v] == m + w[k := v]
  {
  }

  lemma KeysInTurn(ks: set<Key>, w: Contents, k: Key, v: Value)
    ensures ks - w.Keys - {k} == ks - w[k := v].Keys
  {
  }

  lemma NothingOverlaid(m: Contents)
    ensures Overlay(m, map[], {}) == m
  {
  }

  lemma DeletesAdd(ks: set<Key>, k: Key)
    ensures DeletesUsage(ks + {k}) == DeletesUsage(ks) + if k in ks then 0 else |k|
    ensures DeletesUsage(ks - {k}) == DeletesUsage(ks) - if k in ks then |k| else 0
  {
    if k in ks {
      assert ks + {k} == ks;
      DeletesRemove(ks, k);
    } else {
      DeletesRemove(ks + {k}, k);
      assert ks + {k} - {k} == ks;
      assert ks - {k} == ks;
    }
  }

  lemma WritesSet(w: Contents, k: Key, v: Value)
    ensures WritesUsage(w - {k}) == WritesUsage(w) - if k in w then |k| + |w[k]| else 0
    ensures WritesUsage(w[k := v]) == WritesUsage(w - {k}) + |k| + |v|
  {
    WritesRemove(w[k := v], k);
    assert w[k := v] - {k} == w - {k};
    if k in w {
      WritesRemove(w, k);
    } else {
      assert w - {k} == w;
    }
  }

  /** Write stores the value in the plain map, keeps the invariant and touches no lower level. */
  lemma WriteUpdates(s: Store, k: Key, v: Value)
    requires Inv(s)
    ensures Inv(Write(s, k, v)) && ViewOf(Write(s, k, v)) == ViewOf(s)[k := v]
    ensures s.Transaction? ==> Write(s, k, v).Transaction? && Write(s, k, v).parent == s.parent
  {
    if s.Transaction? {
      DeletesAdd(s.deletes, k);
      WritesSet(s.writes, k, v);
      OverlayWrite(ViewOf(s.parent), s.writes, s.deletes, k, v);
    }
  }

  lemma EraseUpdates(s: Store, k: Key)
    requires Inv(s)
    ensures Inv(Erase(s, k)) && ViewOf(Erase(s, k)) == ViewOf(s) - {k}
    ensures s.Transaction? ==> Erase(s, k).Transaction? && Erase(s, k).parent == s.parent
  {
    if s.Transaction? {
      DeletesAdd(s.deletes, k);
      WritesSet(s.writes, k, []);
      OverlayErase(ViewOf(s.parent), s.writes, s.deletes, k);
    }
  }

  /** Read and Exists answer what the plain map holds, through any number of levels. */
  lemma {:induction false} ReadsView(s: Store, k: Key)
    requires Inv(s)
    ensures Read(s, k) == Lookup(ViewOf(s), k) && Exists(s, k) == (k in ViewOf(s))
  {
    if s.Transaction? {
      ReadsView(s.parent, k);
    }
  }

  /** One key more erased. */
  lemma EraseOneMore(s: Store, ks: set<Key>, k: Key)
    requires Inv(s)
    ensures Erase(EraseAll(s, ks), k) == EraseAll(s, ks + {k})
  {
    if s.Transaction? {
      DeletesAdd(s.deletes + ks, k);
      WritesSet(s.writes - ks, k, []);
      EraseInTurn(s.writes, ks, k);
      assert s.deletes + ks + {k} == s.deletes + (ks + {k});
    } else {
      EraseInTurn(s.entries, ks, k);
    }
  }

  /** One entry more written. */
  lemma WriteOneMore(s: Store, w: Contents, k: Key, v: Value)
    requires Inv(s)
    ensures Write(WriteAll(s, w), k, v) == WriteAll(s, w[k := v])
  {
    if s.Transaction? {
      DeletesAdd(s.deletes - w.Keys, k);
      WritesSet(s.writes + w, k, v);
      WriteInTurn(s.writes, w, k, v);
      KeysInTurn(s.deletes, w, k, v);
    } else {
      WriteInTurn(s.entries, w, k, v);
    }
  }

  lemma NoneErasedOrWritten(s: Store)
    ensures EraseAll(s, {}) == s && WriteAll(s, map[]) == s
  {
    if s.Transaction? {
      assert s.writes - {} == s.writes && s.deletes + {} == s.deletes;
      var none: Contents := map[];
      assert s.writes + none == s.writes && s.deletes - none.Keys == s.deletes;
    } else {
      assert s.entries - {} == s.entries && s.entries + map[] == s.entries;
    }
  }

  lemma EraseAllUpdates(s: Store, ks: set<Key>)
    requires Inv(s)
    ensures Inv(EraseAll(s, ks)) && ViewOf(EraseAll(s, ks)) == ViewOf(s) - ks
  {
    if s.Transaction? {
      OverlayEraseAll(ViewOf(s.parent), s.writes, s.deletes, ks);
    }
  }

  lemma WriteAllUpdates(s: Store, w: Contents)
    requires Inv(s)
    ensures Inv(WriteAll(s, w)) && ViewOf(WriteAll(s, w)) == ViewOf(s) + w
  {
    if s.Transaction? {
      OverlayWriteAll(ViewOf(s.parent), s.writes, s.deletes, w);
    }
  }

  /** Commit makes the parent show exactly what the transaction showed, which then adds nothing to it. */
  lemma CommitMovesView(s: Store)
    requires Inv(s) && s.Transaction?
    ensures Inv(Commit(s)) && ViewOf(Commit(s)) == ViewOf(s) && ViewOf(Commit(s).parent) == ViewOf(s)
    ensures Commit(s).memoryUsage == 0
  {
    EraseAllUpdates(s.parent, s.deletes);
    WriteAllUpdates(EraseAll(s.parent, s.deletes), s.writes);
    NothingOverlaid(ViewOf(Commit(s).parent));
  }

  /** The guard against a negative memory usage is never needed. */
  lemma UsageNeverNegative(s: Store)
    requires Inv(s) && s.Transaction?
    ensures s.memoryUsage >= 0
    ensures s.writes == map[] && s.deletes == {} ==> s.memoryUsage == 0
  {
  }

  // ---------------------------------------------------------------- key order

  /** std::lexicographical_compare on bytes. */
  predicate Less(a: Key, b: Key) {
    if b == [] then false
    else if a == [] then true
    else if a[0] != b[0] then a[0] < b[0]
    else Less(a[1..], b[1..])
  }

  lemma {:induction false} LessIrreflexive(a: Key)
    ensures !Less(a, a)
  {
    if a != [] {
      LessIrreflexive(a[1..]);
    }
  }

  lemma {:induction false} LessTransitive(a: Key, b: Key, c: Key)
    requires Less(a, b) && Less(b, c)
    ensures Less(a, c)
  {
    if a != [] && a[0] == b[0] && b[0] == c[0] {
      LessTransitive(a[1..], b[1..], c[1..]);
    }
  }

  lemma {:induction false} LessTotal(a: Key, b: Key)
    ensures a == b || Less(a, b) || Less(b, a)
  {
    if a != [] && b != [] && a[0] == b[0] {
      LessTotal(a[1..], b[1..]);
      assert a == [a[0]] + a[1..] && b == [b[0]] + b[1..];
    }
  }

  ghost predicate Ascending(r: seq<Key>) {
    forall i, j :: 0 <= i < j < |r| ==> Less(r[i], r[j])
  }

  /** The keys of a set, each once, in strictly ascending order. */
  ghost predicate IsListing(r: seq<Key>, ks: set<Key>) {
    Ascending(r) && forall k :: k in r <==> k in ks
  }

  /** There is only one such sequence. */
  lemma {:induction false} ListingUnique(r: seq<Key>, q: seq<Key>, ks: set<Key>)
    requires IsListing(r, ks) && IsListing(q, ks)
    ensures r == q
    decreases |r|
  {
    assert q == [] || q[0] in ks;
    if r != [] {
      assert r[0] in q;
      HeadsAgree(r, q, ks);
      TailListing(r, ks);
      TailListing(q, ks);
      ListingUnique(r[1..], q[1..], ks - {r[0]});
      assert r == [r[0]] + r[1..] && q == [q[0]] + q[1..];
    }
  }

  lemma HeadsAgree(r: seq<Key>, q: seq<Key>, ks: set<Key>)
    requires IsListing(r, ks) && IsListing(q, ks) && r != [] && q != []
    ensures r[0] == q[0]
  {
    assert r[0] in q && q[0] in r;
    var i :| 0 <= i < |q| && q[i] == r[0];
    var j :| 0 <= j < |r| && r[j] == q[0];
    if i > 0 && j > 0 {
      LessTransitive(r[0], q[0], r[0]);
      LessIrreflexive(r[0]);
    }
  }

  lemma TailListing(r: seq<Key>, ks: set<Key>)
    requires IsListing(r, ks) && r != []
    ensures IsListing(r[1..], ks - {r[0]})
  {
    LessIrreflexive(r[0]);
    forall k
      ensures k in r[1..] <==> k in ks - {r[0]}
    {
      assert r == [r[0]] + r[1..];
      if k in r[1..] {
        var i :| 0 <= i < |r[1..]| && r[1..][i] == k;
        assert Less(r[0], r[i + 1]);
      }
    }
  }

  // ---------------------------------------------------------------- merging two listings

  /** The parent's keys that show through: neither deleted nor overwritten. */
  ghost function Visible(r: seq<Key>, writes: Contents, deletes: set<Key>): seq<Key> {
    if r == [] then []
    else if r[0] in deletes || r[0] in writes then Visible(r[1..], writes, deletes)
    else [r[0]] + Visible(r[1..], writes, deletes)
  }

  /** The smaller head first; on a tie, the second sequence. */
  ghost function Merge(a: seq<Key>, b: seq<Key>): seq<Key> {
    if a == [] then b
    else if b == [] then a
    else if Less(a[0], b[0]) then [a[0]] + Merge(a[1..], b)
    else [b[0]] + Merge(a, b[1..])
  }

  ghost predicate AllAbove(k: Key, r: seq<Key>) {
    forall i :: 0 <= i < |r| ==> Less(k, r[i])
  }

  lemma AscendingTail(r: seq<Key>)
    requires Ascending(r) && r != []
    ensures Ascending(r[1..]) && AllAbove(r[0], r[1..])
  {
  }

  lemma AscendingCons(k: Key, r: seq<Key>)
    requires Ascending(r) && AllAbove(k, r)
    ensures Ascending([k] + r)
  {
  }

  lemma {:induction false} VisibleListing(r: seq<Key>, writes: Contents, deletes: set<Key>)
    requires Ascending(r)
    ensures Ascending(Visible(r, writes, deletes))
    ensures forall k :: k in Visible(r, writes, deletes) <==> k in r && k !in deletes && k !in writes
  {
    if r != [] {
      AscendingTail(r);
      VisibleListing(r[1..], writes, deletes);
      var rest := Visible(r[1..], writes, deletes);
      assert r == [r[0]] + r[1..];
      forall i | 0 <= i < |rest|
        ensures Less(r[0], rest[i])
      {
        assert rest[i] in r[1..];
      }
      AscendingCons(r[0], rest);
    }
  }

  lemma {:induction false} MergeElements(a: seq<Key>, b: seq<Key>, k: Key)
    ensures k in Merge(a, b) <==> k in a || k in b
  {
    if a != [] && b != [] {
      assert a == [a[0]] + a[1..] && b == [b[0]] + b[1..];
      if Less(a[0], b[0]) {
        MergeElements(a[1..], b, k);
      } else {
        MergeElements(a, b[1..], k);
      }
    }
  }

  lemma AboveAll(k: Key, r: seq<Key>)
    requires r != [] && Ascending(r) && Less(k, r[0])
    ensures AllAbove(k, r)
  {
    forall i | 0 <= i < |r|
      ensures Less(k, r[i])
    {
      if i > 0 {
        LessTransitive(k, r[0], r[i]);
      }
    }
  }

  lemma AboveMerge(k: Key, a: seq<Key>, b: seq<Key>)
    requires AllAbove(k, a) && AllAbove(k, b)
    ensures AllAbove(k, Merge(a, b))
  {
    forall i | 0 <= i < |Merge(a, b)|
      ensures Less(k, Merge(a, b)[i])
    {
      MergeElements(a, b, Merge(a, b)[i]);
    }
  }

  /** Merging two ascending sequences without a common key gives an ascending one. */
  lemma {:induction false} MergeAscends(a: seq<Key>, b: seq<Key>)
    requires Ascending(a) && Ascending(b) && forall k :: k in a ==> k !in b
    ensures Ascending(Merge(a, b))
  {
    if a != [] && b != [] {
      AscendingTail(a);
      AscendingTail(b);
      if Less(a[0], b[0]) {
        AboveAll(a[0], b);
        AboveMerge(a[0], a[1..], b);
        MergeAscends(a[1..], b);
        AscendingCons(a[0], Merge(a[1..], b));
      } else {
        LessTotal(a[0], b[0]);
        assert a[0] in a && b[0] in b;
        AboveAll(b[0], a);
        AboveMerge(b[0], a, b[1..]);
        MergeAscends(a, b[1..]);
        AscendingCons(b[0], Merge(a, b[1..]));
      }
    }
  }

  /** The keys of a plain map from a given one on. */
  ghost function KeysFrom(m: Contents, from: Key): set<Key> {
    set k | k in m && !Less(k, from)
  }

  /**
   * The heart of the iterator: a listing of the writes merged with what shows through of a listing
   * of the parent is a listing of the overlay.
   */
  lemma MergeLists(w: seq<Key>, r: seq<Key>, below: Contents, writes: Contents, deletes: set<Key>, from: Key)
    requires IsListing(w, KeysFrom(writes, from)) && IsListing(r, KeysFrom(below, from))
    ensures IsListing(Merge(w, Visible(r, writes, deletes)), KeysFrom(Overlay(below, writes, deletes), from))
  {
    VisibleListing(r, writes, deletes);
    var v := Visible(r, writes, deletes);
    MergeAscends(w, v);
    forall k
      ensures k in Merge(w, v) <==> k in KeysFrom(Overlay(below, writes, deletes), from)
    {
      MergeElements(w, v, k);
    }
  }
}
