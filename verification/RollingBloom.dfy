/**
 * What the rolling bloom filter (src/bloom.h, src/bloom.cpp) remembers: cells stamped with one of
 * three generation numbers, wiped when a number comes round again. `P` is the type of cell
 * positions; where the keys hash to is a parameter.
 */
module RollingBloom {
  import opened Arithmetic

  /** A filter; `cells` holds the stamps that are not zero. */
  datatype Filter<P> = Filter(perGeneration: nat, inGeneration: nat, generation: nat, cells: map<P, nat>)

  /** An empty filter. */
  function Reset<P>(perGeneration: nat): Filter<P> {
    Filter(perGeneration, 0, 1, map[])
  }

  function NextNumber(g: nat): nat {
    if g + 1 == 4 then 1 else g + 1
  }

  /** Entries of one generation number are removed. */
  function Wiped<P>(cells: map<P, nat>, g: nat): map<P, nat> {
    map p | p in cells && cells[p] != g :: cells[p]
  }

  /** The positions of a key are stamped, one after the other. */
  function Stamped<P>(cells: map<P, nat>, ps: seq<P>, g: nat): map<P, nat> {
    if ps == [] then cells else Stamped(cells, ps[..|ps| - 1], g)[ps[|ps| - 1] := g]
  }

  /** The start of a new generation, if the current one is full. */
  function Turned<P>(f: Filter<P>): Filter<P> {
    if f.inGeneration == f.perGeneration then
      var g := NextNumber(f.generation);
      Filter(f.perGeneration, 0, g, Wiped(f.cells, g))
    else f
  }

  function Insert<P>(f: Filter<P>, ps: seq<P>): Filter<P> {
    var f1 := Turned(f);
    f1.(inGeneration := f1.inGeneration + 1, cells := Stamped(f1.cells, ps, f1.generation))
  }

  predicate Contains<P(==)>(f: Filter<P>, ps: seq<P>) {
    forall k :: 0 <= k < |ps| ==> ps[k] in f.cells
  }

  lemma {:induction false} StampedAt<P>(cells: map<P, nat>, ps: seq<P>, g: nat, p: P)
    ensures p in Stamped(cells, ps, g) <==> p in cells || p in ps
    ensures p in Stamped(cells, ps, g) ==> Stamped(cells, ps, g)[p] == if p in ps then g else cells[p]
  {
    if ps != [] {
      StampedAt(cells, ps[..|ps| - 1], g, p);
      assert ps == ps[..|ps| - 1] + [ps[|ps| - 1]];
    }
  }

  // ---------------------------------------------------------------- whole runs

  /** The filter after a run of inserts; each insert is the list of positions of its key. */
  function After<P>(perGeneration: nat, run: seq<seq<P>>): Filter<P> {
    if run == [] then Reset(perGeneration)
    else Insert(After(perGeneration, run[..|run| - 1]), run[|run| - 1])
  }

  /** The generation that is current after n inserts, counted without wrapping round, and its size. */
  function Clock(perGeneration: nat, n: nat): (nat, nat) {
    if n == 0 then (0, 0)
    else
      var (g, c) := Clock(perGeneration, n - 1);
      if c == perGeneration then (g + 1, 1) else (g, c + 1)
  }

  /** The generation that an insert belongs to. */
  function Generation(perGeneration: nat, j: nat): nat {
    Clock(perGeneration, j + 1).0
  }

  /** The last insert that stamped a position, or -1. */
  function LastAt<P(==)>(run: seq<seq<P>>, p: P): (j: int)
    ensures -1 <= j < |run|
  {
    if run == [] then -1 else if p in run[|run| - 1] then |run| - 1 else LastAt(run[..|run| - 1], p)
  }

  /** The stamp that a position should carry: that of its last insert, for three generations. */
  function Stamp<P(==)>(perGeneration: nat, run: seq<seq<P>>, p: P): nat {
    var j := LastAt(run, p);
    if j < 0 || Generation(perGeneration, j) + 2 < Clock(perGeneration, |run|).0 then 0
    else Generation(perGeneration, j) % 3 + 1
  }

  lemma {:induction false} ClockMonotone(perGeneration: nat, i: nat, n: nat)
    requires i <= n
    ensures Clock(perGeneration, i).0 <= Clock(perGeneration, n).0
    decreases n
  {
    if i < n {
      ClockMonotone(perGeneration, i, n - 1);
    }
  }

  /** The counters follow the clock. */
  lemma {:induction false} CountersFollow<P>(perGeneration: nat, run: seq<seq<P>>)
    ensures var f := After(perGeneration, run);
            var (g, c) := Clock(perGeneration, |run|);
            f.perGeneration == perGeneration && f.inGeneration == c && f.generation == g % 3 + 1
  {
    if run != [] {
      CountersFollow(perGeneration, run[..|run| - 1]);
    }
  }

  /** Exactly which stamp every cell carries after any run. */
  lemma {:induction false} CellsExact<P>(perGeneration: nat, run: seq<seq<P>>, p: P)
    ensures var cells := After(perGeneration, run).cells;
            (if p in cells then cells[p] else 0) == Stamp(perGeneration, run, p)
    ensures p in After(perGeneration, run).cells ==> After(perGeneration, run).cells[p] != 0
  {
    if run != [] {
      var before := run[..|run| - 1];
      var f := After(perGeneration, before);
      CountersFollow(perGeneration, before);
      CellsExact(perGeneration, before, p);
      var f1 := Turned(f);
      StampedAt(f1.cells, run[|run| - 1], f1.generation, p);
      if p !in run[|run| - 1] && LastAt(before, p) >= 0 {
        ClockMonotone(perGeneration, LastAt(before, p) + 1, |before|);
      }
    }
  }

  /** An insert is within the last three generations. */
  predicate Recent(perGeneration: nat, n: nat, j: nat) {
    Generation(perGeneration, j) + 2 >= Clock(perGeneration, n).0
  }

  lemma {:induction false} LastIsLast<P>(run: seq<seq<P>>, p: P, j: nat)
    requires j < |run| && p in run[j]
    ensures LastAt(run, p) >= j
  {
    if j < |run| - 1 && p !in run[|run| - 1] {
      LastIsLast(run[..|run| - 1], p, j);
    }
  }

  lemma {:induction false} LastStamped<P>(run: seq<seq<P>>, p: P)
    requires LastAt(run, p) >= 0
    ensures p in run[LastAt(run, p)]
  {
    if p !in run[|run| - 1] {
      LastStamped(run[..|run| - 1], p);
    }
  }

  ghost predicate StampedRecently<P>(perGeneration: nat, run: seq<seq<P>>, p: P) {
    exists j :: 0 <= j < |run| && p in run[j] && Recent(perGeneration, |run|, j)
  }

  /**
   * What the filter remembers, exactly: a position is set if and only if an insert of the last
   * three generations stamped it.
   */
  lemma SetExactly<P>(perGeneration: nat, run: seq<seq<P>>, p: P)
    ensures p in After(perGeneration, run).cells <==> StampedRecently(perGeneration, run, p)
  {
    CellsExact(perGeneration, run, p);
    var last := LastAt(run, p);
    if p in After(perGeneration, run).cells {
      LastStamped(run, p);
    } else if j :| 0 <= j < |run| && p in run[j] && Recent(perGeneration, |run|, j) {
      LastIsLast(run, p, j);
      ClockMonotone(perGeneration, j + 1, last + 1);
    }
  }

  /** A key is reported exactly when inserts of the last three generations cover its positions. */
  lemma ContainsExactly<P>(perGeneration: nat, run: seq<seq<P>>, ps: seq<P>)
    ensures Contains(After(perGeneration, run), ps)
            <==> forall k :: 0 <= k < |ps| ==> StampedRecently(perGeneration, run, ps[k])
  {
    forall k | 0 <= k < |ps|
      ensures ps[k] in After(perGeneration, run).cells <==> StampedRecently(perGeneration, run, ps[k])
    {
      SetExactly(perGeneration, run, ps[k]);
    }
  }

  /** Every generation but the current one is full. */
  lemma {:induction false} ClockCounts(perGeneration: nat, n: nat)
    requires perGeneration > 0
    ensures var (g, c) := Clock(perGeneration, n);
            n == perGeneration * g + c && c <= perGeneration && (n > 0 ==> c >= 1)
  {
    if n > 0 {
      ClockCounts(perGeneration, n - 1);
    }
  }

  /** How many of n inserts are remembered: two full generations and the current one. */
  function Remembered(perGeneration: nat, n: nat): (count: nat)
    requires perGeneration > 0 && n > 0
    ensures 2 * perGeneration < count <= 3 * perGeneration
  {
    2 * perGeneration + (n - 1) % perGeneration + 1
  }

  lemma GenerationsApart(size: int, n: int, g: int, c: int, i: int, gi: int, ci: int)
    requires size > 0 && n == size * g + c && i == size * gi + ci
    requires 1 <= c <= size && 1 <= ci <= size
    ensures g - gi <= 2 <==> n - i < 2 * size + c
  {
    Distribute(size, g, -gi);
    if g - gi >= 3 {
      MulMono(size, 3, g - gi);
    } else {
      MulMono(size, g - gi, 2);
    }
  }

  /** The recent inserts are exactly that many last ones. */
  lemma RecentIff(perGeneration: nat, n: nat, j: nat)
    requires perGeneration > 0 && j < n
    ensures Recent(perGeneration, n, j) <==> n - j <= Remembered(perGeneration, n)
  {
    ClockCounts(perGeneration, n);
    ClockCounts(perGeneration, j + 1);
    var (g, c) := Clock(perGeneration, n);
    GenerationsApart(perGeneration, n, g, c, j + 1, Clock(perGeneration, j + 1).0, Clock(perGeneration, j + 1).1);
    DivModIs(n - 1, perGeneration, g, c - 1);
  }

  /** With no room in a generation, the first insert starts one that never ends. */
  lemma {:induction false} NeverTurns(n: nat)
    ensures Clock(0, n).0 <= 1 && (n > 0 ==> Clock(0, n).1 == n)
  {
    if n > 0 {
      NeverTurns(n - 1);
    }
  }

  /** (nElements + 1) / 2 per generation: two of them cover nElements, and no more than one beyond. */
  function PerGeneration(nElements: nat): (size: nat)
    ensures nElements <= 2 * size <= nElements + 1
  {
    (nElements + 1) / 2
  }

  /**
   * After any run of inserts since a reset, the filter contains each of the last
   * 2 * perGeneration + 1 keys that were inserted, one more than the source promises.
   */
  lemma ContainsLast<P>(perGeneration: nat, run: seq<seq<P>>, j: nat)
    requires j < |run| <= j + 2 * perGeneration + 1
    ensures Contains(After(perGeneration, run), run[j])
  {
    if perGeneration > 0 {
      RecentIff(perGeneration, |run|, j);
    } else {
      NeverTurns(|run|);
    }
    ContainsExactly(perGeneration, run, run[j]);
  }

  /** In particular each of the last nElements. */
  lemma ContainsLastElements<P>(nElements: nat, run: seq<seq<P>>, j: nat)
    requires j < |run| <= j + nElements
    ensures Contains(After(PerGeneration(nElements), run), run[j])
  {
    ContainsLast(PerGeneration(nElements), run, j);
  }

  /**
   * And exactly which positions are set at every point of every run: those stamped by the last
   * 2 * perGeneration + 1 inserts and the others of the current generation. So the bound is tight whenever a
   * generation starts.
   */
  lemma RemembersExactly<P>(perGeneration: nat, run: seq<seq<P>>, p: P)
    requires perGeneration > 0 && run != []
    ensures p in After(perGeneration, run).cells
            <==> exists j :: 0 <= j < |run| <= j + Remembered(perGeneration, |run|) && p in run[j]
  {
    SetExactly(perGeneration, run, p);
    forall j | 0 <= j < |run|
      ensures Recent(perGeneration, |run|, j) <==> |run| - j <= Remembered(perGeneration, |run|)
    {
      RecentIff(perGeneration, |run|, j);
    }
  }
}
