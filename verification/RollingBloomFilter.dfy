/**
 * CRollingBloomFilter (src/bloom.h, src/bloom.cpp) with its array of words: the two bits of a
 * generation number are kept in two neighbouring words.
 */
module RollingBloomFilter {
  import opened FastRange
  import opened RollingBloom
  import opened Words

  /** A cell: a pair of words, and a bit of both. */
  datatype Pos = Pos(pair: nat, bit: nat)

  /** A bit of a word replaced by g. */
  function Stored(x: Word, b: nat, g: bool): (r: Word)
    ensures forall i :: 0 <= i < 64 ==> r[i] == if i == b then g else x[i]
  {
    Or(And(x, Not(Shifted(true, b))), Shifted(g, b))
  }

  // ---------------------------------------------------------------- generation numbers in two words

  /** The low and the high bit of a generation number. */
  predicate Low(g: nat) {
    g % 2 == 1
  }

  predicate High(g: nat) {
    g / 2 == 1
  }

  predicate InRange(data: seq<Word>, p: Pos) {
    2 * p.pair + 1 < |data| && p.bit < 64
  }

  /** The number in a cell. */
  function Code(data: seq<Word>, p: Pos): nat
    requires InRange(data, p)
  {
    (if data[2 * p.pair][p.bit] then 1 else 0) + (if data[2 * p.pair + 1][p.bit] then 2 else 0)
  }

  function StampIn(cells: map<Pos, nat>, p: Pos): nat {
    if p in cells then cells[p] else 0
  }

  /** The words hold exactly the stamps of a filter. */
  ghost predicate Represents(data: seq<Word>, cells: map<Pos, nat>) {
    && (forall p: Pos :: InRange(data, p) ==> Code(data, p) == StampIn(cells, p))
    && (forall p :: p in cells ==> InRange(data, p) && cells[p] != 0)
  }

  /** Storing the two bits of a number changes one cell. */
  lemma StoredCode(was: seq<Word>, now: seq<Word>, p: Pos, g: nat, q: Pos)
    requires InRange(was, p) && InRange(was, q) && g < 4
    requires now == was[2 * p.pair := Stored(was[2 * p.pair], p.bit, Low(g))]
                       [2 * p.pair + 1 := Stored(was[2 * p.pair + 1], p.bit, High(g))]
    ensures Code(now, q) == if q == p then g else Code(was, q)
  {
  }

  lemma StoreKeeps(was: seq<Word>, now: seq<Word>, p: Pos, g: nat, cells: map<Pos, nat>)
    requires Represents(was, cells) && InRange(was, p) && 0 < g < 4
    requires now == was[2 * p.pair := Stored(was[2 * p.pair], p.bit, Low(g))]
                       [2 * p.pair + 1 := Stored(was[2 * p.pair + 1], p.bit, High(g))]
    ensures Represents(now, cells[p := g])
  {
    forall q: Pos | InRange(now, q)
      ensures Code(now, q) == StampIn(cells[p := g], q)
    {
      StoredCode(was, now, p, g, q);
    }
  }

  /** The mask that keeps every cell but those of one number. */
  function Survivors(p1: Word, p2: Word, g: nat): (r: Word)
    ensures forall i :: 0 <= i < 64 ==> r[i] == (p1[i] != Low(g) || p2[i] != High(g))
  {
    Or(Xor(p1, Negated(Low(g))), Xor(p2, Negated(High(g))))
  }

  /** The wipe, as far as it has come. */
  ghost predicate WipedUpTo(was: seq<Word>, now: seq<Word>, k: nat, g: nat) {
    && |now| == |was|
    && forall q: Pos :: InRange(was, q) ==>
         Code(now, q) == if q.pair < k && Code(was, q) == g then 0 else Code(was, q)
  }

  lemma WipeOne(start: seq<Word>, was: seq<Word>, now: seq<Word>, k: nat, g: nat)
    requires WipedUpTo(start, was, k, g) && 2 * k + 1 < |was| && g < 4
    requires var mask := Survivors(was[2 * k], was[2 * k + 1], g);
             now == was[2 * k := And(was[2 * k], mask)][2 * k + 1 := And(was[2 * k + 1], mask)]
    ensures WipedUpTo(start, now, k + 1, g)
  {
    var mask := Survivors(was[2 * k], was[2 * k + 1], g);
    forall q: Pos | InRange(start, q)
      ensures Code(now, q) == if q.pair < k + 1 && Code(start, q) == g then 0 else Code(start, q)
    {
      assert Code(was, q) == if q.pair < k && Code(start, q) == g then 0 else Code(start, q);
    }
  }

  lemma WipeKeeps(was: seq<Word>, now: seq<Word>, g: nat, cells: map<Pos, nat>)
    requires Represents(was, cells) && WipedUpTo(was, now, |was| / 2, g)
    ensures Represents(now, Wiped(cells, g))
  {
    forall q: Pos | InRange(now, q)
      ensures Code(now, q) == StampIn(Wiped(cells, g), q)
    {
      assert Code(was, q) == StampIn(cells, q);
    }
  }

  lemma SetIff(data: seq<Word>, p: Pos, cells: map<Pos, nat>)
    requires Represents(data, cells) && InRange(data, p)
    ensures Or(data[2 * p.pair], data[2 * p.pair + 1])[p.bit] <==> p in cells
  {
    assert Code(data, p) == StampIn(cells, p);
  }

  // ---------------------------------------------------------------- the filter

  /** The cell that a hash selects. */
  function CellOf(h: Hash, size: nat): Pos {
    Pos(FastRange32(h, size) / 2, h % 64)
  }

  function CellsOf<K>(hash: (nat, nat, K) -> Hash, funcs: nat, tweak: nat, size: nat, key: K): seq<Pos> {
    seq(funcs, k requires 0 <= k < funcs => CellOf(hash(k, tweak, key), size))
  }

  function RunOf<K>(hash: (nat, nat, K) -> Hash, funcs: nat, tweak: nat, size: nat, keys: seq<K>): seq<seq<Pos>> {
    seq(|keys|, j requires 0 <= j < |keys| => CellsOf(hash, funcs, tweak, size, keys[j]))
  }

  /** One more insert in a run. */
  lemma AfterOneMore<K>(hash: (nat, nat, K) -> Hash, funcs: nat, tweak: nat, size: nat, keys: seq<K>, key: K, perGeneration: nat)
    ensures After(perGeneration, RunOf(hash, funcs, tweak, size, keys + [key]))
            == RollingBloom.Insert(After(perGeneration, RunOf(hash, funcs, tweak, size, keys)), CellsOf(hash, funcs, tweak, size, key))
  {
    var run := RunOf(hash, funcs, tweak, size, keys + [key]);
    assert run[..|keys|] == RunOf(hash, funcs, tweak, size, keys);
  }

  class CRollingBloomFilter<K(!new)> {
    const hash: (nat, nat, K) -> Hash
    const nHashFuncs: nat
    const nEntriesPerGeneration: nat
    var nEntriesThisGeneration: nat
    var nGeneration: nat
    var data: array<Word>
    var nTweak: nat

    /** The keys inserted since the last reset. */
    ghost var keys: seq<K>

    /** The cells of a key. */
    ghost function Cells(key: K): seq<Pos>
      reads this
    {
      CellsOf(hash, nHashFuncs, nTweak, data.Length, key)
    }

    ghost function Run(): seq<seq<Pos>>
      reads this
    {
      RunOf(hash, nHashFuncs, nTweak, data.Length, keys)
    }

    /** The filter on values that this one stands for: that of its run. */
    ghost function Abstract(): Filter<Pos>
      reads this
    {
      After(nEntriesPerGeneration, Run())
    }

    ghost predicate Valid()
      reads this, data
    {
      && data.Length % 2 == 0 && data.Length > 0
      && nGeneration == Abstract().generation && 1 <= nGeneration <= 3
      && nEntriesThisGeneration == Abstract().inGeneration
      && Represents(data[..], Abstract().cells)
    }

    lemma CellInRange(h: Hash)
      requires data.Length % 2 == 0 && data.Length > 0
      ensures InRange(data[..], CellOf(h, data.Length))
      ensures var pos := FastRange32(h, data.Length);
              2 * CellOf(h, data.Length).pair == pos - pos % 2 && pos < data.Length
    {
      FastRangeBelow(h, data.Length);
    }

    constructor (hash: (nat, nat, K) -> Hash, nElements: nat, nHashFuncs: nat, nFilterBits: nat, tweak: nat)
      requires nFilterBits > 0
      ensures Valid() && fresh(data) && keys == []
      ensures this.hash == hash && this.nHashFuncs == nHashFuncs && nTweak == tweak
      ensures nEntriesPerGeneration == PerGeneration(nElements)
    {
      this.hash := hash;
      this.nHashFuncs := nHashFuncs;
      nEntriesPerGeneration := PerGeneration(nElements);
      data := new Word[(nFilterBits + 63) / 64 * 2](_ => ZERO);
      nTweak := tweak;
      nEntriesThisGeneration, nGeneration, keys := 0, 1, [];
      new;
      Reset(tweak);
    }

    method Reset(tweak: nat)
      requires data.Length % 2 == 0 && data.Length > 0
      modifies this`nTweak, this`nEntriesThisGeneration, this`nGeneration, this`keys, data
      ensures Valid() && keys == [] && nTweak == tweak && data == old(data)
    {
      nTweak := tweak;
      nEntriesThisGeneration, nGeneration, keys := 0, 1, [];
      var i := 0;
      while i < data.Length
        invariant 0 <= i <= data.Length
        invariant forall j :: 0 <= j < i ==> data[j] == ZERO
        modifies data
      {
        data[i] := ZERO;
        i := i + 1;
      }
      assert Run() == [];
    }

    method Wipe()
      requires 1 <= nGeneration <= 3 && data.Length % 2 == 0
      modifies data
      ensures WipedUpTo(old(data[..]), data[..], data.Length / 2, nGeneration)
    {
      var p := 0;
      while p < data.Length
        invariant 0 <= p <= data.Length && p % 2 == 0
        invariant WipedUpTo(old(data[..]), data[..], p / 2, nGeneration)
      {
        ghost var was := data[..];
        var p1, p2 := data[p], data[p + 1];
        var mask := Survivors(p1, p2, nGeneration);
        data[p] := And(p1, mask);
        data[p + 1] := And(p2, mask);
        WipeOne(old(data[..]), was, data[..], p / 2, nGeneration);
        p := p + 2;
      }
    }

    method StampOne(h: Hash, ghost cells: map<Pos, nat>)
      requires data.Length % 2 == 0 && data.Length > 0 && 1 <= nGeneration <= 3
      requires Represents(data[..], cells)
      modifies data
      ensures Represents(data[..], cells[CellOf(h, data.Length) := nGeneration])
    {
      CellInRange(h);
      ghost var was := data[..];
      var bit := h % 64;
      var pos := FastRange32(h, data.Length);
      data[pos - pos % 2] := Stored(data[pos - pos % 2], bit, Low(nGeneration));
      data[pos - pos % 2 + 1] := Stored(data[pos - pos % 2 + 1], bit, High(nGeneration));
      StoreKeeps(was, data[..], CellOf(h, data.Length), nGeneration, cells);
    }

    /** A full generation makes way for the next. */
    method Turn(ghost f: Filter<Pos>)
      requires data.Length % 2 == 0 && 1 <= nGeneration <= 3 && Represents(data[..], f.cells)
      requires nGeneration == f.generation && nEntriesThisGeneration == f.inGeneration
      requires f.perGeneration == nEntriesPerGeneration
      modifies this`nEntriesThisGeneration, this`nGeneration, data
      ensures 1 <= nGeneration <= 3 && Represents(data[..], Turned(f).cells)
      ensures nGeneration == Turned(f).generation && nEntriesThisGeneration == Turned(f).inGeneration
    {
      if nEntriesThisGeneration == nEntriesPerGeneration {
        nEntriesThisGeneration := 0;
        nGeneration := nGeneration + 1;
        if nGeneration == 4 {
          nGeneration := 1;
        }
        ghost var was := data[..];
        Wipe();
        WipeKeeps(was, data[..], nGeneration, f.cells);
      }
    }

    method StampAll(vKey: K, ghost cells: map<Pos, nat>)
      requires data.Length % 2 == 0 && data.Length > 0 && 1 <= nGeneration <= 3
      requires Represents(data[..], cells)
      modifies data
      ensures Represents(data[..], Stamped(cells, Cells(vKey), nGeneration))
    {
      ghost var ps := Cells(vKey);
      var n := 0;
      while n < nHashFuncs
        invariant 0 <= n <= nHashFuncs
        invariant Represents(data[..], Stamped(cells, ps[..n], nGeneration))
      {
        StampOne(hash(n, nTweak, vKey), Stamped(cells, ps[..n], nGeneration));
        assert ps[..n + 1][..n] == ps[..n];
        n := n + 1;
      }
      assert ps[..n] == ps;
    }

    method Insert(vKey: K)
      requires Valid()
      modifies this`nEntriesThisGeneration, this`nGeneration, this`keys, data
      ensures Valid() && keys == old(keys) + [vKey]
    {
      ghost var f := Abstract();
      CountersFollow(nEntriesPerGeneration, Run());
      Turn(f);
      nEntriesThisGeneration := nEntriesThisGeneration + 1;
      StampAll(vKey, Turned(f).cells);
      AfterOneMore(hash, nHashFuncs, nTweak, data.Length, keys, vKey, nEntriesPerGeneration);
      keys := keys + [vKey];
    }

    method Contains(vKey: K) returns (r: bool)
      requires Valid()
      ensures r <==> RollingBloom.Contains(Abstract(), Cells(vKey))
      ensures vKey in keys[if |keys| <= 2 * nEntriesPerGeneration then 0 else |keys| - 2 * nEntriesPerGeneration - 1..] ==> r
    {
      ghost var ps := Cells(vKey);
      ContainsKey(vKey);
      var n := 0;
      while n < nHashFuncs
        invariant 0 <= n <= nHashFuncs
        invariant forall k :: 0 <= k < n ==> ps[k] in Abstract().cells
      {
        var h := hash(n, nTweak, vKey);
        var bit := h % 64;
        var pos := FastRange32(h, data.Length);
        CellInRange(h);
        SetIff(data[..], CellOf(h, data.Length), Abstract().cells);
        assert ps[n] == CellOf(h, data.Length);
        if !Or(data[pos - pos % 2], data[pos - pos % 2 + 1])[bit] {
          return false;
        }
        n := n + 1;
      }
      return true;
    }

    lemma ContainsKey(vKey: K)
      ensures vKey in keys[if |keys| <= 2 * nEntriesPerGeneration then 0 else |keys| - 2 * nEntriesPerGeneration - 1..]
              ==> RollingBloom.Contains(Abstract(), Cells(vKey))
    {
      var from := if |keys| <= 2 * nEntriesPerGeneration then 0 else |keys| - 2 * nEntriesPerGeneration - 1;
      if vKey in keys[from..] {
        var j :| from <= j < |keys| && keys[j] == vKey;
        ContainsLast(nEntriesPerGeneration, Run(), j);
      }
    }
  }
}
