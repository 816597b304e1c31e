/**
 * The cuckoo cache with its arrays: bit-packed collection flags, epoch flags and the table, each
 * updated in place, and every method proved to act as module Cuckoo says.
 */
module CuckooTable {
  import opened Common
  import opened Bits
  import opened Cuckoo

  /** The bits that are packed into bytes. */
  ghost predicate Packed(mem: seq<bv8>, bits: seq<bool>) {
    && |mem| == (|bits| + 7) / 8
    && forall i :: 0 <= i < |bits| ==> bits[i] == BitAt(mem[i / 8], i % 8)
  }

  lemma SetPacked(mem: seq<bv8>, bits: seq<bool>, s: nat, byte: bv8, value: bool)
    requires Packed(mem, bits) && s < |bits|
    requires forall j :: 0 <= j < 8 ==> BitAt(byte, j) == if j == s % 8 then value else BitAt(mem[s / 8], j)
    ensures Packed(mem[s / 8 := byte], bits[s := value])
  {
    forall i | 0 <= i < |bits|
      ensures bits[s := value][i] == BitAt(mem[s / 8 := byte][i / 8], i % 8)
    {
      if i / 8 == s / 8 {
        assert BitAt(byte, i % 8) == if i % 8 == s % 8 then value else BitAt(mem[s / 8], i % 8);
      }
    }
  }

  /** bit_packed_atomic_flags: one bit for each slot, eight to a byte. */
  class BitPackedFlags {
    const mem: array<bv8>
    ghost var bits: seq<bool>

    ghost predicate Valid()
      reads this, mem
    {
      Packed(mem[..], bits)
    }

    /** All bits start out set. */
    constructor (size: nat)
      ensures Valid() && fresh(mem) && bits == seq(size, i => true)
    {
      mem := new bv8[(size + 7) / 8](i => 0xFF);
      bits := seq(size, i => true);
      new;
      forall i | 0 <= i < size
        ensures BitAt(0xFF, i % 8)
      {
        AllOnes(i % 8);
      }
    }

    method Set(s: nat)
      requires Valid() && s < |bits|
      modifies this, mem
      ensures Valid() && bits == old(bits)[s := true]
    {
      ghost var before := mem[..];
      var byte := mem[s / 8] | Mask(s % 8);
      forall j | 0 <= j < 8
        ensures BitAt(byte, j) == if j == s % 8 then true else BitAt(before[s / 8], j)
      {
        SetBit(before[s / 8], s % 8, j);
      }
      SetPacked(before, bits, s, byte, true);
      mem[s / 8] := byte;
      bits := bits[s := true];
      assert mem[..] == before[s / 8 := byte];
    }

    method Unset(s: nat)
      requires Valid() && s < |bits|
      modifies this, mem
      ensures Valid() && bits == old(bits)[s := false]
    {
      ghost var before := mem[..];
      var byte := mem[s / 8] & !Mask(s % 8);
      forall j | 0 <= j < 8
        ensures BitAt(byte, j) == if j == s % 8 then false else BitAt(before[s / 8], j)
      {
        UnsetBit(before[s / 8], s % 8, j);
      }
      SetPacked(before, bits, s, byte, false);
      mem[s / 8] := byte;
      bits := bits[s := false];
      assert mem[..] == before[s / 8 := byte];
    }

    method IsSet(s: nat) returns (b: bool)
      requires Valid() && s < |bits|
      ensures b == bits[s]
    {
      b := BitAt(mem[s / 8], s % 8);
    }
  }

  /** A chain with this element in hand, and this many rounds left, ends in the given result. */
  ghost predicate EndsIn<E>(p: Params<E>, s: State<E>, e: E, lastLoc: int, lastEpoch: bool, depth: nat, result: (State<E>, Option<E>))
    requires Shaped(s)
  {
    forall k {:trigger Asked(depth, k)} :: Asked(depth, k) ==> Displace(p, s, e, lastLoc, lastEpoch, depth) == result
  }

  lemma ChainEnds<E>(p: Params<E>, s: State<E>, e: E, lastLoc: int, lastEpoch: bool, depth: nat, result: (State<E>, Option<E>))
    requires Shaped(s) && depth == 0 && EndsIn(p, s, e, lastLoc, lastEpoch, depth, result)
    ensures result == (s, Some(e))
  {
    assert Asked(depth, 0);
  }

  lemma ChainStarts<E>(p: Params<E>, s: State<E>, e: E, lastLoc: int, lastEpoch: bool, depth: nat)
    requires Shaped(s)
    ensures EndsIn(p, s, e, lastLoc, lastEpoch, depth, Displace(p, s, e, lastLoc, lastEpoch, depth))
  {
  }

  class CuckooCache<E(==)> {
    const params: Params<E>
    const table: array<E>
    const flags: BitPackedFlags
    const epochFlags: array<bool>
    const epochSize: nat
    const depthLimit: nat
    var counter: nat

    ghost predicate Valid()
      reads this, table, flags, flags.mem, epochFlags
    {
      && flags.Valid() && Shaped(Abstract())
      && (table as object) != (epochFlags as object) && (table as object) != (flags.mem as object)
      && (epochFlags as object) != (flags.mem as object)
    }

    ghost function Abstract(): State<E>
      reads this, table, flags, epochFlags
    {
      State(table[..], flags.bits, epochFlags[..], counter, epochSize, depthLimit)
    }

    /** setup; the depth limit is the base-2 logarithm of the size, and at least 1. */
    constructor (params: Params<E>, newSize: nat, depthLimit: nat)
      ensures Valid() && Abstract() == SetUp(params, newSize, depthLimit) && this.params == params
    {
      this.params := params;
      var size := Max(2, newSize);
      table := new E[size](i => params.default_);
      flags := new BitPackedFlags(size);
      epochFlags := new bool[size](i => false);
      epochSize := Max(1, (45 * size) % 0x1_0000_0000 / 100);
      this.depthLimit := depthLimit;
      counter := Max(1, (45 * size) % 0x1_0000_0000 / 100);
      new;
      assert Abstract() == SetUp(params, newSize, depthLimit);
    }

    /** The first loop of epoch_check. */
    method CountEpoch() returns (count: nat)
      requires Valid()
      ensures count == EpochCount(Abstract(), table.Length)
    {
      count := 0;
      var i := 0;
      while i < table.Length
        invariant 0 <= i <= table.Length && count == EpochCount(Abstract(), i)
      {
        var isCollected := flags.IsSet(i);
        if epochFlags[i] && !isCollected {
          count := count + 1;
        }
        i := i + 1;
      }
    }

    /** The second loop of epoch_check. */
    method Age()
      requires Valid()
      modifies flags, flags.mem, epochFlags
      ensures Valid() && Abstract() == Aged(old(Abstract()))
    {
      ghost var s := Abstract();
      var i := 0;
      while i < table.Length
        invariant 0 <= i <= table.Length && Valid()
        invariant table[..] == s.table && counter == s.counter
        invariant forall j :: 0 <= j < i ==> flags.bits[j] == (s.collected[j] || !s.epoch[j]) && !epochFlags[j]
        invariant forall j :: i <= j < table.Length ==> flags.bits[j] == s.collected[j] && epochFlags[j] == s.epoch[j]
      {
        if epochFlags[i] {
          epochFlags[i] := false;
        } else {
          flags.Set(i);
        }
        i := i + 1;
      }
      assert flags.bits == Aged(s).collected;
      assert epochFlags[..] == Aged(s).epoch;
    }

    method EpochCheck()
      requires Valid()
      modifies this, flags, flags.mem, epochFlags
      ensures Valid() && Abstract() == Cuckoo.EpochCheck(old(Abstract()))
    {
      if counter != 0 {
        counter := counter - 1;
        return;
      }
      var count := CountEpoch();
      if count >= epochSize {
        Age();
        counter := epochSize;
      } else {
        counter := Max(1, Max(epochSize / 16, epochSize - count));
      }
    }

    /** The search for an element at its eight locations. */
    method FindHolding(e: E) returns (k: nat)
      requires Valid()
      ensures k == FirstHolding(params, Abstract(), e, 0)
    {
      k := 0;
      while k < 8
        invariant k <= 8 && FirstHolding(params, Abstract(), e, 0) == FirstHolding(params, Abstract(), e, k)
      {
        if table[Loc(params, table.Length, e, k)] == e {
          return;
        }
        k := k + 1;
      }
    }

    /** The search for a location that may be overwritten. */
    method FindFree(e: E) returns (k: nat)
      requires Valid()
      ensures k == FirstFree(params, Abstract(), e)
    {
      k := 0;
      while k < 8
        invariant k <= 8 && forall j :: 0 <= j < k ==> !FreeAt(params, Abstract(), e, j)
      {
        var isFree := flags.IsSet(Loc(params, table.Length, e, k));
        if isFree {
          assert FreeAt(params, Abstract(), e, k);
          return;
        }
        k := k + 1;
      }
    }

    /** std::find over the eight locations. */
    method FindIndex(e: E, loc: int) returns (k: nat)
      ensures k == IndexOf(params, table.Length, e, loc, 0)
    {
      k := 0;
      while k < 8
        invariant k <= 8 && IndexOf(params, table.Length, e, loc, 0) == IndexOf(params, table.Length, e, loc, k)
      {
        if Loc(params, table.Length, e, k) == loc {
          return;
        }
        k := k + 1;
      }
    }

    method Write(i: nat, e: E, epoch: bool)
      requires Valid() && i < table.Length
      modifies table, flags, flags.mem, epochFlags
      ensures Valid() && Abstract() == WriteSlot(old(Abstract()), i, e, epoch)
    {
      table[i] := e;
      flags.Unset(i);
      epochFlags[i] := epoch;
      assert table[..] == old(table[..])[i := e] && epochFlags[..] == old(epochFlags[..])[i := epoch];
    }

    method Swap(i: nat, e: E, epoch: bool) returns (outE: E, outEpoch: bool)
      requires Valid() && i < table.Length
      modifies table, epochFlags
      ensures Valid() && Abstract() == Swapped(old(Abstract()), i, e, epoch)
      ensures outE == old(table[i]) && outEpoch == old(epochFlags[i])
    {
      outE, outEpoch := table[i], epochFlags[i];
      table[i] := e;
      epochFlags[i] := epoch;
      assert table[..] == old(table[..])[i := e] && epochFlags[..] == old(epochFlags[..])[i := epoch];
    }

    /** insert; the result is the element dropped at the end of the chain, if any. */
    method Insert(e: E) returns (dropped: Option<E>)
      requires Valid()
      modifies this, table, flags, flags.mem, epochFlags
      ensures Valid() && (Abstract(), dropped) == Cuckoo.Insert(params, old(Abstract()), e)
    {
      EpochCheck();
      var k := FindHolding(e);
      if k < 8 {
        var loc := Loc(params, table.Length, e, k);
        flags.Unset(loc);
        epochFlags[loc] := true;
        assert epochFlags[..] == Cuckoo.EpochCheck(old(Abstract())).epoch[loc := true];
        return None;
      }
      dropped := Chain(e);
    }

    /** One round of the displacement loop: the element is placed, or another one comes into hand. */
    method ChainRound(e: E, lastLoc: int, lastEpoch: bool, ghost depth: nat, ghost result: (State<E>, Option<E>))
      returns (placed: bool, outE: E, outLoc: nat, outEpoch: bool)
      requires Valid() && depth > 0 && EndsIn(params, Abstract(), e, lastLoc, lastEpoch, depth, result)
      modifies table, flags, flags.mem, epochFlags
      ensures Valid()
      ensures if placed then (Abstract(), None) == result
              else EndsIn(params, Abstract(), outE, outLoc, outEpoch, depth - 1, result)
    {
      assert Asked(depth, 0);
      var k := FindFree(e);
      placed := k < 8;
      if placed {
        outE, outLoc, outEpoch := e, Loc(params, table.Length, e, k), lastEpoch;
        Write(outLoc, e, lastEpoch);
      } else {
        var index := FindIndex(e, lastLoc);
        outLoc := Loc(params, table.Length, e, (1 + index) % 8);
        outE, outEpoch := Swap(outLoc, e, lastEpoch);
      }
    }

    /** The displacement loop of insert. */
    method Chain(element: E) returns (dropped: Option<E>)
      requires Valid()
      modifies table, flags, flags.mem, epochFlags
      ensures Valid() && (Abstract(), dropped) == Displace(params, old(Abstract()), element, -1, true, depthLimit)
    {
      ghost var result := Displace(params, Abstract(), element, -1, true, depthLimit);
      ChainStarts(params, Abstract(), element, -1, true, depthLimit);
      var e, lastEpoch, depth, placed := element, true, 0, false;
      var lastLoc: int := -1;
      while depth < depthLimit
        invariant 0 <= depth <= depthLimit && Valid()
        invariant EndsIn(params, Abstract(), e, lastLoc, lastEpoch, depthLimit - depth, result)
      {
        placed, e, lastLoc, lastEpoch := ChainRound(e, lastLoc, lastEpoch, depthLimit - depth, result);
        if placed {
          return None;
        }
        depth := depth + 1;
      }
      ChainEnds(params, Abstract(), e, lastLoc, lastEpoch, depthLimit - depth, result);
      return Some(e);
    }

    method Contains(e: E, erase: bool) returns (found: bool)
      requires Valid()
      modifies flags, flags.mem
      ensures Valid() && found == Cuckoo.Contains(params, old(Abstract()), e)
      ensures Abstract() == if erase then Erase(params, old(Abstract()), e) else old(Abstract())
    {
      var k := FindHolding(e);
      if k == 8 {
        return false;
      }
      if erase {
        flags.Set(Loc(params, table.Length, e, k));
      }
      return true;
    }
  }
}
