/**
 * Golomb-coded sets (src/util/golombrice.h, src/blockfilter.cpp; BIP 158) on values: the coding of
 * sorted numbers as bits, and the merge scan that looks for a common element.
 */
module Gcs {
  import opened Bits
  import opened Common

  // ---------------------------------------------------------------- bits

  /** The lowest n bits of a number, the most significant first. */
  function BitsOf(x: nat, n: nat): (b: seq<bool>)
    ensures |b| == n
  {
    if n == 0 then [] else BitsOf(x / 2, n - 1) + [x % 2 == 1]
  }

  function NumberOf(b: seq<bool>): nat {
    if b == [] then 0 else 2 * NumberOf(b[..|b| - 1]) + if b[|b| - 1] then 1 else 0
  }

  /** x shifted right by p bits. */
  function ShiftRight(x: nat, p: nat): nat {
    if p == 0 then x else ShiftRight(x / 2, p - 1)
  }

  lemma LastBit(b: seq<bool>, last: bool)
    ensures NumberOf(b + [last]) == 2 * NumberOf(b) + if last then 1 else 0
  {
    assert (b + [last])[..|b|] == b;
  }

  /** A number is its upper bits, shifted back, and its lower bits. */
  lemma {:induction false} UpperAndLower(x: nat, p: nat)
    ensures Doubled(ShiftRight(x, p), p) + NumberOf(BitsOf(x, p)) == x
  {
    if p > 0 {
      UpperAndLower(x / 2, p - 1);
      LastBit(BitsOf(x / 2, p - 1), x % 2 == 1);
    }
  }

  /** So many ones. */
  function Ones(n: nat): (b: seq<bool>)
    ensures |b| == n && forall i :: 0 <= i < n ==> b[i]
  {
    seq(n, _ => true)
  }

  // ---------------------------------------------------------------- one number

  /** GolombRiceEncode: the quotient in unary, a zero, and p bits of remainder. */
  function EncodeOne(p: nat, x: nat): seq<bool> {
    Ones(ShiftRight(x, p)) + [false] + BitsOf(x, p)
  }

  /** The number of ones in front, and what follows the zero behind them. */
  function Unary(bits: seq<bool>): Option<(nat, seq<bool>)> {
    if bits == [] then None
    else if !bits[0] then Some((0, bits[1..]))
    else match Unary(bits[1..]) case None => None case Some((q, rest)) => Some((q + 1, rest))
  }

  /** GolombRiceDecode: nothing, where the stream ends early. */
  function DecodeOne(p: nat, bits: seq<bool>): Option<(nat, seq<bool>)> {
    match Unary(bits)
    case None => None
    case Some((q, rest)) =>
      if |rest| < p then None
      else
        DoubledNat(q, p);
        Some((Doubled(q, p) + NumberOf(rest[..p]), rest[p..]))
  }

  lemma {:induction false} DoubledNat(d: nat, k: nat)
    ensures Doubled(d, k) >= 0
  {
    if k > 0 {
      DoubledNat(d, k - 1);
    }
  }

  lemma {:induction false} UnaryOfOnes(q: nat, rest: seq<bool>)
    ensures Unary(Ones(q) + ([false] + rest)) == Some((q, rest))
  {
    var bits := Ones(q) + ([false] + rest);
    if q > 0 {
      UnaryOfOnes(q - 1, rest);
      assert bits[1..] == Ones(q - 1) + ([false] + rest);
    } else {
      assert bits[1..] == rest;
    }
  }

  /** Decoding inverts encoding, and leaves what follows. */
  lemma DecodeEncodeOne(p: nat, x: nat, rest: seq<bool>)
    ensures DecodeOne(p, EncodeOne(p, x) + rest) == Some((x, rest))
  {
    var q, b := ShiftRight(x, p), BitsOf(x, p);
    UnaryOfOnes(q, b + rest);
    assert EncodeOne(p, x) + rest == Ones(q) + ([false] + (b + rest));
    assert (b + rest)[..p] == b && (b + rest)[p..] == rest;
    UpperAndLower(x, p);
  }

  // ---------------------------------------------------------------- ascending numbers

  ghost predicate Sorted(s: seq<nat>) {
    forall i, j :: 0 <= i < j < |s| ==> s[i] <= s[j]
  }

  /** Each number as its distance from the one before. */
  function EncodeAll(p: nat, last: nat, values: seq<nat>): seq<bool>
    requires Sorted(values) && (values != [] ==> last <= values[0])
    decreases |values|
  {
    if values == [] then []
    else EncodeOne(p, values[0] - last) + EncodeAll(p, values[0], values[1..])
  }

  /** n numbers from their distances, and what follows. */
  function DecodeAll(p: nat, last: nat, n: nat, bits: seq<bool>): Option<(seq<nat>, seq<bool>)>
    decreases n
  {
    if n == 0 then Some(([], bits))
    else
      match DecodeOne(p, bits)
      case None => None
      case Some((delta, rest)) =>
        match DecodeAll(p, last + delta, n - 1, rest)
        case None => None
        case Some((values, end)) => Some(([last + delta] + values, end))
  }

  /** What was encoded is decoded, whatever padding follows. */
  lemma {:induction false} DecodeEncodeAll(p: nat, last: nat, values: seq<nat>, padding: seq<bool>)
    requires Sorted(values) && (values != [] ==> last <= values[0])
    ensures DecodeAll(p, last, |values|, EncodeAll(p, last, values) + padding) == Some((values, padding))
    decreases |values|
  {
    if values != [] {
      var rest := EncodeAll(p, values[0], values[1..]);
      DecodeEncodeOne(p, values[0] - last, rest + padding);
      assert EncodeAll(p, last, values) + padding == EncodeOne(p, values[0] - last) + (rest + padding);
      DecodeEncodeAll(p, values[0], values[1..], padding);
      assert values == [values[0]] + values[1..];
    } else {
      assert EncodeAll(p, last, values) + padding == padding;
    }
  }

  /** Whatever bits decode, the numbers ascend. */
  lemma {:induction false} DecodedSorted(p: nat, last: nat, n: nat, bits: seq<bool>)
    requires DecodeAll(p, last, n, bits).Some?
    ensures var values := DecodeAll(p, last, n, bits).value.0;
            |values| == n && Sorted(values) && forall i :: 0 <= i < n ==> values[i] >= last
    decreases n
  {
    if n > 0 {
      var (delta, rest) := DecodeOne(p, bits).value;
      DecodedSorted(p, last + delta, n - 1, rest);
    }
  }

  // ---------------------------------------------------------------- 64-bit arithmetic

  const WORD: nat := 0x1_0000_0000_0000_0000

  /** The same in 64-bit arithmetic, where a distance and a running sum may wrap round. */
  function Decode64(p: nat, last: nat, n: nat, bits: seq<bool>): Option<(seq<nat>, seq<bool>)>
    decreases n
  {
    if n == 0 then Some(([], bits))
    else
      match DecodeOne(p, bits)
      case None => None
      case Some((delta, rest)) =>
        var value := (last + delta % WORD) % WORD;
        match Decode64(p, value, n - 1, rest)
        case None => None
        case Some((values, end)) => Some(([value] + values, end))
  }

  lemma {:induction false} DecodeAlike(p: nat, a: nat, b: nat, n: nat, bits: seq<bool>)
    ensures DecodeAll(p, a, n, bits).Some? <==> Decode64(p, b, n, bits).Some?
    decreases n
  {
    if n > 0 && DecodeOne(p, bits).Some? {
      var (delta, rest) := DecodeOne(p, bits).value;
      DecodeAlike(p, a + delta, (b + delta % WORD) % WORD, n - 1, rest);
    }
  }

  ghost predicate AllBelow(values: seq<nat>, bound: nat) {
    forall i :: 0 <= i < |values| ==> values[i] < bound
  }

  lemma AllBelowTail(v: nat, values: seq<nat>, bound: nat)
    ensures AllBelow([v] + values, bound) <==> v < bound && AllBelow(values, bound)
  {
    assert ([v] + values)[1..] == values && ([v] + values)[0] == v;
    assert forall i :: 0 <= i < |values| ==> values[i] == ([v] + values)[i + 1];
  }

  /** The numbers come out the same in 64-bit arithmetic if and only if all of them fit. */
  lemma {:induction false} Decode64Iff(p: nat, last: nat, n: nat, bits: seq<bool>)
    requires last < WORD && DecodeAll(p, last, n, bits).Some?
    ensures Decode64(p, last, n, bits) == DecodeAll(p, last, n, bits) <==> AllBelow(DecodeAll(p, last, n, bits).value.0, WORD)
    decreases n
  {
    if n > 0 {
      var (delta, rest) := DecodeOne(p, bits).value;
      var value := (last + delta % WORD) % WORD;
      var (values, end) := DecodeAll(p, last + delta, n - 1, rest).value;
      AllBelowTail(last + delta, values, WORD);
      DecodeAlike(p, last + delta, value, n - 1, rest);
      var (wrapped, tail) := Decode64(p, value, n - 1, rest).value;
      assert ([value] + wrapped)[0] == value && ([value] + wrapped)[1..] == wrapped;
      assert ([last + delta] + values)[0] == last + delta && ([last + delta] + values)[1..] == values;
      if last + delta < WORD {
        Decode64Iff(p, value, n - 1, rest);
      }
    }
  }

  // ---------------------------------------------------------------- looking for a common element

  ghost predicate Meet(a: seq<nat>, b: seq<nat>) {
    exists i, j :: 0 <= i < |a| && 0 <= j < |b| && a[i] == b[j]
  }

  /** Two lists are read side by side, the one with the smaller number in front first. */
  function MergeScan(values: seq<nat>, queries: seq<nat>): bool
    decreases |values| + |queries|
  {
    if values == [] || queries == [] then false
    else if queries[0] == values[0] then true
    else if queries[0] > values[0] then MergeScan(values[1..], queries)
    else MergeScan(values, queries[1..])
  }

  /** Whatever the lists, only a number in both is found. */
  lemma {:induction false} ScanSound(values: seq<nat>, queries: seq<nat>)
    ensures MergeScan(values, queries) ==> Meet(values, queries)
    decreases |values| + |queries|
  {
    if values != [] && queries != [] && queries[0] != values[0] {
      if queries[0] > values[0] {
        ScanSound(values[1..], queries);
        MeetRest(values, queries);
      } else {
        ScanSound(values, queries[1..]);
        MeetRest(values, queries);
      }
    }
  }

  lemma MeetRest(a: seq<nat>, b: seq<nat>)
    requires a != [] && b != []
    ensures Meet(a[1..], b) ==> Meet(a, b)
    ensures Meet(a, b[1..]) ==> Meet(a, b)
  {
    if i, j :| 0 <= i < |a[1..]| && 0 <= j < |b| && a[1..][i] == b[j] {
      assert a[i + 1] == b[j];
    }
    if i, j :| 0 <= i < |a| && 0 <= j < |b[1..]| && a[i] == b[1..][j] {
      assert a[i] == b[j + 1];
    }
  }

  /** Of ascending lists, every number in both is found. */
  lemma {:induction false} ScanComplete(values: seq<nat>, queries: seq<nat>, i: nat, j: nat)
    requires Sorted(values) && Sorted(queries) && i < |values| && j < |queries| && values[i] == queries[j]
    ensures MergeScan(values, queries)
    decreases |values| + |queries|
  {
    if queries[0] > values[0] {
      assert i > 0;
      ScanComplete(values[1..], queries, i - 1, j);
    } else if queries[0] < values[0] {
      assert j > 0;
      ScanComplete(values, queries[1..], i, j - 1);
    }
  }

  /** The scan decides exactly whether two ascending lists meet. */
  lemma ScanIff(values: seq<nat>, queries: seq<nat>)
    requires Sorted(values) && Sorted(queries)
    ensures MergeScan(values, queries) <==> Meet(values, queries)
  {
    ScanSound(values, queries);
    if Meet(values, queries) {
      var i, j :| 0 <= i < |values| && 0 <= j < |queries| && values[i] == queries[j];
      ScanComplete(values, queries, i, j);
    }
  }
}
