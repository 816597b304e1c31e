/** GCSFilter (src/blockfilter.h, src/blockfilter.cpp): building a filter, reading one, and matching. */
module GcsFilter {
  import opened Arithmetic
  import opened Bits
  import opened Common
  import opened FastRange
  import opened Gcs

  // ---------------------------------------------------------------- the coder's loops

  /** Ones are written 64 at a time. */
  method GolombRiceEncode(bits: seq<bool>, p: nat, x: nat) returns (r: seq<bool>)
    ensures r == bits + EncodeOne(p, x)
  {
    r := bits;
    var q := ShiftRight(x, p);
    ghost var all := q;
    while q > 0
      invariant 0 <= q <= all && r == bits + Ones(all - q)
    {
      var nbits := if q <= 64 then q else 64;
      assert Ones(all - q) + Ones(nbits) == Ones(all - q + nbits);
      r := r + Ones(nbits);
      q := q - nbits;
    }
    r := r + [false];
    r := r + BitsOf(x, p);
  }

  method GolombRiceDecode(bits: seq<bool>, start: nat, p: nat) returns (r: Option<nat>, pos: nat)
    requires start <= |bits|
    ensures pos <= |bits|
    ensures match DecodeOne(p, bits[start..]) case None => r == None case Some((x, rest)) => r == Some(x) && rest == bits[pos..]
  {
    pos := start;
    var q := 0;
    while pos < |bits| && bits[pos]
      invariant start <= pos <= |bits| && q == pos - start
      invariant Unary(bits[start..]) == match Unary(bits[pos..]) case None => None case Some((k, rest)) => Some((q + k, rest))
    {
      assert bits[pos..][1..] == bits[pos + 1..];
      pos := pos + 1;
      q := q + 1;
    }
    if pos == |bits| {
      return None, pos;
    }
    assert bits[pos..][1..] == bits[pos + 1..];
    pos := pos + 1;
    if |bits| - pos < p {
      return None, pos;
    }
    DoubledNat(q, p);
    r := Some(Doubled(q, p) + NumberOf(bits[pos..pos + p]));
    assert bits[pos..][..p] == bits[pos..pos + p] && bits[pos..][p..] == bits[pos + p..];
    pos := pos + p;
  }

  // ---------------------------------------------------------------- sorting

  method Insert(s: seq<nat>, x: nat) returns (r: seq<nat>)
    requires Sorted(s)
    ensures Sorted(r) && multiset(r) == multiset(s) + multiset{x}
  {
    var k := 0;
    while k < |s| && s[k] <= x
      invariant 0 <= k <= |s| && forall i :: 0 <= i < k ==> s[i] <= x
    {
      k := k + 1;
    }
    r := s[..k] + [x] + s[k..];
    InsertedSorted(s, k, x);
    InsertedMembers(s[..k], x, s[k..]);
    assert s == s[..k] + s[k..];
  }

  lemma InsertedSorted(s: seq<nat>, k: nat, x: nat)
    requires Sorted(s) && k <= |s| && (forall i :: 0 <= i < k ==> s[i] <= x) && (k < |s| ==> x < s[k])
    ensures Sorted(s[..k] + [x] + s[k..])
  {
    var r := s[..k] + [x] + s[k..];
    forall i, j | 0 <= i < j < |r|
      ensures r[i] <= r[j]
    {
      assert r[i] == if i < k then s[i] else if i == k then x else s[i - 1];
      assert r[j] == if j < k then s[j] else if j == k then x else s[j - 1];
    }
  }

  lemma InsertedMembers(a: seq<nat>, x: nat, b: seq<nat>)
    ensures multiset(a + [x] + b) == multiset(a + b) + multiset{x}
  {
  }

  lemma SameLength(a: seq<nat>, b: seq<nat>)
    requires multiset(a) == multiset(b)
    ensures |a| == |b|
  {
    assert |a| == |multiset(a)|;
  }

  method Sort(s: seq<nat>) returns (r: seq<nat>)
    ensures Sorted(r) && multiset(r) == multiset(s)
  {
    r := [];
    var i := 0;
    while i < |s|
      invariant 0 <= i <= |s| && Sorted(r) && multiset(r) == multiset(s[..i])
    {
      assert s[..i + 1] == s[..i] + [s[i]];
      r := Insert(r, s[i]);
      i := i + 1;
    }
    assert s[..i] == s;
  }

  // ---------------------------------------------------------------- the filter

  /** The numbers in an encoding. */
  ghost function ValuesIn(p: nat, n: nat, bits: seq<bool>): seq<nat>
    requires DecodeAll(p, 0, n, bits).Some?
  {
    DecodeAll(p, 0, n, bits).value.0
  }

  /** HashToRange, for given keys and a given range. */
  function Ranged<E>(hash: E -> Hash64, range: nat): E -> nat {
    e => FastRange64(hash(e), range)
  }

  function HashesOf<E>(f: E -> nat, elements: seq<E>): (r: seq<nat>)
    ensures |r| == |elements|
  {
    seq(|elements|, i requires 0 <= i < |elements| => f(elements[i]))
  }

  class GCSFilter<E> {
    const hash: E -> Hash64
    const p: nat
    const m: nat
    const n: nat
    const f: nat
    const encoded: seq<bool>

    /** The encoding holds n numbers and fewer than eight bits of padding. */
    ghost predicate Valid() {
      && n < 0x1_0000_0000 && f == n * m && |encoded| % 8 == 0
      && DecodeAll(p, 0, n, encoded).Some? && |DecodeAll(p, 0, n, encoded).value.1| < 8
    }

    ghost function Values(): seq<nat>
      requires Valid()
    {
      ValuesIn(p, n, encoded)
    }

    constructor (hash: E -> Hash64, p: nat, m: nat, n: nat, encoded: seq<bool>)
      ensures this.hash == hash && this.p == p && this.m == m && this.n == n && f == n * m && this.encoded == encoded
    {
      this.hash := hash;
      this.p := p;
      this.m := m;
      this.n := n;
      f := n * m;
      this.encoded := encoded;
    }

    function HashToRange(element: E): nat {
      Ranged(hash, f)(element)
    }

    /** The numbers that come out in 64-bit arithmetic. */
    ghost function Values64(): seq<nat>
      requires Valid()
    {
      DecodeAlike(p, 0, 0, n, encoded);
      Decode64(p, 0, n, encoded).value.0
    }

    /** They are the encoded ones, if these fit. */
    lemma FitsSame()
      requires Valid()
      ensures AllBelow(Values(), WORD) ==> Values64() == Values()
      ensures Sorted(Values())
    {
      Decode64Iff(p, 0, n, encoded);
      DecodedSorted(p, 0, n, encoded);
    }

    /** The merge scan, in 64-bit arithmetic. */
    method MatchInternal(queries: seq<nat>) returns (r: bool)
      requires Valid()
      ensures r ==> Meet(Values64(), queries)
      ensures Sorted(queries) && AllBelow(Values(), WORD) ==> (r <==> Meet(Values(), queries))
    {
      ghost var values := Values64();
      FitsSame();
      ScanSound(values, queries);
      if Sorted(queries) && AllBelow(Values(), WORD) {
        ScanIff(values, queries);
      }
      r := Scan(queries);
    }

    method Scan(queries: seq<nat>) returns (r: bool)
      requires Valid()
      ensures r == MergeScan(Values64(), queries)
    {
      ghost var values := Values64();
      var value: nat, index: nat, pos: nat := 0, 0, 0;
      var i := 0;
      DecodeAlike(p, 0, 0, n, encoded);
      ghost var padding := Decode64(p, 0, n, encoded).value.1;
      assert encoded[0..] == encoded && values[0..] == values && queries[0..] == queries;
      while i < n
        invariant 0 <= i <= n && index <= |queries| && pos <= |encoded|
        invariant i <= |values| && Decode64(p, value, n - i, encoded[pos..]) == Some((values[i..], padding))
        invariant MergeScan(values[i..], queries[index..]) == MergeScan(values, queries)
      {
        var delta;
        delta, pos := GolombRiceDecode(encoded, pos, p);
        value := (value + delta.value % WORD) % WORD;
        NextValue(values, i, value);
        while true
          invariant index <= |queries|
          invariant MergeScan(values[i..], queries[index..]) == MergeScan(values, queries)
          decreases |queries| - index
        {
          assert queries[index..] != [] ==> queries[index..][1..] == queries[index + 1..];
          if index == |queries| {
            return false;
          } else if queries[index] == value {
            return true;
          } else if queries[index] > value {
            break;
          }
          index := index + 1;
        }
        i := i + 1;
      }
      return false;
    }

    method BuildHashedSet(elements: seq<E>) returns (r: seq<nat>)
      ensures Sorted(r) && multiset(r) == multiset(HashesOf(Ranged(hash, f), elements))
    {
      var hashed: seq<nat> := [];
      var i := 0;
      while i < |elements|
        invariant 0 <= i <= |elements| && hashed == HashesOf(Ranged(hash, f), elements)[..i]
      {
        hashed := hashed + [HashToRange(elements[i])];
        i := i + 1;
      }
      assert hashed == HashesOf(Ranged(hash, f), elements);
      r := Sort(hashed);
    }

    method Match(element: E) returns (r: bool)
      requires Valid()
      ensures r ==> HashToRange(element) in Values64()
      ensures AllBelow(Values(), WORD) ==> (r <==> HashToRange(element) in Values())
    {
      var query := HashToRange(element);
      assert [query][0] == query;
      r := MatchInternal([query]);
    }

    method MatchAny(elements: seq<E>) returns (r: bool)
      requires Valid()
      ensures r ==> exists e :: e in elements && HashToRange(e) in Values64()
      ensures AllBelow(Values(), WORD) ==> (r <==> exists e :: e in elements && HashToRange(e) in Values())
    {
      var queries := BuildHashedSet(elements);
      r := MatchInternal(queries);
      ghost var hashes := HashesOf(Ranged(hash, f), elements);
      MeetIff(Values64(), queries, hashes);
      HashesMeet(Ranged(hash, f), elements, Values64());
      FitsSame();
    }
  }

  lemma SameMembers(a: seq<nat>, b: seq<nat>, x: nat)
    requires multiset(a) == multiset(b)
    ensures x in a <==> x in b
  {
    assert x in a <==> x in multiset(a);
  }

  ghost predicate Share(a: seq<nat>, b: seq<nat>) {
    exists x :: x in a && x in b
  }

  lemma MeetIff(a: seq<nat>, b: seq<nat>, c: seq<nat>)
    requires multiset(b) == multiset(c)
    ensures Meet(a, b) <==> Share(a, c)
  {
    if Meet(a, b) {
      var i, j :| 0 <= i < |a| && 0 <= j < |b| && a[i] == b[j];
      SameMembers(b, c, a[i]);
      assert a[i] in a && a[i] in c;
    }
    if Share(a, c) {
      var x :| x in a && x in c;
      SameMembers(b, c, x);
      var i :| 0 <= i < |a| && a[i] == x;
      var j :| 0 <= j < |b| && b[j] == x;
      assert a[i] == b[j];
    }
  }

  lemma HashesMeet<E>(f: E -> nat, elements: seq<E>, values: seq<nat>)
    ensures Share(values, HashesOf(f, elements)) <==> exists e :: e in elements && f(e) in values
  {
    var hashes := HashesOf(f, elements);
    if Share(values, hashes) {
      var x :| x in values && x in hashes;
      var i :| 0 <= i < |hashes| && hashes[i] == x;
      assert elements[i] in elements && f(elements[i]) in values;
    }
    if e :| e in elements && f(e) in values {
      var i :| 0 <= i < |elements| && elements[i] == e;
      assert hashes[i] in hashes && hashes[i] in values;
    }
  }

  /** Zeros up to the end of a byte. */
  function Padding(length: nat): (b: seq<bool>)
    ensures |b| < 8 && (length + |b|) % 8 == 0
  {
    seq((8 - length % 8) % 8, _ => false)
  }

  /** A filter for the elements; none, if there are too many of them. */
  method Build<E>(hash: E -> Hash64, p: nat, m: nat, elements: seq<E>) returns (r: GCSFilter?<E>)
    ensures r == null <==> |elements| >= 0x1_0000_0000
    ensures r != null ==> r.Valid() && r.n == |elements| && r.hash == hash && r.p == p && r.m == m
    ensures r != null ==> multiset(r.Values()) == multiset(HashesOf(Ranged(hash, r.f), elements))
    ensures r != null ==> forall e :: e in elements ==> r.HashToRange(e) in r.Values()
    ensures r != null && m <= 0xffff_ffff ==> AllBelow(r.Values(), WORD)
  {
    if |elements| >= 0x1_0000_0000 {
      return null;
    }
    var empty := new GCSFilter(hash, p, m, |elements|, []);
    var values := empty.BuildHashedSet(elements);
    ghost var hashes := HashesOf(Ranged(hash, empty.f), elements);
    SameLength(values, hashes);
    var bits := EncodeValues(p, values);
    DecodeEncodeAll(p, 0, values, Padding(|bits|));
    r := new GCSFilter(hash, p, m, |elements|, bits + Padding(|bits|));
    AllIn(Ranged(hash, r.f), elements, values);
    if m <= 0xffff_ffff {
      BuiltFits(hash, m, elements, values);
    }
  }

  /** The numbers of a filter are below its range, which fits in 64 bits. */
  lemma BuiltFits<E>(hash: E -> Hash64, m: nat, elements: seq<E>, values: seq<nat>)
    requires |elements| < 0x1_0000_0000 && m <= 0xffff_ffff
    requires multiset(values) == multiset(HashesOf(Ranged(hash, |elements| * m), elements))
    ensures AllBelow(values, WORD)
  {
    var f := |elements| * m;
    MulMono(m, |elements|, 0xffff_ffff);
    var hashes := HashesOf(Ranged(hash, f), elements);
    forall i | 0 <= i < |values|
      ensures values[i] < WORD
    {
      SameMembers(values, hashes, values[i]);
      var j :| 0 <= j < |hashes| && hashes[j] == values[i];
      RangedFits(hash(elements[j]), f);
    }
  }

  lemma RangedFits(x: Hash64, f: nat)
    requires f < WORD
    ensures FastRange64(x, f) < WORD
  {
    if f > 0 {
      FastRange64Below(x, f);
    }
  }

  lemma AllIn<E>(f: E -> nat, elements: seq<E>, values: seq<nat>)
    requires multiset(values) == multiset(HashesOf(f, elements))
    ensures forall e :: e in elements ==> f(e) in values
  {
    var hashes := HashesOf(f, elements);
    forall e | e in elements
      ensures f(e) in values
    {
      var i :| 0 <= i < |elements| && elements[i] == e;
      assert hashes[i] == f(e);
      SameMembers(values, hashes, hashes[i]);
    }
  }

  /** The bits of the first i values are written. */
  ghost predicate Written(p: nat, last: nat, values: seq<nat>, i: nat, bits: seq<bool>, all: seq<bool>) {
    && i <= |values| && Sorted(values) && (i < |values| ==> last <= values[i])
    && bits + EncodeAll(p, last, values[i..]) == all
  }

  lemma WriteOne(p: nat, last: nat, values: seq<nat>, i: nat, bits: seq<bool>, all: seq<bool>)
    requires Written(p, last, values, i, bits, all) && i < |values|
    ensures Written(p, values[i], values, i + 1, bits + EncodeOne(p, values[i] - last), all)
  {
    assert values[i..][1..] == values[i + 1..];
    var one, rest := EncodeOne(p, values[i] - last), EncodeAll(p, values[i], values[i + 1..]);
    assert bits + (one + rest) == (bits + one) + rest;
  }

  lemma AllWritten(p: nat, last: nat, values: seq<nat>, bits: seq<bool>, all: seq<bool>)
    requires Written(p, last, values, |values|, bits, all)
    ensures bits == all
  {
    assert values[|values|..] == [] && bits + [] == bits;
  }

  method EncodeNext(p: nat, last: nat, values: seq<nat>, i: nat, bits: seq<bool>, ghost all: seq<bool>) returns (r: seq<bool>)
    requires Written(p, last, values, i, bits, all) && i < |values|
    ensures Written(p, values[i], values, i + 1, r, all)
  {
    r := GolombRiceEncode(bits, p, values[i] - last);
    WriteOne(p, last, values, i, bits, all);
  }

  method EncodeValues(p: nat, values: seq<nat>) returns (bits: seq<bool>)
    requires Sorted(values)
    ensures bits == EncodeAll(p, 0, values)
  {
    ghost var all := EncodeAll(p, 0, values);
    bits := [];
    var last: nat := 0;
    var i := 0;
    assert values[0..] == values && bits + all == all;
    while i < |values|
      invariant Written(p, last, values, i, bits, all)
    {
      bits := EncodeNext(p, last, values, i, bits, all);
      last := values[i];
      i := i + 1;
    }
    AllWritten(p, last, values, bits, all);
  }

  /** A filter from its encoding; none, unless it holds exactly n numbers. */
  method Parse<E>(hash: E -> Hash64, p: nat, m: nat, n: nat, encoded: seq<bool>) returns (r: GCSFilter?<E>)
    requires |encoded| % 8 == 0
    ensures r != null <==> n < 0x1_0000_0000 && DecodeAll(p, 0, n, encoded).Some? && |DecodeAll(p, 0, n, encoded).value.1| < 8
    ensures r != null ==> r.Valid() && r.n == n && r.encoded == encoded && r.hash == hash && r.p == p && r.m == m
  {
    if n >= 0x1_0000_0000 {
      return null;
    }
    var pos: nat := 0;
    var i := 0;
    ghost var last: nat, values: seq<nat> := 0, [];
    assert encoded[0..] == encoded;
    while i < n
      invariant 0 <= i <= n && pos <= |encoded|
      invariant Rest(p, last, n - i, encoded[pos..]) == Rest(p, 0, n, encoded)
    {
      var delta;
      ghost var before := encoded[pos..];
      delta, pos := GolombRiceDecode(encoded, pos, p);
      if delta.None? {
        return null;
      }
      last := last + delta.value;
      i := i + 1;
    }
    if |encoded| - pos >= 8 {
      return null;
    }
    r := new GCSFilter(hash, p, m, n, encoded);
  }

  /** What is left behind n numbers, if there are as many. */
  ghost function Rest(p: nat, last: nat, n: nat, bits: seq<bool>): Option<seq<bool>> {
    match DecodeAll(p, last, n, bits) case None => None case Some((values, rest)) => Some(rest)
  }

  lemma NextValue(values: seq<nat>, i: nat, value: nat)
    requires i < |values| && values[i..] != [] && values[i..][0] == value
    ensures values[i] == value && values[i..][1..] == values[i + 1..]
  {
  }
}
