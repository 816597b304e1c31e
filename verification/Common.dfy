/** Datatypes shared by the component models. */
module Common {

  datatype Option<+T> = None | Some(value: T)

  /** A byte, as the source's unsigned char. */
  type Byte = x: int | 0 <= x < 256

  function Max(a: int, b: int): int { if a < b then b else a }

  function Min(a: int, b: int): int { if a < b then a else b }

  /** A mark without content: a fact that is stated under it is looked into only where a proof asks for it. */
  predicate Asked<T>(x: T, k: int) { true }

  /** No element occurs twice. */
  ghost predicate Distinct<T>(s: seq<T>) {
    forall i, j :: 0 <= i < j < |s| ==> s[i] != s[j]
  }

  /** Some element of a set. */
  ghost function Pick<T>(s: set<T>): (x: T)
    requires |s| > 0
    ensures x in s
  {
    var x :| x in s; x
  }

  /** The entry of a map, if there is one. */
  function Lookup<K, V>(m: map<K, V>, k: K): Option<V> {
    if k in m then Some(m[k]) else None
  }

  /** A sequence without repetition is as long as its set of elements is large. */
  lemma {:induction false} DistinctCount<T>(xs: seq<T>, elements: set<T>)
    requires forall x :: x in xs <==> x in elements
    requires Distinct(xs)
    ensures |xs| == |elements|
  {
    if xs == [] {
      assert elements == {};
    } else {
      var last, front := xs[|xs| - 1], xs[..|xs| - 1];
      assert xs == front + [last];
      DistinctCount(front, elements - {last});
    }
  }
}
