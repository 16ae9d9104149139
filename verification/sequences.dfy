/** `Array.prototype.indexOf` over sequences, and distinctness. */
module Sequences {

  /** The first position of `x` in `s`, or -1 when `x` does not occur. */
  function IndexOf<T(==)>(s: seq<T>, x: T): (r: int)
    ensures -1 <= r < |s|
    ensures r == -1 <==> x !in s
    ensures r >= 0 ==> s[r] == x && forall j :: 0 <= j < r ==> s[j] != x
  {
    if s == [] then -1
    else if s[0] == x then 0
    else
      var k := IndexOf(s[1..], x);
      if k < 0 then -1 else k + 1
  }

  predicate Distinct<T(==)>(s: seq<T>) {
    forall i, j :: 0 <= i < j < |s| ==> s[i] != s[j]
  }

  /** In a sequence without repeats, `indexOf` of an element is its own position. */
  lemma IndexOfDistinct<T>(s: seq<T>, i: int)
    requires Distinct(s) && 0 <= i < |s|
    ensures IndexOf(s, s[i]) == i
  {
  }

  /** Rewriting both halves of a concatenation: x = a + b with a = a' and
      b = b', and z = a' + b', give x = z. */
  lemma ConcatEqual<T>(x: seq<T>, a: seq<T>, b: seq<T>, a': seq<T>, b': seq<T>, z: seq<T>)
    requires x == a + b && a == a' && b == b' && z == a' + b'
    ensures x == z
  {
  }
}
