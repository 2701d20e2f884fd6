/**
 Python's `sorted` as a stable insertion sort over a comparison `le`
 ("`a` may come before `b`").
 */
module Sorting {

  /** Any two elements are comparable. */
  ghost predicate Total<T(!new)>(le: (T, T) -> bool) {
    forall a, b :: le(a, b) || le(b, a)
  }

  /** The comparison is transitive. */
  ghost predicate Transitive<T(!new)>(le: (T, T) -> bool) {
    forall a, b, c :: le(a, b) && le(b, c) ==> le(a, c)
  }

  /** Every element may come before every later one. */
  ghost predicate SortedBy<T>(xs: seq<T>, le: (T, T) -> bool) {
    forall i, j :: 0 <= i < j < |xs| ==> le(xs[i], xs[j])
  }

  /**
   Puts `x` in front of the first element it may precede, so it lands before
   every element it ties with (the stable position for an element that came
   first in the input).
   */
  function Insert<T(!new)>(x: T, xs: seq<T>, le: (T, T) -> bool): (r: seq<T>)
    ensures |r| == |xs| + 1
    ensures multiset(r) == multiset(xs) + multiset{x}
    ensures Total(le) && Transitive(le) && SortedBy(xs, le) ==> SortedBy(r, le)
  {
    if |xs| == 0 || le(x, xs[0]) then
      [x] + xs
    else
      var rest := Insert(x, xs[1..], le);
      assert xs == [xs[0]] + xs[1..];
      var r := [xs[0]] + rest;
      assert Total(le) && Transitive(le) && SortedBy(xs, le) ==> SortedBy(r, le) by {
        if Total(le) && Transitive(le) && SortedBy(xs, le) {
          forall j | 1 <= j < |r|
            ensures le(r[0], r[j])
          {
            assert r[j] in multiset(rest);
            assert r[j] == x || r[j] in multiset(xs[1..]);
            if r[j] != x {
              var k :| 0 <= k < |xs[1..]| && xs[1..][k] == r[j];
              assert xs[k + 1] == r[j];
            }
          }
        }
      }
      r
  }

  /** Python's stable `sorted(xs)` under the comparison `le`. */
  function SortBy<T(!new)>(xs: seq<T>, le: (T, T) -> bool): (r: seq<T>)
    ensures |r| == |xs|
    ensures multiset(r) == multiset(xs)
    ensures Total(le) && Transitive(le) ==> SortedBy(r, le)
  {
    if |xs| == 0 then []
    else
      assert xs == [xs[0]] + xs[1..];
      Insert(xs[0], SortBy(xs[1..], le), le)
  }

  /**
   An element of a sorted sequence that is not among its first `n` elements may
   come after each of them.
   */
  lemma PrefixPrecedesRest<T(!new)>(xs: seq<T>, le: (T, T) -> bool, n: nat, x: T)
    requires SortedBy(xs, le)
    requires n <= |xs|
    requires x in xs && x !in xs[..n]
    ensures forall i :: 0 <= i < n ==> le(xs[i], x)
  {
    var j :| 0 <= j < |xs| && xs[j] == x;
    assert j >= n;
  }
}
