/**
 * Iteration over a Python `set` or `dict` visits every element once, in an
 * order the language does not specify. The model makes that order an
 * explicit, unconstrained choice.
 */
module Iteration {

  /** No element occurs twice in `q`. */
  predicate NoDuplicates<T(==)>(q: seq<T>) {
    forall k, l :: 0 <= k < l < |q| ==> q[k] != q[l]
  }

  /** Lists the elements of `s` once each, in an arbitrary order. */
  method Enumerate<T>(s: set<T>) returns (q: seq<T>)
    ensures forall x :: x in q <==> x in s
    ensures NoDuplicates(q)
    ensures |q| == |s|
  {
    q := [];
    var rest := s;
    while rest != {}
      invariant forall x :: x in q ==> x in s && x !in rest
      invariant forall x :: x in s ==> x in q || x in rest
      invariant rest <= s
      invariant NoDuplicates(q)
      invariant |q| + |rest| == |s|
      decreases rest
    {
      var x :| x in rest;
      q := q + [x];
      rest := rest - {x};
    }
  }

  /** `q` lists the elements in non-decreasing order of `key`. */
  ghost predicate SortedBy<T>(q: seq<T>, key: T -> int) {
    forall k, l :: 0 <= k < l < |q| ==> key(q[k]) <= key(q[l])
  }

  /** An element of `s` with the least `key`. */
  method LeastBy<T>(s: set<T>, key: T -> int) returns (m: T)
    requires s != {}
    ensures m in s
    ensures forall x :: x in s ==> key(m) <= key(x)
  {
    m :| m in s;
    var rest := s - {m};
    while rest != {}
      invariant m in s && rest <= s
      invariant forall x :: x in s && x !in rest ==> key(m) <= key(x)
      decreases rest
    {
      var x :| x in rest;
      if key(x) < key(m) {
        m := x;
      }
      rest := rest - {x};
    }
  }

  /**
   * Python's `sorted(s, key=key)` on a set: every element once, in
   * non-decreasing order of `key`. Elements with equal keys come in an
   * arbitrary order, as the set's iteration order is unspecified.
   */
  method SortBy<T>(s: set<T>, key: T -> int) returns (q: seq<T>)
    ensures forall x :: x in q <==> x in s
    ensures NoDuplicates(q)
    ensures SortedBy(q, key)
  {
    q := [];
    var rest := s;
    while rest != {}
      invariant rest <= s
      invariant forall x :: x in q <==> x in s && x !in rest
      invariant NoDuplicates(q)
      invariant SortedBy(q, key)
      invariant forall k, x :: 0 <= k < |q| && x in rest ==> key(q[k]) <= key(x)
      decreases rest
    {
      var m := LeastBy(rest, key);
      q := q + [m];
      rest := rest - {m};
    }
  }
}
