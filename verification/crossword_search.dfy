/**
 * Backtracking search for the crossword CSP (`CrosswordCreator.consistent`,
 * `assignment_complete`, `select_unassigned_variable`,
 * `order_domain_values`, `backtrack` and `solve`).
 */
module CrosswordSearch {
  import opened Wrappers
  import opened Iteration
  import opened CrosswordGrid
  import opened CrosswordArcs

  /** A map has as many distinct values as keys exactly when it is injective. */
  lemma {:induction false} ValuesCount(a: Assignment)
    ensures |a.Values| <= |a.Keys|
    ensures |a.Values| == |a.Keys| <==> Distinct(a)
    decreases |a.Keys|
  {
    if a.Keys != {} {
      var k :| k in a.Keys;
      var a' := a - {k};
      assert a'.Keys == a.Keys - {k};
      ValuesCount(a');
      assert a.Values == a'.Values + {a[k]} by {
        forall w | w in a.Values ensures w in a'.Values + {a[k]} {
          var v :| v in a && a[v] == w;
          if v != k {
            assert a'[v] == w;
          }
        }
        forall w | w in a'.Values ensures w in a.Values {
          var v :| v in a' && a'[v] == w;
          assert a[v] == w;
        }
      }
      if a[k] in a'.Values {
        var v :| v in a' && a'[v] == a[k];
        assert v != k && a[v] == a[k];
      } else {
        if Distinct(a') {
          forall u, v | u in a && v in a && u != v ensures a[u] != a[v] {
            if u == k {
              assert a'[v] == a[v];
            } else if v == k {
              assert a'[u] == a[u];
            } else {
              assert a'[u] == a[u] && a'[v] == a[v];
            }
          }
        } else {
          var u, v :| u in a' && v in a' && u != v && a'[u] == a'[v];
          assert a[u] == a[v];
        }
      }
    }
  }

  /**
   * Distinct words (counted as the source counts them), words of the right
   * length, and agreement at every crossing of two assigned slots.
   */
  function Consistent(g: Grid, a: Assignment): (r: bool)
    requires WellFormed(g) && a.Keys <= g.variables
    ensures r <==> ConsistentSpec(g, a)
  {
    ValuesCount(a);
    if |a.Values| < |a| then false
    else if exists v :: v in a && |a[v]| != v.length then false
    else
      forall u, v :: u in a && v in a && u != v && (u, v) in g.overlaps ==>
        a[u][g.overlaps[(u, v)].i] == a[v][g.overlaps[(u, v)].j]
  }

  /** The slot with fewer candidates, or on a tie the one with more neighbours, comes first. */
  predicate Prefer(g: Grid, d: Domains, u: Slot, v: Slot)
    requires u in d && v in d
  {
    |d[u]| < |d[v]| || (|d[u]| == |d[v]| && |Neighbors(g, u)| >= |Neighbors(g, v)|)
  }

  /**
   * Minimum remaining values, ties broken by degree: an unassigned slot that
   * `Prefer`s itself to every other unassigned slot, or `None` when every
   * slot is assigned.
   */
  method SelectUnassignedVariable(g: Grid, d: Domains, a: Assignment) returns (r: Option<Slot>)
    ensures r.None? <==> d.Keys <= a.Keys
    ensures r.Some? ==> r.value in d && r.value !in a
    ensures r.Some? ==> forall v :: v in d && v !in a ==> Prefer(g, d, r.value, v)
  {
    var rest := d.Keys - a.Keys;
    if rest == {} {
      assert d.Keys <= a.Keys by {
        forall v | v in d.Keys ensures v in a.Keys {
          assert v !in rest;
        }
      }
      return None;
    }
    var best :| best in rest;
    rest := rest - {best};
    while rest != {}
      invariant best in d && best !in a
      invariant rest <= d.Keys - a.Keys
      invariant forall v :: v in d && v !in a && v !in rest ==> Prefer(g, d, best, v)
      decreases rest
    {
      var v :| v in rest;
      if !Prefer(g, d, best, v) {
        best := v;
      }
      rest := rest - {v};
    }
    r := Some(best);
  }

  /**
   * How many candidates of unassigned neighbours of `x` would clash with
   * `x` taking `word`: one per (neighbour, candidate) pair that disagrees.
   */
  function Conflicts(g: Grid, d: Domains, x: Slot, a: Assignment, word: Word): (r: nat)
    ensures (forall n :: n in Neighbors(g, x) ==> n in a) ==> r == 0
  {
    |set n, w | n in Neighbors(g, x) && n !in a && (x, n) in g.overlaps && n in d && w in d[n]
                && !Agree(word, g.overlaps[(x, n)].i, w, g.overlaps[(x, n)].j) :: (n, w)|
  }

  /**
   * Least constraining value: the candidates of `x`, each once, ordered by
   * non-decreasing `Conflicts`.
   */
  method OrderDomainValues(g: Grid, d: Domains, x: Slot, a: Assignment) returns (r: seq<Word>)
    requires WellFormed(g) && d.Keys == g.variables && NodeConsistent(d)
    requires x in d
    ensures forall w :: w in r <==> w in d[x]
    ensures NoDuplicates(r)
    ensures forall k, l :: 0 <= k < l < |r| ==> Conflicts(g, d, x, a, r[k]) <= Conflicts(g, d, x, a, r[l])
  {
    var key := w => Conflicts(g, d, x, a, w);
    r := SortBy(d[x], key);
    assert forall k :: 0 <= k < |r| ==> key(r[k]) == Conflicts(g, d, x, a, r[k]);
  }

  /** No complete consistent assignment extends `a` with values from `d`. */
  ghost predicate Hopeless(g: Grid, d: Domains, a: Assignment) {
    forall b {:trigger Extends(d, a, b)} :: Extends(d, a, b) && Complete(g, b) ==> !ConsistentSpec(g, b)
  }

  /** An inconsistent assignment has no consistent extension. */
  lemma InconsistentIsHopeless(g: Grid, d: Domains, t: Assignment)
    requires !ConsistentSpec(g, t)
    ensures Hopeless(g, d, t)
  {
    forall b | Extends(d, t, b) && Complete(g, b)
      ensures !ConsistentSpec(g, b)
    {
      if ConsistentSpec(g, b) {
        ConsistentSubmap(g, t, b);
      }
    }
  }

  /**
   * When every candidate `w` of an unassigned slot `x` leaves
   * `a[x := w]` hopeless, `a` itself is hopeless.
   */
  lemma {:induction false} AllBranchesHopeless(g: Grid, d: Domains, a: Assignment, x: Slot, values: seq<Word>)
    requires WellFormed(g) && d.Keys == g.variables && x in g.variables && x !in a
    requires forall w :: w in d[x] ==> w in values
    requires forall t {:trigger Hopeless(g, d, a[x := values[t]])} :: 0 <= t < |values| ==> Hopeless(g, d, a[x := values[t]])
    ensures Hopeless(g, d, a)
  {
    forall b | Extends(d, a, b) && Complete(g, b)
      ensures !ConsistentSpec(g, b)
    {
      assert x in b && b[x] in d[x];
      var t :| 0 <= t < |values| && values[t] == b[x];
      assert Hopeless(g, d, a[x := values[t]]);
      assert Extends(d, a[x := values[t]], b);
    }
  }

  /** Extending `a[x := w]` with `w` a candidate of `x` extends `a`. */
  lemma ExtendsStep(d: Domains, a: Assignment, x: Slot, w: Word, b: Assignment)
    requires x in d && w in d[x] && x !in a
    requires Extends(d, a[x := w], b)
    ensures Extends(d, a, b)
  {
  }

  /**
   * Backtracking search. A result extends `a` with words from `d`, is
   * complete, and is consistent whenever `a` is; `None` means no complete
   * consistent extension of `a` exists.
   */
  method Backtrack(g: Grid, d: Domains, a: Assignment) returns (r: Option<Assignment>)
    requires WellFormed(g) && d.Keys == g.variables && NodeConsistent(d)
    requires a.Keys <= g.variables
    ensures r.Some? ==> Complete(g, r.value) && Extends(d, a, r.value)
    ensures r.Some? && ConsistentSpec(g, a) ==> ConsistentSpec(g, r.value)
    ensures r.None? ==> Hopeless(g, d, a)
    decreases |g.variables - a.Keys|, 2
  {
    if Complete(g, a) {
      return Some(a);
    }
    var next := SelectUnassignedVariable(g, d, a);
    var values := OrderDomainValues(g, d, next.value, a);
    r := TryValues(g, d, a, next.value, values);
  }

  /**
   * The loop of `backtrack`: tries each `w` of `values` in order and stops
   * at the first success.
   */
  method TryValues(g: Grid, d: Domains, a: Assignment, x: Slot, values: seq<Word>)
    returns (r: Option<Assignment>)
    requires WellFormed(g) && d.Keys == g.variables && NodeConsistent(d)
    requires a.Keys <= g.variables && x in g.variables && x !in a
    requires forall w :: w in values <==> w in d[x]
    ensures r.Some? ==> Complete(g, r.value) && Extends(d, a, r.value)
    ensures r.Some? ==> ConsistentSpec(g, r.value)
    ensures r.None? ==> Hopeless(g, d, a)
    decreases |g.variables - a.Keys|, 1
  {
    r := None;
    var k := 0;
    while k < |values|
      invariant k <= |values| && r.None?
      invariant forall t {:trigger Hopeless(g, d, a[x := values[t]])} :: 0 <= t < k ==> Hopeless(g, d, a[x := values[t]])
    {
      r := TryValue(g, d, a, x, values[k]);
      if r.Some? {
        return;
      }
      k := k + 1;
    }
    AllBranchesHopeless(g, d, a, x, values);
  }

  /**
   * One iteration of `backtrack`'s loop: recurses on `a[x := w]` when that
   * assignment is consistent.
   */
  method TryValue(g: Grid, d: Domains, a: Assignment, x: Slot, w: Word)
    returns (r: Option<Assignment>)
    requires WellFormed(g) && d.Keys == g.variables && NodeConsistent(d)
    requires a.Keys <= g.variables && x in g.variables && x !in a && w in d[x]
    ensures r.Some? ==> Complete(g, r.value) && Extends(d, a, r.value)
    ensures r.Some? ==> ConsistentSpec(g, r.value)
    ensures r.None? ==> Hopeless(g, d, a[x := w])
    decreases |g.variables - a.Keys|, 0
  {
    var tentative := a[x := w];
    if Consistent(g, tentative) {
      assert g.variables - tentative.Keys < g.variables - a.Keys by {
        assert x in g.variables - a.Keys;
      }
      r := Backtrack(g, d, tentative);
      if r.Some? {
        ExtendsStep(d, a, x, w, r.value);
      }
    } else {
      InconsistentIsHopeless(g, d, tentative);
      r := None;
    }
  }

  /**
   * The whole solver: node consistency, AC-3, then backtracking from the
   * empty assignment. A result fills every slot consistently with words of
   * the vocabulary; `None` means no such filling exists.
   */
  method Solve(g: Grid, words: set<Word>) returns (r: Option<Assignment>)
    requires WellFormed(g)
    ensures r.Some? ==> IsSolution(g, InitialDomains(g, words), r.value)
    ensures r.None? ==> forall b :: !IsSolution(g, InitialDomains(g, words), b)
  {
    var d0 := InitialDomains(g, words);
    var d1 := EnforceNodeConsistency(d0);
    forall b | IsSolution(g, d0, b)
      ensures IsSolution(g, d1, b)
    {
      NodeConsistencyKeepsSolutions(g, d0, b);
    }
    var _, d2 := AC3(g, d1, None);
    r := Backtrack(g, d2, map[]);
  }
}
