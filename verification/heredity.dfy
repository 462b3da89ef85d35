/**
 * The discrete parts of the heredity model: enumerating every subset of a
 * family (`powerset`), how many copies of the gene a person has under a
 * hypothesis, and adding a joint probability to the matching buckets
 * (`update`). Probabilities are exact reals; floating-point rounding is not
 * modelled.
 */
module Heredity {
  import opened Iteration
  import opened SetFacts

  /** The elements of a sequence, as a set (the source's `set(combo)`). */
  function Elems<T>(c: seq<T>): set<T> {
    set x | x in c
  }

  function Pow2(n: nat): nat {
    if n == 0 then 1 else 2 * Pow2(n - 1)
  }

  /** A sequence without repetitions has as many distinct elements as entries. */
  lemma {:induction false} ElemsCard<T>(q: seq<T>)
    requires NoDuplicates(q)
    ensures |Elems(q)| == |q|
  {
    if q != [] {
      var p := q[..|q| - 1];
      assert NoDuplicates(p);
      ElemsCard(p);
      assert Elems(q) == Elems(p) + {q[|q| - 1]};
      assert q[|q| - 1] !in Elems(p);
    }
  }

  /** Two sequences without repetitions that hold the same elements have the same length. */
  lemma SameElemsSameLength<T>(a: seq<T>, b: seq<T>)
    requires NoDuplicates(a) && NoDuplicates(b)
    requires forall x :: x in a <==> x in b
    ensures |a| == |b|
  {
    assert Elems(a) == Elems(b);
    ElemsCard(a);
    ElemsCard(b);
  }

  /** Splitting a sequence without repetitions into its first entry and the rest. */
  lemma Uncons<T>(xs: seq<T>)
    requires NoDuplicates(xs) && xs != []
    ensures NoDuplicates(xs[1..])
    ensures xs[0] !in Elems(xs[1..])
    ensures Elems(xs) == {xs[0]} + Elems(xs[1..])
  {
    assert forall i :: 0 <= i < |xs| - 1 ==> xs[1..][i] == xs[i + 1];
    assert xs == [xs[0]] + xs[1..];
  }

  lemma ElemsCons<T>(x: T, c: seq<T>)
    ensures Elems([x] + c) == {x} + Elems(c)
  {
    assert forall i :: 0 <= i < |c| ==> ([x] + c)[i + 1] == c[i];
  }

  /**
   * `itertools.combinations(xs, r)`: the `r`-element subsequences of `xs`,
   * in lexicographic order of positions.
   */
  function Combinations<T>(xs: seq<T>, r: nat): seq<seq<T>>
    decreases |xs|
  {
    if r == 0 then [[]]
    else if xs == [] then []
    else
      var with := Combinations(xs[1..], r - 1);
      seq(|with|, k requires 0 <= k < |with| => [xs[0]] + with[k]) + Combinations(xs[1..], r)
  }

  /** Facts about one combination: `r` distinct entries, all taken from `xs`. */
  lemma {:induction false} CombinationShape<T>(xs: seq<T>, r: nat, k: nat)
    requires NoDuplicates(xs) && k < |Combinations(xs, r)|
    ensures |Combinations(xs, r)[k]| == r
    ensures NoDuplicates(Combinations(xs, r)[k])
    ensures Elems(Combinations(xs, r)[k]) <= Elems(xs)
    decreases |xs|
  {
    if r != 0 && xs != [] {
      var with := Combinations(xs[1..], r - 1);
      Uncons(xs);
      if k < |with| {
        CombinationShape(xs[1..], r - 1, k);
        CombinationAt(xs, r, k);
        ElemsCons(xs[0], with[k]);
        ConsNoDuplicates(xs[0], with[k]);
      } else {
        CombinationShape(xs[1..], r, k - |with|);
      }
    }
  }

  /** Every `r`-element subset of the entries of `xs` is some combination's set. */
  lemma {:induction false} CombinationsComplete<T>(xs: seq<T>, r: nat, t: set<T>)
    requires NoDuplicates(xs) && t <= Elems(xs) && |t| == r
    ensures exists k :: 0 <= k < |Combinations(xs, r)| && Elems(Combinations(xs, r)[k]) == t
    decreases |xs|, 1
  {
    if r == 0 {
      assert Elems(Combinations(xs, r)[0]) == t;
    } else if xs == [] {
      assert false;
    } else if xs[0] in t {
      CompleteWithHead(xs, r, t);
    } else {
      CompleteWithoutHead(xs, r, t);
    }
  }

  /** A subset holding the first entry comes from a combination that starts with it. */
  lemma {:induction false} CompleteWithHead<T>(xs: seq<T>, r: nat, t: set<T>)
    requires NoDuplicates(xs) && t <= Elems(xs) && |t| == r
    requires xs != [] && r != 0 && xs[0] in t
    ensures exists k :: 0 <= k < |Combinations(xs, r)| && Elems(Combinations(xs, r)[k]) == t
    decreases |xs|, 0
  {
    var with := Combinations(xs[1..], r - 1);
    Uncons(xs);
    var t' := t - {xs[0]};
    assert t' <= Elems(xs[1..]) && |t'| == r - 1;
    CombinationsComplete(xs[1..], r - 1, t');
    var k :| 0 <= k < |with| && Elems(with[k]) == t';
    CombinationAt(xs, r, k);
    ElemsCons(xs[0], with[k]);
    assert Elems(Combinations(xs, r)[k]) == t;
  }

  /** A subset without the first entry comes from a combination of the rest. */
  lemma {:induction false} CompleteWithoutHead<T>(xs: seq<T>, r: nat, t: set<T>)
    requires NoDuplicates(xs) && t <= Elems(xs) && |t| == r
    requires xs != [] && r != 0 && xs[0] !in t
    ensures exists k :: 0 <= k < |Combinations(xs, r)| && Elems(Combinations(xs, r)[k]) == t
    decreases |xs|, 0
  {
    var with := Combinations(xs[1..], r - 1);
    var without := Combinations(xs[1..], r);
    Uncons(xs);
    assert t <= Elems(xs[1..]);
    CombinationsComplete(xs[1..], r, t);
    var k :| 0 <= k < |without| && Elems(without[k]) == t;
    assert |Combinations(xs, r)| == |with| + |without|;
    CombinationAt(xs, r, |with| + k);
    assert Elems(Combinations(xs, r)[|with| + k]) == t;
  }

  /** Different combinations have different sets of elements. */
  lemma {:induction false} CombinationsDistinct<T>(xs: seq<T>, r: nat, k: nat, l: nat)
    requires NoDuplicates(xs) && k < l < |Combinations(xs, r)|
    ensures Elems(Combinations(xs, r)[k]) != Elems(Combinations(xs, r)[l])
    decreases |xs|, 1
  {
    if r != 0 && xs != [] {
      var with := Combinations(xs[1..], r - 1);
      if l < |with| {
        BothWithHeadDistinct(xs, r, k, l);
      } else if k < |with| {
        WithAndWithout(xs, r, k, l);
      } else {
        BothWithoutHeadDistinct(xs, r, k, l);
      }
    }
  }

  /** Two combinations that both take `xs[0]` differ, by induction on the rest. */
  lemma {:induction false} BothWithHeadDistinct<T>(xs: seq<T>, r: nat, k: nat, l: nat)
    requires NoDuplicates(xs) && xs != [] && r != 0
    requires k < l < |Combinations(xs[1..], r - 1)|
    ensures l < |Combinations(xs, r)|
    ensures Elems(Combinations(xs, r)[k]) != Elems(Combinations(xs, r)[l])
    decreases |xs|, 0
  {
    Uncons(xs);
    CombinationsDistinct(xs[1..], r - 1, k, l);
    WithHeadDistinct(xs, r, k, l);
  }

  /** Two combinations that both leave out `xs[0]` differ, by induction on the rest. */
  lemma {:induction false} BothWithoutHeadDistinct<T>(xs: seq<T>, r: nat, k: nat, l: nat)
    requires NoDuplicates(xs) && xs != [] && r != 0
    requires |Combinations(xs[1..], r - 1)| <= k < l < |Combinations(xs, r)|
    ensures Elems(Combinations(xs, r)[k]) != Elems(Combinations(xs, r)[l])
    decreases |xs|, 0
  {
    var w := |Combinations(xs[1..], r - 1)|;
    CombinationAt(xs, r, k);
    CombinationAt(xs, r, l);
    Uncons(xs);
    CombinationsDistinct(xs[1..], r, k - w, l - w);
  }

  /** Putting an element in front of a sequence that lacks it keeps the entries distinct. */
  lemma ConsNoDuplicates<T>(x: T, c: seq<T>)
    requires NoDuplicates(c) && x !in c
    ensures NoDuplicates([x] + c)
  {
    var q := [x] + c;
    forall i, j | 0 <= i < j < |q| ensures q[i] != q[j] {
      if i == 0 {
        assert q[j] == c[j - 1];
      } else {
        assert q[i] == c[i - 1] && q[j] == c[j - 1];
      }
    }
  }

  /** Entry `k` of `Combinations(xs, r)`: from the half with `xs[0]`, or from the half without it. */
  lemma CombinationAt<T>(xs: seq<T>, r: nat, k: nat)
    requires xs != [] && r != 0 && k < |Combinations(xs, r)|
    ensures |Combinations(xs, r)| == |Combinations(xs[1..], r - 1)| + |Combinations(xs[1..], r)|
    ensures var with := Combinations(xs[1..], r - 1);
      Combinations(xs, r)[k] ==
        if k < |with| then [xs[0]] + with[k] else Combinations(xs[1..], r)[k - |with|]
  {
  }

  /** Adding an element missing from two different sets keeps them different. */
  lemma AddKeepsDistinct<T>(x: T, a: set<T>, b: set<T>)
    requires x !in a && x !in b && a != b
    ensures {x} + a != {x} + b
    ensures a + {x} != b + {x}
  {
    assert ({x} + a) - {x} == a;
    assert ({x} + b) - {x} == b;
  }

  /** Two combinations that both start with `xs[0]` differ when their tails do. */
  lemma WithHeadDistinct<T>(xs: seq<T>, r: nat, k: nat, l: nat)
    requires NoDuplicates(xs) && xs != [] && r != 0
    requires k < l < |Combinations(xs[1..], r - 1)|
    requires Elems(Combinations(xs[1..], r - 1)[k]) != Elems(Combinations(xs[1..], r - 1)[l])
    ensures Elems(Combinations(xs, r)[k]) != Elems(Combinations(xs, r)[l])
  {
    var with := Combinations(xs[1..], r - 1);
    HeadElems(xs, r, k);
    HeadElems(xs, r, l);
    AddKeepsDistinct(xs[0], Elems(with[k]), Elems(with[l]));
  }

  /** A combination from the half with `xs[0]`: its set is `xs[0]` added to a set lacking it. */
  lemma HeadElems<T>(xs: seq<T>, r: nat, k: nat)
    requires NoDuplicates(xs) && xs != [] && r != 0
    requires k < |Combinations(xs[1..], r - 1)|
    ensures k < |Combinations(xs, r)|
    ensures xs[0] !in Elems(Combinations(xs[1..], r - 1)[k])
    ensures Elems(Combinations(xs, r)[k]) == {xs[0]} + Elems(Combinations(xs[1..], r - 1)[k])
  {
    var with := Combinations(xs[1..], r - 1);
    Uncons(xs);
    CombinationShape(xs[1..], r - 1, k);
    CombinationAt(xs, r, k);
    ElemsCons(xs[0], with[k]);
  }

  /** A combination with `xs[0]` differs from one without it. */
  lemma WithAndWithout<T>(xs: seq<T>, r: nat, k: nat, l: nat)
    requires NoDuplicates(xs) && xs != [] && r != 0
    requires k < |Combinations(xs[1..], r - 1)| <= l < |Combinations(xs, r)|
    ensures Elems(Combinations(xs, r)[k]) != Elems(Combinations(xs, r)[l])
  {
    var with := Combinations(xs[1..], r - 1);
    Uncons(xs);
    CombinationShape(xs[1..], r, l - |with|);
    CombinationAt(xs, r, k);
    CombinationAt(xs, r, l);
    ElemsCons(xs[0], with[k]);
  }

  /** The source's `set(combo)` for each combination, in order. */
  function SetsOf<T>(cs: seq<seq<T>>): (q: seq<set<T>>)
    ensures |q| == |cs|
    ensures forall k :: 0 <= k < |cs| ==> q[k] == Elems(cs[k])
  {
    seq(|cs|, k requires 0 <= k < |cs| => Elems(cs[k]))
  }

  /** The sets of the combinations of each size from `r` up to `|xs|`, smallest size first. */
  function ChainFrom<T>(xs: seq<T>, r: nat): seq<set<T>>
    decreases |xs| + 1 - r
  {
    if r > |xs| then []
    else SetsOf(Combinations(xs, r)) + ChainFrom(xs, r + 1)
  }

  /** The sets of the `r`-combinations are distinct `r`-element subsets of the entries of `xs`. */
  lemma SizeClass<T>(xs: seq<T>, r: nat)
    requires NoDuplicates(xs)
    ensures forall k :: 0 <= k < |Combinations(xs, r)| ==>
      SetsOf(Combinations(xs, r))[k] <= Elems(xs) && |SetsOf(Combinations(xs, r))[k]| == r
    ensures NoDuplicates(SetsOf(Combinations(xs, r)))
  {
    var cs := Combinations(xs, r);
    var head := SetsOf(cs);
    forall k | 0 <= k < |cs|
      ensures head[k] <= Elems(xs) && |head[k]| == r
    {
      CombinationShape(xs, r, k);
      ElemsCard(cs[k]);
    }
    forall i, j | 0 <= i < j < |head| ensures head[i] != head[j] {
      CombinationsDistinct(xs, r, i, j);
    }
  }

  /** Joining sets of size `r` to sets of larger sizes keeps entries distinct. */
  lemma JoinBySize<T>(head: seq<set<T>>, tail: seq<set<T>>, r: nat)
    requires NoDuplicates(head) && NoDuplicates(tail)
    requires forall k :: 0 <= k < |head| ==> |head[k]| == r
    requires forall t :: t in tail ==> r + 1 <= |t|
    ensures NoDuplicates(head + tail)
  {
    var q := head + tail;
    forall i, j | 0 <= i < j < |q| ensures q[i] != q[j] {
      if j < |head| {
        assert q[i] == head[i] && q[j] == head[j];
      } else if i < |head| {
        assert q[i] == head[i];
        assert q[j] == tail[j - |head|] && q[j] in tail;
      } else {
        assert q[i] == tail[i - |head|] && q[j] == tail[j - |head|];
      }
    }
  }

  /**
   * The sets `ChainFrom(xs, r)` lists are exactly the subsets of the entries
   * of `xs` with at least `r` elements, each once.
   */
  lemma {:induction false} ChainFromSpec<T>(xs: seq<T>, r: nat)
    requires NoDuplicates(xs)
    ensures forall t :: t in ChainFrom(xs, r) ==> t <= Elems(xs) && r <= |t|
    ensures forall t :: t <= Elems(xs) && r <= |t| ==> t in ChainFrom(xs, r)
    ensures NoDuplicates(ChainFrom(xs, r))
    decreases |xs| + 1 - r
  {
    if r <= |xs| {
      ChainFromSpec(xs, r + 1);
      var cs := Combinations(xs, r);
      var head := SetsOf(cs);
      var tail := ChainFrom(xs, r + 1);
      assert ChainFrom(xs, r) == head + tail;
      SizeClass(xs, r);
      forall t | t <= Elems(xs) && r <= |t|
        ensures t in head + tail
      {
        if |t| == r {
          CombinationsComplete(xs, r, t);
          var k :| 0 <= k < |cs| && Elems(cs[k]) == t;
          assert head[k] == t;
        } else {
          assert t in tail;
        }
      }
      JoinBySize(head, tail, r);
    } else {
      forall t | t <= Elems(xs) && r <= |t|
        ensures false
      {
        SubsetCard(t, Elems(xs));
        ElemsCard(xs);
      }
    }
  }

  /** Each set of `q` with `x` added. */
  function AddToEach<T>(q: seq<set<T>>, x: T): (r: seq<set<T>>)
    ensures |r| == |q|
    ensures forall k :: 0 <= k < |q| ==> r[k] == q[k] + {x}
  {
    seq(|q|, k requires 0 <= k < |q| => q[k] + {x})
  }

  /**
   * An independent definition of the subsets of `xs`: those without the
   * first entry, then the same sets with it added.
   */
  function Subsets<T>(xs: seq<T>): seq<set<T>>
  {
    if xs == [] then [{}]
    else
      var rest := Subsets(xs[1..]);
      rest + AddToEach(rest, xs[0])
  }

  /** The sets listed by `rest` and by `rest` with `x` added are all subsets of `e + {x}`. */
  lemma DoublingSound<T>(rest: seq<set<T>>, x: T, e: set<T>)
    requires forall t :: t in rest ==> t <= e
    ensures forall t :: t in rest + AddToEach(rest, x) ==> t <= e + {x}
  {
    var q := rest + AddToEach(rest, x);
    forall i | 0 <= i < |q| ensures q[i] <= e + {x} {
      if i < |rest| {
        assert q[i] == rest[i] && rest[i] in rest;
      } else {
        assert q[i] == rest[i - |rest|] + {x} && rest[i - |rest|] in rest;
      }
    }
  }

  /** Every subset of `e + {x}` is in `rest` or in `rest` with `x` added. */
  lemma DoublingComplete<T>(rest: seq<set<T>>, x: T, e: set<T>)
    requires x !in e
    requires forall t :: t <= e ==> t in rest
    ensures forall t :: t <= e + {x} ==> t in rest + AddToEach(rest, x)
  {
    var added := AddToEach(rest, x);
    forall t | t <= e + {x} ensures t in rest + added {
      if x in t {
        assert t - {x} <= e;
        var k :| 0 <= k < |rest| && rest[k] == t - {x};
        assert added[k] == t;
      } else {
        assert t <= e;
      }
    }
  }

  /** With `x` new to every set of `rest`, doubling keeps the entries distinct. */
  lemma DoublingDistinct<T>(rest: seq<set<T>>, x: T, e: set<T>)
    requires x !in e
    requires forall t :: t in rest ==> t <= e
    requires NoDuplicates(rest)
    ensures NoDuplicates(rest + AddToEach(rest, x))
  {
    var q := rest + AddToEach(rest, x);
    forall i, j | 0 <= i < j < |q| ensures q[i] != q[j] {
      if j < |rest| {
        assert q[i] == rest[i] && q[j] == rest[j];
      } else if i < |rest| {
        assert q[i] == rest[i] && rest[i] in rest;
        assert x in q[j];
      } else {
        var a, b := rest[i - |rest|], rest[j - |rest|];
        assert a in rest && b in rest;
        assert q[i] == a + {x} && q[j] == b + {x};
        AddKeepsDistinct(x, a, b);
      }
    }
  }

  /** `Subsets(xs)` lists the `2^|xs|` subsets of the entries of `xs`, each once. */
  lemma {:induction false} SubsetsSpec<T>(xs: seq<T>)
    requires NoDuplicates(xs)
    ensures |Subsets(xs)| == Pow2(|xs|)
    ensures forall t :: t in Subsets(xs) ==> t <= Elems(xs)
    ensures forall t :: t <= Elems(xs) ==> t in Subsets(xs)
    ensures NoDuplicates(Subsets(xs))
  {
    if xs != [] {
      var rest := Subsets(xs[1..]);
      Uncons(xs);
      SubsetsSpec(xs[1..]);
      assert Subsets(xs) == rest + AddToEach(rest, xs[0]);
      assert Elems(xs) == Elems(xs[1..]) + {xs[0]};
      DoublingSound(rest, xs[0], Elems(xs[1..]));
      DoublingComplete(rest, xs[0], Elems(xs[1..]));
      DoublingDistinct(rest, xs[0], Elems(xs[1..]));
    } else {
      forall t | t <= Elems(xs) ensures t in Subsets(xs) {
        assert t == {};
      }
    }
  }

  /**
   * The source's `powerset`: every subset of `s`, as the sets of
   * `itertools.combinations` of each size in turn over one listing of `s`.
   * There are `2^|s|` of them, each a subset of `s`, each once, among them
   * the empty set and `s` itself.
   */
  method Powerset<T>(s: set<T>) returns (r: seq<set<T>>)
    ensures |r| == Pow2(|s|)
    ensures forall t :: t in r ==> t <= s
    ensures forall t :: t <= s ==> t in r
    ensures NoDuplicates(r)
    ensures {} in r && s in r
  {
    var xs := Enumerate(s);
    assert Elems(xs) == s;
    r := ChainFrom(xs, 0);
    ChainFromSpec(xs, 0);
    SubsetsSpec(xs);
    SameElemsSameLength(r, Subsets(xs));
    assert {} <= s;
  }

  /** How many copies of the gene `person` has under a hypothesis: `twoGenes` wins over `oneGene`. */
  function GeneCount<P>(person: P, oneGene: set<P>, twoGenes: set<P>): (n: nat)
    ensures n <= 2
    ensures n == 2 <==> person in twoGenes
    ensures n == 1 <==> person !in twoGenes && person in oneGene
    ensures n == 0 <==> person !in twoGenes && person !in oneGene
  {
    if person in twoGenes then 2 else if person in oneGene then 1 else 0
  }

  /** One person's accumulated distributions over gene counts and over having the trait. */
  datatype Distribution = Distribution(genes: map<nat, real>, traits: map<bool, real>)

  /** Buckets for 0, 1 and 2 genes, and for both trait values. */
  predicate HasBuckets(d: Distribution) {
    0 in d.genes && 1 in d.genes && 2 in d.genes && true in d.traits && false in d.traits
  }

  /** One person's distributions with `p` added to gene bucket `n` and to trait bucket `has`. */
  function AddTo(d: Distribution, n: nat, has: bool, p: real): (e: Distribution)
    requires HasBuckets(d) && n <= 2
    ensures e.genes.Keys == d.genes.Keys && e.traits.Keys == d.traits.Keys
    ensures forall g :: g in e.genes ==> e.genes[g] == d.genes[g] + (if g == n then p else 0.0)
    ensures forall t :: t in e.traits ==> e.traits[t] == d.traits[t] + (if t == has then p else 0.0)
  {
    Distribution(d.genes[n := d.genes[n] + p], d.traits[has := d.traits[has] + p])
  }

  /**
   * Adds `p` to each person's gene bucket for their gene count under the
   * hypothesis and to their trait bucket for whether they have the trait;
   * every other bucket keeps its value.
   */
  function Update<P>(probabilities: map<P, Distribution>, oneGene: set<P>, twoGenes: set<P>,
                     haveTrait: set<P>, p: real): (r: map<P, Distribution>)
    requires forall person :: person in probabilities ==> HasBuckets(probabilities[person])
    ensures r.Keys == probabilities.Keys
    ensures forall person :: person in r ==>
      && r[person].genes.Keys == probabilities[person].genes.Keys
      && r[person].traits.Keys == probabilities[person].traits.Keys
    ensures forall person, g :: person in r && g in r[person].genes ==>
      r[person].genes[g] == probabilities[person].genes[g] +
        (if g == GeneCount(person, oneGene, twoGenes) then p else 0.0)
    ensures forall person, t :: person in r && t in r[person].traits ==>
      r[person].traits[t] == probabilities[person].traits[t] + (if t == (person in haveTrait) then p else 0.0)
  {
    map person | person in probabilities ::
      AddTo(probabilities[person], GeneCount(person, oneGene, twoGenes), person in haveTrait, p)
  }

  /** The mass of the gene buckets and of the trait buckets. */
  function GeneMass(d: Distribution): real
    requires HasBuckets(d)
  {
    d.genes[0] + d.genes[1] + d.genes[2]
  }

  function TraitMass(d: Distribution): real
    requires HasBuckets(d)
  {
    d.traits[true] + d.traits[false]
  }

  /**
   * `update` adds `p` to exactly one gene bucket and exactly one trait
   * bucket of every person: each distribution's mass grows by exactly `p`.
   */
  lemma UpdateAddsMass<P>(probabilities: map<P, Distribution>, oneGene: set<P>, twoGenes: set<P>,
                          haveTrait: set<P>, p: real, person: P)
    requires forall q :: q in probabilities ==> HasBuckets(probabilities[q])
    requires person in probabilities
    ensures HasBuckets(Update(probabilities, oneGene, twoGenes, haveTrait, p)[person])
    ensures GeneMass(Update(probabilities, oneGene, twoGenes, haveTrait, p)[person]) ==
      GeneMass(probabilities[person]) + p
    ensures TraitMass(Update(probabilities, oneGene, twoGenes, haveTrait, p)[person]) ==
      TraitMass(probabilities[person]) + p
  {
    var r := Update(probabilities, oneGene, twoGenes, haveTrait, p);
    assert 0 in r[person].genes && 1 in r[person].genes && 2 in r[person].genes;
    assert true in r[person].traits && false in r[person].traits;
  }
}
