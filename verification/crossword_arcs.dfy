/**
 * Domain pruning for the crossword CSP: node consistency, `revise` and
 * AC-3 (`CrosswordCreator.enforce_node_consistency`, `revise`, `ac3`).
 * The source mutates `self.domains` in place; here each operation takes
 * the domains and returns the pruned ones.
 */
module CrosswordArcs {
  import opened Wrappers
  import opened Iteration
  import opened CrosswordGrid

  /** Keeps, for every slot, exactly the candidates of the slot's length. */
  function EnforceNodeConsistency(d: Domains): (r: Domains)
    ensures Shrinks(r, d)
    ensures NodeConsistent(r)
    ensures forall v, w :: v in d && w in d[v] && |w| == v.length ==> w in r[v]
  {
    map v | v in d :: set w | w in d[v] && |w| == v.length
  }

  /** Node consistency removes no word of any solution. */
  lemma NodeConsistencyKeepsSolutions(g: Grid, d: Domains, b: Assignment)
    requires IsSolution(g, d, b)
    ensures IsSolution(g, EnforceNodeConsistency(d), b)
  {
  }

  /**
   * Makes `x` arc consistent with `y`: drops every candidate of `x` with no
   * partner in `y`, and reports whether anything was dropped.
   */
  function Revise(g: Grid, d: Domains, x: Slot, y: Slot): (r: (bool, Domains))
    requires WellFormed(g) && d.Keys == g.variables && NodeConsistent(d)
    requires ValidArc(g, (x, y))
    ensures (x, y) !in g.overlaps ==> r == (false, d)
    ensures Shrinks(r.1, d)
    ensures forall v :: v in d && v != x ==> r.1[v] == d[v]
    ensures (x, y) in g.overlaps ==>
      forall wx :: wx in r.1[x] <==>
        wx in d[x] && exists wy :: wy in d[y] && Agree(wx, g.overlaps[(x, y)].i, wy, g.overlaps[(x, y)].j)
    ensures r.0 <==> r.1[x] != d[x]
  {
    if (x, y) !in g.overlaps then (false, d)
    else
      var o := g.overlaps[(x, y)];
      var remove := set wx | wx in d[x] && !(exists wy :: wy in d[y] && wy[o.j] == wx[o.i]);
      assert forall wx, wy :: wx in d[x] && wy in d[y] ==> (Agree(wx, o.i, wy, o.j) <==> wy[o.j] == wx[o.i]);
      if remove != {} then (true, d[x := d[x] - remove])
      else assert forall wx :: wx in d[x] ==> wx !in remove; (false, d)
  }

  /** After `Revise(x, y)` the arc from `x` to `y` is consistent. */
  lemma ReviseMakesArcConsistent(g: Grid, d: Domains, x: Slot, y: Slot)
    requires WellFormed(g) && d.Keys == g.variables && NodeConsistent(d)
    requires ValidArc(g, (x, y))
    ensures ArcConsistent(g, Revise(g, d, x, y).1, (x, y))
  {
  }

  /**
   * `Revise(x, y)` keeps every consistent arc consistent, except possibly
   * the arcs `(z, x)` for a neighbour `z` of `x` other than `y`, which AC-3
   * enqueues again.
   */
  lemma {:induction false} ReviseKeepsArc(g: Grid, d: Domains, x: Slot, y: Slot, a: Arc)
    requires WellFormed(g) && d.Keys == g.variables && NodeConsistent(d)
    requires ValidArc(g, (x, y)) && ValidArc(g, a)
    requires ArcConsistent(g, d, a)
    requires a.1 == x && a.0 != y ==> a.0 !in Neighbors(g, x)
    ensures ArcConsistent(g, Revise(g, d, x, y).1, a)
  {
    var d' := Revise(g, d, x, y).1;
    if a in g.overlaps && a.1 == x && a.0 == y {
      var o := g.overlaps[(x, y)];
      assert g.overlaps[a] == Overlap(o.j, o.i);
      forall wy | wy in d'[y]
        ensures exists wx :: wx in d'[x] && Agree(wy, o.j, wx, o.i)
      {
        var wx :| wx in d[x] && Agree(wy, o.j, wx, o.i);
        assert Agree(wx, o.i, wy, o.j);
        assert wx in d'[x];
      }
    }
  }

  /** `Revise` removes no word of any solution. */
  lemma {:induction false} ReviseKeepsSolutions(g: Grid, d: Domains, x: Slot, y: Slot, b: Assignment)
    requires WellFormed(g) && d.Keys == g.variables && NodeConsistent(d)
    requires ValidArc(g, (x, y))
    requires IsSolution(g, d, b)
    ensures IsSolution(g, Revise(g, d, x, y).1, b)
  {
    if (x, y) in g.overlaps {
      var o := g.overlaps[(x, y)];
      assert Agree(b[x], o.i, b[y], o.j);
      assert b[x] in Revise(g, d, x, y).1[x];
    }
  }

  /** Every (slot, candidate) pair of the domains: AC-3's termination measure. */
  function Candidates(d: Domains): set<(Slot, Word)> {
    set v, w | v in d && w in d[v] :: (v, w)
  }

  /** Removing a candidate of one slot removes a pair of `Candidates`. */
  lemma CandidatesShrink(d: Domains, d': Domains, x: Slot)
    requires Shrinks(d', d) && x in d && d'[x] != d[x]
    ensures Candidates(d') < Candidates(d)
  {
    var w :| w in d[x] && w !in d'[x];
    assert (x, w) in Candidates(d) && (x, w) !in Candidates(d');
  }

  /** Every arc from a slot to one of its neighbours: AC-3's default queue. */
  function AllArcs(g: Grid): set<Arc> {
    set x, y | x in g.variables && y in Neighbors(g, x) :: (x, y)
  }

  /** The arcs AC-3 starts from: the caller's list when non-empty, else every arc. */
  function SeedArcs(g: Grid, arcs: Option<seq<Arc>>): set<Arc> {
    if arcs.Some? && arcs.value != [] then set a | a in arcs.value else AllArcs(g)
  }

  /** The arcs `(z, x)` for every `z` in `zs`, in order. */
  function Incoming(zs: seq<Slot>, x: Slot): (q: seq<Arc>)
    ensures |q| == |zs|
    ensures forall k :: 0 <= k < |zs| ==> q[k] == (zs[k], x)
  {
    seq(|zs|, k requires 0 <= k < |zs| => (zs[k], x))
  }

  /**
   * One step of AC-3 keeps every seeded arc either queued or consistent:
   * the popped arc `(x, y)` is made consistent, and when `x` shrank the
   * arcs into `x` are queued again in `back`.
   */
  lemma {:induction false} ReviseStepCoversSeed(g: Grid, r: Domains, x: Slot, y: Slot,
                                                seed: set<Arc>, rest: seq<Arc>, back: seq<Arc>)
    requires WellFormed(g) && r.Keys == g.variables && NodeConsistent(r)
    requires ValidArc(g, (x, y))
    requires forall a :: a in seed ==> ValidArc(g, a)
    requires forall a :: a in seed ==> a == (x, y) || a in rest || ArcConsistent(g, r, a)
    requires Revise(g, r, x, y).0 ==> forall z :: z in Neighbors(g, x) - {y} ==> (z, x) in back
    ensures forall a :: a in seed ==>
      a in rest || (Revise(g, r, x, y).0 && a in back) || ArcConsistent(g, Revise(g, r, x, y).1, a)
  {
    var (revised, r') := Revise(g, r, x, y);
    ReviseMakesArcConsistent(g, r, x, y);
    forall a | a in seed && a !in rest && !(revised && a in back) && a != (x, y)
      ensures ArcConsistent(g, r', a)
    {
      if revised {
        ReviseKeepsArc(g, r, x, y, a);
      } else {
        assert r' == r;
      }
    }
  }

  /** `Revise` keeps every solution that the domains still admit. */
  lemma ReviseKeepsAllSolutions(g: Grid, d: Domains, r: Domains, x: Slot, y: Slot)
    requires WellFormed(g) && r.Keys == g.variables && NodeConsistent(r)
    requires ValidArc(g, (x, y))
    requires forall b :: IsSolution(g, d, b) ==> IsSolution(g, r, b)
    ensures forall b :: IsSolution(g, d, b) ==> IsSolution(g, Revise(g, r, x, y).1, b)
  {
    forall b | IsSolution(g, d, b)
      ensures IsSolution(g, Revise(g, r, x, y).1, b)
    {
      ReviseKeepsSolutions(g, r, x, y, b);
    }
  }

  /**
   * AC-3's initial queue: the caller's arcs when the list is non-empty,
   * otherwise every arc `(x, y)` with `y` a neighbour of `x`.
   */
  method SeedQueue(g: Grid, arcs: Option<seq<Arc>>) returns (queue: seq<Arc>)
    requires arcs.Some? ==> forall k :: 0 <= k < |arcs.value| ==> ValidArc(g, arcs.value[k])
    ensures forall a :: a in queue <==> a in SeedArcs(g, arcs)
    ensures forall k :: 0 <= k < |queue| ==> ValidArc(g, queue[k])
    ensures arcs.Some? && arcs.value != [] ==> queue == arcs.value
  {
    if arcs.Some? && arcs.value != [] {
      queue := arcs.value;
    } else {
      queue := Enumerate(AllArcs(g));
      assert forall a :: a in AllArcs(g) ==> ValidArc(g, a);
    }
  }

  /** What AC-3's loop keeps true: see `AC3`. */
  ghost predicate AC3Invariant(g: Grid, d: Domains, r: Domains, queue: seq<Arc>, seed: set<Arc>) {
    && WellFormed(g) && d.Keys == g.variables
    && Shrinks(r, d) && NodeConsistent(r)
    && (forall k :: 0 <= k < |queue| ==> ValidArc(g, queue[k]))
    && (forall a :: a in seed ==> ValidArc(g, a))
    && (forall a :: a in seed ==> a in queue || ArcConsistent(g, r, a))
    && (forall b :: IsSolution(g, d, b) ==> IsSolution(g, r, b))
  }

  /** The arcs back into `x` that AC-3 enqueues are valid and cover every neighbour but `y`. */
  lemma IncomingCovers(g: Grid, zs: seq<Slot>, x: Slot, y: Slot)
    requires WellFormed(g) && x in g.variables
    requires forall z :: z in zs <==> z in Neighbors(g, x) - {y}
    ensures forall k :: 0 <= k < |zs| ==> ValidArc(g, Incoming(zs, x)[k])
    ensures forall z :: z in Neighbors(g, x) - {y} ==> (z, x) in Incoming(zs, x)
  {
    var back := Incoming(zs, x);
    forall k | 0 <= k < |zs|
      ensures ValidArc(g, back[k])
    {
      assert zs[k] in zs;
    }
    forall z | z in Neighbors(g, x) - {y}
      ensures (z, x) in back
    {
      var k :| 0 <= k < |zs| && zs[k] == z;
      assert back[k] == (z, x);
    }
  }

  /** One iteration of AC-3's loop keeps `AC3Invariant`. */
  lemma {:induction false} AC3StepKeepsInvariant(g: Grid, d: Domains, r: Domains, queue: seq<Arc>,
                                                 seed: set<Arc>, back: seq<Arc>)
    requires AC3Invariant(g, d, r, queue, seed) && queue != []
    requires Revise(g, r, queue[0].0, queue[0].1).0 ==>
      && (forall k :: 0 <= k < |back| ==> ValidArc(g, back[k]))
      && (forall z :: z in Neighbors(g, queue[0].0) - {queue[0].1} ==> (z, queue[0].0) in back)
    ensures var (revised, r') := Revise(g, r, queue[0].0, queue[0].1);
      AC3Invariant(g, d, r', queue[1..] + (if revised then back else []), seed)
  {
    var (x, y) := queue[0];
    var rest := queue[1..];
    assert forall a :: a in queue ==> a == (x, y) || a in rest;
    var (revised, r') := Revise(g, r, x, y);
    ReviseKeepsAllSolutions(g, d, r, x, y);
    ReviseStepCoversSeed(g, r, x, y, seed, rest, if revised then back else []);
  }

  /**
   * One iteration of AC-3's loop: pops the front arc `(x, y)`, revises it,
   * and when `x` shrank re-enqueues `(z, x)` for every other neighbour `z`
   * of `x`. Reports whether `x`'s domain became empty.
   */
  method AC3Step(g: Grid, d: Domains, r: Domains, queue: seq<Arc>, ghost seed: set<Arc>)
    returns (emptied: bool, r': Domains, queue': seq<Arc>)
    requires AC3Invariant(g, d, r, queue, seed) && queue != []
    ensures AC3Invariant(g, d, r', queue', seed)
    ensures Candidates(r') < Candidates(r) || (r' == r && |queue'| < |queue|)
    ensures emptied ==> queue[0].0 in r' && r'[queue[0].0] == {}
    ensures emptied ==> queue[0].0 in r && r[queue[0].0] != {}
    ensures !emptied ==> forall v :: v in r' && r'[v] == {} ==> v in r && r[v] == {}
  {
    var (x, y) := queue[0];
    var step := Revise(g, r, x, y);
    var revised := step.0;
    r' := step.1;
    var back := [];
    if revised {
      CandidatesShrink(r, r', x);
      var zs := Enumerate(Neighbors(g, x) - {y});
      back := Incoming(zs, x);
      IncomingCovers(g, zs, x, y);
    }
    AC3StepKeepsInvariant(g, d, r, queue, seed, back);
    emptied := revised && r'[x] == {};
    queue' := queue[1..] + back;
  }

  /**
   * AC-3. Returns `false` as soon as a revision empties a domain; otherwise
   * drains the queue and returns `true`, leaving every seeded arc consistent.
   * Domains only shrink, and no solution of the puzzle is pruned.
   */
  method AC3(g: Grid, d: Domains, arcs: Option<seq<Arc>>) returns (ok: bool, r: Domains)
    requires WellFormed(g) && d.Keys == g.variables && NodeConsistent(d)
    requires arcs.Some? ==> forall k :: 0 <= k < |arcs.value| ==> ValidArc(g, arcs.value[k])
    ensures Shrinks(r, d)
    ensures !ok ==> exists v :: v in r && r[v] == {} && v in d && d[v] != {}
    ensures ok ==> forall v :: v in r && r[v] == {} ==> v in d && d[v] == {}
    ensures ok ==> forall a :: a in SeedArcs(g, arcs) ==> ArcConsistent(g, r, a)
    ensures forall b :: IsSolution(g, d, b) ==> IsSolution(g, r, b)
  {
    var queue := SeedQueue(g, arcs);
    ghost var seed := SeedArcs(g, arcs);
    r := d;
    while queue != []
      invariant AC3Invariant(g, d, r, queue, seed)
      invariant forall v :: v in r && r[v] == {} ==> v in d && d[v] == {}
      decreases Candidates(r), |queue|
    {
      var emptied;
      emptied, r, queue := AC3Step(g, d, r, queue, seed);
      if emptied {
        return false, r;
      }
    }
    ok := true;
  }
}
