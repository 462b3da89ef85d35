/**
 * The crossword CSP's vocabulary: slots ("variables"), the overlap table of
 * the grid, candidate domains and assignments, and the predicates that say
 * when an assignment is consistent and when it solves the puzzle.
 *
 * The grid itself (parsing the structure file into slots and overlaps) is
 * an input: `Grid` carries the set of variables and the overlap table, and
 * `WellFormed` states what the solver relies on about them.
 */
module CrosswordGrid {
  import opened Wrappers

  datatype Direction = Across | Down

  /** A maximal run of fillable cells starting at row `i`, column `j`. */
  datatype Slot = Slot(i: int, j: int, direction: Direction, length: nat)

  type Word = string

  /** Two slots cross where character `i` of the first is character `j` of the second. */
  datatype Overlap = Overlap(i: nat, j: nat)

  /** An ordered pair of slots. */
  type Arc = (Slot, Slot)

  /**
   * `overlaps` holds exactly the ordered pairs of slots that cross; a pair
   * missing from it is the source's `overlaps[x, y] is None`.
   */
  datatype Grid = Grid(variables: set<Slot>, overlaps: map<Arc, Overlap>)

  /** A word candidate set per slot. */
  type Domains = map<Slot, set<Word>>

  /** A partial map from slots to chosen words. */
  type Assignment = map<Slot, Word>

  /**
   * Overlap entries relate two distinct slots of the grid, their indices
   * fall inside both slots, and the table is symmetric.
   */
  ghost predicate WellFormed(g: Grid) {
    && (forall a :: a in g.overlaps ==> a.0 in g.variables && a.1 in g.variables && a.0 != a.1)
    && (forall a :: a in g.overlaps ==> g.overlaps[a].i < a.0.length && g.overlaps[a].j < a.1.length)
    && (forall x, y :: (x, y) in g.overlaps ==>
          (y, x) in g.overlaps && g.overlaps[(y, x)] == Overlap(g.overlaps[(x, y)].j, g.overlaps[(x, y)].i))
  }

  /** The slots that cross `x`. */
  function Neighbors(g: Grid, x: Slot): set<Slot> {
    set v | v in g.variables && v != x && (v, x) in g.overlaps
  }

  /** An arc the source may look up in the overlap table without a `KeyError`. */
  predicate ValidArc(g: Grid, a: Arc) {
    a.0 in g.variables && a.1 in g.variables && a.0 != a.1
  }

  /** Character `i` of `w1` exists and equals character `j` of `w2`. */
  predicate Agree(w1: Word, i: nat, w2: Word, j: nat) {
    i < |w1| && j < |w2| && w1[i] == w2[j]
  }

  /** Every candidate of every slot has the slot's length. */
  ghost predicate NodeConsistent(d: Domains) {
    forall v, w :: v in d && w in d[v] ==> |w| == v.length
  }

  /** `d'` has the keys of `d` and each of its domains is a subset of the old one. */
  ghost predicate Shrinks(d': Domains, d: Domains) {
    d'.Keys == d.Keys && forall v :: v in d ==> d'[v] <= d[v]
  }

  /** Every candidate of `a.0` has a partner in `a.1` agreeing at their crossing. */
  ghost predicate ArcConsistent(g: Grid, d: Domains, a: Arc) {
    a in g.overlaps && a.0 in d && a.1 in d ==>
      forall wx :: wx in d[a.0] ==>
        exists wy :: wy in d[a.1] && Agree(wx, g.overlaps[a].i, wy, g.overlaps[a].j)
  }

  /** No two slots are assigned the same word. */
  ghost predicate Distinct(a: Assignment) {
    forall u, v :: u in a && v in a && u != v ==> a[u] != a[v]
  }

  /** Every assigned word has its slot's length. */
  ghost predicate LengthsFit(a: Assignment) {
    forall v :: v in a ==> |a[v]| == v.length
  }

  /** Every two assigned slots that cross agree on the shared cell. */
  ghost predicate OverlapsAgree(g: Grid, a: Assignment) {
    forall u, v :: u in a && v in a && (u, v) in g.overlaps ==>
      Agree(a[u], g.overlaps[(u, v)].i, a[v], g.overlaps[(u, v)].j)
  }

  /** The three constraints of the crossword CSP. */
  ghost predicate ConsistentSpec(g: Grid, a: Assignment) {
    Distinct(a) && LengthsFit(a) && OverlapsAgree(g, a)
  }

  /** Every slot of the grid is assigned. */
  predicate Complete(g: Grid, a: Assignment) {
    a.Keys == g.variables
  }

  /** `b` keeps every entry of `a` and takes each new value from `d`. */
  ghost predicate Extends(d: Domains, a: Assignment, b: Assignment) {
    && a.Keys <= b.Keys
    && (forall v :: v in a ==> b[v] == a[v])
    && (forall v :: v in b && v !in a ==> v in d && b[v] in d[v])
  }

  /** `b` fills the whole grid consistently with words from `d`. */
  ghost predicate IsSolution(g: Grid, d: Domains, b: Assignment) {
    Complete(g, b) && ConsistentSpec(g, b) && Extends(d, map[], b)
  }

  /** The domains every slot starts with: the whole vocabulary. */
  function InitialDomains(g: Grid, words: set<Word>): (d: Domains)
    ensures d.Keys == g.variables
    ensures forall v :: v in d ==> d[v] == words
  {
    map v | v in g.variables :: words
  }

  /** A consistent assignment stays consistent when entries are dropped. */
  lemma ConsistentSubmap(g: Grid, a: Assignment, b: Assignment)
    requires ConsistentSpec(g, b)
    requires a.Keys <= b.Keys && forall v :: v in a ==> a[v] == b[v]
    ensures ConsistentSpec(g, a)
  {
  }
}
