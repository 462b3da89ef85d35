/**
 * The Minesweeper board (`Minesweeper`): mine counts around a cell and the
 * win condition. The board's boolean matrix is represented by the set of
 * mined cells; random mine placement is not modelled.
 */
module MinesweeperGame {
  import opened SetFacts

  type Cell = (int, int)

  datatype Game = Game(height: int, width: int, mines: set<Cell>, minesFound: set<Cell>)

  /** The cells within one row and one column of `c`, on the board, other than `c`. */
  function Neighbourhood(height: int, width: int, c: Cell): set<Cell> {
    set i, j | c.0 - 1 <= i <= c.0 + 1 && c.1 - 1 <= j <= c.1 + 1
               && (i, j) != c && 0 <= i < height && 0 <= j < width :: (i, j)
  }

  /** The eight cells around `c`, ignoring the board's edges. */
  function Around(c: Cell): set<Cell> {
    {(c.0 - 1, c.1 - 1), (c.0 - 1, c.1), (c.0 - 1, c.1 + 1),
     (c.0, c.1 - 1), (c.0, c.1 + 1),
     (c.0 + 1, c.1 - 1), (c.0 + 1, c.1), (c.0 + 1, c.1 + 1)}
  }

  /** A cell has at most eight neighbours on the board. */
  lemma NeighbourhoodAtMostEight(height: int, width: int, c: Cell)
    ensures |Neighbourhood(height, width, c)| <= 8
  {
    assert Neighbourhood(height, width, c) <= Around(c);
    AroundAtMostEight(c);
    SubsetCard(Neighbourhood(height, width, c), Around(c));
  }

  lemma AroundAtMostEight(c: Cell)
    ensures |Around(c)| <= 8
  {
    var r0 := {(c.0 - 1, c.1 - 1), (c.0 - 1, c.1), (c.0 - 1, c.1 + 1)};
    var r1 := {(c.0, c.1 - 1), (c.0, c.1 + 1)};
    var r2 := {(c.0 + 1, c.1 - 1), (c.0 + 1, c.1), (c.0 + 1, c.1 + 1)};
    assert Around(c) == r0 + r1 + r2;
    assert |r0| <= 3 && |r1| <= 2 && |r2| <= 3;
  }

  /** The mined cells of `Neighbourhood(c)` whose row is before `i`, or is `i` with column before `j`. */
  ghost function MinedBefore(game: Game, c: Cell, i: int, j: int): set<Cell> {
    set a, b | c.0 - 1 <= a <= c.0 + 1 && c.1 - 1 <= b <= c.1 + 1 && (a < i || (a == i && b < j))
               && (a, b) != c && 0 <= a < game.height && 0 <= b < game.width && (a, b) in game.mines :: (a, b)
  }

  lemma MinedBeforeStep(game: Game, c: Cell, i: int, j: int)
    requires c.0 - 1 <= i <= c.0 + 1 && c.1 - 1 <= j <= c.1 + 1
    ensures MinedBefore(game, c, i, j + 1) ==
      if (i, j) != c && 0 <= i < game.height && 0 <= j < game.width && (i, j) in game.mines
      then MinedBefore(game, c, i, j) + {(i, j)}
      else MinedBefore(game, c, i, j)
  {
  }

  lemma MinedBeforeRow(game: Game, c: Cell, i: int)
    ensures MinedBefore(game, c, i + 1, c.1 - 1) == MinedBefore(game, c, i, c.1 + 2)
  {
  }

  lemma MinedBeforeAll(game: Game, c: Cell)
    ensures MinedBefore(game, c, c.0 + 2, c.1 - 1) == Neighbourhood(game.height, game.width, c) * game.mines
  {
  }

  /**
   * The number of mines within one row and column of `cell`, not counting
   * `cell` itself: a value between 0 and 8.
   */
  method NearbyMines(game: Game, cell: Cell) returns (count: nat)
    ensures count == |Neighbourhood(game.height, game.width, cell) * game.mines|
    ensures count <= 8
  {
    count := 0;
    var i := cell.0 - 1;
    while i < cell.0 + 2
      invariant cell.0 - 1 <= i <= cell.0 + 2
      invariant count == |MinedBefore(game, cell, i, cell.1 - 1)|
    {
      var j := cell.1 - 1;
      while j < cell.1 + 2
        invariant cell.1 - 1 <= j <= cell.1 + 2
        invariant count == |MinedBefore(game, cell, i, j)|
      {
        MinedBeforeStep(game, cell, i, j);
        if (i, j) != cell && 0 <= i < game.height && 0 <= j < game.width && (i, j) in game.mines {
          count := count + 1;
        }
        j := j + 1;
      }
      MinedBeforeRow(game, cell, i);
      i := i + 1;
    }
    MinedBeforeAll(game, cell);
    NeighbourhoodAtMostEight(game.height, game.width, cell);
    SubsetCard(Neighbourhood(game.height, game.width, cell) * game.mines, Neighbourhood(game.height, game.width, cell));
  }

  /** The player has won when the flagged cells are exactly the mines. */
  function Won(game: Game): (r: bool)
    ensures r <==> (forall c :: c in game.minesFound <==> c in game.mines)
  {
    game.minesFound == game.mines
  }
}

/**
 * A `Sentence` of the AI's knowledge: a set of cells and how many of them
 * are mines.
 */
module MinesweeperSentence {
  import opened SetFacts
  import opened MinesweeperGame

  datatype Sentence = Sentence(cells: set<Cell>, count: int)

  /** The sentence is true of the actual set of mines `mines`. */
  ghost predicate Holds(s: Sentence, mines: set<Cell>) {
    |s.cells * mines| == s.count
  }

  /** All cells when the count equals their (non-zero) number, otherwise none. */
  function KnownMines(s: Sentence): (r: set<Cell>)
    ensures r == s.cells || r == {}
    ensures r == s.cells && r != {} <==> |s.cells| > 0 && s.count == |s.cells|
  {
    if |s.cells| > 0 && s.count == |s.cells| then s.cells else {}
  }

  /** All cells when the count is zero, otherwise none. */
  function KnownSafes(s: Sentence): (r: set<Cell>)
    ensures s.count == 0 ==> r == s.cells
    ensures s.count != 0 ==> r == {}
  {
    if s.count == 0 then s.cells else {}
  }

  /** The cells `KnownMines` reports are mines in every world the sentence is true of. */
  lemma {:induction false} KnownMinesSound(s: Sentence, mines: set<Cell>)
    requires Holds(s, mines)
    ensures KnownMines(s) <= mines
  {
    if |s.cells| > 0 && s.count == |s.cells| {
      SubsetOfSameSize(s.cells * mines, s.cells);
    }
  }

  /** The cells `KnownSafes` reports are not mines in any world the sentence is true of. */
  lemma {:induction false} KnownSafesSound(s: Sentence, mines: set<Cell>)
    requires Holds(s, mines)
    ensures KnownSafes(s) * mines == {}
  {
    if s.count == 0 {
      assert |s.cells * mines| == 0;
    }
  }

  /** Removes a known mine from the sentence, lowering its count by one. */
  function MarkMine(s: Sentence, c: Cell): (r: Sentence)
    ensures c !in r.cells && r.cells == s.cells - {c}
    ensures r.count == if c in s.cells then s.count - 1 else s.count
  {
    if c in s.cells then Sentence(s.cells - {c}, s.count - 1) else s
  }

  /** Removes a known safe cell from the sentence; the count is unchanged. */
  function MarkSafe(s: Sentence, c: Cell): (r: Sentence)
    ensures c !in r.cells && r.cells == s.cells - {c}
    ensures r.count == s.count
  {
    if c in s.cells then Sentence(s.cells - {c}, s.count) else s
  }

  /** Marking an actual mine keeps a true sentence true. */
  lemma {:induction false} MarkMineKeepsTruth(s: Sentence, c: Cell, mines: set<Cell>)
    requires Holds(s, mines) && c in mines
    ensures Holds(MarkMine(s, c), mines)
  {
    if c in s.cells {
      assert (s.cells - {c}) * mines == (s.cells * mines) - {c};
    }
  }

  /** Marking an actually safe cell keeps a true sentence true. */
  lemma {:induction false} MarkSafeKeepsTruth(s: Sentence, c: Cell, mines: set<Cell>)
    requires Holds(s, mines) && c !in mines
    ensures Holds(MarkSafe(s, c), mines)
  {
    if c in s.cells {
      assert (s.cells - {c}) * mines == s.cells * mines;
    }
  }

  /**
   * The subset rule of `add_knowledge`: when the cells of `s1` are among
   * those of `s2`, the other cells of `s2` hold the difference of the counts.
   */
  function Difference(s1: Sentence, s2: Sentence): (r: Sentence)
    requires s1.cells <= s2.cells
    ensures r.cells * s1.cells == {} && r.cells + s1.cells == s2.cells
  {
    Sentence(s2.cells - s1.cells, s2.count - s1.count)
  }

  /** The subset rule infers only true sentences from true ones. */
  lemma {:induction false} DifferenceSound(s1: Sentence, s2: Sentence, mines: set<Cell>)
    requires s1.cells <= s2.cells && Holds(s1, mines) && Holds(s2, mines)
    ensures Holds(Difference(s1, s2), mines)
  {
    var a, b := s1.cells * mines, s2.cells * mines;
    assert (s2.cells - s1.cells) * mines == b - a;
    assert b == (b - a) + a;
  }
}

/**
 * The knowledge-based player (`MinesweeperAI`): the moves made, the cells
 * known to be mines or safe, and a list of sentences.
 */
module MinesweeperAI {
  import opened Wrappers
  import opened MinesweeperGame
  import MinesweeperSentence

  type Sentence = MinesweeperSentence.Sentence

  datatype AI = AI(height: int, width: int, movesMade: set<Cell>, mines: set<Cell>,
                   safes: set<Cell>, knowledge: seq<Sentence>)

  /** Everything the AI believes is true of the actual set of mines `mines`. */
  ghost predicate Sound(ai: AI, mines: set<Cell>) {
    && ai.mines <= mines
    && ai.safes * mines == {}
    && forall k :: 0 <= k < |ai.knowledge| ==> MinesweeperSentence.Holds(ai.knowledge[k], mines)
  }

  /** Records `c` as a mine and removes it from every sentence. */
  function MarkMine(ai: AI, c: Cell): (r: AI)
    ensures r.mines == ai.mines + {c} && r.safes == ai.safes && r.movesMade == ai.movesMade
    ensures r.height == ai.height && r.width == ai.width
    ensures |r.knowledge| == |ai.knowledge|
    ensures forall k :: 0 <= k < |r.knowledge| ==> c !in r.knowledge[k].cells
    ensures forall k :: 0 <= k < |r.knowledge| ==> r.knowledge[k] == MinesweeperSentence.MarkMine(ai.knowledge[k], c)
  {
    ai.(mines := ai.mines + {c},
        knowledge := seq(|ai.knowledge|, k requires 0 <= k < |ai.knowledge| =>
                           MinesweeperSentence.MarkMine(ai.knowledge[k], c)))
  }

  /** Records `c` as safe and removes it from every sentence. */
  function MarkSafe(ai: AI, c: Cell): (r: AI)
    ensures r.safes == ai.safes + {c} && r.mines == ai.mines && r.movesMade == ai.movesMade
    ensures r.height == ai.height && r.width == ai.width
    ensures |r.knowledge| == |ai.knowledge|
    ensures forall k :: 0 <= k < |r.knowledge| ==> c !in r.knowledge[k].cells
    ensures forall k :: 0 <= k < |r.knowledge| ==> r.knowledge[k] == MinesweeperSentence.MarkSafe(ai.knowledge[k], c)
  {
    ai.(safes := ai.safes + {c},
        knowledge := seq(|ai.knowledge|, k requires 0 <= k < |ai.knowledge| =>
                           MinesweeperSentence.MarkSafe(ai.knowledge[k], c)))
  }

  /** Marking an actual mine keeps a sound AI sound. */
  lemma MarkMineKeepsSound(ai: AI, c: Cell, mines: set<Cell>)
    requires Sound(ai, mines) && c in mines
    ensures Sound(MarkMine(ai, c), mines)
  {
    forall k | 0 <= k < |ai.knowledge|
      ensures MinesweeperSentence.Holds(MarkMine(ai, c).knowledge[k], mines)
    {
      MinesweeperSentence.MarkMineKeepsTruth(ai.knowledge[k], c, mines);
    }
  }

  /** Marking an actually safe cell keeps a sound AI sound. */
  lemma MarkSafeKeepsSound(ai: AI, c: Cell, mines: set<Cell>)
    requires Sound(ai, mines) && c !in mines
    ensures Sound(MarkSafe(ai, c), mines)
  {
    forall k | 0 <= k < |ai.knowledge|
      ensures MinesweeperSentence.Holds(MarkSafe(ai, c).knowledge[k], mines)
    {
      MinesweeperSentence.MarkSafeKeepsTruth(ai.knowledge[k], c, mines);
    }
  }

  /**
   * The sentence `add_knowledge` builds for `cell` revealing `count`: the
   * neighbours not yet known safe or mined, with the count lowered by one
   * per neighbour known to be a mine.
   */
  function NewSentence(ai: AI, cell: Cell, count: int): Sentence {
    var around := Neighbourhood(ai.height, ai.width, cell);
    var unknown := set c | c in around && c !in ai.safes && c !in ai.mines;
    MinesweeperSentence.Sentence(unknown, count - |around * ai.mines|)
  }

  /**
   * Steps 1 to 3 of `add_knowledge`: records the move, marks the cell safe,
   * and adds the sentence about its neighbours unless an equal one is
   * already known.
   */
  function AddKnowledge(ai: AI, cell: Cell, count: int): (r: AI)
    ensures cell in r.movesMade && r.movesMade == ai.movesMade + {cell}
    ensures r.safes == ai.safes + {cell} && r.mines == ai.mines
    ensures r.height == ai.height && r.width == ai.width
    ensures forall c :: c in NewSentence(r, cell, count).cells <==>
      c in Neighbourhood(ai.height, ai.width, cell) && c !in r.safes && c !in r.mines
    ensures NewSentence(r, cell, count).count == count - |Neighbourhood(ai.height, ai.width, cell) * ai.mines|
    ensures NewSentence(r, cell, count) in r.knowledge
    ensures |ai.knowledge| <= |r.knowledge| <= |ai.knowledge| + 1
    ensures |r.knowledge| == |ai.knowledge| <==> NewSentence(r, cell, count) in MarkSafe(ai, cell).knowledge
    ensures r.knowledge[..|ai.knowledge|] == MarkSafe(ai, cell).knowledge
  {
    var marked := MarkSafe(ai.(movesMade := ai.movesMade + {cell}), cell);
    var s := NewSentence(marked, cell, count);
    if s in marked.knowledge then marked else marked.(knowledge := marked.knowledge + [s])
  }

  /**
   * When `count` is the true number of mines around `cell` and the AI's
   * marks are right, the sentence built for `cell` is true.
   */
  lemma {:induction false} NewSentenceHolds(ai: AI, cell: Cell, count: int, mines: set<Cell>)
    requires ai.mines <= mines && ai.safes * mines == {}
    requires count == |Neighbourhood(ai.height, ai.width, cell) * mines|
    ensures MinesweeperSentence.Holds(NewSentence(ai, cell, count), mines)
  {
    var s := NewSentence(ai, cell, count);
    var around := Neighbourhood(ai.height, ai.width, cell);
    var hits := around * mines;
    var known := around * ai.mines;
    assert s.cells * mines == hits - known by {
      forall c | c in hits - known ensures c in s.cells {
        assert c in mines && c !in ai.safes * mines;
      }
    }
    assert hits == (hits - known) + known;
    assert |hits| == |hits - known| + |known|;
  }

  /**
   * When `count` is the true number of mines around the revealed, safe
   * `cell`, the sentence `add_knowledge` adds is true and a sound AI stays sound.
   */
  lemma {:induction false} AddKnowledgeKeepsSound(ai: AI, cell: Cell, count: int, mines: set<Cell>)
    requires Sound(ai, mines) && cell !in mines
    requires count == |Neighbourhood(ai.height, ai.width, cell) * mines|
    ensures Sound(AddKnowledge(ai, cell, count), mines)
  {
    var moved := ai.(movesMade := ai.movesMade + {cell});
    MarkSafeKeepsSound(moved, cell, mines);
    var marked := MarkSafe(moved, cell);
    var s := NewSentence(marked, cell, count);
    NewSentenceHolds(marked, cell, count, mines);
    var r := AddKnowledge(ai, cell, count);
    assert r == if s in marked.knowledge then marked else marked.(knowledge := marked.knowledge + [s]);
    forall k | 0 <= k < |r.knowledge| ensures MinesweeperSentence.Holds(r.knowledge[k], mines) {
      if k < |marked.knowledge| {
        assert r.knowledge[k] == marked.knowledge[k];
      } else {
        assert r.knowledge[k] == s;
      }
    }
  }

  /** A cell known to be safe that has not been played, or `None` when there is none. */
  method MakeSafeMove(ai: AI) returns (r: Option<Cell>)
    ensures r.Some? ==> r.value in ai.safes && r.value !in ai.movesMade
    ensures r.None? <==> ai.safes <= ai.movesMade
  {
    var rest := ai.safes;
    while rest != {}
      invariant rest <= ai.safes
      invariant forall c :: c in ai.safes && c !in rest ==> c in ai.movesMade
      decreases rest
    {
      var c :| c in rest;
      if c !in ai.movesMade {
        return Some(c);
      }
      rest := rest - {c};
    }
    return None;
  }
}
