/**
 * Tic-tac-toe on a 3×3 board: whose turn it is, the legal moves, the
 * successor board, the winner, and minimax with its cut-off at ±1.
 */
module TicTacToe {
  import opened Wrappers
  import opened Iteration

  datatype Player = X | O

  /** A cell: `Empty` is the source's `None`. */
  datatype Square = Empty | Filled(mark: Player)

  type Board = seq<seq<Square>>

  /** A (row, column) pair. */
  type Action = (int, int)

  datatype MoveError = OutOfBounds | CellTaken

  /** Three rows of three cells. */
  predicate ValidBoard(b: Board) {
    |b| == 3 && forall i :: 0 <= i < 3 ==> |b[i]| == 3
  }

  predicate InRange(a: Action) {
    0 <= a.0 <= 2 && 0 <= a.1 <= 2
  }

  function InitialState(): (b: Board)
    ensures ValidBoard(b)
    ensures forall i, j :: 0 <= i < 3 && 0 <= j < 3 ==> b[i][j] == Empty
  {
    [[Empty, Empty, Empty], [Empty, Empty, Empty], [Empty, Empty, Empty]]
  }

  /** How many cells of `row` hold `s`. */
  function CountRow(row: seq<Square>, s: Square): nat {
    if row == [] then 0 else (if row[0] == s then 1 else 0) + CountRow(row[1..], s)
  }

  /** How many cells of the board hold `s`. */
  function CountBoard(b: Board, s: Square): nat {
    if b == [] then 0 else CountRow(b[0], s) + CountBoard(b[1..], s)
  }

  lemma {:induction false} CountRowUpdate(row: seq<Square>, j: nat, v: Square, s: Square)
    requires j < |row|
    ensures CountRow(row[j := v], s) ==
      CountRow(row, s) - (if row[j] == s then 1 else 0) + (if v == s then 1 else 0)
  {
    if j > 0 {
      assert row[j := v][1..] == row[1..][j - 1 := v];
      CountRowUpdate(row[1..], j - 1, v, s);
    } else {
      assert row[j := v][1..] == row[1..];
    }
  }

  lemma {:induction false} CountBoardUpdate(b: Board, i: nat, j: nat, v: Square, s: Square)
    requires i < |b| && j < |b[i]|
    ensures CountBoard(b[i := b[i][j := v]], s) ==
      CountBoard(b, s) - (if b[i][j] == s then 1 else 0) + (if v == s then 1 else 0)
  {
    if i > 0 {
      assert b[i := b[i][j := v]][1..] == b[1..][i - 1 := b[1..][i - 1][j := v]];
      CountBoardUpdate(b[1..], i - 1, j, v, s);
    } else {
      assert b[i := b[i][j := v]][1..] == b[1..];
      CountRowUpdate(b[0], j, v, s);
    }
  }

  /** X moves when both players have made the same number of marks, otherwise O. */
  function ToMove(b: Board): (p: Player)
    ensures p == X <==> CountBoard(b, Filled(X)) == CountBoard(b, Filled(O))
  {
    if CountBoard(b, Filled(X)) == CountBoard(b, Filled(O)) then X else O
  }

  /** The empty cells, as (row, column) pairs. */
  function Actions(b: Board): set<Action>
    requires ValidBoard(b)
  {
    set i, j | 0 <= i < 3 && 0 <= j < 3 && b[i][j] == Empty :: (i, j)
  }

  /** No cell is empty. */
  predicate Full(b: Board)
    requires ValidBoard(b)
  {
    forall i, j :: 0 <= i < 3 && 0 <= j < 3 ==> b[i][j] != Empty
  }

  /** A board has a legal move exactly when it is not full. */
  lemma ActionsEmptyIffFull(b: Board)
    requires ValidBoard(b)
    ensures Actions(b) == {} <==> Full(b)
  {
    if !Full(b) {
      var i, j :| 0 <= i < 3 && 0 <= j < 3 && b[i][j] == Empty;
      assert (i, j) in Actions(b);
    }
  }

  /** The board after the player to move marks the empty cell `a`. */
  function Play(b: Board, a: Action): (r: Board)
    requires ValidBoard(b) && a in Actions(b)
    ensures ValidBoard(r)
    ensures r[a.0][a.1] == Filled(ToMove(b))
    ensures forall i, j :: 0 <= i < 3 && 0 <= j < 3 && (i, j) != a ==> r[i][j] == b[i][j]
    ensures Actions(r) == Actions(b) - {a}
    ensures CountBoard(r, Empty) + 1 == CountBoard(b, Empty)
  {
    var r := b[a.0 := b[a.0][a.1 := Filled(ToMove(b))]];
    CountBoardUpdate(b, a.0, a.1, Filled(ToMove(b)), Empty);
    r
  }

  /**
   * The source's `result`: an error for an action off the board or on an
   * occupied cell, otherwise the board after the move; the input board is a
   * value and is never changed.
   */
  function Successor(b: Board, a: Action): (r: Result<Board, MoveError>)
    requires ValidBoard(b)
    ensures r == Failure(OutOfBounds) <==> !InRange(a)
    ensures r == Failure(CellTaken) <==> InRange(a) && b[a.0][a.1] != Empty
    ensures r.Success? <==> a in Actions(b)
    ensures r.Success? ==> r.value == Play(b, a)
  {
    if !(0 <= a.0 <= 2 && 0 <= a.1 <= 2) then Failure(OutOfBounds)
    else if b[a.0][a.1] != Empty then Failure(CellTaken)
    else Success(Play(b, a))
  }

  /** Players alternate, X first: X has as many marks as O, or one more. */
  predicate Balanced(b: Board) {
    var x, o := CountBoard(b, Filled(X)), CountBoard(b, Filled(O));
    x == o || x == o + 1
  }

  /**
   * On a balanced board the move goes to the player with fewer marks (X on
   * a tie), the board stays balanced, and the turn passes to the other player.
   */
  lemma PlayAlternates(b: Board, a: Action)
    requires ValidBoard(b) && a in Actions(b) && Balanced(b)
    ensures ToMove(b) == X <==> CountBoard(b, Filled(X)) == CountBoard(b, Filled(O))
    ensures Balanced(Play(b, a))
    ensures ToMove(Play(b, a)) != ToMove(b)
  {
    var p := ToMove(b);
    CountBoardUpdate(b, a.0, a.1, Filled(p), Filled(X));
    CountBoardUpdate(b, a.0, a.1, Filled(p), Filled(O));
  }

  /** The eight lines: three rows, three columns, the diagonal, the anti-diagonal. */
  function Lines(b: Board): (r: seq<seq<Square>>)
    requires ValidBoard(b)
    ensures |r| == 8
  {
    [b[0], b[1], b[2],
     [b[0][0], b[1][0], b[2][0]], [b[0][1], b[1][1], b[2][1]], [b[0][2], b[1][2], b[2][2]],
     [b[0][0], b[1][1], b[2][2]], [b[0][2], b[1][1], b[2][0]]]
  }

  /** Three marks of `p`. */
  predicate Uniform(line: seq<Square>, p: Player) {
    line == [Filled(p), Filled(p), Filled(p)]
  }

  /** The mark of the first line that is all X or all O, scanning `lines` in order. */
  function FirstWin(lines: seq<seq<Square>>): (r: Option<Player>)
    ensures r.None? <==> forall k, p :: 0 <= k < |lines| ==> !Uniform(lines[k], p)
    ensures r.Some? ==> exists k :: 0 <= k < |lines| && Uniform(lines[k], r.value) && NoneUniformBefore(lines, k)
  {
    if lines == [] then None
    else if lines[0] == [Filled(X), Filled(X), Filled(X)] then
      assert Uniform(lines[0], X) && NoneUniformBefore(lines, 0);
      Some(X)
    else if lines[0] == [Filled(O), Filled(O), Filled(O)] then
      assert Uniform(lines[0], O) && NoneUniformBefore(lines, 0);
      Some(O)
    else
      var r := FirstWin(lines[1..]);
      assert forall k :: 1 <= k < |lines| ==> lines[k] == lines[1..][k - 1];
      assert !Uniform(lines[0], X) && !Uniform(lines[0], O);
      assert forall p :: !Uniform(lines[0], p) by {
        forall p ensures !Uniform(lines[0], p) {
          if p == X { } else { }
        }
      }
      if r.Some? then
        var k :| 0 <= k < |lines[1..]| && Uniform(lines[1..][k], r.value) && NoneUniformBefore(lines[1..], k);
        assert Uniform(lines[k + 1], r.value);
        assert NoneUniformBefore(lines, k + 1);
        r
      else r
  }

  /** No line before index `k` is uniform. */
  predicate NoneUniformBefore(lines: seq<seq<Square>>, k: int) {
    forall m, p :: 0 <= m < k && m < |lines| ==> !Uniform(lines[m], p)
  }

  /** The winner: the mark of the first uniform line in the order of `Lines`. */
  function Winner(b: Board): (r: Option<Player>)
    requires ValidBoard(b)
    ensures r.Some? ==> exists k :: 0 <= k < 8 && Uniform(Lines(b)[k], r.value)
  {
    FirstWin(Lines(b))
  }

  /**
   * A player who owns a full line while the other owns none is the winner,
   * and a board with no full line has no winner.
   */
  lemma WinnerIff(b: Board, p: Player, q: Player)
    requires ValidBoard(b) && p != q
    requires forall k :: 0 <= k < 8 ==> !Uniform(Lines(b)[k], q)
    ensures Winner(b) == Some(p) <==> exists k :: 0 <= k < 8 && Uniform(Lines(b)[k], p)
    ensures Winner(b).None? <==> forall k :: 0 <= k < 8 ==> !Uniform(Lines(b)[k], p)
  {
    var w := Winner(b);
    if w.Some? {
      var k :| 0 <= k < 8 && Uniform(Lines(b)[k], w.value) && NoneUniformBefore(Lines(b), k);
      assert w.value != q;
    }
  }

  /** The game is over when someone has won or the board is full. */
  predicate Terminal(b: Board)
    requires ValidBoard(b)
  {
    Winner(b).Some? || Full(b)
  }

  /** A board that is not terminal has a legal move. */
  lemma NonTerminalHasActions(b: Board)
    requires ValidBoard(b) && !Terminal(b)
    ensures Actions(b) != {}
  {
    ActionsEmptyIffFull(b);
  }

  /** 1 when X has won, -1 when O has won, 0 otherwise. */
  function Utility(b: Board): (u: int)
    requires ValidBoard(b)
    ensures -1 <= u <= 1
    ensures u == 1 <==> Winner(b) == Some(X)
    ensures u == -1 <==> Winner(b) == Some(O)
    ensures u == 0 <==> Winner(b).None?
  {
    var w := Winner(b);
    assert w.Some? ==> w.value == X || w.value == O;
    if w == Some(X) then 1 else if w == Some(O) then -1 else 0
  }

  /** The cell numbered `n`, counting row by row. */
  function CellAt(n: int): Action {
    (n / 3, n % 3)
  }

  /** The empty cells numbered `n` and above, in row-major order. */
  function EmptyFrom(b: Board, n: nat): (r: seq<Action>)
    requires ValidBoard(b)
    ensures forall a :: a in r <==> a in Actions(b) && a.0 * 3 + a.1 >= n
    ensures NoDuplicates(r)
    decreases 9 - n
  {
    if n >= 9 then []
    else
      var rest := EmptyFrom(b, n + 1);
      assert CellAt(n) !in rest;
      if b[n / 3][n % 3] == Empty then [CellAt(n)] + rest else rest
  }

  /**
   * The order in which minimax tries the moves: the empty cells, row by
   * row. The source iterates over the set `actions(board)`, whose order the
   * language leaves open; row-major order is one such order.
   */
  function ActionList(b: Board): (r: seq<Action>)
    requires ValidBoard(b)
    ensures forall a :: a in r <==> a in Actions(b)
    ensures NoDuplicates(r)
  {
    EmptyFrom(b, 0)
  }

  /**
   * The maximiser's value of `b` and the move that achieves it: the
   * utility on a terminal board, otherwise the greatest value the minimiser
   * gets after any legal move, with a move that achieves it.
   */
  function MaxValue(b: Board): (r: (int, Option<Action>))
    requires ValidBoard(b)
    ensures -1 <= r.0 <= 1
    ensures Terminal(b) ==> r == (Utility(b), None)
    ensures !Terminal(b) ==> r.1.Some? && r.1.value in Actions(b) && MinValue(Play(b, r.1.value)).0 == r.0
    ensures !Terminal(b) ==> forall a :: a in Actions(b) ==> MinValue(Play(b, a)).0 <= r.0
    decreases CountBoard(b, Empty), 1, 0
  {
    if Terminal(b) then (Utility(b), None)
    else
      NonTerminalHasActions(b);
      MaxScan(b, ActionList(b), None)
  }

  /** The minimiser's value of `b` and the move that achieves it, dual to `MaxValue`. */
  function MinValue(b: Board): (r: (int, Option<Action>))
    requires ValidBoard(b)
    ensures -1 <= r.0 <= 1
    ensures Terminal(b) ==> r == (Utility(b), None)
    ensures !Terminal(b) ==> r.1.Some? && r.1.value in Actions(b) && MaxValue(Play(b, r.1.value)).0 == r.0
    ensures !Terminal(b) ==> forall a :: a in Actions(b) ==> r.0 <= MaxValue(Play(b, a)).0
    decreases CountBoard(b, Empty), 1, 0
  {
    if Terminal(b) then (Utility(b), None)
    else
      NonTerminalHasActions(b);
      MinScan(b, ActionList(b), None)
  }

  /**
   * The loop of `max_value` over the remaining moves `acts`, with `best`
   * the value and move kept so far (`None` is the source's `-inf`). A move
   * replaces the kept one only when strictly better, and the loop stops as
   * soon as the value 1 is reached: no later move can beat it.
   */
  function MaxScan(b: Board, acts: seq<Action>, best: Option<(int, Action)>): (r: (int, Option<Action>))
    requires ValidBoard(b)
    requires forall a :: a in acts ==> a in Actions(b)
    requires acts != [] || best.Some?
    requires best.Some? ==> -1 <= best.value.0 <= 1 && best.value.1 in Actions(b)
    requires best.Some? ==> MinValue(Play(b, best.value.1)).0 == best.value.0
    ensures -1 <= r.0 <= 1
    ensures r.1.Some? && r.1.value in Actions(b) && MinValue(Play(b, r.1.value)).0 == r.0
    ensures forall a :: a in acts ==> MinValue(Play(b, a)).0 <= r.0
    ensures best.Some? ==> best.value.0 <= r.0
    decreases CountBoard(b, Empty), 0, |acts|
  {
    if acts == [] then (best.value.0, Some(best.value.1))
    else
      var v := MinValue(Play(b, acts[0])).0;
      if best.None? || v > best.value.0 then
        if v == 1 then (v, Some(acts[0]))
        else MaxScan(b, acts[1..], Some((v, acts[0])))
      else MaxScan(b, acts[1..], best)
  }

  /** The loop of `min_value`, dual to `MaxScan`, stopping at the value -1. */
  function MinScan(b: Board, acts: seq<Action>, best: Option<(int, Action)>): (r: (int, Option<Action>))
    requires ValidBoard(b)
    requires forall a :: a in acts ==> a in Actions(b)
    requires acts != [] || best.Some?
    requires best.Some? ==> -1 <= best.value.0 <= 1 && best.value.1 in Actions(b)
    requires best.Some? ==> MaxValue(Play(b, best.value.1)).0 == best.value.0
    ensures -1 <= r.0 <= 1
    ensures r.1.Some? && r.1.value in Actions(b) && MaxValue(Play(b, r.1.value)).0 == r.0
    ensures forall a :: a in acts ==> r.0 <= MaxValue(Play(b, a)).0
    ensures best.Some? ==> r.0 <= best.value.0
    decreases CountBoard(b, Empty), 0, |acts|
  {
    if acts == [] then (best.value.0, Some(best.value.1))
    else
      var v := MaxValue(Play(b, acts[0])).0;
      if best.None? || v < best.value.0 then
        if v == -1 then (v, Some(acts[0]))
        else MinScan(b, acts[1..], Some((v, acts[0])))
      else MinScan(b, acts[1..], best)
  }

  /**
   * The optimal move for the player to move: `None` on a terminal board,
   * otherwise a legal move that is best for that player against a perfect
   * opponent.
   */
  function Minimax(b: Board): (r: Option<Action>)
    requires ValidBoard(b)
    ensures r.None? <==> Terminal(b)
    ensures r.Some? ==> r.value in Actions(b)
    ensures r.Some? && ToMove(b) == X ==>
      forall a :: a in Actions(b) ==> MinValue(Play(b, a)).0 <= MinValue(Play(b, r.value)).0
    ensures r.Some? && ToMove(b) == O ==>
      forall a :: a in Actions(b) ==> MaxValue(Play(b, r.value)).0 <= MaxValue(Play(b, a)).0
  {
    if Terminal(b) then None
    else if ToMove(b) == X then MaxValue(b).1
    else MinValue(b).1
  }
}
