# Six AI exercises, modelled in Dafny

This project models the deterministic, discrete parts of six small AI
programs and proves properties of them:

- **Crossword** (`crossword/generate.py`): a crossword puzzle is a
  constraint satisfaction problem. Each slot ("variable") of the grid needs
  a word. Words must be distinct, must have the slot's length, and must
  agree where two slots cross. The solver does three things in turn:
  - it enforces node consistency;
  - it runs AC-3 arc consistency, built on `revise`;
  - it runs a backtracking search that picks variables by minimum remaining
    values with a degree tie-break, and tries values least constraining first.
- **Minesweeper** (`minesweeper/minesweeper.py`):
  - counting a cell's nearby mines, and the win test;
  - the AI's knowledge base of `Sentence`s, each a set of cells plus the
    number of mines among them, with the mine/safe inference rules and the
    updates that spread a newly known mine or safe cell through every
    sentence;
  - the first three steps of `add_knowledge`;
  - the safe move.
- **Tic-tac-toe** (`tictactoe/tictactoe/tictactoe.py`): whose turn it is,
  the legal moves, the successor board and its errors, the winner, terminal
  boards, the utility, and minimax with its cut-off at ±1.
- **Nim** (`nim/nim.py`): the available actions, `move` with its three
  error conditions and its winner rule, the Q-table lookup, the best future
  reward, and the greedy action choice.
- **Heredity** (`heredity/heredity.py`): `powerset`, which follows the
  order of `itertools.combinations`; the gene-count classification of a
  person; and the bucket that `update` adds each joint probability to.
- **Shopping** (`shopping/shopping.py`): the `MONTHS` encoding table and
  `evaluate`, which computes sensitivity and specificity.

Layout, one module per concern:

| file | module | contents |
|---|---|---|
| `wrappers.dfy` | `Wrappers` | `Option` and `Result` |
| `iteration.dfy` | `Iteration` | listing a set in an arbitrary order, least element and sorting by a key |
| `sets.dfy` | `SetFacts` | cardinality of subsets |
| `crossword_grid.dfy` | `CrosswordGrid` | slots, the overlap table, domains, assignments and the constraints |
| `crossword_arcs.dfy` | `CrosswordArcs` | node consistency, `revise` and AC-3 |
| `crossword_search.dfy` | `CrosswordSearch` | `consistent`, the two heuristics, backtracking and `solve` |
| `minesweeper.dfy` | `MinesweeperGame`, `MinesweeperSentence`, `MinesweeperAI` | the board, the sentences and the AI |
| `tictactoe.dfy` | `TicTacToe` | the board functions and minimax |
| `nim.dfy` | `Nim` | the game and the greedy Q-learning player |
| `heredity.dfy` | `Heredity` | `powerset`, gene counts and `update` |
| `shopping.dfy` | `Shopping` | `MONTHS` and `evaluate` |

Modelling choices:

- Python's mutation of `self.domains`, `self.knowledge` or a game's piles
  becomes a function that returns the new value.
- An exception becomes the `Failure` case of a `Result`.
- `None` becomes `Option.None`.
- Where the source iterates over a Python `set`, its order is not fixed by
  the language. Methods then choose an order nondeterministically, and every
  contract holds for every order.
- The one exception is tic-tac-toe's minimax, which is a function and tries
  the moves in row-major order.
- Floating-point values (Q values, probabilities, rates) are exact `real`s.

## Model

| member | source | states |
|---|---|---|
| CrosswordGrid.InitialDomains | crossword/generate.py:13-16 | Every slot of the grid starts with the whole vocabulary as its domain. |
| CrosswordArcs.EnforceNodeConsistency | crossword/generate.py:55-61 | Domains only shrink, and every remaining word has its slot's length. Every original word of the right length is kept. |
| CrosswordArcs.NodeConsistencyKeepsSolutions | crossword/generate.py:55-61 | Node consistency loses no solution of the puzzle. |
| CrosswordArcs.Revise | crossword/generate.py:63-81 | Two slots that do not cross give `(false, unchanged domains)`. Otherwise `x` keeps exactly the words that have a partner in `y` agreeing at the crossing. No other slot changes, and the flag is true iff something was removed. |
| CrosswordArcs.ReviseMakesArcConsistent | crossword/generate.py:63-81 | After `revise(x, y)`, the arc from `x` to `y` is arc consistent. |
| CrosswordArcs.ReviseKeepsArc | crossword/generate.py:63-81 | Revising `(x, y)` keeps every other consistent arc consistent, except arcs into `x` from its other neighbours. |
| CrosswordArcs.ReviseKeepsSolutions | crossword/generate.py:63-81 | A word that belongs to a solution is never removed by `revise`. |
| CrosswordArcs.SeedQueue | crossword/generate.py:87-93 | A non-empty argument list is the queue, unchanged. `None` or an empty list seeds every arc `(x, y)` with `y` a neighbour of `x`. |
| CrosswordArcs.AC3StepKeepsInvariant | crossword/generate.py:94-100 | One dequeue-revise-requeue step keeps the invariant: every seeded arc is either still queued or arc consistent, domains only shrink, and no solution is lost. |
| CrosswordArcs.AC3Step | crossword/generate.py:94-100 | One loop iteration keeps the invariant. It either removes a candidate or shortens the queue. It reports `emptied` only when the revised slot's domain was non-empty before and is empty after; when it does not, it has created no new empty domain. |
| CrosswordArcs.AC3 | crossword/generate.py:83-101 | Domains only shrink and no solution is lost. `false` means some domain that was non-empty on entry became empty. With `true`, the only empty domains are those that were empty on entry, and every seeded arc is arc consistent. |
| CrosswordGrid.Complete | crossword/generate.py:103-107 | An assignment is complete when its slots are exactly the grid's slots. |
| CrosswordSearch.ValuesCount | crossword/generate.py:116-118 | An assignment has no more distinct words than slots, and as many exactly when no two slots share a word. |
| CrosswordSearch.Consistent | crossword/generate.py:109-133 | `consistent` holds iff the words are pairwise distinct, each has its slot's length, and crossing slots agree at the crossing. |
| CrosswordSearch.SelectUnassignedVariable | crossword/generate.py:152-159 | `None` iff every slot is assigned. Otherwise an unassigned slot with the fewest candidates, ties broken by the most neighbours. |
| CrosswordSearch.Conflicts | crossword/generate.py:139-149 | The number of (unassigned neighbour, neighbour candidate) pairs that disagree with the word at the crossing; 0 once every neighbour is assigned. |
| CrosswordSearch.OrderDomainValues | crossword/generate.py:135-150 | Under the same node-consistent domains that `backtrack` works on, every candidate of the slot, each once, ordered by non-decreasing count of ruled-out neighbour candidates. |
| CrosswordSearch.AllBranchesHopeless | crossword/generate.py:166-175 | When every candidate of the chosen slot leads nowhere, the assignment itself has no consistent complete extension. |
| CrosswordSearch.Backtrack | crossword/generate.py:161-175 | A result is complete and extends the assignment with words from the domains, and it is consistent when the start was. `None` means no consistent complete extension exists. |
| CrosswordSearch.TryValues | crossword/generate.py:166-175 | The loop over ordered values: returns a complete consistent extension, or `None` when none exists. |
| CrosswordSearch.Solve | crossword/generate.py:47-53 | A result solves the puzzle from the initial domains. `None` means the puzzle has no solution. |
| MinesweeperGame.NeighbourhoodAtMostEight | minesweeper/minesweeper.py:65-76 | A cell has at most eight in-bounds neighbours, the cell itself excluded. |
| MinesweeperGame.NearbyMines | minesweeper/minesweeper.py:55-78 | The count is the number of mines among the in-bounds neighbours (the cell excluded), and it is at most 8. |
| MinesweeperGame.Won | minesweeper/minesweeper.py:80-84 | The game is won iff every flagged cell is a mine and every mine is flagged. |
| MinesweeperSentence.KnownMines | minesweeper/minesweeper.py:104-111 | All cells iff the sentence has cells and its count equals their number; otherwise the empty set. |
| MinesweeperSentence.KnownMinesSound | minesweeper/minesweeper.py:104-111 | When the sentence is true of the real mines, every cell it reports is a mine. |
| MinesweeperSentence.KnownSafes | minesweeper/minesweeper.py:113-120 | All cells iff the count is 0; otherwise the empty set. |
| MinesweeperSentence.KnownSafesSound | minesweeper/minesweeper.py:113-120 | When the sentence is true of the real mines, no cell it reports is a mine. |
| MinesweeperSentence.MarkMine | minesweeper/minesweeper.py:122-129 | The cell leaves the sentence, and the count drops by one iff the cell was in it. |
| MinesweeperSentence.MarkMineKeepsTruth | minesweeper/minesweeper.py:122-129 | Marking a real mine keeps a true sentence true. |
| MinesweeperSentence.MarkSafe | minesweeper/minesweeper.py:131-137 | The cell leaves the sentence, and the count never changes. |
| MinesweeperSentence.MarkSafeKeepsTruth | minesweeper/minesweeper.py:131-137 | Marking a cell that is not a mine keeps a true sentence true. |
| MinesweeperSentence.Difference | minesweeper/minesweeper.py:230-234 | The subset rule's cells are exactly those of the superset that are not in the subset. |
| MinesweeperSentence.DifferenceSound | minesweeper/minesweeper.py:230-234 | The subset rule infers a true sentence from two true ones. |
| MinesweeperAI.MarkMine | minesweeper/minesweeper.py:161-168 | The cell joins `mines`, and every sentence is updated by its own `mark_mine`, so none contains the cell. The board size and the other fields stay as they were. |
| MinesweeperAI.MarkMineKeepsSound | minesweeper/minesweeper.py:161-168 | Marking a real mine keeps the AI's knowledge true. |
| MinesweeperAI.MarkSafe | minesweeper/minesweeper.py:170-177 | The cell joins `safes`, and every sentence is updated by its own `mark_safe`, so none contains the cell. The board size and the other fields stay as they were. |
| MinesweeperAI.MarkSafeKeepsSound | minesweeper/minesweeper.py:170-177 | Marking a cell that is not a mine keeps the AI's knowledge true. |
| MinesweeperAI.NewSentence | minesweeper/minesweeper.py:191-203 | The neighbours not yet known safe or mined, with the count lowered by the known neighbouring mines. |
| MinesweeperAI.AddKnowledge | minesweeper/minesweeper.py:179-205 | The board size and `mines` are unchanged, and the cell is in `moves_made` and `safes`. The new sentence holds exactly the in-bounds neighbours known neither safe nor mined, and its count is reduced by the known neighbouring mines. It comes after the old sentences marked safe, and it is appended exactly when no equal sentence is already known, so the knowledge grows by one iff the sentence is new. |
| MinesweeperAI.AddKnowledgeKeepsSound | minesweeper/minesweeper.py:179-205 | Given the board's true count for a safe cell, steps 1 to 3 keep all knowledge true. |
| MinesweeperAI.MakeSafeMove | minesweeper/minesweeper.py:239-246 | The result is a known-safe cell not yet played. `None` iff every safe cell has been played. |
| TicTacToe.InitialState | tictactoe/tictactoe/tictactoe.py:12-18 | The board is three rows of three empty cells. |
| TicTacToe.ToMove | tictactoe/tictactoe/tictactoe.py:21-24 | X moves iff the numbers of X and O marks are equal, otherwise O. |
| TicTacToe.Actions | tictactoe/tictactoe/tictactoe.py:29-30 | The set of empty cells, as (row, column) pairs. |
| TicTacToe.ActionsEmptyIffFull | tictactoe/tictactoe/tictactoe.py:29-30 | There is no legal move exactly when every cell is taken. |
| TicTacToe.Play | tictactoe/tictactoe/tictactoe.py:47-49 | The new board differs from the old only at the move, which holds the mover's mark. The legal moves lose exactly that cell. |
| TicTacToe.Successor | tictactoe/tictactoe/tictactoe.py:37-49 | An out-of-bounds error iff the cell is off the board, and a taken-cell error iff it is occupied. Otherwise the result is the played board. |
| TicTacToe.PlayAlternates | tictactoe/tictactoe/tictactoe.py:21-24 | On a board where X has as many marks as O, or one more, a move keeps that balance and passes the turn. |
| TicTacToe.FirstWin | tictactoe/tictactoe/tictactoe.py:66-71 | The scan returns the mark of the first uniform line, or `None` iff no line is uniform. |
| TicTacToe.WinnerIff | tictactoe/tictactoe/tictactoe.py:55-71 | When only one player owns full lines, that player is the winner iff they own one, and there is no winner iff they own none. |
| TicTacToe.Winner | tictactoe/tictactoe/tictactoe.py:55-71 | The first uniform line's mark over rows, columns and both diagonals; a winner always owns some full line. |
| TicTacToe.Terminal | tictactoe/tictactoe/tictactoe.py:76-77 | The game is over when there is a winner or no cell is empty. |
| TicTacToe.NonTerminalHasActions | tictactoe/tictactoe/tictactoe.py:76-77 | A board that is not terminal has a legal move. |
| TicTacToe.Utility | tictactoe/tictactoe/tictactoe.py:82-89 | The utility is 1 iff X has won, −1 iff O has won, and 0 iff nobody has. |
| TicTacToe.ActionList | tictactoe/tictactoe/tictactoe.py:29-30 | The list holds exactly the legal moves, each once. |
| TicTacToe.MaxValue | tictactoe/tictactoe/tictactoe.py:100-112 | A value in [−1, 1]: the utility on a terminal board. Otherwise a move's min value, and no move does better. |
| TicTacToe.MinValue | tictactoe/tictactoe/tictactoe.py:114-126 | The dual of `MaxValue`: a move's max value, and no move does worse. |
| TicTacToe.MaxScan | tictactoe/tictactoe/tictactoe.py:104-111 | The loop with its early stop at 1 still returns the greatest value over all remaining moves, together with a move that achieves it. |
| TicTacToe.MinScan | tictactoe/tictactoe/tictactoe.py:118-125 | The loop with its early stop at −1 still returns the least value over all remaining moves, together with a move that achieves it. |
| TicTacToe.Minimax | tictactoe/tictactoe/tictactoe.py:94-132 | `None` iff the board is terminal. Otherwise a legal move that is optimal for the player to move. |
| Nim.NewGame | nim/nim.py:8-11 | Player 0 moves first, the piles are the given ones, and there is no winner. |
| Nim.DefaultGameStart | nim/nim.py:8-9 | Without arguments a game starts on the piles 1, 3, 5 and 7, each open to a move. |
| Nim.AvailableActions | nim/nim.py:14-19 | Every (pile, count) pair with a count from 1 up to the pile's size. |
| Nim.NoActionsIffEmpty | nim/nim.py:14-19 | There is no available action iff no pile holds an object. |
| Nim.OtherPlayer | nim/nim.py:22-23 | 1 becomes 0 and everything else becomes 1. |
| Nim.OtherPlayerInvolution | nim/nim.py:22-23 | On the two players, `other_player` swaps them and undoes itself. |
| Nim.Move | nim/nim.py:28-39 | Three errors, in order: game already won, invalid pile, invalid count. A successful move changes only the chosen pile, by the count, and passes the turn. The winner is set, to the new player to move, iff all piles are empty. |
| Nim.MoveSucceedsIffAvailable | nim/nim.py:14-39 | A move succeeds iff the game is undecided and the action is available. It keeps piles non-negative and removes exactly the count. |
| Nim.GetQValue | nim/nim.py:54-56 | The stored Q value, or 0 for an unseen state-action pair. |
| Nim.BestFutureReward | nim/nim.py:63-67 | 0 when no action is available; otherwise the greatest Q value over the available actions. |
| Nim.ChooseAction | nim/nim.py:69-84 | `None` iff no action is available; otherwise an available action whose Q value is the greatest. |
| Heredity.Powerset | heredity/heredity.py:112-121 | There are exactly 2^\|s\| sets, pairwise distinct. They are exactly the subsets of `s`, so both the empty set and `s` are included. |
| Heredity.CombinationsComplete | heredity/heredity.py:116-121 | Every `r`-element subset is the set of some `r`-combination. |
| Heredity.CombinationsDistinct | heredity/heredity.py:116-121 | Different `r`-combinations of distinct entries give different sets. |
| Heredity.ChainFromSpec | heredity/heredity.py:116-121 | Chaining the sizes `r` to `|xs|` lists the subsets with at least `r` elements, each once. |
| Heredity.SubsetsSpec | heredity/heredity.py:112-121 | The reference definition lists 2^n subsets, each once, and all of them. |
| Heredity.GeneCount | heredity/heredity.py:177-184 | 2 iff the person is in `two_genes`, which wins over `one_gene`; 1 iff only in `one_gene`; otherwise 0. |
| Heredity.Update | heredity/heredity.py:173-189 | The same people and buckets come out. `p` is added to the gene bucket of the person's gene count and to the trait bucket of whether they have the trait. Every other bucket is unchanged. |
| Heredity.UpdateAddsMass | heredity/heredity.py:173-189 | Each person's gene mass and trait mass each grow by exactly `p`, so exactly one bucket of each receives it. |
| Shopping.MonthsInverse | shopping/shopping.py:34-38 | The month names in calendar order invert the table: each key maps to its own position. |
| Shopping.MonthsTable | shopping/shopping.py:34-38 | Twelve keys are mapped one-to-one onto 0..11. "June" is a key and "Jun" is not. |
| Shopping.TallyOf | shopping/shopping.py:98-106 | The positives and negatives add up to the number of pairs, and each true count is at most its total. |
| Shopping.Ratio | shopping/shopping.py:107-108 | The rate lies in [0, 1]: 0 when the class never occurs, otherwise the fraction of true cases. |
| Shopping.Evaluate | shopping/shopping.py:90-109 | The rates are those of the counts over the zipped pairs (as many as the shorter list), and both lie in [0, 1]. |

## Left out

- Grid construction: the `Crossword`/`Variable` classes, which parse the structure and words files, are not part of this model. The grid is an input (`CrosswordGrid.Grid`) with stated well-formedness conditions.
- `letter_grid`, `print` and `main` in the crossword program: these render the grid and read the command line. `main`'s optional output step calls a `save` method that generate.py does not define (crossword/generate.py:193).
- CrosswordArcs.Revise: requires node-consistent domains. The source indexes words at the crossing without a length check, and `solve` always enforces node consistency before AC-3. `CrosswordSearch.OrderDomainValues` carries the same precondition, for the same reason: `count_conflicts` indexes both words at the crossing.
- CrosswordSearch.Solve: like `solve`, it ignores the result of `ac3` and always runs the search; an emptied domain then simply leaves the search without a solution.
- The fixpoint loop of `add_knowledge` (steps 4 and 5, minesweeper/minesweeper.py:207-238): its termination is not evident, because inferred sentences can have empty cells or negative counts. Only the soundness of the subset rule (`MinesweeperSentence.DifferenceSound`) and of the single marking steps is modelled.
- Minesweeper's random mine placement, `make_random_move`, `is_mine` and `print`: randomness and rendering.
- The board is modelled by its set of mines instead of a grid of booleans.
- Nim's exploration branch of `choose_action` (random, `epsilon=True`), the floating-point `update`/`update_q_value` with `alpha`, and `train`/`play`: randomness, floating point and console input.
- Nim.ChooseAction: the order in which actions are tried is the set's iteration order. The model leaves it open, so it states which action is returned only up to ties.
- Heredity's `joint_probability`, `normalize`, `load_data` and `main`: floating-point arithmetic and CSV input. Only the gene-count rule shared with `joint_probability` is modelled.
- Shopping's `load_data`, `train_model` and `main`: CSV parsing and a machine-learning library.
- TicTacToe.Minimax: tries moves in row-major order. The source iterates over a set, so with several equally good moves it may return a different one of them.
- Floating-point numbers are exact reals. The rounding of Python floats is not modelled.
- The remaining programs of the repository (pagerank, traffic, attention, knights, parser) are not part of this model.
