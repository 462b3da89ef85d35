/**
 * Nim: piles of objects, two players (0 and 1) taking turns to remove
 * objects from one pile; the player who takes the last object loses, so the
 * winner is the player to move once every pile is empty. Also the greedy,
 * non-exploring part of the Q-learning player.
 */
module Nim {
  import opened Wrappers
  import opened Iteration

  /** Remove `.1` objects from pile `.0`. */
  type Action = (int, int)

  datatype Game = Game(piles: seq<int>, player: int, winner: Option<int>)

  datatype MoveError = GameWon | InvalidPile | InvalidCount

  /** A new game over the given piles, player 0 to move. */
  function NewGame(initial: seq<int>): (g: Game)
    ensures g.piles == initial && g.player == 0 && g.winner.None?
  {
    Game(initial, 0, None)
  }

  /** The piles a game starts with when none are given. */
  const DefaultPiles: seq<int> := [1, 3, 5, 7]

  /** The default game: four piles of 1, 3, 5 and 7, with every pile open to a move. */
  lemma DefaultGameStart()
    ensures NewGame(DefaultPiles).piles == [1, 3, 5, 7]
    ensures forall i :: 0 <= i < 4 ==> (i, 1) in AvailableActions(NewGame(DefaultPiles).piles)
    ensures (3, 7) in AvailableActions(NewGame(DefaultPiles).piles)
  {
  }

  /** Every (pile, count) with a count between 1 and the pile's size. */
  function AvailableActions(piles: seq<int>): set<Action> {
    set i, j | 0 <= i < |piles| && 1 <= j <= piles[i] :: (i, j)
  }

  /** There is no move exactly when no pile holds an object. */
  lemma NoActionsIffEmpty(piles: seq<int>)
    ensures AvailableActions(piles) == {} <==> forall i :: 0 <= i < |piles| ==> piles[i] <= 0
  {
    if exists i :: 0 <= i < |piles| && piles[i] > 0 {
      var i :| 0 <= i < |piles| && piles[i] > 0;
      assert (i, 1) in AvailableActions(piles);
    }
  }

  /** 0 for player 1 and 1 for anything else. */
  function OtherPlayer(p: int): (r: int)
    ensures r == 0 || r == 1
    ensures r == 0 <==> p == 1
  {
    if p == 1 then 0 else 1
  }

  /** On the two players, `OtherPlayer` swaps them and undoes itself. */
  lemma OtherPlayerInvolution(p: int)
    requires p == 0 || p == 1
    ensures OtherPlayer(p) != p
    ensures OtherPlayer(OtherPlayer(p)) == p
  {
  }

  /** Every pile is empty. */
  predicate AllEmpty(piles: seq<int>) {
    forall k :: 0 <= k < |piles| ==> piles[k] == 0
  }

  /**
   * The source's `move`: fails when the game is already won, the pile does
   * not exist, or the count is not between 1 and the pile's size (checked in
   * that order); otherwise takes the objects, passes the turn, and declares
   * the new player to move the winner when every pile is empty.
   */
  function Move(g: Game, a: Action): (r: Result<Game, MoveError>)
    ensures r == Failure(GameWon) <==> g.winner.Some?
    ensures r == Failure(InvalidPile) <==> g.winner.None? && !(0 <= a.0 < |g.piles|)
    ensures r == Failure(InvalidCount) <==>
      g.winner.None? && 0 <= a.0 < |g.piles| && !(1 <= a.1 <= g.piles[a.0])
    ensures r.Success? ==>
      && |r.value.piles| == |g.piles|
      && r.value.piles[a.0] == g.piles[a.0] - a.1
      && (forall k :: 0 <= k < |g.piles| && k != a.0 ==> r.value.piles[k] == g.piles[k])
      && r.value.player == OtherPlayer(g.player)
      && (r.value.winner.Some? <==> AllEmpty(r.value.piles))
      && (r.value.winner.Some? ==> r.value.winner.value == r.value.player)
  {
    if g.winner.Some? then Failure(GameWon)
    else if a.0 < 0 || a.0 >= |g.piles| then Failure(InvalidPile)
    else if a.1 < 1 || a.1 > g.piles[a.0] then Failure(InvalidCount)
    else
      var piles := g.piles[a.0 := g.piles[a.0] - a.1];
      var player := OtherPlayer(g.player);
      Success(Game(piles, player, if AllEmpty(piles) then Some(player) else None))
  }

  /** The total number of objects. */
  function Total(piles: seq<int>): int {
    if piles == [] then 0 else piles[0] + Total(piles[1..])
  }

  lemma {:induction false} TotalUpdate(piles: seq<int>, i: nat, v: int)
    requires i < |piles|
    ensures Total(piles[i := v]) == Total(piles) - piles[i] + v
  {
    if i > 0 {
      assert piles[i := v][1..] == piles[1..][i - 1 := v];
      TotalUpdate(piles[1..], i - 1, v);
    } else {
      assert piles[i := v][1..] == piles[1..];
    }
  }

  /** Non-negative piles. */
  predicate Valid(piles: seq<int>) {
    forall k :: 0 <= k < |piles| ==> piles[k] >= 0
  }

  /**
   * A move succeeds exactly when the game is undecided and the action is
   * available; it keeps the piles non-negative and removes `count` objects
   * in all, so a game ends after finitely many moves.
   */
  lemma MoveSucceedsIffAvailable(g: Game, a: Action)
    ensures Move(g, a).Success? <==> g.winner.None? && a in AvailableActions(g.piles)
    ensures Move(g, a).Success? && Valid(g.piles) ==>
      Valid(Move(g, a).value.piles) && Total(Move(g, a).value.piles) == Total(g.piles) - a.1
  {
    if Move(g, a).Success? {
      TotalUpdate(g.piles, a.0, g.piles[a.0] - a.1);
    }
  }

  /** The Q-table: learned values of (state, action) pairs. */
  type QTable = map<(seq<int>, Action), real>

  /** The learned value of `action` in `state`, 0 when never learned. */
  function GetQValue(q: QTable, state: seq<int>, action: Action): (r: real)
    ensures (state, action) in q ==> r == q[(state, action)]
    ensures (state, action) !in q ==> r == 0.0
  {
    if (state, action) in q then q[(state, action)] else 0.0
  }

  /** `v` is the greatest Q value of an available action, or 0 when there is none. */
  ghost predicate IsBestReward(q: QTable, state: seq<int>, v: real) {
    var actions := AvailableActions(state);
    (actions == {} ==> v == 0.0) &&
    (actions != {} ==>
      (exists a :: a in actions && GetQValue(q, state, a) == v) &&
      (forall a :: a in actions ==> GetQValue(q, state, a) <= v))
  }

  /** The best Q value reachable from `state`, 0 when no move is available. */
  method BestFutureReward(q: QTable, state: seq<int>) returns (r: real)
    ensures IsBestReward(q, state, r)
  {
    var actions := Enumerate(AvailableActions(state));
    if actions == [] {
      return 0.0;
    }
    r := GetQValue(q, state, actions[0]);
    var k := 1;
    while k < |actions|
      invariant 1 <= k <= |actions|
      invariant exists t :: 0 <= t < k && GetQValue(q, state, actions[t]) == r
      invariant forall t :: 0 <= t < k ==> GetQValue(q, state, actions[t]) <= r
    {
      var v := GetQValue(q, state, actions[k]);
      if v > r {
        r := v;
      }
      k := k + 1;
    }
  }

  /**
   * The greedy move (`choose_action` with exploration off): `None` when no
   * move is available, otherwise the first available action, in the set's
   * iteration order, whose Q value is greatest.
   */
  method ChooseAction(q: QTable, state: seq<int>) returns (r: Option<Action>)
    ensures r.None? <==> AvailableActions(state) == {}
    ensures r.Some? ==> r.value in AvailableActions(state)
    ensures r.Some? ==> IsBestReward(q, state, GetQValue(q, state, r.value))
  {
    var actions := Enumerate(AvailableActions(state));
    if actions == [] {
      return None;
    }
    var best: Option<Action> := None;
    var k := 0;
    while k < |actions|
      invariant 0 <= k <= |actions|
      invariant best.None? <==> k == 0
      invariant best.Some? ==> best.value in actions[..k]
      invariant best.Some? ==> forall t :: 0 <= t < k ==> GetQValue(q, state, actions[t]) <= GetQValue(q, state, best.value)
    {
      var v := GetQValue(q, state, actions[k]);
      if best.None? || v > GetQValue(q, state, best.value) {
        best := Some(actions[k]);
      }
      k := k + 1;
    }
    r := best;
  }
}
