/**
 * Tic-tac-toe as a search problem: states are games, actions are cell indices, every move costs
 * 1, a state is terminal when the game is over, and three goal tests pick the winner wanted.
 * The evaluator scores a game for minimax from one player's point of view.
 */
module TicTacToeProblems {
  import opened Wrappers
  import opened SearchProblem
  import opened TicTacToeGame

  /** The three problem variants, differing only in their goal test. */
  datatype Goal =
    | CpuVictory(cpu: Player)
    | PlayerVictory(player: Player)
    | Victory

  /**
   * isGoal: the game is over and `won()` names the designated player, or, for the plain victory
   * problem, names anybody at all.
   */
  predicate IsGoal(g: Goal, pos: Position)
  {
    match g
    case CpuVictory(cpu) => Ended(pos.board) && Winner(pos.board) == cpu
    case PlayerVictory(player) => Ended(pos.board) && Winner(pos.board) == player
    case Victory => Ended(pos.board) && Winner(pos.board) != Nobody
  }

  /**
   * The problem for goal `g`. States are never null, so every state is a state. The measure
   * (free cells left) is what makes minimax on this problem end.
   */
  function GameProblem(g: Goal): (p: Problem<Position, Tile>)
    ensures p.initial == Initial
    ensures forall pos, t: Tile :: t in p.actions(pos) <==> pos.board[t] == Nobody
    ensures forall pos, t: Tile :: p.cost(pos, t) == 1
    ensures forall pos :: p.isGoal(pos) ==> p.isTerminal(pos)
  {
    Problem(
      Initial,
      (pos: Position) => true,
      (pos: Position) => IsGoal(g, pos),
      (pos: Position) => Ended(pos.board),
      (pos: Position) => FreeTiles(pos.board),
      (pos: Position, t: Tile) => Play(pos, t),
      (pos: Position, t: Tile) => 1,
      (pos: Position) => |FreeTiles(pos.board)|)
  }

  /** Every move uses up a free cell, so play always ends and minimax on the game is defined. */
  lemma {:induction false} GameProblemProgressing(g: Goal)
    ensures Progressing(GameProblem(g))
  {
    var p := GameProblem(g);
    forall pos: Position, t: Tile | !p.isTerminal(pos) && !p.isGoal(pos) && t in p.actions(pos)
      ensures p.measure(p.result(pos, t)) < p.measure(pos)
    {
      PlayUsesOneFreeTile(pos, t);
    }
  }

  /** initial(): a new game. */
  method InitialGame() returns (game: TicTacToe)
    ensures fresh(game) && game.Valid() && game.Model() == Initial
  {
    game := new TicTacToe();
  }

  /** actions(state): collects, in increasing order, the cells `isFree` reports empty. */
  method Actions(state: TicTacToe) returns (validMoves: seq<Tile>)
    requires state.Valid()
    ensures validMoves == FreeTiles(state.board[..])
  {
    ghost var b: Board := state.board[..];
    validMoves := [];
    for i := 0 to 9
      invariant validMoves == FreeBelow(b, i)
    {
      var free := state.IsFree(i);
      assert free.value == (b[i] == Nobody);
      if free.value {
        validMoves := validMoves + [i];
      }
    }
  }

  /** result(state, action): a clone with the action played; `state` itself is left alone. */
  method Result(state: TicTacToe, action: Tile) returns (newState: TicTacToe)
    requires state.Valid()
    ensures fresh(newState) && fresh(newState.board) && newState.Valid()
    ensures newState.Model() == Play(state.Model(), action)
  {
    newState := state.Clone();
    var _ := newState.Move(action);
  }

  /** isTerminal(state). */
  method IsTerminal(state: TicTacToe) returns (terminal: bool)
    requires state.Valid()
    ensures terminal == GameProblem(Victory).isTerminal(state.Model())
  {
    terminal := state.GameOver();
  }

  /** isGoal(state) of the problem variant `g`. */
  method IsGoalState(g: Goal, state: TicTacToe) returns (goal: bool)
    requires state.Valid()
    ensures goal == GameProblem(g).isGoal(state.Model())
  {
    var over := state.GameOver();
    var winner := state.Won();
    match g
    case CpuVictory(cpu) => goal := over && winner == cpu;
    case PlayerVictory(player) => goal := over && winner == player;
    case Victory => goal := over && winner != Nobody;
  }

  /** getOppositePlayer: O for X, and X for anything else, `Nobody` included. */
  function Opposite(p: Player): (q: Player)
    ensures p == PlayerX ==> q == PlayerO
    ensures p != PlayerX ==> q == PlayerX
  {
    if p == PlayerX then PlayerO else PlayerX
  }

  /**
   * evaluateState: 1 when `won()` is the prioritised player, -1 when it is that player's
   * opposite, and 0 otherwise, draws and unfinished games included.
   */
  function EvaluateState(prioritized: Player, b: Board): (score: int)
    ensures score in {-1, 0, 1}
    ensures score == 1 <==> Winner(b) == prioritized
    ensures score == -1 <==> Winner(b) != prioritized && Winner(b) == Opposite(prioritized)
  {
    var winner := Winner(b);
    if winner == prioritized then 1
    else if winner == Opposite(prioritized) then -1
    else 0
  }

  /**
   * The evaluator is zero-sum between X and O, and from either player's side a finished game
   * scores 0 exactly when it is a draw: full with nobody named by `won()`.
   */
  lemma {:induction false} EvaluationZeroSum(b: Board)
    ensures EvaluateState(PlayerX, b) == -EvaluateState(PlayerO, b)
    ensures forall p :: p != Nobody && Ended(b) ==> (EvaluateState(p, b) == 0 <==> Full(b) && Winner(b) == Nobody)
  {
    forall p | p != Nobody && Ended(b)
      ensures EvaluateState(p, b) == 0 <==> Full(b) && Winner(b) == Nobody
    {
      assert Winner(b) == p || Winner(b) == Opposite(p) || Winner(b) == Nobody;
    }
  }
}
