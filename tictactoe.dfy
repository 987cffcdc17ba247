/**
 * The tic-tac-toe game of the search module: a board of nine cells indexed 0..8 row by row, a
 * flag saying whether X moves next, and the rules that read them. The pure functions here
 * define the game on values; the `TicTacToe` class holds the board in an array and is proved
 * to follow them.
 */
module TicTacToeGame {
  import opened Wrappers

  /** A cell's content, also used as the answer of `won()`. */
  datatype Player = PlayerX | PlayerO | Nobody

  /** The integer attached to each player, which `hashCode` mixes in. */
  function Value(p: Player): (v: int)
    ensures v == 0 <==> p == Nobody
    ensures v in {-1, -2, 0}
  {
    match p
    case PlayerX => -1
    case PlayerO => -2
    case Nobody => 0
  }

  type Tile = t: int | 0 <= t < 9

  /** Nine cells. */
  type Board = b: seq<Player> | |b| == 9
    witness [Nobody, Nobody, Nobody, Nobody, Nobody, Nobody, Nobody, Nobody, Nobody]

  /** A game as a value: the board and whose turn it is. */
  datatype Position = Position(board: Board, xToMove: bool)

  const EmptyBoard: Board := [Nobody, Nobody, Nobody, Nobody, Nobody, Nobody, Nobody, Nobody, Nobody]

  /** A new game: every cell empty, X to move. */
  const Initial: Position := Position(EmptyBoard, true)

  /** The eight lines, in the order `won()` tries them: rows, columns, then the two diagonals. */
  const Lines: seq<(Tile, Tile, Tile)> :=
    [(0, 1, 2), (3, 4, 5), (6, 7, 8), (0, 3, 6), (1, 4, 7), (2, 5, 8), (0, 4, 8), (6, 4, 2)]

  /** The three cells of `l` hold the same content, possibly all empty. */
  predicate Uniform(b: Board, l: (Tile, Tile, Tile))
  {
    b[l.0] == b[l.1] && b[l.1] == b[l.2]
  }

  /** The content of the first uniform line at index `k` or later, else `Nobody`. */
  function WinnerFrom(b: Board, k: nat): Player
    requires k <= |Lines|
    decreases |Lines| - k
  {
    if k == |Lines| then Nobody
    else if Uniform(b, Lines[k]) then b[Lines[k].0]
    else WinnerFrom(b, k + 1)
  }

  /** The lines are tried in order: the first uniform line from `k` on decides, and none gives `Nobody`. */
  lemma {:induction false} WinnerFromIsFirstUniform(b: Board, k: nat)
    requires k <= |Lines|
    ensures (forall i :: k <= i < |Lines| ==> !Uniform(b, Lines[i])) ==> WinnerFrom(b, k) == Nobody
    ensures forall i :: k <= i < |Lines| && Uniform(b, Lines[i]) && (forall j :: k <= j < i ==> !Uniform(b, Lines[j])) ==>
      WinnerFrom(b, k) == b[Lines[i].0]
    decreases |Lines| - k
  {
    if k < |Lines| {
      WinnerFromIsFirstUniform(b, k + 1);
    }
  }

  /** won(): the content of the first uniform line, or `Nobody` when no line is uniform. */
  function Winner(b: Board): Player
  {
    WinnerFrom(b, 0)
  }

  /** `p` holds all three cells of some line. */
  ghost predicate ThreeInARow(b: Board, p: Player)
  {
    exists i :: 0 <= i < |Lines| && b[Lines[i].0] == p && Uniform(b, Lines[i])
  }

  /** A winner other than `Nobody` really holds a whole line. */
  lemma WinnerHoldsLine(b: Board)
    ensures Winner(b) != Nobody ==> ThreeInARow(b, Winner(b))
  {
    WinnerFromHoldsLine(b, 0);
  }

  /** The content of the first uniform line from `k` on, when not `Nobody`, fills that line. */
  lemma {:induction false} WinnerFromHoldsLine(b: Board, k: nat)
    requires k <= |Lines|
    ensures WinnerFrom(b, k) != Nobody ==> ThreeInARow(b, WinnerFrom(b, k))
    decreases |Lines| - k
  {
    if k < |Lines| {
      if Uniform(b, Lines[k]) {
        assert b[Lines[k].0] == WinnerFrom(b, k);
      } else {
        WinnerFromHoldsLine(b, k + 1);
      }
    }
  }

  /**
   * An empty line counts as uniform, so it hides any win on a later line: with X on the middle
   * row and the first row empty, `won()` answers `Nobody`.
   */
  lemma EmptyLineHidesWin()
    ensures var b: Board := [Nobody, Nobody, Nobody, PlayerX, PlayerX, PlayerX, PlayerO, PlayerO, Nobody];
      ThreeInARow(b, PlayerX) && Winner(b) == Nobody
  {
    var b: Board := [Nobody, Nobody, Nobody, PlayerX, PlayerX, PlayerX, PlayerO, PlayerO, Nobody];
    assert b[Lines[1].0] == PlayerX && Uniform(b, Lines[1]);
  }

  /** isBoardFull(): no cell is empty. */
  predicate Full(b: Board)
  {
    forall i :: 0 <= i < 9 ==> b[i] != Nobody
  }

  /** gameOver(): somebody has won or the board is full. */
  predicate Ended(b: Board)
  {
    Winner(b) != Nobody || Full(b)
  }

  /** The mark of the player to move. */
  function Mark(xToMove: bool): (p: Player)
    ensures p != Nobody
  {
    if xToMove then PlayerX else PlayerO
  }

  /** move(tile): the mover's mark is written at `tile`, occupied or not, and the turn passes. */
  function Play(pos: Position, tile: Tile): (r: Position)
    ensures r.board[tile] == Mark(pos.xToMove) && r.xToMove == !pos.xToMove
    ensures forall i :: 0 <= i < 9 && i != tile ==> r.board[i] == pos.board[i]
  {
    Position(pos.board[tile := Mark(pos.xToMove)], !pos.xToMove)
  }

  /** The empty cells below `k`, in increasing order. */
  function FreeBelow(b: Board, k: nat): (r: seq<Tile>)
    requires k <= 9
    ensures forall t :: t in r <==> 0 <= t < k && b[t] == Nobody
    ensures forall i, j :: 0 <= i < j < |r| ==> r[i] < r[j]
    ensures |r| <= k
    decreases k
  {
    if k == 0 then []
    else
      var prev := FreeBelow(b, k - 1);
      assert forall i :: 0 <= i < |prev| ==> prev[i] in prev;
      prev + (if b[k - 1] == Nobody then [k - 1] else [])
  }

  /** The empty cells of `b`, in increasing order: the moves the problem offers. */
  function FreeTiles(b: Board): seq<Tile>
  {
    FreeBelow(b, 9)
  }

  /** A board with no free cell is full, and the other way round. */
  lemma FullIffNoFreeTile(b: Board)
    ensures Full(b) <==> FreeTiles(b) == []
  {
    if !Full(b) {
      var i :| 0 <= i < 9 && b[i] == Nobody;
      assert i in FreeTiles(b);
    }
  }

  /** Marking the empty cell `t` removes exactly one free cell below any bound past `t`. */
  lemma {:induction false} FreeBelowAfterMark(b: Board, t: Tile, m: Player, k: nat)
    requires k <= 9 && b[t] == Nobody && m != Nobody
    ensures |FreeBelow(b[t := m], k)| == |FreeBelow(b, k)| - (if t < k then 1 else 0)
    decreases k
  {
    if k > 0 {
      FreeBelowAfterMark(b, t, m, k - 1);
    }
  }

  /** Playing a free cell leaves exactly one free cell fewer. */
  lemma PlayUsesOneFreeTile(pos: Position, t: Tile)
    requires t in FreeTiles(pos.board)
    ensures |FreeTiles(Play(pos, t).board)| == |FreeTiles(pos.board)| - 1
  {
    FreeBelowAfterMark(pos.board, t, Mark(pos.xToMove), 9);
  }

  /** Java's 32-bit int arithmetic: `x` reduced into [-2^31, 2^31) modulo 2^32. */
  function Int32(x: int): (r: int)
    ensures -0x8000_0000 <= r < 0x8000_0000
    ensures (r - x) % 0x1_0000_0000 == 0
  {
    (x + 0x8000_0000) % 0x1_0000_0000 - 0x8000_0000
  }

  /** The hash of the first `k` cells: start at 1, then `31 * h + value` per cell, in 32 bits. */
  function HashBelow(b: Board, k: nat): int
    requires k <= 9
  {
    if k == 0 then 1 else Int32(31 * HashBelow(b, k - 1) + Value(b[k - 1]))
  }

  /** The game object: a nine-cell array and the turn flag. */
  class TicTacToe {
    var board: array<Player>
    var isPlayerX: bool

    ghost predicate Valid()
      reads this
    {
      board.Length == 9
    }

    /** The game this object holds. */
    function Model(): Position
      reads this, board
      requires Valid()
    {
      Position(board[..], isPlayerX)
    }

    /** A new game: all cells empty and X to move. */
    constructor ()
      ensures Valid() && fresh(board) && Model() == Initial
    {
      board := new Player[9](_ => Nobody);
      isPlayerX := true;
      new;
      assert board[..] == EmptyBoard;
    }

    /** The copy constructor: the same board in a new array, and the same turn. */
    constructor Copy(other: TicTacToe)
      requires other.Valid()
      ensures Valid() && fresh(board) && Model() == other.Model()
    {
      var cells := new Player[9];
      forall i | 0 <= i < 9 {
        cells[i] := other.board[i];
      }
      board := cells;
      isPlayerX := other.isPlayerX;
      new;
      assert board[..] == other.board[..];
    }

    /**
     * move(tile): an index outside 0..8 is refused with IllegalArgumentException; otherwise the
     * game becomes `Play(old game, tile)` and the answer is true.
     */
    method Move(tile: int) returns (r: Result<bool>)
      requires Valid()
      modifies this, board
      ensures Valid() && board == old(board)
      ensures 0 <= tile < 9 ==> r == Ok(true) && Model() == Play(old(Model()), tile)
      ensures !(0 <= tile < 9) ==> r == Err(IllegalArgument) && Model() == old(Model())
    {
      if tile >= 9 || tile < 0 {
        return Err(IllegalArgument);
      }
      board[tile] := if isPlayerX then PlayerX else PlayerO;
      isPlayerX := !isPlayerX;
      r := Ok(true);
    }

    /** isFree(tile): refused outside 0..8, otherwise whether the cell is empty. */
    method IsFree(tile: int) returns (r: Result<bool>)
      requires Valid()
      ensures 0 <= tile < 9 ==> r == Ok(tile in FreeTiles(board[..]))
      ensures !(0 <= tile < 9) ==> r == Err(IllegalArgument)
    {
      if tile >= 9 || tile < 0 {
        return Err(IllegalArgument);
      }
      r := Ok(board[tile] == Nobody);
    }

    /** won(): tries the lines in order and answers the content of the first uniform one. */
    method Won() returns (w: Player)
      requires Valid()
      ensures w == Winner(board[..])
    {
      ghost var b: Board := board[..];
      for i := 0 to |Lines|
        invariant Winner(b) == WinnerFrom(b, i)
      {
        var combo := Lines[i];
        if board[combo.0] == board[combo.1] && board[combo.1] == board[combo.2] {
          return board[combo.0];
        }
      }
      w := Nobody;
    }

    /** isBoardFull(): scans for the first empty cell. */
    method IsBoardFull() returns (full: bool)
      requires Valid()
      ensures full <==> Full(board[..])
    {
      var i := 0;
      while i < 9 && board[i] != Nobody
        invariant 0 <= i <= 9
        invariant forall j :: 0 <= j < i ==> board[j] != Nobody
      {
        i := i + 1;
      }
      full := i == 9;
    }

    /** gameOver(). */
    method GameOver() returns (over: bool)
      requires Valid()
      ensures over <==> Ended(board[..])
    {
      var w := Won();
      var full := IsBoardFull();
      over := w != Nobody || full;
    }

    /** hashCode(): a function of the board alone, so games that are `Equals` hash alike. */
    method HashCode() returns (h: int)
      requires Valid()
      ensures h == HashBelow(board[..], 9)
      ensures -0x8000_0000 <= h < 0x8000_0000
    {
      h := 1;
      for i := 0 to 9
        invariant h == HashBelow(board[..], i)
      {
        h := Int32(31 * h + Value(board[i]));
      }
    }

    /** equals(obj): the boards agree cell by cell; the turn is not compared. */
    method Equals(other: TicTacToe?) returns (eq: bool)
      requires Valid() && (other != null ==> other.Valid())
      ensures eq <==> other != null && board[..] == other.board[..]
    {
      if other == this {
        return true;
      }
      if other == null {
        return false;
      }
      eq := board[..] == other.board[..];
    }

    /** clone(): a copy over a new array; later moves on either leave the other alone. */
    method Clone() returns (c: TicTacToe)
      requires Valid()
      ensures fresh(c) && fresh(c.board) && c.Valid() && c.Model() == Model()
    {
      c := new TicTacToe.Copy(this);
    }
  }
}
