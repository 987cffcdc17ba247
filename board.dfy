/**
 * The stand-alone console board: nine cells numbered 1..9 by its callers, each empty or holding
 * a mark, and the mark that plays next. It decides wins only for the player who moved last.
 */
module ConsoleBoard {
  import opened Wrappers
  import TicTacToeGame

  datatype Mark = X | O

  /** The other mark. */
  function Other(m: Mark): (o: Mark)
    ensures o != m
  {
    if m == X then O else X
  }

  /** `p` holds the three cells `a`, `b`, `c`. */
  predicate Holds(cells: seq<Option<Mark>>, p: Mark, a: nat, b: nat, c: nat)
    requires |cells| == 9 && a < 9 && b < 9 && c < 9
  {
    cells[a] == Some(p) && cells[b] == Some(p) && cells[c] == Some(p)
  }

  /** `p` holds row `r` (cells 3r, 3r+1, 3r+2). */
  predicate RowWon(cells: seq<Option<Mark>>, p: Mark, r: nat)
    requires |cells| == 9 && r < 3
  {
    Holds(cells, p, 3 * r, 3 * r + 1, 3 * r + 2)
  }

  /** `p` holds column `c` (cells c, c+3, c+6). */
  predicate ColWon(cells: seq<Option<Mark>>, p: Mark, c: nat)
    requires |cells| == 9 && c < 3
  {
    Holds(cells, p, c, c + 3, c + 6)
  }

  /** `p` holds a whole row, a whole column, the diagonal or the anti-diagonal. */
  predicate Wins(cells: seq<Option<Mark>>, p: Mark)
    requires |cells| == 9
  {
    || RowWon(cells, p, 0) || RowWon(cells, p, 1) || RowWon(cells, p, 2)
    || ColWon(cells, p, 0) || ColWon(cells, p, 1) || ColWon(cells, p, 2)
    || Holds(cells, p, 0, 4, 8)
    || Holds(cells, p, 2, 4, 6)
  }

  /** The first `n` cells `start`, `start + stride`, ... hold `p`: what a won* loop has seen. */
  predicate Prefix(cells: seq<Option<Mark>>, p: Mark, start: nat, stride: nat, n: nat)
    requires |cells| == 9 && n <= 3 && start + 2 * stride < 9
  {
    n == 0 || (Prefix(cells, p, start, stride, n - 1) && cells[start + stride * (n - 1)] == Some(p))
  }

  /** A won* loop that stops early has seen a cell that breaks the line; one that runs to 3 has not. */
  lemma {:induction false} PrefixOfLine(cells: seq<Option<Mark>>, p: Mark, start: nat, stride: nat, n: nat)
    requires |cells| == 9 && n <= 3 && start + 2 * stride < 9
    ensures Prefix(cells, p, start, stride, 3) <==> Holds(cells, p, start, start + stride, start + 2 * stride)
    ensures !Prefix(cells, p, start, stride, n) ==> !Prefix(cells, p, start, stride, 3)
    decreases 3 - n
  {
    assert Prefix(cells, p, start, stride, 1) <==> cells[start] == Some(p);
    assert Prefix(cells, p, start, stride, 2) <==> Prefix(cells, p, start, stride, 1) && cells[start + stride] == Some(p);
    if n < 3 {
      PrefixOfLine(cells, p, start, stride, n + 1);
    }
  }

  /** The same cells in the search module's representation. */
  function AsGameBoard(cells: seq<Option<Mark>>): (b: TicTacToeGame.Board)
    requires |cells| == 9
    ensures forall i :: 0 <= i < 9 ==> (b[i] == TicTacToeGame.Nobody <==> cells[i] == None)
  {
    seq(9, i requires 0 <= i < 9 => match cells[i]
      case None => TicTacToeGame.Nobody
      case Some(X) => TicTacToeGame.PlayerX
      case Some(O) => TicTacToeGame.PlayerO)
  }

  /** The search module's player for a mark. */
  function AsPlayer(m: Mark): TicTacToeGame.Player
  {
    if m == X then TicTacToeGame.PlayerX else TicTacToeGame.PlayerO
  }

  /**
   * The rows, columns and diagonals checked here are exactly the eight lines the other game
   * lists: a mark wins here iff it holds one of those lines there.
   */
  lemma WinsIffThreeInARow(cells: seq<Option<Mark>>, p: Mark)
    requires |cells| == 9
    ensures Wins(cells, p) <==> TicTacToeGame.ThreeInARow(AsGameBoard(cells), AsPlayer(p))
  {
    var b := AsGameBoard(cells);
    var q := AsPlayer(p);
    var L := TicTacToeGame.Lines;
    assert forall i :: 0 <= i < 9 ==> (b[i] == q <==> cells[i] == Some(p));
    assert forall i :: 0 <= i < 8 ==>
      (b[L[i].0] == q && TicTacToeGame.Uniform(b, L[i]) <==> Holds(cells, p, L[i].0, L[i].1, L[i].2));
    if Wins(cells, p) {
      var i :=
        if RowWon(cells, p, 0) then 0 else if RowWon(cells, p, 1) then 1 else if RowWon(cells, p, 2) then 2
        else if ColWon(cells, p, 0) then 3 else if ColWon(cells, p, 1) then 4 else if ColWon(cells, p, 2) then 5
        else if Holds(cells, p, 0, 4, 8) then 6 else 7;
      assert Holds(cells, p, L[i].0, L[i].1, L[i].2);
    }
    if TicTacToeGame.ThreeInARow(b, q) {
      var i :| 0 <= i < |L| && b[L[i].0] == q && TicTacToeGame.Uniform(b, L[i]);
      assert Holds(cells, p, L[i].0, L[i].1, L[i].2);
    }
  }

  class Board {
    var board: array<Option<Mark>>
    var nextPlayer: Mark

    ghost predicate Valid()
      reads this
    {
      board.Length == 9
    }

    /** A new board: all cells empty, X to play. */
    constructor ()
      ensures Valid() && fresh(board) && nextPlayer == X
      ensures forall i :: 0 <= i < 9 ==> board[i] == None
    {
      board := new Option<Mark>[9](_ => None);
      nextPlayer := X;
    }

    /** isFree(square): the square must be 1..9; it is free iff its cell is empty. */
    method IsFree(square: int) returns (free: bool)
      requires Valid() && 0 < square < 10
      ensures free <==> board[square - 1] == None
    {
      free := board[square - 1] == None;
    }

    /** tied(): counts the empty cells; a tie is a full board that nobody has won. */
    method Tied() returns (tied: bool)
      requires Valid()
      ensures tied <==> (forall i :: 0 <= i < 9 ==> board[i] != None) && !Wins(board[..], Other(nextPlayer))
      ensures tied ==> !Wins(board[..], Other(nextPlayer))
    {
      var free := 0;
      for i := 0 to 9
        invariant free == 0 <==> forall j :: 0 <= j < i ==> board[j] != None
      {
        if board[i] == None {
          free := free + 1;
        }
      }
      var won := Won();
      tied := free == 0 && !won;
    }

    /** play(square): the square must be 1..9; the next mark goes there, and the turn passes. */
    method Play(square: int)
      requires Valid() && 0 < square < 10
      modifies this, board
      ensures Valid() && board == old(board)
      ensures board[..] == old(board[..])[square - 1 := Some(old(nextPlayer))]
      ensures nextPlayer == Other(old(nextPlayer))
    {
      board[square - 1] := Some(nextPlayer);
      if nextPlayer == X {
        nextPlayer := O;
      } else {
        nextPlayer := X;
      }
    }

    /**
     * won(): whether the player who moved last (the one not to play next) holds a row, a
     * column, the diagonal or the anti-diagonal; later checks are skipped once one succeeds.
     */
    method Won() returns (won: bool)
      requires Valid()
      ensures won <==> Wins(board[..], Other(nextPlayer))
    {
      var player := if nextPlayer == X then O else X;
      var notWon := true;
      var i := 0;
      while notWon && i < 3
        invariant 0 <= i <= 3
        invariant notWon <==> forall j: nat :: j < i ==> !RowWon(board[..], player, j) && !ColWon(board[..], player, j)
      {
        var row := WonRow(player, i);
        var col := false;
        if !row {
          col := WonCol(player, i);
        }
        notWon := !(row || col);
        i := i + 1;
      }
      if notWon {
        assert i == 3;
        var diagonal := WonDiagonal(player);
        notWon := !diagonal;
      }
      if notWon {
        var anti := WonAntiDiagonal(player);
        notWon := !anti;
      }
      won := !notWon;
    }

    /** wonRow(player, row): all three cells of the row hold the player. */
    method WonRow(player: Mark, row: int) returns (won: bool)
      requires Valid() && 0 <= row < 3
      ensures won <==> RowWon(board[..], player, row)
    {
      var i := 0;
      won := true;
      while won && i < 3
        invariant 0 <= i <= 3
        invariant won <==> Prefix(board[..], player, 3 * row, 1, i)
      {
        won := Some(player) == board[row * 3 + i];
        i := i + 1;
      }
      PrefixOfLine(board[..], player, 3 * row, 1, i);
    }

    /** wonCol(player, col): all three cells of the column hold the player. */
    method WonCol(player: Mark, col: int) returns (won: bool)
      requires Valid() && 0 <= col < 3
      ensures won <==> ColWon(board[..], player, col)
    {
      var i := 0;
      won := true;
      while won && i < 3
        invariant 0 <= i <= 3
        invariant won <==> Prefix(board[..], player, col, 3, i)
      {
        won := Some(player) == board[i * 3 + col];
        i := i + 1;
      }
      PrefixOfLine(board[..], player, col, 3, i);
    }

    /** wonDiagonal(player): cells 0, 4 and 8 hold the player. */
    method WonDiagonal(player: Mark) returns (won: bool)
      requires Valid()
      ensures won <==> Holds(board[..], player, 0, 4, 8)
    {
      var i := 0;
      won := true;
      while won && i < 3
        invariant 0 <= i <= 3
        invariant won <==> Prefix(board[..], player, 0, 4, i)
      {
        won := Some(player) == board[i * 3 + i];
        i := i + 1;
      }
      PrefixOfLine(board[..], player, 0, 4, i);
    }

    /** wonAntiDiagonal(player): cells 2, 4 and 6 hold the player. */
    method WonAntiDiagonal(player: Mark) returns (won: bool)
      requires Valid()
      ensures won <==> Holds(board[..], player, 2, 4, 6)
    {
      var i := 0;
      won := true;
      while won && i < 3
        invariant 0 <= i <= 3
        invariant won <==> Prefix(board[..], player, 2, 2, i)
      {
        won := Some(player) == board[i * 3 + 2 - i];
        i := i + 1;
      }
      PrefixOfLine(board[..], player, 2, 2, i);
    }
  }
}
