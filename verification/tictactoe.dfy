/**
 * The board logic of the tic-tac-toe game: the nine cells, the eight
 * winning lines, the win and draw checks, the status line, and the move
 * rule of a click on a square.
 */
module TicTacToe {
  import opened Wrappers

  /** A square holds nothing (`null` in the source), an 'X' or an 'O'. */
  datatype Cell = Empty | X | O

  /** A square index, 0..8, row by row. */
  type Index = i: nat | i < 9

  /** A board snapshot: exactly nine squares. */
  type Board = b: seq<Cell> | |b| == 9
    witness [Empty, Empty, Empty, Empty, Empty, Empty, Empty, Empty, Empty]

  const EmptyBoard: Board := [Empty, Empty, Empty, Empty, Empty, Empty, Empty, Empty, Empty]

  /** Three square indices that form a row, a column or a diagonal. */
  datatype Line = Line(a: Index, b: Index, c: Index)

  /** The eight lines, in the order the win check tries them. */
  const Lines: seq<Line> := [
    Line(0, 1, 2),
    Line(3, 4, 5),
    Line(6, 7, 8),
    Line(0, 3, 6),
    Line(1, 4, 7),
    Line(2, 5, 8),
    Line(0, 4, 8),
    Line(2, 4, 6)
  ]

  /** The three squares of `line` hold the same mark, and it is not empty. */
  predicate LineWon(squares: Board, line: Line) {
    squares[line.a] != Empty && squares[line.a] == squares[line.b] && squares[line.a] == squares[line.c]
  }

  /** Some line of the board is won. */
  ghost predicate HasWinner(squares: Board) {
    exists k :: 0 <= k < |Lines| && LineWon(squares, Lines[k])
  }

  /** No square is empty. */
  predicate Full(squares: seq<Cell>) {
    forall k :: 0 <= k < |squares| ==> squares[k] != Empty
  }

  /** The mark the player to move places: 'X' when X is next, 'O' otherwise. */
  function PlayerMark(xIsNext: bool): (m: Cell)
    ensures m != Empty
  {
    if xIsNext then X else O
  }

  /**
   * Tries the lines in order and returns the first one whose squares hold
   * three equal marks, or None when no line does.
   */
  method CalculateWinner(squares: Board) returns (winner: Option<Line>)
    ensures winner.Some? ==>
      exists k :: 0 <= k < |Lines| && winner.value == Lines[k] && LineWon(squares, Lines[k]) &&
        forall j :: 0 <= j < k ==> !LineWon(squares, Lines[j])
    ensures winner.None? <==> !HasWinner(squares)
  {
    var i := 0;
    while i < |Lines|
      invariant 0 <= i <= |Lines|
      invariant forall j :: 0 <= j < i ==> !LineWon(squares, Lines[j])
    {
      var line := Lines[i];
      if squares[line.a] != Empty && squares[line.a] == squares[line.b] && squares[line.a] == squares[line.c] {
        assert LineWon(squares, Lines[i]);
        return Some(line);
      }
      i := i + 1;
    }
    return None;
  }

  /** Starts from "draw" and clears the flag on every empty square. */
  method CalculateDraw(squares: seq<Cell>) returns (draw: bool)
    ensures draw <==> Full(squares)
  {
    draw := true;
    var i := 0;
    while i < |squares|
      invariant 0 <= i <= |squares|
      invariant draw <==> forall k :: 0 <= k < i ==> squares[k] != Empty
    {
      if squares[i] == Empty {
        draw := false;
      }
      i := i + 1;
    }
  }

  /** What the status line announces. */
  datatype Status = Winner(mark: Cell) | Draw | NextPlayer(mark: Cell)

  /**
   * The status line of the board: the winner if a line is won (even on a
   * full board), otherwise a draw if the board is full, otherwise the
   * player to move.
   */
  method BoardStatus(squares: Board, xIsNext: bool) returns (status: Status)
    ensures HasWinner(squares) ==>
      status.Winner? &&
      exists k :: 0 <= k < |Lines| && LineWon(squares, Lines[k]) && status.mark == squares[Lines[k].a] &&
        forall j :: 0 <= j < k ==> !LineWon(squares, Lines[j])
    ensures !HasWinner(squares) && Full(squares) ==> status == Draw
    ensures !HasWinner(squares) && !Full(squares) ==> status == NextPlayer(PlayerMark(xIsNext))
  {
    var winner := CalculateWinner(squares);
    if winner.Some? {
      status := Winner(squares[winner.value.a]);
    } else {
      var draw := CalculateDraw(squares);
      if !draw {
        status := NextPlayer(PlayerMark(xIsNext));
      } else {
        status := Draw;
      }
    }
  }

  /**
   * The move rule of a click on square `i`: ignored (None) when the square
   * is taken or the game is already won; otherwise a fresh copy of the
   * board with the mover's mark in square `i`. The given board is a value
   * and is never changed.
   */
  method HandleClick(squares: Board, i: Index, xIsNext: bool) returns (next: Option<Board>)
    ensures next.None? <==> squares[i] != Empty || HasWinner(squares)
    ensures next.Some? ==>
      next.value[i] == PlayerMark(xIsNext) &&
      forall k :: 0 <= k < 9 && k != i ==> next.value[k] == squares[k]
  {
    if squares[i] != Empty {
      return None;
    }
    var winner := CalculateWinner(squares);
    if winner.Some? {
      return None;
    }
    var nextSquares := new Cell[9](k requires 0 <= k < 9 => squares[k]);
    if xIsNext {
      nextSquares[i] := X;
    } else {
      nextSquares[i] := O;
    }
    return Some(nextSquares[..]);
  }

  /** A board with X down the left column. */
  method LeftColumnExample() {
    var squares: Board := [X, O, Empty, X, Empty, Empty, X, O, Empty];
    assert LineWon(squares, Lines[3]);
    var winner := CalculateWinner(squares);
    assert !LineWon(squares, Lines[0]) && !LineWon(squares, Lines[1]) && !LineWon(squares, Lines[2]);
    assert winner == Some(Line(0, 3, 6));
  }
}
