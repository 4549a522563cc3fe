/**
 * The game component: the history of board snapshots, the pointer to the
 * displayed move, playing a move from any point in time, jumping back,
 * and the labels of the move list.
 */
module GameHistory {
  import opened TicTacToe

  /** The mark of the player to move when move `move` is displayed: X on even moves. */
  function MarkAt(move: nat): (m: Cell)
    ensures m != Empty
  {
    PlayerMark(move % 2 == 0)
  }

  /** Number of squares of `s` that hold `c`. */
  function Count(s: seq<Cell>, c: Cell): nat {
    if s == [] then 0 else (if s[0] == c then 1 else 0) + Count(s[1..], c)
  }

  /** `after` is `before` with mark `m` placed in one square that was empty. */
  ghost predicate Step(before: Board, after: Board, m: Cell) {
    exists i :: 0 <= i < 9 && before[i] == Empty && after == before[i := m]
  }

  /** Snapshot `k` was reached from snapshot `k - 1` by a legal move of the player on turn. */
  ghost predicate LegalMoveInto(h: seq<Board>, k: nat)
    requires 0 < k < |h|
  {
    !HasWinner(h[k - 1]) && Step(h[k - 1], h[k], MarkAt(k - 1))
  }

  /**
   * A history the game can build: it starts at the empty board, and every
   * later snapshot adds the mark of the player on turn to one empty square
   * of a board that had no winner yet.
   */
  ghost predicate WellPlayed(h: seq<Board>) {
    |h| >= 1 && h[0] == EmptyBoard &&
    forall k :: 0 < k < |h| ==> LegalMoveInto(h, k)
  }

  lemma {:induction false} CountUpdate(s: seq<Cell>, i: nat, m: Cell, c: Cell)
    requires i < |s| && s[i] == Empty && m != Empty
    ensures Count(s[i := m], c) == Count(s, c) + (if c == m then 1 else 0) - (if c == Empty then 1 else 0)
  {
    if i > 0 {
      CountUpdate(s[1..], i - 1, m, c);
      assert s[i := m][1..] == s[1..][i - 1 := m];
    } else {
      assert s[i := m][1..] == s[1..];
    }
  }

  /** Snapshot `k` of a well-played history holds (k+1)/2 X's, k/2 O's and 9-k empty squares. */
  lemma {:induction false} MarkCounts(h: seq<Board>, k: nat)
    requires WellPlayed(h) && k < |h|
    ensures Count(h[k], X) == (k + 1) / 2
    ensures Count(h[k], O) == k / 2
    ensures Count(h[k], Empty) == 9 - k
  {
    if k == 0 {
      assert h[0] == EmptyBoard;
    } else {
      MarkCounts(h, k - 1);
      assert LegalMoveInto(h, k);
      var i :| 0 <= i < 9 && h[k - 1][i] == Empty && h[k] == h[k - 1][i := MarkAt(k - 1)];
      CountUpdate(h[k - 1], i, MarkAt(k - 1), X);
      CountUpdate(h[k - 1], i, MarkAt(k - 1), O);
      CountUpdate(h[k - 1], i, MarkAt(k - 1), Empty);
    }
  }

  /** A game lasts at most nine moves, so the history holds at most ten snapshots. */
  lemma AtMostNineMoves(h: seq<Board>)
    requires WellPlayed(h)
    ensures |h| <= 10
  {
    MarkCounts(h, |h| - 1);
  }

  /** X is next exactly when the displayed board holds as many X's as O's. */
  lemma TurnParity(h: seq<Board>, move: nat)
    ensures WellPlayed(h) && move < |h| ==> (move % 2 == 0 <==> Count(h[move], X) == Count(h[move], O))
  {
    if WellPlayed(h) && move < |h| {
      MarkCounts(h, move);
    }
  }

  /** Snapshot `move` of a well-played history has `move` squares filled and the rest empty. */
  lemma SquaresLeft(h: seq<Board>, move: nat)
    ensures WellPlayed(h) && move < |h| ==> Count(h[move], Empty) == 9 - move
  {
    if WellPlayed(h) && move < |h| {
      MarkCounts(h, move);
    }
  }

  /**
   * Every line won on snapshot `k` carries the mark of the player who made
   * move `k`: a move can only complete lines through the square it fills.
   */
  lemma WinnerJustMoved(h: seq<Board>, k: nat, j: nat)
    requires WellPlayed(h) && 0 < k < |h| && j < |Lines|
    requires LineWon(h[k], Lines[j])
    ensures h[k][Lines[j].a] == MarkAt(k - 1)
  {
    assert LegalMoveInto(h, k);
    var i :| 0 <= i < 9 && h[k - 1][i] == Empty && h[k] == h[k - 1][i := MarkAt(k - 1)];
  }

  /**
   * Playing square `i` from snapshot `c` of a well-played history, when the
   * square is empty and the board has no winner, truncates the later
   * snapshots and appends the new board; the result is well played again.
   */
  lemma PlayKeepsWellPlayed(h: seq<Board>, c: nat, i: Index)
    requires WellPlayed(h) && c < |h|
    requires h[c][i] == Empty && !HasWinner(h[c])
    ensures WellPlayed(h[..c + 1] + [h[c][i := MarkAt(c)]])
  {
    var h' := h[..c + 1] + [h[c][i := MarkAt(c)]];
    forall k | 0 < k < |h'|
      ensures LegalMoveInto(h', k)
    {
      if k <= c {
        assert LegalMoveInto(h, k);
        assert h'[k] == h[k] && h'[k - 1] == h[k - 1];
      } else {
        assert h'[k - 1] == h[c] && h'[k] == h[c][i := MarkAt(c)];
        assert Step(h'[k - 1], h'[k], MarkAt(k - 1));
      }
    }
  }

  /**
   * Index of the first square where the two arrays differ, or -1 when
   * none does. A square beyond the end of `arr2` reads as undefined and so
   * differs from every square of `arr1`.
   */
  method FindDiffIndex(arr1: seq<Cell>, arr2: seq<Cell>) returns (r: int)
    ensures -1 <= r < |arr1|
    ensures r >= 0 ==>
      r <= |arr2| && (r == |arr2| || arr1[r] != arr2[r]) && (forall j :: 0 <= j < r ==> arr1[j] == arr2[j])
    ensures r == -1 ==> |arr1| <= |arr2| && forall j :: 0 <= j < |arr1| ==> arr1[j] == arr2[j]
  {
    var i := 0;
    while i < |arr1|
      invariant 0 <= i <= |arr1| && i <= |arr2|
      invariant forall j :: 0 <= j < i ==> arr1[j] == arr2[j]
    {
      if i >= |arr2| || arr1[i] != arr2[i] {
        return i;
      }
      i := i + 1;
    }
    return -1;
  }

  /** `Math.floor(n / 3)`: Dafny's division rounds down when the divisor is positive. */
  function FloorDiv3(n: int): (q: int)
    ensures 3 * q <= n < 3 * q + 3
  {
    n / 3
  }

  /** JavaScript's `n % 3`: the remainder takes the sign of the dividend. */
  function JsRemainder3(n: int): (r: int)
    ensures n >= 0 ==> 0 <= r < 3
    ensures n < 0 ==> -3 < r <= 0
    ensures (n - r) % 3 == 0
  {
    if n >= 0 then n % 3 else -((-n) % 3)
  }

  /** A move-list entry. */
  datatype MoveLabel =
    | YouAreAt(player: Cell, number: nat)      // the last snapshot, shown as plain text
    | GoToStart                                // the empty board
    | GoToMove(number: nat, row: int, col: int) // a jump link naming the square filled by that move

  /**
   * The entry of move `move` in the move list. The last snapshot of the
   * history gets the plain entry with the player to move; every other one
   * is a jump link, for move 0 to the game start and otherwise naming the
   * row and column of the first square where it differs from the previous
   * snapshot.
   */
  method MoveDescription(history: seq<Board>, move: nat, xIsNext: bool) returns (entry: MoveLabel)
    requires move < |history|
    ensures move == |history| - 1 ==> entry == YouAreAt(PlayerMark(xIsNext), move + 1)
    ensures move == 0 < |history| - 1 ==> entry == GoToStart
    ensures 0 < move < |history| - 1 && history[move - 1] == history[move] ==> entry == GoToMove(move + 1, -1, -1)
    ensures 0 < move < |history| - 1 && history[move - 1] != history[move] ==>
      entry.GoToMove? && entry.number == move + 1 &&
      0 <= entry.row < 3 && 0 <= entry.col < 3 &&
      history[move - 1][3 * entry.row + entry.col] != history[move][3 * entry.row + entry.col] &&
      forall j :: 0 <= j < 3 * entry.row + entry.col ==> history[move - 1][j] == history[move][j]
    ensures WellPlayed(history) && 0 < move < |history| - 1 ==>
      entry.GoToMove? && 0 <= entry.row < 3 && 0 <= entry.col < 3 &&
      history[move - 1][3 * entry.row + entry.col] == Empty &&
      history[move][3 * entry.row + entry.col] == MarkAt(move - 1)
  {
    var lastMove := |history| - 1;
    if move == lastMove {
      entry := YouAreAt(PlayerMark(xIsNext), move + 1);
    } else if move > 0 {
      var prevSquares := history[move - 1];
      var diffIndex := FindDiffIndex(prevSquares, history[move]);
      if WellPlayed(history) {
        // the only square the move changed is the one it filled
        assert LegalMoveInto(history, move);
        var i :| 0 <= i < 9 && prevSquares[i] == Empty && history[move] == prevSquares[i := MarkAt(move - 1)];
        assert prevSquares[i] != history[move][i];
        assert diffIndex == i;
      }
      var row := FloorDiv3(diffIndex);
      var col := JsRemainder3(diffIndex);
      entry := GoToMove(move + 1, row, col);
      if diffIndex == -1 {
        assert prevSquares == history[move];
      } else {
        assert 3 * row + col == diffIndex;
      }
    } else {
      entry := GoToStart;
    }
  }

  /**
   * The game state: the snapshots played so far and the index of the one
   * on display.
   */
  class Game {
    var history: seq<Board>
    var currentMove: nat

    ghost predicate Valid()
      reads this
    {
      |history| >= 1 && currentMove < |history|
    }

    /** A new game: one empty board, move 0 on display. */
    constructor ()
      ensures Valid() && WellPlayed(history)
      ensures history == [EmptyBoard] && currentMove == 0
    {
      history := [EmptyBoard];
      currentMove := 0;
    }

    /** The board on display. */
    function CurrentSquares(): (squares: Board)
      reads this
      requires Valid()
      ensures WellPlayed(history) ==> Count(squares, Empty) == 9 - currentMove
    {
      SquaresLeft(history, currentMove);
      history[currentMove]
    }

    /** X is next on even moves; in a well-played history that is when the board has as many X's as O's. */
    function XIsNext(): (r: bool)
      reads this
      ensures WellPlayed(history) && currentMove < |history| ==>
        (r <==> Count(history[currentMove], X) == Count(history[currentMove], O))
    {
      TurnParity(history, currentMove);
      currentMove % 2 == 0
    }

    /**
     * Records a new board: the snapshots after the displayed one are
     * discarded, the new board is appended, and it becomes the displayed one.
     */
    method HandlePlay(nextSquares: Board)
      requires Valid()
      modifies this
      ensures Valid()
      ensures history == old(history[..currentMove + 1]) + [nextSquares]
      ensures |history| == old(currentMove) + 2 && currentMove == |history| - 1
    {
      var nextHistory := history[..currentMove + 1] + [nextSquares];
      history := nextHistory;
      currentMove := |nextHistory| - 1;
    }

    /** Displays snapshot `nextMove`; the history is kept. */
    method JumpTo(nextMove: nat)
      requires Valid() && nextMove < |history|
      modifies this
      ensures Valid() && history == old(history) && currentMove == nextMove
      ensures WellPlayed(old(history)) ==> WellPlayed(history)
    {
      currentMove := nextMove;
    }

    /**
     * A click on square `i` of the displayed board: ignored when the square
     * is taken or the board already has a winner; otherwise the mover's
     * mark goes into a copy of the board, which is played.
     */
    method Click(i: Index)
      requires Valid()
      modifies this
      ensures Valid()
      ensures old(history[currentMove][i] != Empty || HasWinner(history[currentMove])) ==>
        history == old(history) && currentMove == old(currentMove)
      ensures old(history[currentMove][i] == Empty && !HasWinner(history[currentMove])) ==>
        history == old(history[..currentMove + 1] + [history[currentMove][i := MarkAt(currentMove)]]) &&
        currentMove == old(currentMove) + 1
      ensures WellPlayed(old(history)) ==> WellPlayed(history)
    {
      ghost var h, c := history, currentMove;
      var next := HandleClick(CurrentSquares(), i, XIsNext());
      if next.Some? {
        assert next.value == h[c][i := MarkAt(c)];
        HandlePlay(next.value);
        if WellPlayed(h) {
          PlayKeepsWellPlayed(h, c, i);
        }
      }
    }
  }

  /** Two moves, a jump back to the start, and a new first move. */
  method TimeTravelExample() {
    var game := new Game();
    game.Click(4);
    game.Click(0);
    assert |game.history| == 3 && game.currentMove == 2;
    game.JumpTo(0);
    game.Click(8);
    assert |game.history| == 2 && game.currentMove == 1;
    assert game.history[1] == EmptyBoard[8 := X];
  }
}
