/**
 * The board and outcome model: the 8 winning lines, the winner of a
 * position, whether the board is full, and the static score of a position.
 * A board is a sequence of 9 cells, row by row; ' ' is an empty cell.
 */
module Outcome {
  import opened Options
  import opened Players

  const Empty: char := ' '

  /** The winning lines, in the order they are examined: 3 rows, 3 columns, 2 diagonals. */
  const Lines: seq<(nat, nat, nat)> :=
    [(0, 1, 2), (3, 4, 5), (6, 7, 8),
     (0, 3, 6), (1, 4, 7), (2, 5, 8),
     (0, 4, 8), (2, 4, 6)]

  /** The `check_line` closure: true iff all three given cells hold the mark `ch`. */
  predicate CheckLine(b: seq<char>, ch: char, x: nat, y: nat, z: nat)
    requires x < |b| && y < |b| && z < |b|
    ensures CheckLine(b, ch, x, y, z) <==> {b[x], b[y], b[z]} == {ch}
  {
    b[x] == ch && b[y] == ch && b[z] == ch
  }

  /** Line number `k` of the table is filled with `ch`. */
  predicate LineComplete(b: seq<char>, ch: char, k: nat)
    requires |b| == 9 && k < |Lines|
  {
    CheckLine(b, ch, Lines[k].0, Lines[k].1, Lines[k].2)
  }

  /** Player `p` has three in a row somewhere on the board. */
  predicate HasWon(b: seq<char>, p: Player)
    requires |b| == 9
  {
    exists k :: 0 <= k < |Lines| && LineComplete(b, p.AsChar(), k)
  }

  /** The reported winner: X is examined first, so X is reported when both have a line. */
  function Winner(b: seq<char>): (r: Option<Player>)
    requires |b| == 9
    ensures r.Some? ==> HasWon(b, r.value)
    ensures r == None <==> !HasWon(b, X) && !HasWon(b, O)
    ensures r == Some(O) ==> !HasWon(b, X)
  {
    if HasWon(b, X) then Some(X)
    else if HasWon(b, O) then Some(O)
    else None
  }

  /**
   * `check_winner`: for X then O, the rows, then the columns, then the two
   * diagonals, returning at the first complete line.
   */
  method CheckWinner(board: array<char>) returns (w: Option<Player>)
    requires board.Length == 9
    ensures w == Winner(board[..])
  {
    var players := [X, O];
    for p := 0 to 2
      invariant p >= 1 ==> !HasWon(board[..], X)
      invariant p >= 2 ==> !HasWon(board[..], O)
    {
      var player := players[p];
      var ch := player.AsChar();
      for row := 0 to 3
        invariant forall k :: 0 <= k < row ==> !LineComplete(board[..], ch, k)
      {
        if CheckLine(board[..], ch, row * 3, row * 3 + 1, row * 3 + 2) {
          assert LineComplete(board[..], ch, row);
          return Some(player);
        }
      }
      for col := 0 to 3
        invariant forall k :: 0 <= k < 3 + col ==> !LineComplete(board[..], ch, k)
      {
        if CheckLine(board[..], ch, col, col + 3, col + 6) {
          assert LineComplete(board[..], ch, 3 + col);
          return Some(player);
        }
      }
      if CheckLine(board[..], ch, 0, 4, 8) || CheckLine(board[..], ch, 2, 4, 6) {
        assert LineComplete(board[..], ch, 6) || LineComplete(board[..], ch, 7);
        return Some(player);
      }
      assert forall k :: 0 <= k < |Lines| ==> !LineComplete(board[..], ch, k);
    }
    return None;
  }

  /** The number of empty cells. */
  function EmptyCount(b: seq<char>): (n: nat)
    ensures n <= |b|
  {
    if b == [] then 0
    else (if b[0] == Empty then 1 else 0) + EmptyCount(b[1..])
  }

  /** No cell is empty exactly when the empty-cell count is zero. */
  lemma {:induction false} EmptyCountZero(b: seq<char>)
    ensures EmptyCount(b) == 0 <==> forall i :: 0 <= i < |b| ==> b[i] != Empty
  {
    if b != [] {
      EmptyCountZero(b[1..]);
      assert forall i :: 1 <= i < |b| ==> b[i] == b[1..][i - 1];
    }
  }

  /** Marking an empty cell with a non-empty mark removes exactly one empty cell. */
  lemma {:induction false} EmptyCountFill(b: seq<char>, i: nat, m: char)
    requires i < |b| && b[i] == Empty && m != Empty
    ensures EmptyCount(b[i := m]) == EmptyCount(b) - 1
  {
    if i > 0 {
      EmptyCountFill(b[1..], i - 1, m);
      assert b[i := m][1..] == b[1..][i - 1 := m];
    } else {
      assert b[i := m][1..] == b[1..];
    }
  }

  /** `is_board_full`: no cell holds ' '. */
  function IsBoardFull(b: seq<char>): (r: bool)
    ensures r <==> EmptyCount(b) == 0
    ensures !r <==> exists i :: 0 <= i < |b| && b[i] == Empty
  {
    EmptyCountZero(b);
    forall i :: 0 <= i < |b| ==> b[i] != Empty
  }

  /**
   * `evaluate_board`: +1 when the computer is the reported winner, -1 when
   * the human is, 0 for a draw or an undecided position.
   */
  function EvaluateBoard(b: seq<char>, computer: Player, human: Player): (r: int)
    requires |b| == 9
    ensures -1 <= r <= 1
    ensures r == 1 <==> Winner(b) == Some(computer)
    ensures r == -1 <==> Winner(b) == Some(human) && human != computer
  {
    match Winner(b)
    case Some(p) => if p == computer then 1 else if p == human then -1 else 0
    case None => 0
  }

  /** Swapping the two sides negates the score. */
  lemma EvaluateSymmetric(b: seq<char>, computer: Player, human: Player)
    requires |b| == 9 && computer != human
    ensures EvaluateBoard(b, human, computer) == -EvaluateBoard(b, computer, human)
  {
  }
}
