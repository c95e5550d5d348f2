/**
 * The move selector (`computer_turn_minimax`): one ply of search over every
 * empty cell, keeping the first strictly best one, then committing it.
 */
module Selector {
  import opened Options
  import opened Players
  import opened Outcome
  import opened Search

  /** The score of the computer marking cell `i`, searched with the human to move at depth 9. */
  function MoveScore(b: seq<char>, i: nat, computer: Player, human: Player): (r: int)
    requires |b| == 9 && i < 9
    ensures -1 <= r <= 1
  {
    MinimaxScore(b[i := computer.AsChar()], 9, false, computer, human)
  }

  /** The scan from index `i` on, with the best score and best move found so far. */
  function SelectFrom(b: seq<char>, i: nat, computer: Player, human: Player, bestScore: int, bestMove: Option<nat>): (r: Option<nat>)
    requires |b| == 9 && i <= 9
    ensures r.Some? ==> r == bestMove || (i <= r.value < 9 && b[r.value] == Empty)
    ensures bestMove.Some? ==> r.Some?
    ensures bestScore < -1 && EmptyFrom(b, i) ==> r.Some?
    decreases 9 - i
  {
    if i == 9 then bestMove
    else if b[i] == Empty then
      var score := MoveScore(b, i, computer, human);
      if score > bestScore then SelectFrom(b, i + 1, computer, human, score, Some(i))
      else SelectFrom(b, i + 1, computer, human, bestScore, bestMove)
    else SelectFrom(b, i + 1, computer, human, bestScore, bestMove)
  }

  /** The move the selector commits, if any. */
  function BestMove(b: seq<char>, computer: Player, human: Player): (r: Option<nat>)
    requires |b| == 9
    ensures r.Some? ==> r.value < 9 && b[r.value] == Empty
    ensures r == None <==> IsBoardFull(b)
  {
    SelectFrom(b, 0, computer, human, I32Min, None)
  }

  /** `k` is an empty cell whose score is the highest, and no earlier empty cell scores as high. */
  predicate FirstBest(b: seq<char>, k: nat, n: nat, computer: Player, human: Player)
    requires |b| == 9 && n <= 9
  {
    k < n && b[k] == Empty &&
    (forall j :: 0 <= j < n && b[j] == Empty ==> MoveScore(b, j, computer, human) <= MoveScore(b, k, computer, human)) &&
    (forall j :: 0 <= j < k && b[j] == Empty ==> MoveScore(b, j, computer, human) < MoveScore(b, k, computer, human))
  }

  /** The scan keeps the first strictly best empty cell, and finds none only when none is empty. */
  lemma {:induction false} SelectFromCorrect(b: seq<char>, i: nat, computer: Player, human: Player, bestScore: int, bestMove: Option<nat>)
    requires |b| == 9 && i <= 9
    requires bestMove == None ==> bestScore == I32Min && forall j :: 0 <= j < i ==> b[j] != Empty
    requires bestMove.Some? ==> FirstBest(b, bestMove.value, i, computer, human) &&
                                bestScore == MoveScore(b, bestMove.value, computer, human)
    ensures var r := SelectFrom(b, i, computer, human, bestScore, bestMove);
      (r == None <==> forall j :: 0 <= j < 9 ==> b[j] != Empty) &&
      (r.Some? ==> FirstBest(b, r.value, 9, computer, human))
    decreases 9 - i
  {
    if i < 9 {
      if b[i] == Empty {
        var score := MoveScore(b, i, computer, human);
        if score > bestScore {
          SelectFromCorrect(b, i + 1, computer, human, score, Some(i));
        } else {
          SelectFromCorrect(b, i + 1, computer, human, bestScore, bestMove);
        }
      } else {
        SelectFromCorrect(b, i + 1, computer, human, bestScore, bestMove);
      }
    }
  }

  /**
   * The selected cell is the lowest-index empty cell of maximal score; there
   * is none exactly when the board is full.
   */
  lemma BestMoveIsFirstBest(b: seq<char>, computer: Player, human: Player)
    requires |b| == 9
    ensures BestMove(b, computer, human) == None <==> IsBoardFull(b)
    ensures var m := BestMove(b, computer, human);
      m.Some? ==> FirstBest(b, m.value, 9, computer, human)
  {
    SelectFromCorrect(b, 0, computer, human, I32Min, None);
  }

  /** A board with a single empty cell gets exactly that cell. */
  lemma SingleEmptyCell(b: seq<char>, k: nat, computer: Player, human: Player)
    requires |b| == 9 && k < 9 && b[k] == Empty
    requires forall j :: 0 <= j < 9 && j != k ==> b[j] != Empty
    ensures BestMove(b, computer, human) == Some(k)
  {
    BestMoveIsFirstBest(b, computer, human);
  }

  /** When some empty cell wins on the spot, the selected move scores +1. */
  lemma ImmediateWinScoresOne(b: seq<char>, k: nat, computer: Player, human: Player)
    requires |b| == 9 && k < 9 && b[k] == Empty
    requires Winner(b[k := computer.AsChar()]) == Some(computer)
    ensures var m := BestMove(b, computer, human);
      m.Some? && m.value < 9 && MoveScore(b, m.value, computer, human) == 1
  {
    assert MoveScore(b, k, computer, human) == 1;
    BestMoveIsFirstBest(b, computer, human);
    assert !IsBoardFull(b);
  }

  /** The board after the computer's turn. */
  function AfterComputerTurn(b: seq<char>, computer: Player, human: Player): (r: seq<char>)
    requires |b| == 9
    ensures |r| == 9
    ensures IsBoardFull(b) ==> r == b
    ensures !IsBoardFull(b) ==> exists k :: 0 <= k < 9 && b[k] == Empty && r == b[k := computer.AsChar()]
  {
    BestMoveIsFirstBest(b, computer, human);
    match BestMove(b, computer, human)
    case Some(k) => b[k := computer.AsChar()]
    case None => b
  }

  /**
   * `computer_turn_minimax`: scores every empty cell with the search,
   * restoring the board after each, and commits the first strictly best.
   */
  method ComputerTurnMinimax(board: array<char>, computer: Player, human: Player)
    requires board.Length == 9
    modifies board
    ensures board[..] == AfterComputerTurn(old(board[..]), computer, human)
    ensures IsBoardFull(old(board[..])) ==> board[..] == old(board[..])
    ensures !IsBoardFull(old(board[..])) ==>
      exists k :: 0 <= k < 9 && old(board[k]) == Empty && board[k] == computer.AsChar() &&
        forall j :: 0 <= j < 9 && j != k ==> board[j] == old(board[j])
  {
    ghost var b := board[..];
    var bestScore := I32Min;
    var bestMove: Option<nat> := None;
    for i := 0 to board.Length
      invariant board[..] == b
      invariant SelectFrom(b, i, computer, human, bestScore, bestMove) == BestMove(b, computer, human)
    {
      if board[i] == Empty {
        board[i] := computer.AsChar();
        var score := Minimax(board, 9, false, computer, human);
        board[i] := Empty;
        assert board[..] == b;
        if score > bestScore {
          bestScore := score;
          bestMove := Some(i);
        }
      }
    }
    BestMoveIsFirstBest(b, computer, human);
    match bestMove {
      case Some(k) => board[k] := computer.AsChar();
      case None =>
    }
  }
}
