/**
 * The game-tree evaluator (`minimax`). `MinimaxScore` is its meaning as a
 * pure function of the position; `Minimax` is the search itself, which marks
 * a cell of the shared board, recurses, and clears the cell again.
 */
module Search {
  import opened Players
  import opened Outcome

  /** The 32-bit sentinels the running best score starts from. */
  const I32Min: int := -0x8000_0000
  const I32Max: int := 0x7fff_ffff

  function Max(a: int, b: int): int { if a < b then b else a }
  function Min(a: int, b: int): int { if a < b then a else b }

  /** The starting value of the running best: i32::MIN when maximizing, i32::MAX when minimizing. */
  function Sentinel(maximizing: bool): int { if maximizing then I32Min else I32Max }

  /** The mark of the side to move: the computer when maximizing, the human otherwise. */
  function Mover(maximizing: bool, computer: Player, human: Player): (m: char)
    ensures m != Empty
  {
    if maximizing then computer.AsChar() else human.AsChar()
  }

  /** The search stops at a decided game, at depth 0, or on a full board. */
  predicate Terminal(b: seq<char>, depth: int, computer: Player, human: Player)
    requires |b| == 9
  {
    EvaluateBoard(b, computer, human) != 0 || depth == 0 || IsBoardFull(b)
  }

  /** Some cell at index `i` or later is empty. */
  predicate EmptyFrom(b: seq<char>, i: nat)
  {
    exists j :: i <= j < |b| && b[j] == Empty
  }

  /** The score of the position after the side to move marks empty cell `i`. */
  function ChildScore(b: seq<char>, i: nat, depth: int, maximizing: bool, computer: Player, human: Player): (r: int)
    requires |b| == 9 && i < 9 && b[i] == Empty
    ensures -1 <= r <= 1
    decreases EmptyCount(b), 0, 0
  {
    EmptyCountFill(b, i, Mover(maximizing, computer, human));
    MinimaxScore(b[i := Mover(maximizing, computer, human)], depth - 1, !maximizing, computer, human)
  }

  /**
   * The running best over the empty cells from index `i` on, starting from
   * `acc`: the maximum of the children's scores when maximizing, the minimum otherwise.
   */
  function BestFrom(b: seq<char>, i: nat, depth: int, maximizing: bool, computer: Player, human: Player, acc: int): (r: int)
    requires |b| == 9 && i <= 9
    requires acc == Sentinel(maximizing) || -1 <= acc <= 1
    ensures r == Sentinel(maximizing) || -1 <= r <= 1
    ensures (-1 <= acc <= 1 || EmptyFrom(b, i)) ==> -1 <= r <= 1
    decreases EmptyCount(b), 0, 9 - i
  {
    if i == 9 then acc
    else if b[i] == Empty then
      var v := ChildScore(b, i, depth, maximizing, computer, human);
      BestFrom(b, i + 1, depth, maximizing, computer, human, if maximizing then Max(acc, v) else Min(acc, v))
    else
      BestFrom(b, i + 1, depth, maximizing, computer, human, acc)
  }

  /**
   * `minimax`: the static score at a terminal position, otherwise the best
   * child score for the side to move. The sentinels never escape.
   */
  function MinimaxScore(b: seq<char>, depth: int, maximizing: bool, computer: Player, human: Player): (r: int)
    requires |b| == 9
    ensures -1 <= r <= 1
    ensures Terminal(b, depth, computer, human) ==> r == EvaluateBoard(b, computer, human)
    decreases EmptyCount(b), 1, 0
  {
    var score := EvaluateBoard(b, computer, human);
    if score != 0 || depth == 0 || IsBoardFull(b) then score
    else BestFrom(b, 0, depth, maximizing, computer, human, Sentinel(maximizing))
  }

  /**
   * Every empty cell from `i` on has a child score on the right side of
   * the running best, and the running best is either the starting value or
   * one of those child scores.
   */
  lemma {:induction false} BestFromExtremum(b: seq<char>, i: nat, depth: int, maximizing: bool, computer: Player, human: Player, acc: int)
    requires |b| == 9 && i <= 9
    requires acc == Sentinel(maximizing) || -1 <= acc <= 1
    ensures var r := BestFrom(b, i, depth, maximizing, computer, human, acc);
      (maximizing ==> acc <= r) && (!maximizing ==> r <= acc) &&
      (forall j :: i <= j < 9 && b[j] == Empty ==>
         var v := ChildScore(b, j, depth, maximizing, computer, human);
         if maximizing then v <= r else r <= v) &&
      (r == acc || exists j :: i <= j < 9 && b[j] == Empty && r == ChildScore(b, j, depth, maximizing, computer, human))
    decreases 9 - i
  {
    if i < 9 {
      if b[i] == Empty {
        var v := ChildScore(b, i, depth, maximizing, computer, human);
        BestFromExtremum(b, i + 1, depth, maximizing, computer, human, if maximizing then Max(acc, v) else Min(acc, v));
      } else {
        BestFromExtremum(b, i + 1, depth, maximizing, computer, human, acc);
      }
    }
  }

  /**
   * At a non-terminal position the score is the maximum (maximizing) or the
   * minimum (minimizing) over the children of all empty cells, and it is
   * attained by one of them.
   */
  lemma MinimaxIsExtremum(b: seq<char>, depth: int, maximizing: bool, computer: Player, human: Player)
    requires |b| == 9 && !Terminal(b, depth, computer, human)
    ensures var r := MinimaxScore(b, depth, maximizing, computer, human);
      (forall j :: 0 <= j < 9 && b[j] == Empty ==>
         var v := ChildScore(b, j, depth, maximizing, computer, human);
         if maximizing then v <= r else r <= v) &&
      (exists j :: 0 <= j < 9 && b[j] == Empty && r == ChildScore(b, j, depth, maximizing, computer, human))
  {
    BestFromExtremum(b, 0, depth, maximizing, computer, human, Sentinel(maximizing));
  }

  /**
   * The search over the shared board. Each tentative mark is cleared right
   * after its recursive call, so the board is returned as it was given.
   */
  method Minimax(board: array<char>, depth: int, maximizing: bool, computer: Player, human: Player) returns (score: int)
    requires board.Length == 9
    modifies board
    ensures board[..] == old(board[..])
    ensures score == MinimaxScore(old(board[..]), depth, maximizing, computer, human)
    decreases EmptyCount(board[..])
  {
    score := EvaluateBoard(board[..], computer, human);
    if score != 0 || depth == 0 || IsBoardFull(board[..]) {
      return score;
    }
    ghost var b := board[..];
    if maximizing {
      var bestScore := I32Min;
      for i := 0 to board.Length
        invariant board[..] == b
        invariant bestScore == I32Min || -1 <= bestScore <= 1
        invariant BestFrom(b, i, depth, true, computer, human, bestScore) == MinimaxScore(b, depth, true, computer, human)
      {
        if board[i] == Empty {
          board[i] := computer.AsChar();
          EmptyCountFill(b, i, computer.AsChar());
          var v := Minimax(board, depth - 1, false, computer, human);
          board[i] := Empty;
          assert board[..] == b;
          bestScore := Max(bestScore, v);
        }
      }
      score := bestScore;
    } else {
      var bestScore := I32Max;
      for i := 0 to board.Length
        invariant board[..] == b
        invariant bestScore == I32Max || -1 <= bestScore <= 1
        invariant BestFrom(b, i, depth, false, computer, human, bestScore) == MinimaxScore(b, depth, false, computer, human)
      {
        if board[i] == Empty {
          board[i] := human.AsChar();
          EmptyCountFill(b, i, human.AsChar());
          var v := Minimax(board, depth - 1, true, computer, human);
          board[i] := Empty;
          assert board[..] == b;
          bestScore := Min(bestScore, v);
        }
      }
      score := bestScore;
    }
  }
}
