# Tic-tac-toe minimax engine, modelled in Dafny

This project models the engine of a console tic-tac-toe game in which the
computer picks its moves by exhaustive minimax search over a 9-cell board.
It covers four parts:

- the two players and their marks;
- the outcome model: the 8 winning lines, the winner of a position, the
  full-board test and the static score (+1 computer win, -1 human win, 0
  otherwise);
- the game-tree evaluator `minimax`, which marks a cell of the shared board,
  recurses, and clears the cell again;
- the one-ply move selector `computer_turn_minimax`, which scores every
  empty cell, keeps the first strictly best one and commits it.

A board is a `seq<char>` of length 9 in the specification functions and an
`array<char>` of length 9 in the methods. Cells hold any `char`, and `' '` is
the empty cell, as in the Rust `[char; 9]`. Each in-place operation is a
method over the array. Its meaning is a pure function over the sequence:

| Rust | specification function | in-place method |
|---|---|---|
| `check_winner` | `Outcome.Winner` | `Outcome.CheckWinner` |
| `minimax` | `Search.MinimaxScore` | `Search.Minimax` |
| `computer_turn_minimax` | `Selector.BestMove`, `Selector.AfterComputerTurn` | `Selector.ComputerTurnMinimax` |

Modules: `Options` (the `Option` type), `Players` (player.dfy), `Outcome`
(outcome.dfy), `Search` (search.dfy) and `Selector` (selector.dfy).

The running best score starts from the 32-bit sentinels `i32::MIN` and
`i32::MAX`, kept as the constants `I32Min` and `I32Max`. The model proves they
never escape. Recursion terminates on the number of empty cells. The depth
argument does not guarantee termination: it only stops the search when it
equals 0.

Behaviour of the code worth noting:

- `check_winner` returns at the first complete line. It does not examine
  every line of both players.
- `computer_turn_minimax` on a board without an empty cell commits nothing
  and leaves the board as it was. It is not a precondition violation.
- `evaluate_board` does not require the two players to differ. When they are
  equal, a win by that player scores +1 and a win by the other player scores 0.

## Model

| member | source | states |
|---|---|---|
| `Players.Player.Toggle` | src/main.rs:11-16 | toggling always returns the other player |
| `Players.ToggleInvolution` | src/main.rs:11-16 | toggling twice gives back the original player |
| `Players.Player.AsChar` | src/main.rs:18-23 | X's mark is 'X' and O's mark is 'O'; no mark is the empty cell ' ' |
| `Players.AsCharInjective` | src/main.rs:18-23 | two players have the same mark iff they are the same player |
| `Outcome.CheckLine` | src/main.rs:97-99 | the three given cells hold the mark and nothing else: their set of values is exactly {mark} |
| `Outcome.Winner` | src/main.rs:96-125 | a reported winner has a complete line among the 8 lines; None iff neither X nor O has one; X is reported when both have one |
| `Outcome.CheckWinner` | src/main.rs:96-125 | the loops over players, rows, columns and diagonals, with early return, compute exactly `Winner` of the board |
| `Outcome.IsBoardFull` | src/main.rs:183-185 | the board is full iff it has zero empty cells, and not full iff some cell is ' ' |
| `Outcome.EvaluateBoard` | src/main.rs:127-133 | the score is in {-1, 0, 1}; it is +1 iff the winner is the computer, and -1 iff the winner is the human (and the human is not also the computer) |
| `Outcome.EvaluateSymmetric` | src/main.rs:127-133 | for two different players, swapping the computer and human labels negates the score |
| `Search.Mover` | src/main.rs:148-168 | the mark placed for the side to move (the computer's when maximizing, the human's otherwise) is never the empty cell ' ' |
| `Search.MinimaxScore` | src/main.rs:135-180 | the score is always in {-1, 0, 1}; at a decided game, depth 0 or a full board it is the static score (the early exit of line 144, the predicate `Search.Terminal`) |
| `Search.ChildScore` | src/main.rs:150-178 | marking empty cell i for the side to move and searching one ply deeper with the other side to move gives a score in {-1, 0, 1} |
| `Search.BestFrom` | src/main.rs:148-180 | the running best over the empty cells is either the untouched sentinel or in {-1, 0, 1}; it is in {-1, 0, 1} once an empty cell is scanned |
| `Search.BestFromExtremum` | src/main.rs:148-180 | the running best bounds every scanned child score from the right side, and equals the start value or some child's score |
| `Search.MinimaxIsExtremum` | src/main.rs:148-180 | at a non-terminal position, a maximizing score is the maximum and a minimizing score the minimum over the children of all empty cells, attained by one of them |
| `Search.Minimax` | src/main.rs:135-181 | the in-place search returns `MinimaxScore` of its input and leaves the board exactly as it found it |
| `Selector.MoveScore` | src/main.rs:193-195 | a candidate move's score, searched with the human to move at depth 9, is in {-1, 0, 1} |
| `Selector.SelectFrom` | src/main.rs:191-201 | the scan returns the move held so far or a later empty cell; it never drops a held move; it always ends with a move when some cell from the current index on is empty and the best score so far is below -1, as the `i32::MIN` start is |
| `Selector.BestMove` | src/main.rs:188-205 | the committed cell is an empty cell of the board, and there is none iff the board is full |
| `Selector.SelectFromCorrect` | src/main.rs:191-201 | the scan with strict `>` ends with the first empty cell of maximal score, and with no move only when no cell is empty |
| `Selector.BestMoveIsFirstBest` | src/main.rs:187-201 | the chosen cell is empty, scores at least as much as every empty cell and more than every earlier empty cell; there is no choice iff the board is full |
| `Selector.SingleEmptyCell` | src/main.rs:191-205 | a board with exactly one empty cell gets that cell |
| `Selector.ImmediateWinScoresOne` | src/main.rs:191-201 | when marking some empty cell makes the computer the reported winner, the chosen move scores +1 |
| `Selector.AfterComputerTurn` | src/main.rs:203-205 | a full board is unchanged; otherwise exactly one empty cell receives the computer's mark |
| `Selector.ComputerTurnMinimax` | src/main.rs:187-206 | the in-place selector changes exactly one cell, from ' ' to the computer's mark, the one `BestMove` picks; a full board is left unchanged (that each trial mark is cleared again is proved by the loop invariant, not stated in the contract) |

## Left out

- `main` (src/main.rs:26-65): the interactive game loop, the random choice of the human's side and all console output.
- `print_board` and `get_player_choice` (src/main.rs:67-94): console output and input parsing with re-prompting.
- Game-theoretic optimality, such as "the computer never loses", and concrete opening positions. Proving them would unfold the whole game tree.
- Search.Minimax: `depth` is an unbounded `int`, not an `i32`. The selector starts it at 9 and it falls by one per ply over at most 9 plies, so the 32-bit subtraction cannot overflow.
