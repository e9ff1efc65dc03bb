# Tic-tac-toe engine and robot episode bookkeeping

This project models the tic-tac-toe game that decides which pre-recorded robot-arm
motion gets replayed. It covers two parts:

- the engine: a 9-cell board (0 empty, 1 human, 2 computer, row-major), win
  detection over the eight lines, the list of available moves, the full-board
  test, the static `evaluate` score, the full-depth minimax search that marks
  and clears cells of one shared board, and `get_best_move`, which keeps the
  first move with a strictly greater score;
- the robot variant's bookkeeping: a FIFO queue of episode ids `[0, 1, 2, 3]`,
  a log of `(position, episode)` pairs, the replay request for record
  `position + 1`, and `computer_move` failing when the queue is empty.

The engine appears twice in the source, in `tictactoe.py` (`TicTacToe`) and
as a copy in `robot_tictactoe.py:128-200` (`RobotTicTacToe`). Both copies do
the same thing line for line. The engine is modelled once, and the robot class
holds an engine object (`RobotTicTacToe.game`) rather than repeating it.

Modules:

- `Wrappers`: `Option`.
- `Rules`: the board and its pure rules. `IsWinner` follows the source's list
  of winning combinations. `HasThreeInARow` gives an independent description
  by rows, columns and diagonals, and a lemma shows the two agree. `Count` is
  used for termination and for the episode supply.
- `Search`: the minimax value as functions (`Score`, `ChildScore`, `Fold`)
  and the best-move choice as a function (`Scan`, `IsBestMove`), with the
  lemmas about them.
- `Game`: class `TicTacToe`, which owns an `array<int>` board. Its methods
  `Minimax`, `GetBestMove`, `PlayerMove`, `ComputerMove` and `PlayRound` work
  in place on that board and are proved against the `Search` functions.
- `RobotGame`: class `RobotTicTacToe`, which adds the episode queue and the
  move log, with the invariant `Bookkeeping` tying them to the board.

Modelling choices:

- The `-inf`/`+inf` starting values of `best_score` are sentinels. They are
  modelled as `None`, which the first child score always replaces.
- `get_best_move` returns `None` on a full board, as in the source; it is
  modelled as `Option<Pos>`.
- `minimax` has two symmetric branches, one per player. The model has one loop
  that places `Mark(isMaximizing)` and keeps the maximum or minimum through
  `Better` (`Automation/tic-tac-toe/tictactoe.py:71-86`). The branches differ
  only in mark, comparison and next player, so the computed score is that of
  the source.
- `player_move` reads the human's 1-9 input in a retry loop. The model takes
  one already-converted 0-based position per call; a rejected move changes
  nothing and `PlayRound` reports it as `Reprompt`.
- `replay_episode` is an opaque collaborator. `ComputerMove` returns the
  request it would be called with (user, episode, record, port). It also
  takes the call's boolean outcome as a parameter, which nothing in the
  contract depends on.
- `PlayRound` is one pass of `play()`'s loop. `Status` names how the pass
  ends; `EarlyStop` is the robot's "no more episodes" exit.

Main results:

- `Minimax` leaves the board as it found it and returns `Score`. Terminal
  scores are `10 - depth`, `depth - 10` and 0 (`ScoreTerminal`). Scores lie in
  `[depth - 10, 10 - depth]` (`ScoreBounds`). An inner node gets its best
  child's score (`NodeIsBestChild`).
- `GetBestMove` leaves the board unchanged. It returns `None` exactly on a
  full board, and otherwise the unique `IsBestMove`: an empty cell that no
  empty cell outscores, below which every empty cell scores strictly less.
  This is the strict `>` tie-break.
- The robot's `ComputerMove` fails exactly on a full board or an empty queue,
  changing nothing. Otherwise it pops the head of the queue, marks the best
  move, logs `(move, episode)` and asks for record `move + 1`; episode and
  record always lie in the ranges `replay_episode` accepts.
- `RobotTicTacToe.PlayRound` never ends in `EarlyStop` when started on the
  human's turn, which every game is from its constructor. The human moves
  first, so the computer replies at most four times and four episodes always
  suffice. The source's "No more episodes available" exit cannot be reached
  in a game played through `play()`.

## Model

| member | source | states |
|---|---|---|
| `Rules.WinsFrom` | Automation/tic-tac-toe/robot_tictactoe.py:136-139 | the combinations are tried in list order from index k; true as soon as one is fully owned by the player, false after the last |
| `Rules.IsWinner` | Automation/tic-tac-toe/robot_tictactoe.py:128-135 | `is_winner`: the player owns all three cells of one of the eight combinations rows, columns, diagonals, in the source's order; characterised by `WinsFromSome` and `WinnerIffThreeInARow` |
| `Rules.WinsFromSome` | Automation/tic-tac-toe/robot_tictactoe.py:128-139 | trying the combinations from index k on succeeds iff one of them from k on is fully owned by the player |
| `Rules.WinnerIffThreeInARow` | Automation/tic-tac-toe/tictactoe.py:28-40 | the player wins iff they fill a whole row, a whole column or one of the two diagonals of the 3x3 grid |
| `Rules.PlacingKeepsOtherLines` | Automation/tic-tac-toe/tictactoe.py:151-169 | marking a cell for one player never creates a line for the other, so at most one player has a line when a game ends |
| `Rules.IsFull` | Automation/tic-tac-toe/tictactoe.py:42-44 | `is_board_full`: no cell is empty; tied to the move list by `FullIffNoMoves` |
| `Rules.MovesBelow` | Automation/tic-tac-toe/robot_tictactoe.py:145-147 | the list holds exactly the empty positions below n, strictly ascending |
| `Rules.AvailableMoves` | Automation/tic-tac-toe/tictactoe.py:46-48 | the available moves are exactly the empty positions 0..8, in strictly ascending order |
| `Rules.FullIffNoMoves` | Automation/tic-tac-toe/tictactoe.py:42-48 | the board is full iff no move is available |
| `Rules.Evaluate` | Automation/tic-tac-toe/robot_tictactoe.py:149-156 | `evaluate`: 10 when the computer wins, else -10 when the human wins, else 0; characterised by `EvaluateMeaning` |
| `Rules.EvaluateMeaning` | Automation/tic-tac-toe/tictactoe.py:50-57 | the static score is 10 iff the computer has three in a row, -10 iff the human has and the computer has not, 0 iff neither has |
| `Search.Score` | Automation/tic-tac-toe/robot_tictactoe.py:158-167 | the value `minimax(depth, is_maximizing)` returns: the terminal scores, otherwise the running best over the available moves; characterised by `ScoreTerminal`, `ScoreBounds` and `NodeIsBestChild` |
| `Search.ChildScore` | Automation/tic-tac-toe/robot_tictactoe.py:170-182 | the score of one trial placement: the mover's mark on an empty cell, searched at the given depth with the other player to move |
| `Search.Fold` | Automation/tic-tac-toe/tictactoe.py:71-86 | the running best of the minimax loop is absent only when no move was tried and there was no starting value |
| `Search.FoldStep` | Automation/tic-tac-toe/tictactoe.py:73-77 | step lemma behind the loop invariant of `Minimax`: the fold from move i on equals the fold from move i + 1 on, started from the better of the running best and move i's child score |
| `Search.ScoreTerminal` | Automation/tic-tac-toe/tictactoe.py:61-69 | a computer line scores 10 - depth, otherwise a human line scores depth - 10, otherwise a full board scores 0 |
| `Search.ScoreBounds` | Automation/tic-tac-toe/robot_tictactoe.py:158-184 | every minimax score lies in [depth - 10, 10 - depth], hence in [-10, 10] |
| `Search.ChildScoreBounds` | Automation/tic-tac-toe/robot_tictactoe.py:171-174 | the score of a child tried by the loop lies strictly inside the parent's bounds |
| `Search.MarkedBounds` | Automation/tic-tac-toe/robot_tictactoe.py:179-182 | marking an empty cell for either player and searching one level deeper stays strictly inside the parent's bounds |
| `Search.FoldBounds` | Automation/tic-tac-toe/robot_tictactoe.py:169-184 | the running best stays within the depth bounds when it starts within them |
| `Search.FoldExtreme` | Automation/tic-tac-toe/tictactoe.py:71-86 | the loop ends on a value at least as good for the mover as its start and every child score, and equal to one of them |
| `Search.NodeIsBestChild` | Automation/tic-tac-toe/tictactoe.py:59-86 | on an undecided board with an empty cell, the score is the best child score for the player to move: no empty cell's child beats it and some empty cell's child attains it |
| `Search.MoveScore` | Automation/tic-tac-toe/tictactoe.py:93-96 | the score `get_best_move` gives a cell: the computer's mark there, searched by `minimax(0, False)`; bounded by `MoveScoreBounds` |
| `Search.Scan` | Automation/tic-tac-toe/tictactoe.py:90-100 | the best score and move after trying some moves are both absent exactly when none was tried |
| `Search.ScanKeepsFirstMaximum` | Automation/tic-tac-toe/robot_tictactoe.py:191-198 | after n tries the scan holds one tried move with its own score: no tried move scores higher and every earlier one scores strictly lower |
| `Search.ScanOverEmptyCells` | Automation/tic-tac-toe/robot_tictactoe.py:186-200 | a scan over exactly the empty cells in ascending order ends on the best move and its score |
| `Search.ScanFindsBestMove` | Automation/tic-tac-toe/tictactoe.py:88-102 | on a board with an empty cell the scan over the available moves ends on the best move |
| `Search.BestMoveUnique` | Automation/tic-tac-toe/tictactoe.py:98-100 | because of the strict comparison at most one cell is the best move, so the choice is determined by the board |
| `Search.MoveScoreBounds` | Automation/tic-tac-toe/tictactoe.py:93-96 | every score the best-move search compares lies in [-10, 10] |
| `Game.TicTacToe.constructor` | Automation/tic-tac-toe/tictactoe.py:4-8 | a fresh board of nine empty cells |
| `Game.TicTacToe.Minimax` | Automation/tic-tac-toe/tictactoe.py:59-86 | returns the minimax score of the board it was called on and leaves every cell as it found it |
| `Game.TicTacToe.Probe` | Automation/tic-tac-toe/tictactoe.py:74-76 | marking a cell for the mover, searching and resetting it returns that child's score and restores the board |
| `Game.TicTacToe.GetBestMove` | Automation/tic-tac-toe/tictactoe.py:88-102 | leaves the board unchanged; returns nothing exactly on a full board and otherwise the best move, an empty cell, the first of equal best scores |
| `Game.TicTacToe.PlayerMove` | Automation/tic-tac-toe/tictactoe.py:109-110 | accepts exactly a position 0..8 whose cell is empty, and then only that cell becomes the human's; otherwise nothing changes |
| `Game.TicTacToe.ComputerMove` | Automation/tic-tac-toe/tictactoe.py:118-128 | nothing changes on a full board; otherwise exactly the best move's empty cell becomes the computer's |
| `Game.TicTacToe.PlayRound` | Automation/tic-tac-toe/tictactoe.py:144-169 | one loop pass: re-prompt on an illegal move, stop on a human line or a full board, otherwise the computer replies and the pass stops on a computer line or a full board; only the winner has a line |
| `RobotGame.Bookkeeping` | Automation/tic-tac-toe/robot_tictactoe.py:228-235 | the invariant linking queue, log and board: the queue is [0, 1, 2, 3] minus one id per logged move, the log holds the ids in issue order at distinct cells holding the computer's mark, and there are exactly as many computer marks as log entries |
| `RobotGame.EpisodesIssuedInOrder` | Automation/tic-tac-toe/robot_tictactoe.py:96-97 | the ids handed out so far followed by those still queued are 0, 1, 2, 3 in order; the queue is empty exactly when all four are used |
| `RobotGame.HumanMarkKeepsBookkeeping` | Automation/tic-tac-toe/robot_tictactoe.py:207-208 | the human marking an empty cell leaves queue, log and the computer's marks consistent |
| `RobotGame.ComputerMarkKeepsBookkeeping` | Automation/tic-tac-toe/robot_tictactoe.py:228-235 | popping the head of the queue, marking an empty cell for the computer and logging it keeps queue, log and marks consistent |
| `RobotGame.HumanTurnLeavesEpisodes` | Automation/tic-tac-toe/robot_tictactoe.py:269-288 | after the human's (k+1)-th move, with the computer on k marks and a cell still empty, k is below the four initial episodes |
| `RobotGame.RobotTicTacToe.constructor` | Automation/tic-tac-toe/robot_tictactoe.py:83-104 | an empty board, the queue [0, 1, 2, 3], an empty log and the given user and port |
| `RobotGame.RobotTicTacToe.PlayerMove` | Automation/tic-tac-toe/robot_tictactoe.py:202-214 | the engine's legality check and placement; the queue and the log are untouched |
| `RobotGame.RobotTicTacToe.ComputerMove` | Automation/tic-tac-toe/robot_tictactoe.py:216-251 | fails, changing nothing, exactly on a full board or an empty queue; otherwise pops the head, marks the best move, logs (move, episode), requests record move + 1 with episode in 0..3 and record in 1..9, whatever the replay's outcome |
| `RobotGame.RobotTicTacToe.PlayRound` | Automation/tic-tac-toe/robot_tictactoe.py:269-298 | one loop pass: an illegal move changes nothing; a human line or full board ends it with queue and log unchanged; otherwise the computer's best move on the board after the human's is marked and logged with the head of the queue, and the request for record position + 1 is returned; started on the human's turn it never stops early and ends on the human's turn when the game goes on |
| `RobotGame.RobotTicTacToe.ComputerTurn` | Automation/tic-tac-toe/robot_tictactoe.py:285-298 | the computer's half of the pass: an empty queue stops the game with nothing changed; otherwise the best move is marked and logged with the head of the queue, the request for record position + 1 is returned, and the pass reports a computer line, a full board or that the game goes on |

## Left out

- Console I/O: `print_board`, the prompts and messages of `play`, `print_summary` and both `main` functions. They only display state.
- The input loop of `player_move`: `int(input()) - 1`, the `ValueError` handler and the re-prompting. The model takes one 0-based position per call, and a rejected one is reported as `Reprompt`.
- `replay_episode` (`robot_tictactoe.py:11-79`): dataset loading, the serial robot connection, frame pacing and float action vectors. `ComputerMove` returns the request instead of performing it, and its outcome is a parameter that the state does not depend on. The function's `ValueError` guard on the episode id is covered by the proved range 0..3 of every request.
- `robot_replay.py`: robot and dataset I/O only, with no game logic.
- The floating-point infinities used as starting values in `minimax` and `get_best_move`. They are replaced by `None`.
- Global game-theoretic claims, such as the computer never losing. They would need the whole game tree inside the verifier.
- The two symmetric player branches of `minimax` are one loop over the mover's mark. The score and the board restoration are the same; the duplicated code layout is not kept.
- The default `port="/dev/ttyACM1"` of the robot constructor: the model's constructor always takes the port explicitly, as `main` always passes one (`robot_tictactoe.py:319-324`).
- `random` is imported by `tictactoe.py` but never used.
