/** The game engine as the program runs it: one shared mutable board that the
    search marks and clears cell by cell, the human's and the computer's moves,
    and one round of the game loop. */
module Game {
  import opened Wrappers
  import opened Rules
  import opened Search

  /** How a round of the game loop ends. `Reprompt`: the human's move was
      rejected and nothing changed; `InProgress`: the loop goes on; `EarlyStop`:
      the robot variant ran out of recorded episodes. */
  datatype Status = Reprompt | InProgress | HumanWon | ComputerWon | Draw | EarlyStop

  /** The board after the computer's reply to `before`: its best move marked. */
  ghost predicate ComputerReplied(before: Board, after: Board) {
    exists m: Pos :: IsBestMove(before, m) && after == before[m := Computer]
  }

  /** The status the loop reports once the computer has moved. */
  function AfterComputer(b: Board): Status {
    if IsWinner(b, Computer) then ComputerWon
    else if IsFull(b) then Draw
    else InProgress
  }

  /** The status the loop reports once the human has moved, before the computer
      moves; `InProgress` means it is the computer's turn. */
  function AfterHuman(b: Board): Status {
    if IsWinner(b, Human) then HumanWon
    else if IsFull(b) then Draw
    else InProgress
  }

  class TicTacToe {
    const board: array<int>

    ghost predicate Valid()
      reads board
    {
      board.Length == 9 && WellFormed(board[..])
    }

    /** An empty board. */
    constructor ()
      ensures Valid() && fresh(board)
      ensures board[..] == EmptyBoard
    {
      board := new int[9](_ => Empty);
    }

    /** The full-depth search, marking and clearing cells of the shared board. */
    method Minimax(depth: int, isMaximizing: bool) returns (score: int)
      requires Valid()
      modifies board
      ensures Valid()
      ensures board[..] == old(board[..])
      ensures score == Score(old(board[..]), depth, isMaximizing)
      decreases Count(board[..], Empty), 1
    {
      score := Evaluate(board[..]);
      if score == 10 {
        return score - depth;
      }
      if score == -10 {
        return score + depth;
      }
      if IsFull(board[..]) {
        return 0;
      }
      ghost var b: Board := board[..];
      var moves := AvailableMoves(board[..]);
      FullIffNoMoves(b);
      var bestScore: Option<int> := None;
      for i := 0 to |moves|
        invariant board[..] == b
        invariant Fold(b, moves[i..], depth, isMaximizing, bestScore) == Fold(b, moves, depth, isMaximizing, None)
      {
        score := Probe(b, moves[i], depth + 1, isMaximizing);
        FoldStep(b, moves, i, depth, isMaximizing, bestScore);
        bestScore := Some(Better(isMaximizing, score, bestScore));
      }
      score := bestScore.value;
    }

    /** Marks `move` for the player to move, searches the child and clears the cell again. */
    method Probe(ghost b: Board, move: Pos, depth: int, isMaximizing: bool) returns (score: int)
      requires Valid() && board[..] == b && b[move] == Empty
      modifies board
      ensures Valid()
      ensures board[..] == b
      ensures score == ChildScore(b, move, depth, isMaximizing)
      decreases Count(b, Empty), 0
    {
      var mark := if isMaximizing then Computer else Human;
      board[move] := mark;
      assert board[..] == b[move := mark];
      CountUpdate(b, move, mark, Empty);
      MarkKeepsWellFormed(b, move, mark);
      score := Minimax(depth, !isMaximizing);
      board[move] := Empty;
      assert board[..] == b;
    }

    /** Tries every empty cell in ascending order for the computer and keeps the
        first one with the strictly greatest score; `None` on a full board. */
    method GetBestMove() returns (bestMove: Option<Pos>)
      requires Valid()
      modifies board
      ensures Valid()
      ensures board[..] == old(board[..])
      ensures bestMove.None? <==> IsFull(old(board[..]))
      ensures bestMove.Some? ==> IsBestMove(old(board[..]), bestMove.value)
    {
      ghost var b: Board := board[..];
      var bestScore: Option<int> := None;
      bestMove := None;
      var moves := AvailableMoves(board[..]);
      for i := 0 to |moves|
        invariant board[..] == b
        invariant (bestScore, bestMove) == Scan(b, moves, i)
      {
        var move := moves[i];
        var score := Probe(b, move, 0, true);
        assert score == MoveScore(b, move);
        if bestScore.None? || score > bestScore.value {
          bestScore := Some(score);
          bestMove := Some(move);
        }
      }
      FullIffNoMoves(b);
      if moves != [] {
        ScanFindsBestMove(b);
      }
    }

    /** One attempt of the human's move: accepted only for a position 0..8 whose
        cell is empty, and then only that cell becomes the human's. */
    method PlayerMove(move: int) returns (accepted: bool)
      requires Valid()
      modifies board
      ensures Valid()
      ensures accepted <==> 0 <= move <= 8 && old(board[move]) == Empty
      ensures accepted ==> board[..] == old(board[..])[move := Human]
      ensures !accepted ==> board[..] == old(board[..])
    {
      accepted := 0 <= move <= 8 && board[move] == Empty;
      if accepted {
        board[move] := Human;
      }
    }

    /** Nothing happens on a full board; otherwise the best move becomes the computer's. */
    method ComputerMove()
      requires Valid()
      modifies board
      ensures Valid()
      ensures IsFull(old(board[..])) ==> board[..] == old(board[..])
      ensures !IsFull(old(board[..])) ==> ComputerReplied(old(board[..]), board[..])
    {
      var available := AvailableMoves(board[..]);
      FullIffNoMoves(board[..]);
      if available == [] {
        return;
      }
      ghost var b: Board := board[..];
      var move := GetBestMove();
      board[move.value] := Computer;
      assert board[..] == b[move.value := Computer];
    }

    /** One pass of the game loop: the human moves, the game ends on a human line
        or a full board, otherwise the computer replies and the game ends on a
        computer line or a full board. In every ending at most one player has a line. */
    method PlayRound(move: int) returns (status: Status)
      requires Valid()
      modifies board
      ensures Valid()
      ensures status == Reprompt <==> !(0 <= move <= 8 && old(board[move]) == Empty)
      ensures status == Reprompt ==> board[..] == old(board[..])
      ensures status != Reprompt ==>
                var afterHuman := old(board[..])[move := Human];
                if AfterHuman(afterHuman) != InProgress then
                  status == AfterHuman(afterHuman) && board[..] == afterHuman
                else
                  ComputerReplied(afterHuman, board[..]) && status == AfterComputer(board[..])
      ensures status == HumanWon && !IsWinner(old(board[..]), Computer) ==> !IsWinner(board[..], Computer)
      ensures status == ComputerWon ==> !IsWinner(board[..], Human)
      ensures status == InProgress ==>
                !IsWinner(board[..], Human) && !IsWinner(board[..], Computer) && !IsFull(board[..])
    {
      ghost var b0: Board := board[..];
      var accepted := PlayerMove(move);
      if !accepted {
        return Reprompt;
      }
      ghost var b1: Board := board[..];
      PlacingKeepsOtherLines(b0, move, Human, Computer);
      if IsWinner(board[..], Human) {
        return HumanWon;
      }
      if IsFull(board[..]) {
        return Draw;
      }
      ComputerMove();
      ghost var m: Pos :| IsBestMove(b1, m) && board[..] == b1[m := Computer];
      PlacingKeepsOtherLines(b1, m, Computer, Human);
      if IsWinner(board[..], Computer) {
        return ComputerWon;
      }
      if IsFull(board[..]) {
        return Draw;
      }
      return InProgress;
    }
  }
}
