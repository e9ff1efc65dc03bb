/** The robot variant of the game: the same engine, plus a FIFO queue of
    recorded episode ids, a log of the computer's moves with the episode each
    one used, and the replay request every computer move issues. */
module RobotGame {
  import opened Wrappers
  import opened Rules
  import opened Search
  import opened Game

  /** The episode ids the queue starts with, issued front first. */
  const InitialEpisodes: seq<int> := [0, 1, 2, 3]

  /** One entry of the computer's move log. */
  datatype MoveRecord = MoveRecord(position: Pos, episode: int)

  /** The arguments of one robot replay: the dataset `<user>/record<record>`,
      the episode to play back from it, and the serial port of the arm. */
  datatype ReplayRequest = ReplayRequest(hfUsername: string, episode: int, record: int, port: string)

  /** The queue is what is left of the initial ids after one was taken per
      logged move; the log holds the ids in issue order, each at a distinct
      cell that holds the computer's mark; and the computer's marks on the
      board are exactly the logged ones. */
  ghost predicate Bookkeeping(b: Board, queue: seq<int>, log: seq<MoveRecord>) {
    |log| <= |InitialEpisodes| &&
    queue == InitialEpisodes[|log|..] &&
    (forall i :: 0 <= i < |log| ==> log[i].episode == InitialEpisodes[i]) &&
    (forall i :: 0 <= i < |log| ==> b[log[i].position] == Computer) &&
    (forall i, j :: 0 <= i < j < |log| ==> log[i].position != log[j].position) &&
    Count(b, Computer) == |log|
  }

  /** The episode ids of the logged moves, in log order. */
  function Episodes(log: seq<MoveRecord>): seq<int> {
    seq(|log|, i requires 0 <= i < |log| => log[i].episode)
  }

  /** First in, first out: the ids handed out so far, followed by those still
      queued, are the initial ids in order; the queue is empty exactly when all
      four have been used. */
  lemma EpisodesIssuedInOrder(b: Board, queue: seq<int>, log: seq<MoveRecord>)
    requires Bookkeeping(b, queue, log)
    ensures Episodes(log) + queue == InitialEpisodes
    ensures queue == [] <==> |log| == |InitialEpisodes|
  {
  }

  /** The human marking an empty cell keeps the bookkeeping. */
  lemma HumanMarkKeepsBookkeeping(b: Board, queue: seq<int>, log: seq<MoveRecord>, m: Pos)
    requires Bookkeeping(b, queue, log) && b[m] == Empty
    ensures Bookkeeping(b[m := Human], queue, log)
  {
    CountUpdate(b, m, Human, Computer);
  }

  /** The computer marking an empty cell with the head of the queue, and logging
      it, keeps the bookkeeping. */
  lemma ComputerMarkKeepsBookkeeping(b: Board, queue: seq<int>, log: seq<MoveRecord>, m: Pos)
    requires Bookkeeping(b, queue, log) && queue != [] && b[m] == Empty
    ensures Bookkeeping(b[m := Computer], queue[1..], log + [MoveRecord(m, queue[0])])
  {
    CountUpdate(b, m, Computer, Computer);
    assert InitialEpisodes[|log|..][1..] == InitialEpisodes[|log| + 1..];
  }

  class RobotTicTacToe {
    const game: TicTacToe
    const hfUsername: string
    const port: string
    var episodeQueue: seq<int>
    var computerMoves: seq<MoveRecord>

    ghost predicate Valid()
      reads this, game.board
    {
      game.Valid() && Bookkeeping(game.board[..], episodeQueue, computerMoves)
    }

    /** The human has moved as often as the computer, so it is the human's turn. */
    ghost predicate HumanToMove()
      reads this, game.board
    {
      game.board.Length == 9 && Count(game.board[..], Human) == |computerMoves|
    }

    /** An empty board, the full queue [0, 1, 2, 3] and an empty log. */
    constructor (hfUsername: string, port: string)
      ensures Valid() && HumanToMove() && fresh(game) && fresh(game.board)
      ensures game.board[..] == EmptyBoard
      ensures episodeQueue == InitialEpisodes && computerMoves == []
      ensures this.hfUsername == hfUsername && this.port == port
    {
      game := new TicTacToe();
      this.hfUsername := hfUsername;
      this.port := port;
      episodeQueue := InitialEpisodes;
      computerMoves := [];
      new;
      CountAbsent(EmptyBoard, Computer);
      CountAbsent(EmptyBoard, Human);
    }

    /** The human's move, through the engine's legality check; the queue and
        the log are untouched. */
    method PlayerMove(move: int) returns (accepted: bool)
      requires Valid()
      modifies game.board
      ensures Valid()
      ensures accepted <==> 0 <= move <= 8 && old(game.board[move]) == Empty
      ensures accepted ==> game.board[..] == old(game.board[..])[move := Human]
      ensures !accepted ==> game.board[..] == old(game.board[..])
    {
      ghost var b: Board := game.board[..];
      accepted := game.PlayerMove(move);
      if accepted {
        HumanMarkKeepsBookkeeping(b, episodeQueue, computerMoves, move);
      }
    }

    /** Fails, changing nothing, on a full board or when the queue is empty.
        Otherwise takes the head of the queue, plays the engine's best move,
        logs the move with that episode and asks for the replay of record
        `position + 1`; the replay's outcome does not affect the game. */
    method ComputerMove(replaySucceeded: bool) returns (progressed: bool, request: Option<ReplayRequest>)
      requires Valid()
      modifies this, game.board
      ensures Valid()
      ensures progressed <==> !IsFull(old(game.board[..])) && old(episodeQueue) != []
      ensures !progressed ==>
                game.board[..] == old(game.board[..]) && episodeQueue == old(episodeQueue) &&
                computerMoves == old(computerMoves) && request.None?
      ensures progressed ==>
                |computerMoves| == |old(computerMoves)| + 1 &&
                var entry := computerMoves[|old(computerMoves)|];
                computerMoves == old(computerMoves) + [entry] &&
                entry.episode == old(episodeQueue)[0] &&
                episodeQueue == old(episodeQueue)[1..] &&
                IsBestMove(old(game.board[..]), entry.position) &&
                game.board[..] == old(game.board[..])[entry.position := Computer] &&
                request == Some(ReplayRequest(hfUsername, entry.episode, entry.position + 1, port))
      ensures request.Some? ==> 0 <= request.value.episode <= 3 && 1 <= request.value.record <= 9
      ensures HumanToMove() <==> Count(old(game.board[..]), Human) == |computerMoves|
    {
      var available := AvailableMoves(game.board[..]);
      FullIffNoMoves(game.board[..]);
      if available == [] {
        return false, None;
      }
      if episodeQueue == [] {
        return false, None;
      }
      ghost var b: Board := game.board[..];
      ghost var queue := episodeQueue;
      var episode := episodeQueue[0];
      episodeQueue := episodeQueue[1..];
      var move := game.GetBestMove();
      var position := move.value;
      game.board[position] := Computer;
      assert game.board[..] == b[position := Computer];
      ComputerMarkKeepsBookkeeping(b, queue, computerMoves, position);
      CountUpdate(b, position, Computer, Human);
      computerMoves := computerMoves + [MoveRecord(position, episode)];
      var record := position as int + 1;
      request := Some(ReplayRequest(hfUsername, episode, record, port));
      progressed := true;
    }

    /** One pass of the robot's game loop, as in the engine's round, except that
        the game stops early when the computer's move fails. Starting on the
        human's turn it never stops early: the four episodes cover the at most
        four replies the computer makes in one game. */
    method PlayRound(move: int, replaySucceeded: bool) returns (status: Status, request: Option<ReplayRequest>)
      requires Valid()
      modifies this, game.board
      ensures Valid()
      ensures status == Reprompt <==> !(0 <= move <= 8 && old(game.board[move]) == Empty)
      ensures status == Reprompt ==>
                game.board[..] == old(game.board[..]) && episodeQueue == old(episodeQueue) &&
                computerMoves == old(computerMoves) && request.None?
      ensures status != Reprompt ==>
                var afterHuman := old(game.board[..])[move := Human];
                if AfterHuman(afterHuman) != InProgress then
                  status == AfterHuman(afterHuman) && game.board[..] == afterHuman &&
                  episodeQueue == old(episodeQueue) && computerMoves == old(computerMoves) && request.None?
                else if old(episodeQueue) == [] then
                  status == EarlyStop && game.board[..] == afterHuman &&
                  episodeQueue == old(episodeQueue) && computerMoves == old(computerMoves) && request.None?
                else
                  |computerMoves| == |old(computerMoves)| + 1 &&
                  var entry := computerMoves[|old(computerMoves)|];
                  computerMoves == old(computerMoves) + [entry] &&
                  entry.episode == old(episodeQueue)[0] &&
                  episodeQueue == old(episodeQueue)[1..] &&
                  IsBestMove(afterHuman, entry.position) &&
                  game.board[..] == afterHuman[entry.position := Computer] &&
                  status == AfterComputer(game.board[..]) &&
                  request == Some(ReplayRequest(hfUsername, entry.episode, entry.position + 1, port))
      ensures old(HumanToMove()) ==> status != EarlyStop
      ensures old(HumanToMove()) && status in {Reprompt, InProgress} ==> HumanToMove()
    {
      ghost var b0: Board := game.board[..];
      ghost var log0 := computerMoves;
      var accepted := PlayerMove(move);
      if !accepted {
        return Reprompt, None;
      }
      ghost var b1: Board := game.board[..];
      if IsWinner(game.board[..], Human) {
        return HumanWon, None;
      }
      if IsFull(game.board[..]) {
        return Draw, None;
      }
      CountUpdate(b0, move, Human, Human);
      if Count(b0, Human) == |log0| {
        HumanTurnLeavesEpisodes(b1, |log0|);
      }
      status, request := ComputerTurn(b1, replaySucceeded);
    }

    /** The computer's half of a loop pass, once the human's move has left the
        game undecided: stop early when the computer's move fails, otherwise
        report a computer line, a full board or that the game goes on. */
    method ComputerTurn(ghost afterHuman: Board, replaySucceeded: bool) returns (status: Status, request: Option<ReplayRequest>)
      requires Valid() && game.board[..] == afterHuman && AfterHuman(afterHuman) == InProgress
      modifies this, game.board
      ensures Valid()
      ensures if old(episodeQueue) == [] then
                status == EarlyStop && game.board[..] == afterHuman &&
                episodeQueue == old(episodeQueue) && computerMoves == old(computerMoves) && request.None?
              else
                |computerMoves| == |old(computerMoves)| + 1 &&
                var entry := computerMoves[|old(computerMoves)|];
                computerMoves == old(computerMoves) + [entry] &&
                entry.episode == old(episodeQueue)[0] &&
                episodeQueue == old(episodeQueue)[1..] &&
                IsBestMove(afterHuman, entry.position) &&
                game.board[..] == afterHuman[entry.position := Computer] &&
                status == AfterComputer(game.board[..]) &&
                request == Some(ReplayRequest(hfUsername, entry.episode, entry.position + 1, port))
      ensures HumanToMove() <==> Count(afterHuman, Human) == |computerMoves|
    {
      var progressed;
      progressed, request := ComputerMove(replaySucceeded);
      if !progressed {
        return EarlyStop, None;
      }
      if IsWinner(game.board[..], Computer) {
        return ComputerWon, request;
      }
      if IsFull(game.board[..]) {
        return Draw, request;
      }
      return InProgress, request;
    }
  }

  /** After the human's (k+1)-th move on a board the computer has marked k
      times, with a cell still empty, at most three computer moves were made,
      so an episode is left for the reply. */
  lemma HumanTurnLeavesEpisodes(b: Board, k: nat)
    requires WellFormed(b) && !IsFull(b)
    requires Count(b, Computer) == k && Count(b, Human) == k + 1
    ensures k < |InitialEpisodes|
  {
    var i :| 0 <= i < 9 && b[i] == Empty;
    CountPositive(b, i, Empty);
    CountPartition(b);
  }
}
