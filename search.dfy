/** The value that the full-depth minimax search computes, as functions of the
    board, together with what is proved about it: the terminal scores, the
    range of the scores, that a maximizing (minimizing) node gets the largest
    (smallest) score of its children, and what the best move is. */
module Search {
  import opened Wrappers
  import opened Rules

  /** The mark placed by the player to move: the computer maximizes. */
  function Mark(maximizing: bool): int {
    if maximizing then Computer else Human
  }

  function Max(a: int, b: int): int { if a >= b then a else b }
  function Min(a: int, b: int): int { if a <= b then a else b }

  /** The running best after one more child score. `None` plays the part of the
      infinite starting value: the first child score always replaces it. */
  function Better(maximizing: bool, score: int, best: Option<int>): int {
    match best
    case None => score
    case Some(v) => if maximizing then Max(score, v) else Min(score, v)
  }

  /** `x` is at least as good as `y` for the player to move. */
  predicate Prefers(maximizing: bool, x: int, y: int) {
    if maximizing then x >= y else x <= y
  }

  /** The minimax score of `b` at `depth`, with `maximizing` telling who moves. */
  function Score(b: Board, depth: int, maximizing: bool): int
    decreases Count(b, Empty), 2
  {
    var s := Evaluate(b);
    if s == 10 then s - depth
    else if s == -10 then s + depth
    else if IsFull(b) then 0
    else
      FullIffNoMoves(b);
      Fold(b, AvailableMoves(b), depth, maximizing, None).value
  }

  /** The score, at `depth`, of the board reached by the player to move marking `m`. */
  function ChildScore(b: Board, m: Pos, depth: int, maximizing: bool): int
    requires b[m] == Empty
    decreases Count(b, Empty), 0
  {
    CountUpdate(b, m, Mark(maximizing), Empty);
    Score(b[m := Mark(maximizing)], depth, !maximizing)
  }

  /** The running best over `moves`, tried in order, starting from `best`. */
  function Fold(b: Board, moves: seq<Pos>, depth: int, maximizing: bool, best: Option<int>): (r: Option<int>)
    requires forall k :: 0 <= k < |moves| ==> b[moves[k]] == Empty
    ensures r.None? <==> moves == [] && best.None?
    decreases Count(b, Empty), 1, |moves|
  {
    if moves == [] then best
    else Fold(b, moves[1..], depth, maximizing,
              Some(Better(maximizing, ChildScore(b, moves[0], depth + 1, maximizing), best)))
  }

  /** One more move tried by the fold. */
  lemma FoldStep(b: Board, moves: seq<Pos>, i: int, depth: int, maximizing: bool, best: Option<int>)
    requires forall k :: 0 <= k < |moves| ==> b[moves[k]] == Empty
    requires 0 <= i < |moves|
    ensures Fold(b, moves[i..], depth, maximizing, best) ==
            Fold(b, moves[i + 1..], depth, maximizing,
                 Some(Better(maximizing, ChildScore(b, moves[i], depth + 1, maximizing), best)))
  {
    assert moves[i..][1..] == moves[i + 1..];
  }

  /** Terminal boards score 10 - depth for a computer line, depth - 10 for a human
      line (the computer line taking precedence) and 0 when full without a line. */
  lemma ScoreTerminal(b: Board, depth: int, maximizing: bool)
    ensures HasThreeInARow(b, Computer) ==> Score(b, depth, maximizing) == 10 - depth
    ensures !HasThreeInARow(b, Computer) && HasThreeInARow(b, Human) ==>
              Score(b, depth, maximizing) == depth - 10
    ensures !HasThreeInARow(b, Computer) && !HasThreeInARow(b, Human) && IsFull(b) ==>
              Score(b, depth, maximizing) == 0
  {
    EvaluateMeaning(b);
  }

  /** As long as `10 - depth` cannot drop below zero on the way down, every score
      lies in [depth - 10, 10 - depth], so within [-10, 10]. */
  lemma {:induction false} ScoreBounds(b: Board, depth: int, maximizing: bool)
    requires 0 <= depth && depth + Count(b, Empty) <= 10
    ensures depth - 10 <= Score(b, depth, maximizing) <= 10 - depth
    ensures -10 <= Score(b, depth, maximizing) <= 10
    decreases Count(b, Empty), 3
  {
    var s := Evaluate(b);
    if s != 10 && s != -10 && !IsFull(b) {
      FullIffNoMoves(b);
      FoldBounds(b, AvailableMoves(b), depth, maximizing, None);
    }
  }

  lemma {:induction false} ChildScoreBounds(b: Board, m: Pos, depth: int, maximizing: bool)
    requires b[m] == Empty
    requires 0 <= depth && depth + Count(b, Empty) <= 10
    ensures depth - 10 < ChildScore(b, m, depth + 1, maximizing) < 10 - depth
    decreases Count(b, Empty), 1
  {
    MarkedBounds(b, m, depth, Mark(maximizing), !maximizing);
  }

  lemma {:induction false} MarkedBounds(b: Board, m: Pos, depth: int, mark: int, maximizing: bool)
    requires b[m] == Empty && mark != Empty
    requires 0 <= depth && depth + Count(b, Empty) <= 10
    ensures depth - 10 < Score(b[m := mark], depth + 1, maximizing) < 10 - depth
    decreases Count(b, Empty), 0
  {
    CountUpdate(b, m, mark, Empty);
    ScoreBounds(b[m := mark], depth + 1, maximizing);
  }

  lemma {:induction false} FoldBounds(b: Board, moves: seq<Pos>, depth: int, maximizing: bool, best: Option<int>)
    requires forall k :: 0 <= k < |moves| ==> b[moves[k]] == Empty
    requires 0 <= depth && depth + Count(b, Empty) <= 10
    requires best.Some? ==> depth - 10 <= best.value <= 10 - depth
    ensures var r := Fold(b, moves, depth, maximizing, best);
            r.Some? ==> depth - 10 <= r.value <= 10 - depth
    decreases Count(b, Empty), 2, |moves|
  {
    if moves != [] {
      ChildScoreBounds(b, moves[0], depth, maximizing);
      FoldBounds(b, moves[1..], depth, maximizing,
                 Some(Better(maximizing, ChildScore(b, moves[0], depth + 1, maximizing), best)));
    }
  }

  /** The fold ends on a value at least as good as its start and as every child,
      and equal to its start or to one of the children. */
  lemma {:induction false} FoldExtreme(b: Board, moves: seq<Pos>, depth: int, maximizing: bool, best: Option<int>)
    requires forall k :: 0 <= k < |moves| ==> b[moves[k]] == Empty
    requires moves != [] || best.Some?
    ensures var r := Fold(b, moves, depth, maximizing, best).value;
            (forall k :: 0 <= k < |moves| ==> Prefers(maximizing, r, ChildScore(b, moves[k], depth + 1, maximizing))) &&
            (best.Some? ==> Prefers(maximizing, r, best.value)) &&
            ((best.Some? && r == best.value) ||
             (exists k :: 0 <= k < |moves| && r == ChildScore(b, moves[k], depth + 1, maximizing)))
    decreases |moves|
  {
    if moves != [] {
      var c := ChildScore(b, moves[0], depth + 1, maximizing);
      var next := Some(Better(maximizing, c, best));
      var rest := moves[1..];
      FoldExtreme(b, rest, depth, maximizing, next);
      var r := Fold(b, moves, depth, maximizing, best).value;
      assert r == Fold(b, rest, depth, maximizing, next).value;
      assert forall k :: 1 <= k < |moves| ==> moves[k] == rest[k - 1];
      if r != next.value {
        var j :| 0 <= j < |rest| && r == ChildScore(b, rest[j], depth + 1, maximizing);
        assert r == ChildScore(b, moves[j + 1], depth + 1, maximizing);
      } else if r != c {
        assert best.Some? && r == best.value;
      }
    }
  }

  /** A board where nobody has three in a row and some cell is empty is decided
      by its children: the player to move gets the best child score. */
  lemma NodeIsBestChild(b: Board, depth: int, maximizing: bool)
    requires !HasThreeInARow(b, Computer) && !HasThreeInARow(b, Human) && !IsFull(b)
    ensures forall m: Pos :: b[m] == Empty ==>
              Prefers(maximizing, Score(b, depth, maximizing), ChildScore(b, m, depth + 1, maximizing))
    ensures exists m: Pos :: b[m] == Empty && Score(b, depth, maximizing) == ChildScore(b, m, depth + 1, maximizing)
  {
    var moves := AvailableMoves(b);
    EvaluateMeaning(b);
    FullIffNoMoves(b);
    FoldExtreme(b, moves, depth, maximizing, None);
    var r := Score(b, depth, maximizing);
    assert r == Fold(b, moves, depth, maximizing, None).value;
    forall m: Pos | b[m] == Empty
      ensures Prefers(maximizing, r, ChildScore(b, m, depth + 1, maximizing))
    {
      assert m in moves;
      var k :| 0 <= k < |moves| && moves[k] == m;
    }
    var k :| 0 <= k < |moves| && r == ChildScore(b, moves[k], depth + 1, maximizing);
    assert b[moves[k]] == Empty;
  }

  /** The score the best-move search gives to the computer marking `m`: the board
      after the mark, searched from depth 0 with the human to move. */
  function MoveScore(b: Board, m: Pos): int
    requires b[m] == Empty
  {
    ChildScore(b, m, 0, true)
  }

  /** `m` is the move the best-move search settles on: an empty cell whose score no
      other empty cell beats, and which every lower empty cell scores strictly below
      (the first of equal best scores is kept). */
  ghost predicate IsBestMove(b: Board, m: Pos) {
    b[m] == Empty &&
    (forall k: Pos :: b[k] == Empty ==> MoveScore(b, k) <= MoveScore(b, m)) &&
    (forall k: Pos :: k < m && b[k] == Empty ==> MoveScore(b, k) < MoveScore(b, m))
  }

  /** The best score and move after the best-move search has tried the first `n`
      cells of `moves`: a cell replaces the best only with a strictly greater score. */
  ghost function Scan(b: Board, moves: seq<Pos>, n: nat): (r: (Option<int>, Option<Pos>))
    requires n <= |moves| && forall k :: 0 <= k < |moves| ==> b[moves[k]] == Empty
    ensures r.0.None? <==> n == 0
    ensures r.1.None? <==> n == 0
  {
    if n == 0 then (None, None)
    else
      var prev := Scan(b, moves, n - 1);
      var score := MoveScore(b, moves[n - 1]);
      if prev.0.None? || score > prev.0.value then (Some(score), Some(moves[n - 1])) else prev
  }

  /** After `n` cells the scan holds one of them, the one at index `k`, with its
      own score: no cell tried so far scores higher, and every one before `k` lower. */
  lemma {:induction false} ScanKeepsFirstMaximum(b: Board, moves: seq<Pos>, n: nat) returns (k: nat)
    requires 0 < n <= |moves| && forall i :: 0 <= i < |moves| ==> b[moves[i]] == Empty
    ensures k < n
    ensures Scan(b, moves, n) == (Some(MoveScore(b, moves[k])), Some(moves[k]))
    ensures forall j :: 0 <= j < n ==> MoveScore(b, moves[j]) <= MoveScore(b, moves[k])
    ensures forall j :: 0 <= j < k ==> MoveScore(b, moves[j]) < MoveScore(b, moves[k])
  {
    if n == 1 {
      k := 0;
    } else {
      k := ScanKeepsFirstMaximum(b, moves, n - 1);
      if MoveScore(b, moves[n - 1]) > MoveScore(b, moves[k]) {
        k := n - 1;
      }
    }
  }

  /** A scan over exactly the empty cells, in ascending order, ends on the best move. */
  lemma ScanOverEmptyCells(b: Board, moves: seq<Pos>)
    requires moves != []
    requires forall m :: m in moves <==> 0 <= m < 9 && b[m] == Empty
    requires forall j, k :: 0 <= j < k < |moves| ==> moves[j] < moves[k]
    requires forall k :: 0 <= k < |moves| ==> b[moves[k]] == Empty
    ensures var (s, m) := Scan(b, moves, |moves|);
            m.Some? && IsBestMove(b, m.value) && s == Some(MoveScore(b, m.value))
  {
    var i := ScanKeepsFirstMaximum(b, moves, |moves|);
    var best := moves[i];
    forall k: Pos | b[k] == Empty
      ensures MoveScore(b, k) <= MoveScore(b, best)
      ensures k < best ==> MoveScore(b, k) < MoveScore(b, best)
    {
      assert k in moves;
      var j :| 0 <= j < |moves| && moves[j] == k;
      if k < best {
        assert j < i;
      }
    }
  }

  /** The scan over all available moves ends on the best move. */
  lemma ScanFindsBestMove(b: Board)
    requires !IsFull(b)
    ensures var moves := AvailableMoves(b);
            var (s, m) := Scan(b, moves, |moves|);
            m.Some? && IsBestMove(b, m.value) && s == Some(MoveScore(b, m.value))
  {
    FullIffNoMoves(b);
    ScanOverEmptyCells(b, AvailableMoves(b));
  }

  /** At most one cell is the best move, so the choice is determined by the board. */
  lemma BestMoveUnique(b: Board, m1: Pos, m2: Pos)
    requires IsBestMove(b, m1) && IsBestMove(b, m2)
    ensures m1 == m2
  {
  }

  /** The scores the best-move search compares all lie within [-10, 10]. */
  lemma MoveScoreBounds(b: Board, m: Pos)
    requires b[m] == Empty
    ensures -10 <= MoveScore(b, m) <= 10
  {
    CountUpdate(b, m, Computer, Empty);
    ScoreBounds(b[m := Computer], 0, false);
  }
}
