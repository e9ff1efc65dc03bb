/** The board of the game and its rules: the cell encoding, the eight
    winning lines, the available moves, the full-board test and the static
    evaluation that the search scores leaves with. */
module Rules {

  const Empty := 0
  const Human := 1
  const Computer := 2

  /** A board position; position = 3 * row + column. */
  type Pos = i: int | 0 <= i < 9

  /** The nine cells in row-major order. */
  type Board = b: seq<int> | |b| == 9 witness [0, 0, 0, 0, 0, 0, 0, 0, 0]

  const EmptyBoard: Board := [0, 0, 0, 0, 0, 0, 0, 0, 0]

  /** Every cell holds Empty, Human or Computer. */
  ghost predicate WellFormed(b: Board) {
    forall i :: 0 <= i < 9 ==> Empty <= b[i] <= Computer
  }

  lemma MarkKeepsWellFormed(b: Board, m: Pos, v: int)
    requires WellFormed(b) && Empty <= v <= Computer
    ensures WellFormed(b[m := v])
  {
  }

  datatype Line = Line(first: Pos, second: Pos, third: Pos)

  /** The winning combinations, in the order the game tries them. */
  const WinningCombos: seq<Line> := [
    Line(0, 1, 2), Line(3, 4, 5), Line(6, 7, 8),  // rows
    Line(0, 3, 6), Line(1, 4, 7), Line(2, 5, 8),  // columns
    Line(0, 4, 8), Line(2, 4, 6)                  // diagonals
  ]

  predicate Owns(b: Board, line: Line, p: int) {
    b[line.first] == p && b[line.second] == p && b[line.third] == p
  }

  /** `p` occupies all three cells of one of the combinations from index `k` on,
      tried in order. */
  predicate WinsFrom(b: Board, p: int, k: nat)
    requires k <= |WinningCombos|
    decreases |WinningCombos| - k
  {
    k < |WinningCombos| && (Owns(b, WinningCombos[k], p) || WinsFrom(b, p, k + 1))
  }

  /** `p` occupies all three cells of one of the winning combinations. */
  predicate IsWinner(b: Board, p: int) {
    WinsFrom(b, p, 0)
  }

  lemma {:induction false} WinsFromSome(b: Board, p: int, k: nat)
    requires k <= |WinningCombos|
    ensures WinsFrom(b, p, k) <==> exists j :: k <= j < |WinningCombos| && Owns(b, WinningCombos[j], p)
    decreases |WinningCombos| - k
  {
    if k < |WinningCombos| {
      WinsFromSome(b, p, k + 1);
    }
  }

  /** No cell is empty. */
  predicate IsFull(b: Board) {
    forall i :: 0 <= i < 9 ==> b[i] != Empty
  }

  /** The empty positions below `n`, in ascending order. */
  function MovesBelow(b: Board, n: nat): (r: seq<Pos>)
    requires n <= 9
    ensures forall m :: m in r <==> 0 <= m < n && b[m] == Empty
    ensures forall j, k :: 0 <= j < k < |r| ==> r[j] < r[k]
    ensures forall k :: 0 <= k < |r| ==> r[k] < n && b[r[k]] == Empty
  {
    if n == 0 then []
    else if b[n - 1] == Empty then MovesBelow(b, n - 1) + [(n - 1) as Pos]
    else MovesBelow(b, n - 1)
  }

  /** The list of available moves: exactly the empty positions, strictly ascending. */
  function AvailableMoves(b: Board): (r: seq<Pos>)
    ensures forall m :: m in r <==> 0 <= m < 9 && b[m] == Empty
    ensures forall j, k :: 0 <= j < k < |r| ==> r[j] < r[k]
    ensures forall k :: 0 <= k < |r| ==> b[r[k]] == Empty
  {
    MovesBelow(b, 9)
  }

  lemma FullIffNoMoves(b: Board)
    ensures IsFull(b) <==> AvailableMoves(b) == []
  {
    var moves := AvailableMoves(b);
    if !IsFull(b) {
      var i :| 0 <= i < 9 && b[i] == Empty;
      assert i in moves;
    }
    if moves != [] {
      assert b[moves[0]] == Empty;
    }
  }

  // An independent, geometric description of three in a row.

  function Cell(b: Board, row: int, col: int): int
    requires 0 <= row < 3 && 0 <= col < 3
  {
    b[3 * row + col]
  }

  function AntiDiagonalCell(b: Board, k: int): int
    requires 0 <= k < 3
  {
    Cell(b, k, 2 - k)
  }

  ghost predicate FullRow(b: Board, row: int, p: int)
    requires 0 <= row < 3
  {
    forall col :: 0 <= col < 3 ==> Cell(b, row, col) == p
  }

  ghost predicate FullColumn(b: Board, col: int, p: int)
    requires 0 <= col < 3
  {
    forall row :: 0 <= row < 3 ==> Cell(b, row, col) == p
  }

  ghost predicate FullDiagonal(b: Board, p: int) {
    forall k :: 0 <= k < 3 ==> Cell(b, k, k) == p
  }

  ghost predicate FullAntiDiagonal(b: Board, p: int) {
    forall k :: 0 <= k < 3 ==> AntiDiagonalCell(b, k) == p
  }

  /** `p` fills a whole row, a whole column or one of the two diagonals of the grid. */
  ghost predicate HasThreeInARow(b: Board, p: int) {
    (exists row :: 0 <= row < 3 && FullRow(b, row, p)) ||
    (exists col :: 0 <= col < 3 && FullColumn(b, col, p)) ||
    FullDiagonal(b, p) || FullAntiDiagonal(b, p)
  }

  /** The list of winning combinations is exactly the rows, columns and diagonals. */
  lemma WinnerIffThreeInARow(b: Board, p: int)
    ensures IsWinner(b, p) <==> HasThreeInARow(b, p)
  {
    WinsFromSome(b, p, 0);
    if IsWinner(b, p) {
      var k :| 0 <= k < |WinningCombos| && Owns(b, WinningCombos[k], p);
      if k < 3 {
        assert FullRow(b, k, p);
      } else if k < 6 {
        assert FullColumn(b, k - 3, p);
      } else if k == 6 {
        assert FullDiagonal(b, p);
      } else {
        assert FullAntiDiagonal(b, p);
      }
    }
    if HasThreeInARow(b, p) {
      if row :| 0 <= row < 3 && FullRow(b, row, p) {
        assert Cell(b, row, 0) == p && Cell(b, row, 1) == p && Cell(b, row, 2) == p;
        assert Owns(b, WinningCombos[row], p);
      } else if col :| 0 <= col < 3 && FullColumn(b, col, p) {
        assert Cell(b, 0, col) == p && Cell(b, 1, col) == p && Cell(b, 2, col) == p;
        assert Owns(b, WinningCombos[3 + col], p);
      } else if FullDiagonal(b, p) {
        assert Cell(b, 0, 0) == p && Cell(b, 1, 1) == p && Cell(b, 2, 2) == p;
        assert Owns(b, WinningCombos[6], p);
      } else {
        assert AntiDiagonalCell(b, 0) == p && AntiDiagonalCell(b, 1) == p && AntiDiagonalCell(b, 2) == p;
        assert Owns(b, WinningCombos[7], p);
      }
    }
  }

  /** Placing a mark of one player never gives another player a line they did not have. */
  lemma PlacingKeepsOtherLines(b: Board, m: Pos, p: int, q: int)
    requires p != q
    ensures IsWinner(b[m := p], q) ==> IsWinner(b, q)
  {
    WinsFromSome(b, q, 0);
    WinsFromSome(b[m := p], q, 0);
    if IsWinner(b[m := p], q) {
      var k :| 0 <= k < |WinningCombos| && Owns(b[m := p], WinningCombos[k], q);
      assert Owns(b, WinningCombos[k], q);
    }
  }

  /** The static score of a board: the computer is tested first. */
  function Evaluate(b: Board): int {
    if IsWinner(b, Computer) then 10
    else if IsWinner(b, Human) then -10
    else 0
  }

  /** The static score is 10 when the computer has three in a row, else -10 when
      the human has, else 0. */
  lemma EvaluateMeaning(b: Board)
    ensures Evaluate(b) == 10 <==> HasThreeInARow(b, Computer)
    ensures Evaluate(b) == -10 <==> !HasThreeInARow(b, Computer) && HasThreeInARow(b, Human)
    ensures Evaluate(b) == 0 <==> !HasThreeInARow(b, Computer) && !HasThreeInARow(b, Human)
  {
    WinnerIffThreeInARow(b, Computer);
    WinnerIffThreeInARow(b, Human);
  }

  // Counting cells, used for termination of the search and for the episode supply.

  function Count(s: seq<int>, p: int): (n: nat)
    ensures n <= |s|
  {
    if s == [] then 0 else (if s[0] == p then 1 else 0) + Count(s[1..], p)
  }

  lemma {:induction false} CountUpdate(s: seq<int>, i: int, v: int, p: int)
    requires 0 <= i < |s|
    ensures Count(s[i := v], p) == Count(s, p) - (if s[i] == p then 1 else 0) + (if v == p then 1 else 0)
  {
    if i == 0 {
      assert s[i := v][1..] == s[1..];
    } else {
      assert s[i := v][1..] == s[1..][i - 1 := v];
      CountUpdate(s[1..], i - 1, v, p);
    }
  }

  lemma {:induction false} CountPositive(s: seq<int>, i: int, p: int)
    requires 0 <= i < |s| && s[i] == p
    ensures Count(s, p) >= 1
  {
    if i > 0 {
      CountPositive(s[1..], i - 1, p);
    }
  }

  lemma {:induction false} CountAbsent(s: seq<int>, p: int)
    requires forall i :: 0 <= i < |s| ==> s[i] != p
    ensures Count(s, p) == 0
  {
    if s != [] {
      assert s[0] != p;
      CountAbsent(s[1..], p);
    }
  }

  /** On a well-formed sequence the empty, human and computer cells add up to its length. */
  lemma {:induction false} CountPartition(s: seq<int>)
    requires forall i :: 0 <= i < |s| ==> Empty <= s[i] <= Computer
    ensures Count(s, Empty) + Count(s, Human) + Count(s, Computer) == |s|
  {
    if s != [] {
      assert Empty <= s[0] <= Computer;
      CountPartition(s[1..]);
    }
  }
}
