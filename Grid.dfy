/** Pure logic of the expanding tic-tac-toe game: marks, the row/column
    layout of a square board stored as a flat sequence, the candidate
    winning lines, win detection and the growth of a board by one row and
    one column. */
module Grid {

  datatype Option<+T> = None | Some(value: T)

  /** The two players' marks. */
  datatype Mark = X | O

  /** One square of the board: empty (`null` in the game) or holding a mark. */
  type Cell = Option<Mark>

  /** The largest side length the board may grow to. */
  const MAX_SIZE: nat := 6

  /** The side length of a new game. */
  const INITIAL_SIZE: nat := 3

  /** The opponent's mark. */
  function Other(m: Mark): (r: Mark)
    ensures r != m
  {
    if m == X then O else X
  }

  /** The mark placed next, from the `xIsNext` flag: X exactly when the
      flag is set, O exactly when it is not. */
  function PlayerMark(xIsNext: bool): (m: Mark)
    ensures m == X <==> xIsNext
    ensures m == O <==> !xIsNext
  {
    if xIsNext then X else O
  }

  function MarkText(m: Mark): string {
    if m == X then "X" else "O"
  }

  // ---------------------------------------------------------------------
  // Board geometry: square (r, c) of an n-by-n board is stored at r*n + c.
  // ---------------------------------------------------------------------

  lemma {:induction false} MulMonotone(a: nat, b: nat, m: nat)
    requires a <= b
    ensures a * m <= b * m
  {
    if a < b {
      MulMonotone(a, b - 1, m);
      assert b * m == (b - 1) * m + m;
    }
  }

  /** Division and remainder by n > 0 are determined by k == q*n + m with
      0 <= m < n. */
  lemma DivModOf(k: int, n: int, q: int, m: int)
    requires n > 0 && 0 <= m < n && k == q * n + m
    ensures k / n == q && k % n == m
  {
    var q', m' := k / n, k % n;
    assert k == q' * n + m';
    assert (q - q') * n == m' - m;
    if q > q' {
      MulMonotone(1, q - q', n);
    } else if q < q' {
      MulMonotone(1, q' - q, n);
    }
  }

  /** The index of square (r, c) is in range, and row and column are
      recovered from it by division and remainder: the mapping of a
      (row, column) pair to a flat index is one-to-one into 0 .. n*n-1. */
  lemma CellIndex(n: nat, r: nat, c: nat)
    requires r < n && c < n
    ensures 0 <= r * n + c < n * n
    ensures (r * n + c) / n == r && (r * n + c) % n == c
  {
    assert (r + 1) * n == r * n + n;
    MulMonotone(r + 1, n, n);
    DivModOf(r * n + c, n, r, c);
  }

  /** The square in row r, column c. */
  function At(squares: seq<Cell>, n: nat, r: nat, c: nat): Cell
    requires |squares| == n * n && r < n && c < n
  {
    CellIndex(n, r, c);
    squares[r * n + c]
  }

  /** Every square of the board holds a mark: no square is empty. */
  predicate IsBoardFull(squares: seq<Cell>): (full: bool)
    ensures full <==> None !in squares
  {
    forall k | 0 <= k < |squares| :: squares[k] != None
  }

  // ---------------------------------------------------------------------
  // Reference definition of a win, in terms of rows and columns.
  // ---------------------------------------------------------------------

  ghost predicate RowOf(squares: seq<Cell>, n: nat, r: nat, m: Mark)
    requires |squares| == n * n && r < n
  {
    forall c: nat | c < n :: At(squares, n, r, c) == Some(m)
  }

  ghost predicate ColumnOf(squares: seq<Cell>, n: nat, c: nat, m: Mark)
    requires |squares| == n * n && c < n
  {
    forall r: nat | r < n :: At(squares, n, r, c) == Some(m)
  }

  ghost predicate DiagonalOf(squares: seq<Cell>, n: nat, m: Mark)
    requires |squares| == n * n
  {
    forall k: nat | k < n :: At(squares, n, k, k) == Some(m)
  }

  ghost predicate AntiDiagonalOf(squares: seq<Cell>, n: nat, m: Mark)
    requires |squares| == n * n
  {
    forall r: nat, c: nat | r < n && c < n && r + c == n - 1 :: At(squares, n, r, c) == Some(m)
  }

  /** Some row, column, the main diagonal or the anti-diagonal of a
      non-empty board is filled with mark m. */
  ghost predicate HasLine(squares: seq<Cell>, n: nat, m: Mark)
    requires |squares| == n * n
  {
    && 0 < n
    && (|| (exists r: nat | r < n :: RowOf(squares, n, r, m))
        || (exists c: nat | c < n :: ColumnOf(squares, n, c, m))
        || DiagonalOf(squares, n, m)
        || AntiDiagonalOf(squares, n, m))
  }

  // ---------------------------------------------------------------------
  // The candidate lines, as lists of flat indices, in the game's order:
  // row 0, column 0, row 1, column 1, ..., main diagonal, anti-diagonal.
  // ---------------------------------------------------------------------

  /** Row r: n squares from the first square of the row, left to right. */
  function Row(n: nat, r: nat): (line: seq<int>)
    ensures |line| == n
    ensures 0 < n ==> line[0] == r * n
    ensures forall i, j | 0 <= i && i + 1 == j < n :: line[j] == line[i] + 1
    ensures r < n ==> IndexesBoard(line, n * n)
  {
    var line := seq(n, j => r * n + j);
    assert r < n ==> IndexesBoard(line, n * n) by {
      if r < n {
        forall j | 0 <= j < n ensures 0 <= line[j] < n * n {
          CellIndex(n, r, j);
        }
      }
    }
    line
  }

  /** Column c: n squares from the top of the column, each one row below
      the one before. */
  function Column(n: nat, c: nat): (line: seq<int>)
    ensures |line| == n
    ensures 0 < n ==> line[0] == c
    ensures forall i, j | 0 <= i && i + 1 == j < n :: line[j] == line[i] + n
    ensures c < n ==> IndexesBoard(line, n * n)
  {
    var line := seq(n, j => j * n + c);
    assert forall i, j | 0 <= i && i + 1 == j < n :: line[j] == line[i] + n by {
      forall i, j | 0 <= i && i + 1 == j < n ensures line[j] == line[i] + n {
        assert j * n == i * n + n;
      }
    }
    assert c < n ==> IndexesBoard(line, n * n) by {
      if c < n {
        forall j | 0 <= j < n ensures 0 <= line[j] < n * n {
          CellIndex(n, j, c);
        }
      }
    }
    line
  }

  /** The main diagonal: n squares from the top-left corner, each one row
      down and one column right of the one before. */
  function Diagonal(n: nat): (line: seq<int>)
    ensures |line| == n
    ensures 0 < n ==> line[0] == 0
    ensures forall i, j | 0 <= i && i + 1 == j < n :: line[j] == line[i] + n + 1
    ensures IndexesBoard(line, n * n)
  {
    var line := seq(n, k => k * n + k);
    assert forall i, j | 0 <= i && i + 1 == j < n :: line[j] == line[i] + n + 1 by {
      forall i, j | 0 <= i && i + 1 == j < n ensures line[j] == line[i] + n + 1 {
        assert j * n == i * n + n;
      }
    }
    assert IndexesBoard(line, n * n) by {
      forall k | 0 <= k < n ensures 0 <= line[k] < n * n {
        CellIndex(n, k, k);
      }
    }
    line
  }

  /** The anti-diagonal: n squares from the bottom-left corner, each one
      row up and one column right of the one before. */
  function AntiDiagonal(n: nat): (line: seq<int>)
    ensures |line| == n
    ensures 0 < n ==> line[0] == (n - 1) * n
    ensures forall i, j | 0 <= i && i + 1 == j < n :: line[j] == line[i] - n + 1
    ensures IndexesBoard(line, n * n)
  {
    var line := seq(n, k => (n - 1 - k) * n + k);
    assert forall i, j | 0 <= i && i + 1 == j < n :: line[j] == line[i] - n + 1 by {
      forall i, j | 0 <= i && i + 1 == j < n ensures line[j] == line[i] - n + 1 {
        assert (n - 1 - i) * n == (n - 1 - j) * n + n;
      }
    }
    assert IndexesBoard(line, n * n) by {
      forall k | 0 <= k < n ensures 0 <= line[k] < n * n {
        CellIndex(n, n - 1 - k, k);
      }
    }
    line
  }

  /** Entry 2*i is row i and entry 2*i+1 is column i, then the diagonals:
      each of the first 2*n entries is a line of n squares of the board. */
  function RowOrColumn(n: nat, k: nat): (line: seq<int>)
    ensures |line| == n
    ensures k < 2 * n ==> IndexesBoard(line, n * n)
  {
    if k % 2 == 0 then Row(n, k / 2) else Column(n, k / 2)
  }

  /** Every entry of the line indexes a board of `size` squares. */
  predicate IndexesBoard(line: seq<int>, size: nat) {
    forall k | 0 <= k < |line| :: 0 <= line[k] < size
  }

  /** Every entry of every line indexes a board of `size` squares. */
  predicate InRange(lines: seq<seq<int>>, size: nat) {
    forall l | 0 <= l < |lines| :: IndexesBoard(lines[l], size)
  }

  /** The candidate lines: 2*n+2 of them, each of n squares, each reading
      only squares of an n-by-n board. */
  function Lines(n: nat): (lines: seq<seq<int>>)
    ensures |lines| == 2 * n + 2
    ensures forall l | 0 <= l < |lines| :: |lines[l]| == n
    ensures InRange(lines, n * n)
  {
    seq(2 * n, k requires 0 <= k => RowOrColumn(n, k)) + [Diagonal(n), AntiDiagonal(n)]
  }

  // ---------------------------------------------------------------------
  // Win detection, as the game scans the lines.
  // ---------------------------------------------------------------------

  /** The first square of the line holds a mark and every square of the
      line holds that same mark. */
  predicate Won(squares: seq<Cell>, line: seq<int>)
    requires IndexesBoard(line, |squares|)
  {
    |line| > 0 && squares[line[0]] != None &&
    forall k | 0 <= k < |line| :: squares[line[k]] == squares[line[0]]
  }

  /** The position of the first won line, or |lines| when none is won. */
  function FirstWonLine(squares: seq<Cell>, lines: seq<seq<int>>): (l: nat)
    requires InRange(lines, |squares|)
    ensures l <= |lines|
    ensures l < |lines| ==> Won(squares, lines[l])
    ensures forall j | 0 <= j < l :: !Won(squares, lines[j])
    decreases |lines|
  {
    if lines == [] then 0
    else if Won(squares, lines[0]) then 0
    else 1 + FirstWonLine(squares, lines[1..])
  }

  /** The mark of the first won candidate line, or None when no
      candidate line is won. */
  function Winner(squares: seq<Cell>, n: nat): Cell
    requires |squares| == n * n
  {
    var lines := Lines(n);
    var l := FirstWonLine(squares, lines);
    if l < |lines| then squares[lines[l][0]] else None
  }

  /** The game reports nobody exactly when no candidate line is won, and
      otherwise the mark of a won line before which no line is won. */
  lemma WinnerIsFirstWonLine(squares: seq<Cell>, n: nat)
    requires |squares| == n * n
    ensures Winner(squares, n) == None <==> forall l | 0 <= l < |Lines(n)| :: !Won(squares, Lines(n)[l])
    ensures Winner(squares, n) != None ==>
      exists l | 0 <= l < |Lines(n)| ::
        && Won(squares, Lines(n)[l]) && squares[Lines(n)[l][0]] == Winner(squares, n)
        && forall j | 0 <= j < l :: !Won(squares, Lines(n)[j])
  {
    var l := FirstWonLine(squares, Lines(n));
    if l < |Lines(n)| {
      assert Won(squares, Lines(n)[l]);
    }
  }

  /** Rows and columns interleaved, followed by the two diagonals, are
      the candidate lines. */
  lemma LinesInOrder(n: nat, lines: seq<seq<int>>)
    requires |lines| == 2 * n
    requires forall k | 0 <= k < 2 * n :: lines[k] == RowOrColumn(n, k)
    ensures lines + [Diagonal(n), AntiDiagonal(n)] == Lines(n)
  {
  }

  /** The scan of the game, with its two loops: one that builds the lines
      and one that returns on the first won line. */
  method CalculateWinner(squares: seq<Cell>, size: nat) returns (winner: Cell)
    requires |squares| == size * size
    ensures winner == Winner(squares, size)
  {
    var lines: seq<seq<int>> := [];
    for i := 0 to size
      invariant |lines| == 2 * i
      invariant forall k | 0 <= k < 2 * i :: lines[k] == RowOrColumn(size, k)
    {
      lines := lines + [Row(size, i)];
      lines := lines + [Column(size, i)];
    }
    LinesInOrder(size, lines);
    lines := lines + [Diagonal(size), AntiDiagonal(size)];
    for i := 0 to |lines|
      invariant forall j | 0 <= j < i :: !Won(squares, lines[j])
    {
      var line := lines[i];
      if Won(squares, line) {
        return squares[line[0]];
      }
    }
    return None;
  }

  // ---------------------------------------------------------------------
  // Agreement of the scan with the reference definition.
  // ---------------------------------------------------------------------

  /** Every square of the line holds mark m. */
  ghost predicate LineOf(squares: seq<Cell>, line: seq<int>, m: Mark)
    requires IndexesBoard(line, |squares|)
  {
    forall k | 0 <= k < |line| :: squares[line[k]] == Some(m)
  }

  /** Row r, as the game lists it, is filled with m exactly when row r
      of the board is. */
  lemma RowMeaning(squares: seq<Cell>, n: nat, r: nat, m: Mark)
    requires |squares| == n * n && r < n
    ensures LineOf(squares, Row(n, r), m) <==> RowOf(squares, n, r, m)
  {
    var line := Row(n, r);
    assert forall c: nat | c < n :: squares[line[c]] == At(squares, n, r, c);
  }

  /** Column c, as the game lists it, is filled with m exactly when
      column c of the board is. */
  lemma ColumnMeaning(squares: seq<Cell>, n: nat, c: nat, m: Mark)
    requires |squares| == n * n && c < n
    ensures LineOf(squares, Column(n, c), m) <==> ColumnOf(squares, n, c, m)
  {
    var line := Column(n, c);
    assert forall r: nat | r < n :: squares[line[r]] == At(squares, n, r, c);
  }

  /** The listed main diagonal is filled with m exactly when the board's
      main diagonal is. */
  lemma DiagonalMeaning(squares: seq<Cell>, n: nat, m: Mark)
    requires |squares| == n * n
    ensures LineOf(squares, Diagonal(n), m) <==> DiagonalOf(squares, n, m)
  {
    var line := Diagonal(n);
    assert forall k: nat | k < n :: squares[line[k]] == At(squares, n, k, k);
  }

  /** The listed anti-diagonal is filled with m exactly when the board's
      anti-diagonal is. */
  lemma AntiDiagonalMeaning(squares: seq<Cell>, n: nat, m: Mark)
    requires |squares| == n * n
    ensures LineOf(squares, AntiDiagonal(n), m) <==> AntiDiagonalOf(squares, n, m)
  {
    var line := AntiDiagonal(n);
    assert forall k: nat | k < n :: squares[line[k]] == At(squares, n, n - 1 - k, k);
    if LineOf(squares, line, m) {
      forall r: nat, c: nat | r < n && c < n && r + c == n - 1
        ensures At(squares, n, r, c) == Some(m)
      {
        assert squares[line[c]] == At(squares, n, n - 1 - c, c);
      }
    }
  }

  /** A line is won exactly when it is not empty and some mark fills it. */
  lemma WonIff(squares: seq<Cell>, line: seq<int>)
    requires IndexesBoard(line, |squares|)
    ensures Won(squares, line) <==> |line| > 0 && exists m :: LineOf(squares, line, m)
  {
    if Won(squares, line) {
      assert LineOf(squares, line, squares[line[0]].value);
    }
    forall m | |line| > 0 && LineOf(squares, line, m)
      ensures Won(squares, line)
    {
      assert squares[line[0]] == Some(m);
    }
  }

  /** Candidate line l is filled with m exactly when the row, column or
      diagonal it stands for is. */
  lemma LineMeaning(squares: seq<Cell>, n: nat, l: nat, m: Mark)
    requires |squares| == n * n && l < 2 * n + 2
    ensures LineOf(squares, Lines(n)[l], m) <==>
      if l < 2 * n && l % 2 == 0 then RowOf(squares, n, l / 2, m)
      else if l < 2 * n then ColumnOf(squares, n, l / 2, m)
      else if l == 2 * n then DiagonalOf(squares, n, m)
      else AntiDiagonalOf(squares, n, m)
  {
    if l < 2 * n && l % 2 == 0 {
      assert Lines(n)[l] == Row(n, l / 2);
      RowMeaning(squares, n, l / 2, m);
    } else if l < 2 * n {
      assert Lines(n)[l] == Column(n, l / 2);
      ColumnMeaning(squares, n, l / 2, m);
    } else if l == 2 * n {
      assert Lines(n)[l] == Diagonal(n);
      DiagonalMeaning(squares, n, m);
    } else {
      assert Lines(n)[l] == AntiDiagonal(n);
      AntiDiagonalMeaning(squares, n, m);
    }
  }

  /** Some candidate line is filled with m. */
  ghost predicate SomeLineOf(squares: seq<Cell>, n: nat, m: Mark)
    requires |squares| == n * n
  {
    exists l | 0 <= l < |Lines(n)| :: LineOf(squares, Lines(n)[l], m)
  }

  /** A candidate line filled with m is a row, column or diagonal of m. */
  lemma LineGivesHasLine(squares: seq<Cell>, n: nat, l: nat, m: Mark)
    requires |squares| == n * n && 0 < n
    requires l < 2 * n + 2 && LineOf(squares, Lines(n)[l], m)
    ensures HasLine(squares, n, m)
  {
    LineMeaning(squares, n, l, m);
    if l < 2 * n && l % 2 == 0 {
      assert RowOf(squares, n, l / 2, m);
    } else if l < 2 * n {
      assert ColumnOf(squares, n, l / 2, m);
    }
  }

  /** m fills some candidate line exactly when it fills some row, column
      or diagonal. */
  lemma HasLineIff(squares: seq<Cell>, n: nat, m: Mark)
    requires |squares| == n * n
    ensures HasLine(squares, n, m) <==> 0 < n && SomeLineOf(squares, n, m)
  {
    if HasLine(squares, n, m) {
      HasLineGivesSomeLine(squares, n, m);
    }
    if 0 < n && SomeLineOf(squares, n, m) {
      var l :| 0 <= l < |Lines(n)| && LineOf(squares, Lines(n)[l], m);
      LineGivesHasLine(squares, n, l, m);
    }
  }

  /** A row, column or diagonal filled with m is a candidate line filled
      with m. */
  lemma HasLineGivesSomeLine(squares: seq<Cell>, n: nat, m: Mark)
    requires |squares| == n * n && HasLine(squares, n, m)
    ensures SomeLineOf(squares, n, m)
  {
    var lines := Lines(n);
    var l: nat;
    if r: nat :| r < n && RowOf(squares, n, r, m) {
      l := 2 * r;
    } else if c: nat :| c < n && ColumnOf(squares, n, c, m) {
      l := 2 * c + 1;
    } else if DiagonalOf(squares, n, m) {
      l := 2 * n;
    } else {
      l := 2 * n + 1;
    }
    LineMeaning(squares, n, l, m);
    assert LineOf(squares, lines[l], m);
  }

  /** When the scan finds a won line, the reported mark fills a row,
      column or diagonal. */
  lemma FoundWinnerHasLine(squares: seq<Cell>, n: nat)
    requires |squares| == n * n
    requires FirstWonLine(squares, Lines(n)) < |Lines(n)|
    ensures Winner(squares, n) != None
    ensures forall m :: Winner(squares, n) == Some(m) ==> HasLine(squares, n, m)
  {
    var lines := Lines(n);
    var l := FirstWonLine(squares, lines);
    var m := squares[lines[l][0]].value;
    assert Winner(squares, n) == Some(m);
    assert LineOf(squares, lines[l], m);
    HasLineIff(squares, n, m);
  }

  /** When the scan finds no won line, no row, column or diagonal is
      filled with one mark. */
  lemma NoWinnerNoLine(squares: seq<Cell>, n: nat)
    requires |squares| == n * n
    requires FirstWonLine(squares, Lines(n)) == |Lines(n)|
    ensures Winner(squares, n) == None
    ensures !HasLine(squares, n, X) && !HasLine(squares, n, O)
  {
    var lines := Lines(n);
    HasLineIff(squares, n, X);
    HasLineIff(squares, n, O);
    forall m: Mark | 0 < n
      ensures !SomeLineOf(squares, n, m)
    {
      forall j | 0 <= j < |lines|
        ensures !LineOf(squares, lines[j], m)
      {
        var line := lines[j];
        assert !Won(squares, line);
        if squares[line[0]] != None {
          var k :| 0 <= k < |line| && squares[line[k]] != squares[line[0]];
          assert squares[line[k]] != Some(m) || squares[line[0]] != Some(m);
        }
      }
    }
  }

  /** The game reports a winner exactly when some row, column or diagonal
      is filled with one mark, and the mark it reports fills such a line. */
  lemma WinnerIffLine(squares: seq<Cell>, n: nat)
    requires |squares| == n * n
    ensures Winner(squares, n) == None <==> !HasLine(squares, n, X) && !HasLine(squares, n, O)
    ensures forall m :: Winner(squares, n) == Some(m) ==> HasLine(squares, n, m)
  {
    if FirstWonLine(squares, Lines(n)) < |Lines(n)| {
      FoundWinnerHasLine(squares, n);
      if Winner(squares, n) == Some(X) {
        assert HasLine(squares, n, X);
      } else {
        assert Winner(squares, n).value == O;
        assert HasLine(squares, n, O);
      }
    } else {
      NoWinnerNoLine(squares, n);
    }
  }

  /** When only one mark can fill a line, the game reports that mark
      exactly when it fills some row, column or diagonal, and never
      reports the other mark. */
  lemma WinnerOfSoleMark(squares: seq<Cell>, n: nat, m: Mark)
    requires |squares| == n * n
    requires !HasLine(squares, n, Other(m))
    ensures Winner(squares, n) == Some(m) <==> HasLine(squares, n, m)
    ensures Winner(squares, n) != Some(Other(m))
  {
    WinnerIffLine(squares, n);
    var w := Winner(squares, n);
    assert w != Some(Other(m));
    if HasLine(squares, n, m) {
      assert w != None;
      assert w.value == m;
    }
  }

  // ---------------------------------------------------------------------
  // Lines under changes of the board.
  // ---------------------------------------------------------------------

  /** Where every square holding m on board a also holds m on board b,
      every line of m on a is a line of m on b. */
  lemma LinesCarryOver(a: seq<Cell>, b: seq<Cell>, n: nat, m: Mark)
    requires |a| == n * n && |b| == n * n
    requires forall r: nat, c: nat | r < n && c < n :: At(a, n, r, c) == Some(m) ==> At(b, n, r, c) == Some(m)
    ensures HasLine(a, n, m) ==> HasLine(b, n, m)
  {
    if HasLine(a, n, m) {
      if r: nat :| r < n && RowOf(a, n, r, m) {
        assert RowOf(b, n, r, m);
      } else if c: nat :| c < n && ColumnOf(a, n, c, m) {
        assert ColumnOf(b, n, c, m);
      } else if DiagonalOf(a, n, m) {
        assert DiagonalOf(b, n, m);
      } else {
        assert AntiDiagonalOf(b, n, m);
      }
    }
  }

  /** Writing mark p into an empty square keeps every existing line, and
      creates no line for the other mark. */
  lemma PlaceKeepsLines(squares: seq<Cell>, n: nat, i: nat, p: Mark)
    requires |squares| == n * n && i < |squares| && squares[i] == None
    ensures forall m :: HasLine(squares, n, m) ==> HasLine(squares[i := Some(p)], n, m)
    ensures HasLine(squares[i := Some(p)], n, Other(p)) ==> HasLine(squares, n, Other(p))
  {
    var next := squares[i := Some(p)];
    forall m: Mark
      ensures HasLine(squares, n, m) ==> HasLine(next, n, m)
    {
      forall r: nat, c: nat | r < n && c < n && At(squares, n, r, c) == Some(m)
        ensures At(next, n, r, c) == Some(m)
      {
        CellIndex(n, r, c);
      }
      LinesCarryOver(squares, next, n, m);
    }
    forall r: nat, c: nat | r < n && c < n && At(next, n, r, c) == Some(Other(p))
      ensures At(squares, n, r, c) == Some(Other(p))
    {
      CellIndex(n, r, c);
      assert r * n + c != i;
    }
    LinesCarryOver(next, squares, n, Other(p));
  }

  /** A board on which no square holds m has no line of m. */
  lemma NoLineWithoutMark(squares: seq<Cell>, n: nat, m: Mark)
    requires |squares| == n * n
    requires forall k | 0 <= k < |squares| :: squares[k] != Some(m)
    ensures !HasLine(squares, n, m)
  {
    forall r: nat, c: nat | r < n && c < n
      ensures At(squares, n, r, c) != Some(m)
    {
      CellIndex(n, r, c);
    }
    if 0 < n {
      forall r: nat | r < n
        ensures !RowOf(squares, n, r, m) && !ColumnOf(squares, n, r, m)
      {
        assert At(squares, n, r, 0) != Some(m);
        assert At(squares, n, 0, r) != Some(m);
      }
      assert !DiagonalOf(squares, n, m) by {
        assert At(squares, n, 0, 0) != Some(m);
      }
      assert !AntiDiagonalOf(squares, n, m) by {
        assert At(squares, n, n - 1, 0) != Some(m);
      }
    }
  }

  // ---------------------------------------------------------------------
  // Board growth.
  // ---------------------------------------------------------------------

  /** Square k of the board grown from side n to side n+1: the old square
      in the same row and column inside the old sub-grid, empty outside. */
  function ExpandedCell(squares: seq<Cell>, n: nat, k: nat): (cell: Cell)
    requires |squares| == n * n
    ensures k / (n + 1) >= n || k % (n + 1) == n ==> cell == None
    ensures cell != None ==> cell in squares
  {
    var r, c := k / (n + 1), k % (n + 1);
    if r < n && c < n then CellIndex(n, r, c); At(squares, n, r, c) else None
  }

  /** The board grown from side n to side n+1: (n+1)*(n+1) squares, and
      every mark on it is a mark of the old board. */
  function Expanded(squares: seq<Cell>, n: nat): (grown: seq<Cell>)
    requires |squares| == n * n
    ensures |grown| == (n + 1) * (n + 1)
    ensures forall k | 0 <= k < |grown| :: grown[k] != None ==> grown[k] in squares
  {
    seq((n + 1) * (n + 1), k requires 0 <= k => ExpandedCell(squares, n, k))
  }

  /** The grown board has (n+1)*(n+1) squares; square (r, c) of it holds the
      old square (r, c) when r, c < n and is empty otherwise. */
  lemma ExpandedAt(squares: seq<Cell>, n: nat, r: nat, c: nat)
    requires |squares| == n * n && r < n + 1 && c < n + 1
    ensures |Expanded(squares, n)| == (n + 1) * (n + 1)
    ensures At(Expanded(squares, n), n + 1, r, c) == if r < n && c < n then At(squares, n, r, c) else None
  {
    CellIndex(n + 1, r, c);
  }

  /** The progress of the copy that grows a board: the squares of the old
      rows before `row`, and of row `row` before column `col`, are in
      place, and every other square is still empty. */
  ghost predicate CopiedUpTo(grown: seq<Cell>, squares: seq<Cell>, n: nat, row: nat, col: nat)
    requires |squares| == n * n
  {
    forall k | 0 <= k < |grown| ::
      grown[k] == if k / (n + 1) < row || (k / (n + 1) == row && k % (n + 1) < col)
                  then ExpandedCell(squares, n, k) else None
  }

  /** An index other than that of square (row, col) lies in another row or
      another column. */
  lemma OtherSquare(k: nat, w: nat, row: nat, col: nat)
    requires 0 < w && k != row * w + col
    ensures !(k / w == row && k % w == col)
  {
    DivModOf(k, w, k / w, k % w);
  }

  /** Copying old square (row, col) to its place extends the progress by
      one column. */
  lemma CopyStep(grown: seq<Cell>, squares: seq<Cell>, n: nat, row: nat, col: nat)
    requires |squares| == n * n && |grown| == (n + 1) * (n + 1)
    requires row < n && col < n
    requires CopiedUpTo(grown, squares, n, row, col)
    ensures 0 <= row * (n + 1) + col < |grown| && 0 <= row * n + col < |squares|
    ensures CopiedUpTo(grown[row * (n + 1) + col := squares[row * n + col]], squares, n, row, col + 1)
  {
    var w := n + 1;
    var k0 := row * w + col;
    CellIndex(w, row, col);
    CellIndex(n, row, col);
    var next := grown[k0 := squares[row * n + col]];
    forall k | 0 <= k < |next|
      ensures next[k] == if k / w < row || (k / w == row && k % w < col + 1)
                         then ExpandedCell(squares, n, k) else None
    {
      if k == k0 {
        assert ExpandedCell(squares, n, k) == At(squares, n, row, col);
      } else {
        OtherSquare(k, w, row, col);
      }
    }
  }

  /** A finished row hands over to the start of the next. */
  lemma CopyNextRow(grown: seq<Cell>, squares: seq<Cell>, n: nat, row: nat)
    requires |squares| == n * n
    requires CopiedUpTo(grown, squares, n, row, n)
    ensures CopiedUpTo(grown, squares, n, row + 1, 0)
  {
  }

  /** When every old row is copied, the result is the grown board. */
  lemma CopyDone(grown: seq<Cell>, squares: seq<Cell>, n: nat)
    requires |squares| == n * n && |grown| == (n + 1) * (n + 1)
    requires CopiedUpTo(grown, squares, n, n, 0)
    ensures grown == Expanded(squares, n)
  {
  }

  /** A grown board has no complete line: the new last row and column are
      empty and both diagonals cross them. */
  lemma ExpandedHasNoLine(squares: seq<Cell>, n: nat, m: Mark)
    requires |squares| == n * n
    ensures !HasLine(Expanded(squares, n), n + 1, m)
  {
    var e := Expanded(squares, n);
    var w := n + 1;
    forall r: nat | r < w
      ensures !RowOf(e, w, r, m) && !ColumnOf(e, w, r, m)
    {
      ExpandedAt(squares, n, r, n);
      ExpandedAt(squares, n, n, r);
      assert At(e, w, r, n) == None && At(e, w, n, r) == None;
    }
    assert !DiagonalOf(e, w, m) by {
      ExpandedAt(squares, n, n, n);
      assert At(e, w, n, n) == None;
    }
    assert !AntiDiagonalOf(e, w, m) by {
      ExpandedAt(squares, n, n, 0);
      assert At(e, w, n, 0) == None;
    }
  }

  /** Growing a full 3-by-3 board: its nine squares land, row by row, on
      squares 0-2, 4-6 and 8-10 of the 4-by-4 board, and the other seven
      squares are empty. */
  lemma GrowThreeByThree(squares: seq<Cell>)
    requires |squares| == 9
    ensures Expanded(squares, 3) ==
      squares[0..3] + [None] + squares[3..6] + [None] + squares[6..9] + [None, None, None, None, None]
  {
    var e := Expanded(squares, 3);
    var want := squares[0..3] + [None] + squares[3..6] + [None] + squares[6..9] + [None, None, None, None, None];
    forall k | 0 <= k < 16
      ensures e[k] == want[k]
    {
      DivModOf(k, 4, k / 4, k % 4);
    }
  }

  /** A grown board always has an empty square, so play continues on it. */
  lemma ExpandedNotFull(squares: seq<Cell>, n: nat)
    requires |squares| == n * n
    ensures !IsBoardFull(Expanded(squares, n))
  {
    ExpandedAt(squares, n, n, n);
    CellIndex(n + 1, n, n);
    assert Expanded(squares, n)[n * (n + 1) + n] == None;
  }
}
