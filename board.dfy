/**
 * The tic-tac-toe board of one room: nine cells holding `null`, 'X' or 'O',
 * the winner test `checkWinner` (backend/index.js:172-186) and the draw test
 * `board.every(cell => cell !== null)` (backend/index.js:122).
 */
module Board {
  import opened Options

  datatype Symbol = X | O

  /** One cell: `null` in the source is Empty. */
  datatype Cell = Empty | Mark(symbol: Symbol)

  /** The other player's symbol (`currentPlayer === 'X' ? 'O' : 'X'`). */
  function Other(s: Symbol): (t: Symbol)
    ensures t != s
  {
    if s == X then O else X
  }

  /** `Array(9).fill(null)` */
  const EmptyBoard: seq<Cell> := [Empty, Empty, Empty, Empty, Empty, Empty, Empty, Empty, Empty]

  /** `board[i]`, where an index outside the array reads `undefined`, which is falsy like `null`. */
  function CellAt(b: seq<Cell>, i: int): Cell
  {
    if 0 <= i < |b| then b[i] else Empty
  }

  /** Three cell indices that win when equal and occupied. */
  datatype Triple = Triple(first: nat, second: nat, third: nat)

  /** `winPatterns`, in the order the source scans them: rows, columns, diagonals. */
  const WinPatterns: seq<Triple> := [
    Triple(0, 1, 2), Triple(3, 4, 5), Triple(6, 7, 8),
    Triple(0, 3, 6), Triple(1, 4, 7), Triple(2, 5, 8),
    Triple(0, 4, 8), Triple(2, 4, 6)
  ]

  /** `board[a] && board[a] === board[b] && board[a] === board[c]` */
  predicate Completes(b: seq<Cell>, t: Triple)
  {
    CellAt(b, t.first) != Empty && CellAt(b, t.first) == CellAt(b, t.second) && CellAt(b, t.first) == CellAt(b, t.third)
  }

  /** The pattern at index `j` is won and no pattern before it (from `k` on) is. */
  ghost predicate FirstCompletedFrom(b: seq<Cell>, k: nat, j: int)
  {
    k <= j < |WinPatterns| && Completes(b, WinPatterns[j])
    && forall i :: k <= i < j ==> !Completes(b, WinPatterns[i])
  }

  /** The scan of `checkWinner` from pattern `k` on: the symbol of the first completed pattern, or None. */
  function FirstWinnerFrom(b: seq<Cell>, k: nat): Option<Symbol>
    requires k <= |WinPatterns|
    decreases |WinPatterns| - k
  {
    if k == |WinPatterns| then None
    else if Completes(b, WinPatterns[k]) then Some(CellAt(b, WinPatterns[k].first).symbol)
    else FirstWinnerFrom(b, k + 1)
  }

  /**
   * The scan from `k` finds a symbol exactly when some pattern from `k` on is
   * completed, and then it is the symbol of the first such pattern.
   */
  lemma {:induction false} FirstWinnerFromFinds(b: seq<Cell>, k: nat)
    requires k <= |WinPatterns|
    ensures FirstWinnerFrom(b, k).Some? <==> exists j :: k <= j < |WinPatterns| && Completes(b, WinPatterns[j])
    ensures FirstWinnerFrom(b, k).Some? ==> exists j :: FirstCompletedFrom(b, k, j) && CellAt(b, WinPatterns[j].first) == Mark(FirstWinnerFrom(b, k).value)
    decreases |WinPatterns| - k
  {
    if k < |WinPatterns| {
      if Completes(b, WinPatterns[k]) {
        assert FirstCompletedFrom(b, k, k);
      } else {
        FirstWinnerFromFinds(b, k + 1);
        if FirstWinnerFrom(b, k).Some? {
          var j :| FirstCompletedFrom(b, k + 1, j) && CellAt(b, WinPatterns[j].first) == Mark(FirstWinnerFrom(b, k).value);
          assert FirstCompletedFrom(b, k, j);
        }
      }
    }
  }

  /**
   * `checkWinner(board)`: some symbol exactly when one of the eight patterns is
   * completed, and then the symbol of the first completed pattern.
   */
  function CheckWinner(b: seq<Cell>): (r: Option<Symbol>)
    ensures r.Some? <==> exists j :: 0 <= j < |WinPatterns| && Completes(b, WinPatterns[j])
    ensures r.Some? ==> exists j :: FirstCompletedFrom(b, 0, j) && CellAt(b, WinPatterns[j].first) == Mark(r.value)
  {
    FirstWinnerFromFinds(b, 0);
    FirstWinnerFrom(b, 0)
  }

  /** `board.every(cell => cell !== null)` */
  predicate Full(b: seq<Cell>)
  {
    forall i :: 0 <= i < |b| ==> b[i] != Empty
  }

  /** The number of cells marked `s`. */
  function Count(b: seq<Cell>, s: Symbol): nat
  {
    multiset(b)[Mark(s)]
  }

  // An independent description of a win on the 3x3 grid, by rows, columns and diagonals.

  /** The cell in row `row` and column `col` of the grid. */
  function At(b: seq<Cell>, row: int, col: int): Cell
  {
    CellAt(b, 3 * row + col)
  }

  ghost predicate RowFilled(b: seq<Cell>, row: int, s: Symbol)
  {
    At(b, row, 0) == Mark(s) && At(b, row, 1) == Mark(s) && At(b, row, 2) == Mark(s)
  }

  ghost predicate ColumnFilled(b: seq<Cell>, col: int, s: Symbol)
  {
    At(b, 0, col) == Mark(s) && At(b, 1, col) == Mark(s) && At(b, 2, col) == Mark(s)
  }

  ghost predicate DiagonalFilled(b: seq<Cell>, s: Symbol)
  {
    At(b, 0, 0) == Mark(s) && At(b, 1, 1) == Mark(s) && At(b, 2, 2) == Mark(s)
  }

  ghost predicate AntiDiagonalFilled(b: seq<Cell>, s: Symbol)
  {
    At(b, 0, 2) == Mark(s) && At(b, 1, 1) == Mark(s) && At(b, 2, 0) == Mark(s)
  }

  /** `s` holds a full row, column or diagonal. */
  ghost predicate HasLine(b: seq<Cell>, s: Symbol)
  {
    (exists row :: 0 <= row < 3 && RowFilled(b, row, s))
    || (exists col :: 0 <= col < 3 && ColumnFilled(b, col, s))
    || DiagonalFilled(b, s)
    || AntiDiagonalFilled(b, s)
  }

  /** A pattern completed by `s`. */
  ghost predicate PatternOf(b: seq<Cell>, s: Symbol)
  {
    exists j :: 0 <= j < |WinPatterns| && Completes(b, WinPatterns[j]) && CellAt(b, WinPatterns[j].first) == Mark(s)
  }

  /** A pattern is completed by `s` exactly when `s` holds some line of the grid. */
  lemma PatternsAreLines(b: seq<Cell>, s: Symbol)
    ensures PatternOf(b, s) <==> HasLine(b, s)
  {
    if HasLine(b, s) {
      LineIsPattern(b, s);
    }
    if PatternOf(b, s) {
      PatternIsLine(b, s);
    }
  }

  lemma LineIsPattern(b: seq<Cell>, s: Symbol)
    requires HasLine(b, s)
    ensures PatternOf(b, s)
  {
    if exists row :: 0 <= row < 3 && RowFilled(b, row, s) {
      var row :| 0 <= row < 3 && RowFilled(b, row, s);
      assert Completes(b, WinPatterns[row]) && CellAt(b, WinPatterns[row].first) == Mark(s);
    } else if exists col :: 0 <= col < 3 && ColumnFilled(b, col, s) {
      var col :| 0 <= col < 3 && ColumnFilled(b, col, s);
      assert Completes(b, WinPatterns[3 + col]) && CellAt(b, WinPatterns[3 + col].first) == Mark(s);
    } else if DiagonalFilled(b, s) {
      assert Completes(b, WinPatterns[6]) && CellAt(b, WinPatterns[6].first) == Mark(s);
    } else {
      assert Completes(b, WinPatterns[7]) && CellAt(b, WinPatterns[7].first) == Mark(s);
    }
  }

  lemma PatternIsLine(b: seq<Cell>, s: Symbol)
    requires PatternOf(b, s)
    ensures HasLine(b, s)
  {
    var j :| 0 <= j < |WinPatterns| && Completes(b, WinPatterns[j]) && CellAt(b, WinPatterns[j].first) == Mark(s);
    if j < 3 {
      assert RowFilled(b, j, s);
    } else if j < 6 {
      assert ColumnFilled(b, j - 3, s);
    } else if j == 6 {
      assert DiagonalFilled(b, s);
    } else {
      assert AntiDiagonalFilled(b, s);
    }
  }

  /**
   * `checkWinner` against the grid description: it reports a symbol only when
   * that symbol holds a line, it reports none only when neither symbol does,
   * and when just one symbol holds a line it reports that symbol.
   */
  lemma CheckWinnerFindsLines(b: seq<Cell>)
    ensures CheckWinner(b).Some? ==> HasLine(b, CheckWinner(b).value)
    ensures CheckWinner(b) == None <==> !HasLine(b, X) && !HasLine(b, O)
    ensures forall s :: HasLine(b, s) && !HasLine(b, Other(s)) ==> CheckWinner(b) == Some(s)
  {
    PatternsAreLines(b, X);
    PatternsAreLines(b, O);
    var r := CheckWinner(b);
    if r.Some? {
      var j :| FirstCompletedFrom(b, 0, j) && CellAt(b, WinPatterns[j].first) == Mark(r.value);
      assert PatternOf(b, r.value);
      PatternsAreLines(b, r.value);
      assert HasLine(b, X) || HasLine(b, O) by {
        if r.value == X { assert HasLine(b, X); } else { assert HasLine(b, O); }
      }
    } else {
      forall s ensures !HasLine(b, s) {
        PatternsAreLines(b, s);
      }
    }
  }

  /**
   * On a board with no completed pattern, a pattern completed by writing
   * `s` into an empty cell is completed by `s`.
   */
  lemma WinAfterMarkIsMover(b: seq<Cell>, i: int, s: Symbol)
    requires 0 <= i < |b| && b[i] == Empty && CheckWinner(b) == None
    ensures CheckWinner(b[i := Mark(s)]).Some? ==> CheckWinner(b[i := Mark(s)]).value == s
  {
    var b' := b[i := Mark(s)];
    if CheckWinner(b').Some? {
      var j :| FirstCompletedFrom(b', 0, j) && CellAt(b', WinPatterns[j].first) == Mark(CheckWinner(b').value);
      assert !Completes(b, WinPatterns[j]);
    }
  }

  /** An empty board has no winner, is not full and holds no marks. */
  lemma EmptyBoardUndecided()
    ensures CheckWinner(EmptyBoard) == None && !Full(EmptyBoard)
    ensures Count(EmptyBoard, X) == 0 && Count(EmptyBoard, O) == 0
  {
    forall j | 0 <= j < |WinPatterns| ensures !Completes(EmptyBoard, WinPatterns[j]) {
      assert CellAt(EmptyBoard, WinPatterns[j].first) == Empty;
    }
    assert EmptyBoard[0] == Empty;
    EmptyBoardUnmarked(X);
    EmptyBoardUnmarked(O);
  }

  lemma EmptyBoardUnmarked(s: Symbol)
    ensures Count(EmptyBoard, s) == 0
  {
    assert Mark(s) !in EmptyBoard;
  }
}
