/**
  The board model of the solver: a grid of three-valued cells, row 0 on top,
  pieces falling to the largest empty row index of a column.
*/
module Board {
  import opened Wrappers

  /** Cell contents; the source encodes them as 0 (EMPTY), 1 (RED) and 2 (YEL). */
  datatype Cell = Empty | Red | Yel

  type Board = seq<seq<Cell>>

  /** At least one row (the source reads `board[0]`) and all rows equally long. */
  predicate WellFormed(b: Board)
  {
    |b| >= 1 && forall r :: 0 <= r < |b| ==> |b[r]| == |b[0]|
  }

  function Rows(b: Board): nat
  {
    |b|
  }

  function Cols(b: Board): nat
    requires |b| >= 1
  {
    |b[0]|
  }

  /** The other side, written exactly as the source writes it: anything but YEL plays against YEL. */
  function Opponent(p: Cell): Cell
  {
    if p == Yel then Red else Yel
  }

  /** `make_board`: a rows x cols grid of empty cells. */
  function MakeBoard(rows: nat, cols: nat): (b: Board)
    ensures |b| == rows
    ensures rows >= 1 ==> WellFormed(b) && Cols(b) == cols
    ensures forall r, c :: 0 <= r < rows && 0 <= c < cols ==> b[r][c] == Empty
  {
    seq(rows, _ => seq(cols, _ => Empty))
  }

  predicate SameShape(a: Board, b: Board)
    requires WellFormed(a) && WellFormed(b)
  {
    Rows(a) == Rows(b) && Cols(a) == Cols(b)
  }

  // ---------------------------------------------------------------------------
  // Legal moves
  // ---------------------------------------------------------------------------

  predicate Increasing(cs: seq<nat>)
  {
    forall i, j :: 0 <= i < j < |cs| ==> cs[i] < cs[j]
  }

  /** `get_valid_locations`: the columns whose top cell is empty, in ascending order. */
  function ValidLocations(b: Board): (cs: seq<nat>)
    requires WellFormed(b)
    ensures forall c: nat :: c in cs <==> c < Cols(b) && b[0][c] == Empty
    ensures Increasing(cs)
  {
    ValidFrom(b, 0)
  }

  /** The valid columns among `c`, `c + 1`, ..., the last column. */
  function ValidFrom(b: Board, c: nat): (cs: seq<nat>)
    requires WellFormed(b) && c <= Cols(b)
    ensures forall x :: x in cs <==> c <= x < Cols(b) && b[0][x] == Empty
    ensures Increasing(cs)
    decreases Cols(b) - c
  {
    if c == Cols(b) then []
    else if b[0][c] == Empty then
      var rest := ValidFrom(b, c + 1);
      assert forall j :: 0 <= j < |rest| ==> rest[j] in rest;
      [c] + rest
    else ValidFrom(b, c + 1)
  }

  /** `is_valid_location`. */
  function IsValidLocation(b: Board, col: nat): (v: bool)
    requires WellFormed(b) && col < Cols(b)
    ensures v <==> col in ValidLocations(b)
  {
    b[0][col] == Empty
  }

  /** `get_next_open_row`: the landing row of a piece dropped into `col`. */
  function NextOpenRow(b: Board, col: nat): (r: Option<nat>)
    requires WellFormed(b) && col < Cols(b)
    ensures r.None? <==> forall row :: 0 <= row < Rows(b) ==> b[row][col] != Empty
    ensures r.Some? ==> r.value < Rows(b) && b[r.value][col] == Empty
    ensures r.Some? ==> forall row :: r.value < row < Rows(b) ==> b[row][col] != Empty
  {
    OpenRowBelowSpec(b, col, Rows(b));
    OpenRowBelow(b, col, Rows(b))
  }

  /** Scans rows `n - 1` down to 0 of `col`, as the source's bottom-up loop does. */
  function OpenRowBelow(b: Board, col: nat, n: nat): (r: Option<nat>)
    requires WellFormed(b) && col < Cols(b) && n <= Rows(b)
    ensures r.Some? ==> r.value < n
  {
    if n == 0 then None
    else if b[n - 1][col] == Empty then Some(n - 1)
    else OpenRowBelow(b, col, n - 1)
  }

  /** The scan finds the lowest empty cell among the first `n` rows, and none only when they are all occupied. */
  lemma {:induction false} OpenRowBelowSpec(b: Board, col: nat, n: nat)
    requires WellFormed(b) && col < Cols(b) && n <= Rows(b)
    ensures var r := OpenRowBelow(b, col, n);
      && (r.None? <==> forall row :: 0 <= row < n ==> b[row][col] != Empty)
      && (r.Some? ==> b[r.value][col] == Empty)
      && (r.Some? ==> forall row :: r.value < row < n ==> b[row][col] != Empty)
  {
    if n > 0 && b[n - 1][col] != Empty {
      OpenRowBelowSpec(b, col, n - 1);
    }
  }

  /** `b2` is `b` with the single cell (row, col), empty before, now holding `p`. */
  ghost predicate PlacedAt(b: Board, b2: Board, row: nat, col: nat, p: Cell)
    requires WellFormed(b)
  {
    && WellFormed(b2) && SameShape(b, b2)
    && row < Rows(b) && col < Cols(b)
    && b[row][col] == Empty && b2[row][col] == p
    && forall r, c :: 0 <= r < Rows(b) && 0 <= c < Cols(b) && (r, c) != (row, col) ==> b2[r][c] == b[r][c]
  }

  /** `drop_piece_copy`: a new board with `p` in the landing row of `col`, or None for a full column. */
  function DropPiece(b: Board, col: nat, p: Cell): (r: Option<Board>)
    requires WellFormed(b) && col < Cols(b)
    ensures r.None? <==> b[0][col] != Empty
  {
    if !IsValidLocation(b, col) then None
    else match NextOpenRow(b, col)
      case None => None
      case Some(row) => Some(b[row := b[row][col := p]])
  }

  /**
    A successful drop changes exactly one cell: the lowest empty cell of the
    column, which now holds `p`; the input board itself is a value and stays as it was.
  */
  lemma DropPieceSpec(b: Board, col: nat, p: Cell)
    requires WellFormed(b) && col < Cols(b) && b[0][col] == Empty
    ensures NextOpenRow(b, col).Some?
    ensures PlacedAt(b, DropPiece(b, col, p).value, NextOpenRow(b, col).value, col, p)
  {
  }

  // ---------------------------------------------------------------------------
  // Four-cell windows and win detection
  // ---------------------------------------------------------------------------

  /** The four line families; DiagDown runs towards larger rows (\), DiagUp towards smaller rows (/). */
  datatype Dir = Horizontal | Vertical | DiagDown | DiagUp

  function DRow(d: Dir): int
  {
    match d
    case Horizontal => 0
    case Vertical => 1
    case DiagDown => 1
    case DiagUp => -1
  }

  function DCol(d: Dir): int
  {
    if d == Vertical then 0 else 1
  }

  /** A window starting at (r, c) in direction d lies entirely on the board. */
  predicate Fits(b: Board, r: int, c: int, d: Dir)
    requires WellFormed(b)
  {
    && 0 <= r < Rows(b) && 0 <= c < Cols(b)
    && 0 <= r + 3 * DRow(d) < Rows(b) && 0 <= c + 3 * DCol(d) < Cols(b)
  }

  /** The four cells of a window, from its start cell outwards. */
  function Window(b: Board, r: int, c: int, d: Dir): (w: seq<Cell>)
    requires WellFormed(b) && Fits(b, r, c, d)
    ensures |w| == 4
  {
    var dr, dc := DRow(d), DCol(d);
    [b[r][c], b[r + dr][c + dc], b[r + 2 * dr][c + 2 * dc], b[r + 3 * dr][c + 3 * dc]]
  }

  /** The reference meaning of a win: some window on the board holds `p` four times. */
  ghost predicate HasFour(b: Board, p: Cell)
    requires WellFormed(b)
  {
    exists r: int, c: int, d: Dir :: FourAt(b, p, r, c, d)
  }

  /** The window at (r, c) in direction d fits and holds `p` four times. */
  predicate FourAt(b: Board, p: Cell, r: int, c: int, d: Dir)
    requires WellFormed(b)
  {
    Fits(b, r, c, d) && Window(b, r, c, d) == [p, p, p, p]
  }

  /** The first start row of a family's loop: the rising diagonals start at row 3. */
  function RowLo(d: Dir): int
  {
    if d == DiagUp then 3 else 0
  }

  /** One past the last start row of a family's loop. */
  function RowHi(b: Board, d: Dir): int
  {
    if d == Vertical || d == DiagDown then |b| - 3 else |b|
  }

  /** One past the last start column of a family's loop. */
  function ColHi(b: Board, d: Dir): int
    requires |b| >= 1
  {
    if d == Vertical then Cols(b) else Cols(b) - 3
  }

  /** The loop bounds of a family are exactly the start cells whose window fits. */
  lemma FamilyRange(b: Board, r: int, c: int, d: Dir)
    requires WellFormed(b)
    ensures Fits(b, r, c, d) <==> RowLo(d) <= r < RowHi(b, d) && 0 <= c < ColHi(b, d)
  {
  }

  /** The inner loop of one family of `is_winner`: a four of `p` starting in row `r` at a column from `c` on? */
  function ScanCols(b: Board, p: Cell, d: Dir, r: int, c: nat): bool
    requires WellFormed(b) && RowLo(d) <= r < RowHi(b, d)
    decreases ColHi(b, d) - c
  {
    if c >= ColHi(b, d) then false
    else
      FamilyRange(b, r, c, d);
      Window(b, r, c, d) == [p, p, p, p] || ScanCols(b, p, d, r, c + 1)
  }

  /** The outer loop of one family of `is_winner`, from start row `r` on. */
  function ScanRows(b: Board, p: Cell, d: Dir, r: int): bool
    requires WellFormed(b) && RowLo(d) <= r
    decreases RowHi(b, d) - r
  {
    if r >= RowHi(b, d) then false
    else ScanCols(b, p, d, r, 0) || ScanRows(b, p, d, r + 1)
  }

  /** The inner scan finds a four exactly when one starts in row `r` at a column from `c` on. */
  lemma {:induction false} ScanColsSpec(b: Board, p: Cell, d: Dir, r: int, c: nat)
    requires WellFormed(b) && RowLo(d) <= r < RowHi(b, d)
    ensures ScanCols(b, p, d, r, c) <==> exists c': nat :: c <= c' < ColHi(b, d) && FourAt(b, p, r, c', d)
    decreases ColHi(b, d) - c
  {
    if c < ColHi(b, d) {
      FamilyRange(b, r, c, d);
      ScanColsSpec(b, p, d, r, c + 1);
      if Window(b, r, c, d) == [p, p, p, p] {
        assert FourAt(b, p, r, c, d);
      }
      if exists c': nat :: c <= c' < ColHi(b, d) && FourAt(b, p, r, c', d) {
        var c': nat :| c <= c' < ColHi(b, d) && FourAt(b, p, r, c', d);
        if c' != c {
          assert c + 1 <= c' < ColHi(b, d) && FourAt(b, p, r, c', d);
        }
      }
    }
  }

  /** The outer scan finds a four exactly when one starts in a row from `r` on. */
  lemma {:induction false} ScanRowsSpec(b: Board, p: Cell, d: Dir, r: int)
    requires WellFormed(b) && RowLo(d) <= r
    ensures ScanRows(b, p, d, r) <==> exists r': int, c': nat :: r <= r' < RowHi(b, d) && FourAt(b, p, r', c', d)
    decreases RowHi(b, d) - r
  {
    if r < RowHi(b, d) {
      ScanColsSpec(b, p, d, r, 0);
      ScanRowsSpec(b, p, d, r + 1);
      forall r': int, c': nat | r <= r' < RowHi(b, d) && FourAt(b, p, r', c', d)
        ensures ScanRows(b, p, d, r)
      {
        FamilyRange(b, r', c', d);
        if r' == r {
          assert 0 <= c' < ColHi(b, d) && FourAt(b, p, r, c', d);
        } else {
          assert r + 1 <= r' < RowHi(b, d) && FourAt(b, p, r', c', d);
        }
      }
    }
  }

  /** One family loop of `is_winner`. */
  function FamilyHasFour(b: Board, p: Cell, d: Dir): bool
    requires WellFormed(b)
  {
    ScanRows(b, p, d, RowLo(d))
  }

  /** A family scan finds a four exactly when a window of that family holds one. */
  lemma FamilyHasFourSound(b: Board, p: Cell, d: Dir)
    requires WellFormed(b)
    ensures FamilyHasFour(b, p, d) <==> exists r: int, c: int :: FourAt(b, p, r, c, d)
  {
    ScanRowsSpec(b, p, d, RowLo(d));
    if exists r: int, c: int :: FourAt(b, p, r, c, d) {
      var r: int, c: int :| FourAt(b, p, r, c, d);
      FamilyRange(b, r, c, d);
      var c': nat := c;
      assert RowLo(d) <= r < RowHi(b, d) && FourAt(b, p, r, c', d);
    }
  }

  /** `is_winner`: the four families are scanned in the source's order. */
  function IsWinner(b: Board, p: Cell): bool
    requires WellFormed(b)
  {
    ScanAll(b, p)
  }

  /** The scan reports a win exactly when some window holds `p` four times. */
  lemma IsWinnerSpec(b: Board, p: Cell)
    requires WellFormed(b)
    ensures IsWinner(b, p) <==> HasFour(b, p)
  {
    ScanMatchesHasFour(b, p);
  }

  function ScanAll(b: Board, p: Cell): bool
    requires WellFormed(b)
  {
    FamilyHasFour(b, p, Horizontal) || FamilyHasFour(b, p, Vertical)
      || FamilyHasFour(b, p, DiagDown) || FamilyHasFour(b, p, DiagUp)
  }

  lemma ScanMatchesHasFour(b: Board, p: Cell)
    requires WellFormed(b)
    ensures ScanAll(b, p) <==> HasFour(b, p)
  {
    if HasFour(b, p) {
      HasFourFound(b, p);
    }
    if ScanAll(b, p) {
      ScanFoundFour(b, p);
    }
  }

  lemma HasFourFound(b: Board, p: Cell)
    requires WellFormed(b) && HasFour(b, p)
    ensures ScanAll(b, p)
  {
    var r: int, c: int, d: Dir :| FourAt(b, p, r, c, d);
    FamilyHasFourSound(b, p, d);
  }

  lemma ScanFoundFour(b: Board, p: Cell)
    requires WellFormed(b) && ScanAll(b, p)
    ensures HasFour(b, p)
  {
    var d := if FamilyHasFour(b, p, Horizontal) then Horizontal
      else if FamilyHasFour(b, p, Vertical) then Vertical
      else if FamilyHasFour(b, p, DiagDown) then DiagDown
      else DiagUp;
    FamilyHasFourSound(b, p, d);
    var r: int, c: int :| FourAt(b, p, r, c, d);
  }

  /** `is_terminal`: someone has won or every column is full. */
  function IsTerminal(b: Board): (t: bool)
    requires WellFormed(b)
    ensures t <==> IsWinner(b, Red) || IsWinner(b, Yel) || forall c :: 0 <= c < Cols(b) ==> b[0][c] != Empty
  {
    if IsWinner(b, Red) || IsWinner(b, Yel) then true
    else if |ValidLocations(b)| == 0 then
      assert forall c :: 0 <= c < Cols(b) ==> c !in ValidLocations(b);
      true
    else
      assert ValidLocations(b)[0] in ValidLocations(b);
      false
  }

  /** A position is over exactly when a side has four in a row or no column is open. */
  lemma IsTerminalSpec(b: Board)
    requires WellFormed(b)
    ensures IsTerminal(b) <==> HasFour(b, Red) || HasFour(b, Yel) || forall c :: 0 <= c < Cols(b) ==> b[0][c] != Empty
  {
    IsWinnerSpec(b, Red);
    IsWinnerSpec(b, Yel);
  }
}
