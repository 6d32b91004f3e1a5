/**
  The move tracker of the camera front end: a debouncer that turns a stream
  of board readings into stable boards, and a classifier that decides whether
  the change between two stable boards is one legal-looking move, who made
  it, whether that player moved twice in a row and whether the move won.
  Both GUI front ends carry the same two methods; this one model serves both.
*/
module MoveTracker {
  import opened Wrappers
  import opened Board

  /** Number of identical consecutive readings before a board counts as stable. */
  const StableFramesRequired: nat := 5

  /** The tracking fields of the GUI object; widgets, timers and sounds are not part of it. */
  datatype Tracker = Tracker(
    candidate: Option<Board>,
    candidateFrames: nat,
    stable: Option<Board>,
    prevStable: Option<Board>,
    turn: nat,
    lastMoveColor: Option<Cell>,
    firstMoverColor: Option<Cell>,
    lastMoveCol: Option<nat>)

  /** The state after construction and after `new_game`: nothing seen, turn 0. */
  function Init(): (t: Tracker)
    ensures t.candidate.None? && t.stable.None? && t.prevStable.None?
    ensures t.candidateFrames == 0 && t.turn == 0
    ensures t.lastMoveColor.None? && t.firstMoverColor.None? && t.lastMoveCol.None?
  {
    Tracker(None, 0, None, None, 0, None, None, None)
  }

  // ---------------------------------------------------------------------------
  // Debouncing camera readings
  // ---------------------------------------------------------------------------

  /** The tracker after one reading, and whether a new stable board was reported. */
  datatype Update = Update(next: Tracker, changed: bool)

  /**
    `_update_stable_board`: a missing reading clears the candidate; a reading
    that differs from the candidate restarts the count at 1; an equal reading
    bumps the count and, from the fifth on, promotes the candidate when it
    differs from the current stable board.
  */
  function UpdateStableBoard(t: Tracker, frame: Option<Board>): (u: Update)
    ensures u.changed ==> frame.Some? && t.stable != frame
    ensures u.changed ==> u.next.stable == frame && u.next.prevStable == t.stable
    ensures !u.changed ==> u.next.stable == t.stable && u.next.prevStable == t.prevStable
    ensures frame.None? ==> u.next.candidate.None? && u.next.candidateFrames == 0
    ensures frame.Some? ==> u.next.candidate == frame && u.next.candidateFrames >= 1
    ensures u.next.turn == t.turn && u.next.lastMoveColor == t.lastMoveColor
    ensures u.next.firstMoverColor == t.firstMoverColor && u.next.lastMoveCol == t.lastMoveCol
  {
    match frame
    case None => Update(t.(candidate := None, candidateFrames := 0), false)
    case Some(b) =>
      if t.candidate.None? || t.candidate.value != b then
        Update(t.(candidate := frame, candidateFrames := 1), false)
      else
        var n := t.candidateFrames + 1;
        if n < StableFramesRequired then
          Update(t.(candidateFrames := n), false)
        else if t.stable.None? || t.stable.value != b then
          Update(t.(candidateFrames := n, prevStable := t.stable, stable := t.candidate), true)
        else
          Update(t.(candidateFrames := n), false)
  }

  /** The tracker after a whole sequence of readings, oldest first. */
  function Feed(t: Tracker, frames: seq<Option<Board>>): Tracker
  {
    if frames == [] then t
    else UpdateStableBoard(Feed(t, frames[..|frames| - 1]), frames[|frames| - 1]).next
  }

  /** How many of those readings reported a new stable board. */
  function Reports(t: Tracker, frames: seq<Option<Board>>): nat
  {
    if frames == [] then 0
    else
      var u := UpdateStableBoard(Feed(t, frames[..|frames| - 1]), frames[|frames| - 1]);
      Reports(t, frames[..|frames| - 1]) + if u.changed then 1 else 0
  }

  /** `k` identical readings. */
  function Repeat(f: Option<Board>, k: nat): (fs: seq<Option<Board>>)
    ensures |fs| == k
  {
    if k == 0 then [] else Repeat(f, k - 1) + [f]
  }

  /**
    Showing a board that is not the current candidate `k` times in a row
    reports it exactly once, on the fifth reading, when it differs from the
    stable board, and never when it is the stable board already; after five
    readings it is the stable board and the old stable board is the previous one.
  */
  lemma {:induction false} RepeatedReading(t: Tracker, b: Board, k: nat)
    requires t.candidate != Some(b)
    ensures Feed(t, Repeat(Some(b), k)).candidate == if k == 0 then t.candidate else Some(b)
    ensures k >= 1 ==> Feed(t, Repeat(Some(b), k)).candidateFrames == k
    ensures Reports(t, Repeat(Some(b), k)) == if k >= StableFramesRequired && t.stable != Some(b) then 1 else 0
    ensures Feed(t, Repeat(Some(b), k)).stable == if k >= StableFramesRequired then Some(b) else t.stable
    ensures k >= StableFramesRequired && t.stable != Some(b) ==> Feed(t, Repeat(Some(b), k)).prevStable == t.stable
  {
    if k > 0 {
      var fs := Repeat(Some(b), k);
      assert fs[..k - 1] == Repeat(Some(b), k - 1);
      assert fs[k - 1] == Some(b);
      RepeatedReading(t, b, k - 1);
    }
  }

  /**
    Debouncer invariant over the readings seen so far: a candidate is present
    exactly when the count is positive, and the last `candidateFrames`
    readings all showed the candidate.
  */
  ghost predicate Debounced(t: Tracker, seen: seq<Option<Board>>)
  {
    && (t.candidate.None? <==> t.candidateFrames == 0)
    && t.candidateFrames <= |seen|
    && forall i :: |seen| - t.candidateFrames <= i < |seen| ==> seen[i] == t.candidate
  }

  /**
    One reading keeps the invariant, and a reported board was read in each of
    the last five readings, this one included.
  */
  lemma UpdateDebounced(t: Tracker, seen: seq<Option<Board>>, f: Option<Board>)
    requires Debounced(t, seen)
    ensures Debounced(UpdateStableBoard(t, f).next, seen + [f])
    ensures UpdateStableBoard(t, f).changed ==>
      && |seen + [f]| >= StableFramesRequired
      && forall i :: |seen + [f]| - StableFramesRequired <= i < |seen + [f]| ==>
           (seen + [f])[i] == UpdateStableBoard(t, f).next.stable
  {
  }

  /**
    From the initial state, every report of a new stable board is preceded by
    five identical readings of that board: a board glimpsed for fewer frames
    never becomes stable.
  */
  lemma {:induction false} FeedDebounced(frames: seq<Option<Board>>)
    ensures Debounced(Feed(Init(), frames), frames)
  {
    if frames != [] {
      var init := frames[..|frames| - 1];
      FeedDebounced(init);
      UpdateDebounced(Feed(Init(), init), init, frames[|frames| - 1]);
      assert init + [frames[|frames| - 1]] == frames;
    }
  }

  lemma StableNeedsFiveReadings(frames: seq<Option<Board>>, f: Option<Board>)
    ensures UpdateStableBoard(Feed(Init(), frames), f).changed ==>
      && |frames| + 1 >= StableFramesRequired
      && forall i :: |frames| + 1 - StableFramesRequired <= i < |frames| + 1 ==>
           (frames + [f])[i] == UpdateStableBoard(Feed(Init(), frames), f).next.stable
  {
    FeedDebounced(frames);
    UpdateDebounced(Feed(Init(), frames), frames, f);
  }

  // ---------------------------------------------------------------------------
  // Classifying the change between two stable boards
  // ---------------------------------------------------------------------------

  datatype Pos = Pos(row: nat, col: nat)

  /** A cell of the new-piece mask: empty before, occupied now. */
  predicate Placed(p: Cell, q: Cell)
  {
    p == Empty && q != Empty
  }

  /** A cell of the removed or the recoloured mask: occupied before, different now. */
  predicate Disturbed(p: Cell, q: Cell)
  {
    p != Empty && q != p
  }

  /**
    What a scan of some cells found: how many were newly placed, the first of
    them in row-major order (the order of `np.argwhere`), and whether any cell
    was removed or recoloured.
  */
  datatype Tally = Tally(placed: nat, first: Option<Pos>, broken: bool)

  function CellTally(p: Cell, q: Cell, r: nat, c: nat): Tally
  {
    Tally(if Placed(p, q) then 1 else 0, if Placed(p, q) then Some(Pos(r, c)) else None, Disturbed(p, q))
  }

  /** The tally of two scans, the first scan's cells coming first. */
  function Join(a: Tally, b: Tally): Tally
  {
    Tally(a.placed + b.placed, if a.first.Some? then a.first else b.first, a.broken || b.broken)
  }

  /** Two boards of one shape, as the element-wise mask comparisons need. */
  predicate Comparable(prev: Board, curr: Board)
  {
    WellFormed(prev) && WellFormed(curr) && SameShape(prev, curr)
  }

  /** Scans row `r` from column `c` rightwards. */
  function TallyCols(prev: Board, curr: Board, r: nat, c: nat): (t: Tally)
    requires Comparable(prev, curr) && r < Rows(prev)
    ensures t.first.Some? <==> t.placed >= 1
    ensures t.first.Some? ==> t.first.value.row == r && c <= t.first.value.col < Cols(prev)
    decreases Cols(prev) - c
  {
    if c >= Cols(prev) then Tally(0, None, false)
    else Join(CellTally(prev[r][c], curr[r][c], r, c), TallyCols(prev, curr, r, c + 1))
  }

  /** Scans rows `r` downwards, each row left to right. */
  function TallyRows(prev: Board, curr: Board, r: nat): (t: Tally)
    requires Comparable(prev, curr)
    ensures t.first.Some? <==> t.placed >= 1
    ensures t.first.Some? ==> r <= t.first.value.row < Rows(prev) && t.first.value.col < Cols(prev)
    decreases Rows(prev) - r
  {
    if r >= Rows(prev) then Tally(0, None, false)
    else Join(TallyCols(prev, curr, r, 0), TallyRows(prev, curr, r + 1))
  }

  /** A rectangle of cells: rows `r0` to `r1 - 1`, columns `c0` to `c1 - 1`. */
  datatype Rect = Rect(r0: nat, r1: nat, c0: nat, c1: nat)

  predicate In(x: Rect, r: int, c: int)
  {
    x.r0 <= r < x.r1 && x.c0 <= c < x.c1
  }

  predicate Inside(prev: Board, x: Rect)
  {
    WellFormed(prev) && x.r1 <= Rows(prev) && x.c1 <= Cols(prev)
  }

  /** `t` is an accurate tally of the cells of `x`. */
  ghost predicate Describes(prev: Board, curr: Board, x: Rect, t: Tally)
    requires Comparable(prev, curr) && Inside(prev, x)
  {
    && (t.placed == 0 <==> forall r, c :: In(x, r, c) ==> !Placed(prev[r][c], curr[r][c]))
    && (t.first.Some? <==> t.placed >= 1)
    && (t.first.Some? ==>
          && In(x, t.first.value.row, t.first.value.col)
          && Placed(prev[t.first.value.row][t.first.value.col], curr[t.first.value.row][t.first.value.col]))
    && (t.placed == 1 ==> forall r, c :: In(x, r, c) && Placed(prev[r][c], curr[r][c]) ==> Pos(r, c) == t.first.value)
    && (t.placed >= 2 ==> exists r, c :: In(x, r, c) && Placed(prev[r][c], curr[r][c]) && Pos(r, c) != t.first.value)
    && (t.broken <==> exists r, c :: In(x, r, c) && Disturbed(prev[r][c], curr[r][c]))
  }

  /** Tallies of two disjoint rectangles join to the tally of their union. */
  lemma JoinDescribes(prev: Board, curr: Board, x: Rect, a: Tally, y: Rect, b: Tally, z: Rect)
    requires Comparable(prev, curr) && Inside(prev, x) && Inside(prev, y) && Inside(prev, z)
    requires Describes(prev, curr, x, a) && Describes(prev, curr, y, b)
    requires SplitsInto(z, x, y)
    ensures Describes(prev, curr, z, Join(a, b))
  {
    var j := Join(a, b);
    if j.placed >= 2 {
      if a.placed == 1 {
        var p := b.first.value;
        assert In(y, p.row, p.col);
        assert p != a.first.value;
      }
    }
  }

  lemma CellDescribes(prev: Board, curr: Board, r: nat, c: nat)
    requires Comparable(prev, curr) && r < Rows(prev) && c < Cols(prev)
    ensures Describes(prev, curr, Rect(r, r + 1, c, c + 1), CellTally(prev[r][c], curr[r][c], r, c))
  {
    if Disturbed(prev[r][c], curr[r][c]) {
      assert In(Rect(r, r + 1, c, c + 1), r, c);
    }
  }

  /** Splitting `x` into `y` and the rest `z` leaves disjoint parts whose union is `x`. */
  ghost predicate SplitsInto(x: Rect, y: Rect, z: Rect)
  {
    && (forall r, c :: In(x, r, c) <==> In(y, r, c) || In(z, r, c))
    && (forall r, c :: !(In(y, r, c) && In(z, r, c)))
  }

  lemma RowSplit(r: nat, rows: nat, cols: nat)
    requires r < rows
    ensures SplitsInto(Rect(r, rows, 0, cols), Rect(r, r + 1, 0, cols), Rect(r + 1, rows, 0, cols))
  {
  }

  lemma ColSplit(r: nat, c: nat, cols: nat)
    requires c < cols
    ensures SplitsInto(Rect(r, r + 1, c, cols), Rect(r, r + 1, c, c + 1), Rect(r, r + 1, c + 1, cols))
  {
  }

  lemma {:induction false} TallyColsSpec(prev: Board, curr: Board, r: nat, c: nat)
    requires Comparable(prev, curr) && r < Rows(prev) && c <= Cols(prev)
    ensures Describes(prev, curr, Rect(r, r + 1, c, Cols(prev)), TallyCols(prev, curr, r, c))
    decreases Cols(prev) - c
  {
    if c < Cols(prev) {
      TallyColsSpec(prev, curr, r, c + 1);
      CellDescribes(prev, curr, r, c);
      ColSplit(r, c, Cols(prev));
      JoinDescribes(prev, curr, Rect(r, r + 1, c, c + 1), CellTally(prev[r][c], curr[r][c], r, c),
                    Rect(r, r + 1, c + 1, Cols(prev)), TallyCols(prev, curr, r, c + 1),
                    Rect(r, r + 1, c, Cols(prev)));
    }
  }

  lemma {:induction false} TallyRowsSpec(prev: Board, curr: Board, r: nat)
    requires Comparable(prev, curr) && r <= Rows(prev)
    ensures Describes(prev, curr, Rect(r, Rows(prev), 0, Cols(prev)), TallyRows(prev, curr, r))
    decreases Rows(prev) - r
  {
    if r < Rows(prev) {
      TallyRowsSpec(prev, curr, r + 1);
      TallyColsSpec(prev, curr, r, 0);
      RowSplit(r, Rows(prev), Cols(prev));
      JoinDescribes(prev, curr, Rect(r, r + 1, 0, Cols(prev)), TallyCols(prev, curr, r, 0),
                    Rect(r + 1, Rows(prev), 0, Cols(prev)), TallyRows(prev, curr, r + 1),
                    Rect(r, Rows(prev), 0, Cols(prev)));
    }
  }

  /**
    The diff test of `_process_move_and_cheating`: the new cell when exactly
    one cell went from empty to occupied and nothing was removed or
    recoloured, None otherwise.
  */
  function Classify(prev: Board, curr: Board): (m: Option<Pos>)
    requires Comparable(prev, curr)
    ensures m.Some? ==> m.value.row < Rows(curr) && m.value.col < Cols(curr)
  {
    var t := TallyRows(prev, curr, 0);
    TallyRowsSpec(prev, curr, 0);
    if t.placed == 1 && !t.broken then t.first else None
  }

  /** `curr` is `prev` with exactly the empty cell (r, c) filled by some piece. */
  ghost predicate OneDrop(prev: Board, curr: Board, r: nat, c: nat)
    requires Comparable(prev, curr)
  {
    r < Rows(curr) && c < Cols(curr) && curr[r][c] != Empty && PlacedAt(prev, curr, r, c, curr[r][c])
  }

  /** The classifier accepts exactly the one-piece changes, and names the piece's cell. */
  lemma ClassifySpec(prev: Board, curr: Board)
    requires Comparable(prev, curr)
    ensures forall r: nat, c: nat :: Classify(prev, curr) == Some(Pos(r, c)) <==> OneDrop(prev, curr, r, c)
  {
    var all := Rect(0, Rows(prev), 0, Cols(prev));
    var t := TallyRows(prev, curr, 0);
    TallyRowsSpec(prev, curr, 0);
    forall r: nat, c: nat
      ensures Classify(prev, curr) == Some(Pos(r, c)) <==> OneDrop(prev, curr, r, c)
    {
      if Classify(prev, curr) == Some(Pos(r, c)) {
        forall r', c' | 0 <= r' < Rows(prev) && 0 <= c' < Cols(prev) && (r', c') != (r, c)
          ensures curr[r'][c'] == prev[r'][c']
        {
          assert In(all, r', c');
        }
      }
      if OneDrop(prev, curr, r, c) {
        assert In(all, r, c);
      }
    }
  }

  // ---------------------------------------------------------------------------
  // Processing a move
  // ---------------------------------------------------------------------------

  /** The tracker after a stable change, with the cheater and the winner it reports. */
  datatype MoveReport = MoveReport(next: Tracker, cheater: Option<Cell>, winner: Option<Cell>)

  /** Readings come from one camera grid, so a previous board has the current board's shape. */
  predicate Admissible(prev: Option<Board>, curr: Board)
  {
    WellFormed(curr) && (prev.Some? ==> WellFormed(prev.value) && SameShape(prev.value, curr))
  }

  /** The board compared against: the previous stable board, or an empty board of the same shape. */
  function Baseline(prev: Option<Board>, curr: Board): (b: Board)
    requires Admissible(prev, curr)
    ensures Comparable(b, curr)
    ensures prev.Some? ==> b == prev.value
    ensures prev.None? ==> forall r, c :: 0 <= r < Rows(curr) && 0 <= c < Cols(curr) ==> b[r][c] == Empty
  {
    match prev
    case Some(p) => p
    case None => MakeBoard(Rows(curr), Cols(curr))
  }

  /**
    `_process_move_and_cheating`: a change that is not one new piece clears
    the last move column and reports nothing; otherwise the turn advances, the
    mover becomes the last mover (and the first mover if there was none), the
    mover is a cheater when it also made the previous move, and the winner
    when the new board has four of its pieces in a row.
  */
  function ProcessMove(t: Tracker, prev: Option<Board>, curr: Board): (m: MoveReport)
    requires Admissible(prev, curr)
    ensures m.next.candidate == t.candidate && m.next.candidateFrames == t.candidateFrames
    ensures m.next.stable == t.stable && m.next.prevStable == t.prevStable
    ensures m.next.turn == t.turn || m.next.turn == t.turn + 1
    ensures m.next.turn == t.turn ==> m.next.lastMoveCol.None? && m.cheater.None? && m.winner.None?
    ensures m.next.turn == t.turn ==> m.next.lastMoveColor == t.lastMoveColor && m.next.firstMoverColor == t.firstMoverColor
    ensures m.next.turn == t.turn + 1 ==> m.next.lastMoveColor.Some? && m.next.lastMoveColor.value != Empty
    ensures m.cheater.Some? ==> m.cheater == t.lastMoveColor && m.cheater == m.next.lastMoveColor
    ensures m.winner.Some? ==> m.winner == m.next.lastMoveColor && IsWinner(curr, m.winner.value)
  {
    var before := Baseline(prev, curr);
    match Classify(before, curr)
    case None => MoveReport(t.(lastMoveCol := None), None, None)
    case Some(pos) =>
      var mover := curr[pos.row][pos.col];
      if mover == Empty then MoveReport(t.(lastMoveCol := None), None, None)
      else
        var next := t.(
          lastMoveCol := Some(pos.col),
          firstMoverColor := if t.firstMoverColor.None? then Some(mover) else t.firstMoverColor,
          turn := t.turn + 1,
          lastMoveColor := Some(mover));
        var cheater := if t.lastMoveColor.Some? && t.lastMoveColor.value == mover then Some(mover) else None;
        var winner := if IsWinner(curr, mover) then Some(mover) else None;
        MoveReport(next, cheater, winner)
  }

  /**
    A one-piece change at (r, c) is a move of the piece now at (r, c): the turn
    advances by one, column c becomes the last move column, the first mover is
    set only if unset, the cheater is the mover exactly when it moved last
    time too, and the winner is the mover exactly when it has four in a row.
  */
  lemma MoveAccepted(t: Tracker, prev: Option<Board>, curr: Board, r: nat, c: nat)
    requires Admissible(prev, curr) && OneDrop(Baseline(prev, curr), curr, r, c)
    ensures var mover := curr[r][c];
      var m := ProcessMove(t, prev, curr);
      && m.next == t.(turn := t.turn + 1, lastMoveCol := Some(c), lastMoveColor := Some(mover),
                      firstMoverColor := if t.firstMoverColor.None? then Some(mover) else t.firstMoverColor)
      && (m.cheater == if t.lastMoveColor == Some(mover) then Some(mover) else None)
      && (m.winner == if IsWinner(curr, mover) then Some(mover) else None)
  {
    ClassifySpec(Baseline(prev, curr), curr);
  }

  /** Any other change (none, several pieces, a removal, a recolouring) is not a move. */
  lemma MoveRejected(t: Tracker, prev: Option<Board>, curr: Board)
    requires Admissible(prev, curr)
    requires forall r: nat, c: nat :: !OneDrop(Baseline(prev, curr), curr, r, c)
    ensures ProcessMove(t, prev, curr) == MoveReport(t.(lastMoveCol := None), None, None)
  {
    ClassifySpec(Baseline(prev, curr), curr);
  }

  /** A legal drop of a piece between two stable boards is counted as that player's move in that column. */
  lemma LegalDropAccepted(t: Tracker, b: Board, col: nat, p: Cell)
    requires WellFormed(b) && col < Cols(b) && b[0][col] == Empty && p != Empty
    ensures DropPiece(b, col, p).Some?
    ensures var m := ProcessMove(t, Some(b), DropPiece(b, col, p).value);
      && m.next.turn == t.turn + 1
      && m.next.lastMoveCol == Some(col)
      && m.next.lastMoveColor == Some(p)
      && (m.cheater == if t.lastMoveColor == Some(p) then Some(p) else None)
      && (m.winner == if IsWinner(DropPiece(b, col, p).value, p) then Some(p) else None)
  {
    DropPieceSpec(b, col, p);
    var row := NextOpenRow(b, col).value;
    var b2 := DropPiece(b, col, p).value;
    assert Baseline(Some(b), b2) == b;
    MoveAccepted(t, Some(b), b2, row, col);
  }

  /** The same colour dropping twice in a row is flagged as cheating on the second drop. */
  lemma SameColourTwiceIsCheat(t: Tracker, b: Board, c1: nat, c2: nat, p: Cell)
    requires WellFormed(b) && c1 < Cols(b) && c2 < Cols(b) && b[0][c1] == Empty && p != Empty
    requires DropPiece(b, c1, p).Some? && DropPiece(b, c1, p).value[0][c2] == Empty
    ensures var b1 := DropPiece(b, c1, p).value;
      var m1 := ProcessMove(t, Some(b), b1);
      DropPiece(b1, c2, p).Some? && ProcessMove(m1.next, Some(b1), DropPiece(b1, c2, p).value).cheater == Some(p)
  {
    var b1 := DropPiece(b, c1, p).value;
    DropPieceSpec(b, c1, p);
    LegalDropAccepted(t, b, c1, p);
    LegalDropAccepted(ProcessMove(t, Some(b), b1).next, b1, c2, p);
  }

  /** A reply by the other colour is never flagged. */
  lemma AlternationIsNotCheat(t: Tracker, b: Board, c1: nat, c2: nat, p: Cell)
    requires WellFormed(b) && c1 < Cols(b) && c2 < Cols(b) && b[0][c1] == Empty && p != Empty
    requires DropPiece(b, c1, p).Some? && DropPiece(b, c1, p).value[0][c2] == Empty
    ensures var b1 := DropPiece(b, c1, p).value;
      var m1 := ProcessMove(t, Some(b), b1);
      DropPiece(b1, c2, Opponent(p)).Some? && ProcessMove(m1.next, Some(b1), DropPiece(b1, c2, Opponent(p)).value).cheater.None?
  {
    var b1 := DropPiece(b, c1, p).value;
    DropPieceSpec(b, c1, p);
    LegalDropAccepted(t, b, c1, p);
    LegalDropAccepted(ProcessMove(t, Some(b), b1).next, b1, c2, Opponent(p));
  }

  // ---------------------------------------------------------------------------
  // Landing row
  // ---------------------------------------------------------------------------

  /** `_find_landing_row`: walks the column from the bottom row up to the first empty cell. */
  method FindLandingRow(b: Board, col: nat) returns (r: Option<nat>)
    requires WellFormed(b) && col < Cols(b)
    ensures r == NextOpenRow(b, col)
    ensures r.Some? ==> r.value < Rows(b) && b[r.value][col] == Empty
    ensures r.Some? ==> forall row :: r.value < row < Rows(b) ==> b[row][col] != Empty
    ensures r.None? <==> forall row :: 0 <= row < Rows(b) ==> b[row][col] != Empty
  {
    var i := Rows(b);
    while i > 0
      invariant 0 <= i <= Rows(b)
      invariant forall row :: i <= row < Rows(b) ==> b[row][col] != Empty
    {
      if b[i - 1][col] == Empty {
        return Some(i - 1);
      }
      i := i - 1;
    }
    return None;
  }
}
