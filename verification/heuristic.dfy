/**
  The heuristic evaluator: window pattern scores, the centre-column bonus and
  the fork (double threat) bonus and penalty of `score_position`.
*/
module Heuristic {
  import opened Wrappers
  import opened Board

  const CenterWeight := 6
  const FourWeight := 10_000
  const ThreeWeight := 200
  const TwoWeight := 20
  const OppThreeWeight := -300
  const OppTwoWeight := -25
  const ForkWeight := 6000
  const OppForkWeight := 6500

  /** Python's `list.count`. */
  function Count(w: seq<Cell>, x: Cell): nat
  {
    if w == [] then 0 else (if w[0] == x then 1 else 0) + Count(w[1..], x)
  }

  /** Every cell is empty, red or yellow, so the three counts add up to the length. */
  lemma {:induction false} CountsPartition(w: seq<Cell>)
    ensures Count(w, Empty) + Count(w, Red) + Count(w, Yel) == |w|
  {
    if w != [] {
      CountsPartition(w[1..]);
    }
  }

  /**
    `evaluate_window`: the own-piece term plus the opponent-threat term. What
    the sum comes to is stated by `EvaluateWindowTable`.
  */
  function EvaluateWindow(w: seq<Cell>, ai: Cell): (s: int)
    ensures OppThreeWeight <= s <= FourWeight
    ensures s > 0 ==> Count(w, ai) >= 2
    ensures s < 0 ==> Count(w, Opponent(ai)) >= 2
  {
    var opp := Opponent(ai);
    var own :=
      if Count(w, ai) == 4 then FourWeight
      else if Count(w, ai) == 3 && Count(w, Empty) == 1 then ThreeWeight
      else if Count(w, ai) == 2 && Count(w, Empty) == 2 then TwoWeight
      else 0;
    var threat :=
      if Count(w, opp) == 3 && Count(w, Empty) == 1 then OppThreeWeight
      else if Count(w, opp) == 2 && Count(w, Empty) == 2 then OppTwoWeight
      else 0;
    own + threat
  }

  /**
    The own and the opponent terms of `evaluate_window` are added independently;
    on a 4-cell window they never both apply, so the score is exactly one entry
    of the weight table, and each entry is taken for exactly its pattern.
  */
  lemma EvaluateWindowTable(w: seq<Cell>, ai: Cell)
    requires |w| == 4 && ai != Empty
    ensures var s := EvaluateWindow(w, ai);
      && (s == FourWeight <==> Count(w, ai) == 4)
      && (s == ThreeWeight <==> Count(w, ai) == 3 && Count(w, Empty) == 1)
      && (s == TwoWeight <==> Count(w, ai) == 2 && Count(w, Empty) == 2)
      && (s == OppThreeWeight <==> Count(w, Opponent(ai)) == 3 && Count(w, Empty) == 1)
      && (s == OppTwoWeight <==> Count(w, Opponent(ai)) == 2 && Count(w, Empty) == 2)
      && (s == 0 <==> !(Count(w, ai) >= 2 && Count(w, ai) + Count(w, Empty) == 4)
                      && !(2 <= Count(w, Opponent(ai)) <= 3 && Count(w, Opponent(ai)) + Count(w, Empty) == 4))
  {
    CountsPartition(w);
    var opp := Opponent(ai);
    assert opp != ai && opp != Empty;
    assert Count(w, ai) + Count(w, opp) + Count(w, Empty) == 4;
  }

  /** The inner loop of one family of `score_position`: window scores starting in row `r` at columns from `c` on. */
  function SumCols(b: Board, ai: Cell, d: Dir, r: int, c: nat): int
    requires WellFormed(b) && RowLo(d) <= r < RowHi(b, d)
    decreases ColHi(b, d) - c
  {
    if c >= ColHi(b, d) then 0
    else
      FamilyRange(b, r, c, d);
      EvaluateWindow(Window(b, r, c, d), ai) + SumCols(b, ai, d, r, c + 1)
  }

  /** The outer loop of one family of `score_position`, from start row `r` on. */
  function SumRows(b: Board, ai: Cell, d: Dir, r: int): int
    requires WellFormed(b) && RowLo(d) <= r
    decreases RowHi(b, d) - r
  {
    if r >= RowHi(b, d) then 0
    else SumCols(b, ai, d, r, 0) + SumRows(b, ai, d, r + 1)
  }

  /** Sum of the window scores of one family. */
  function FamilyTotal(b: Board, ai: Cell, d: Dir): int
    requires WellFormed(b)
  {
    SumRows(b, ai, d, RowLo(d))
  }

  /** The four window loops of `score_position`. */
  function WindowTotal(b: Board, ai: Cell): int
    requires WellFormed(b)
  {
    FamilyTotal(b, ai, Horizontal) + FamilyTotal(b, ai, Vertical)
      + FamilyTotal(b, ai, DiagDown) + FamilyTotal(b, ai, DiagUp)
  }

  /** Every cell of the board is empty. */
  predicate AllEmpty(b: Board)
    requires WellFormed(b)
  {
    forall r, c :: 0 <= r < Rows(b) && 0 <= c < Cols(b) ==> b[r][c] == Empty
  }

  /** A colour absent from a window counts zero there. */
  lemma {:induction false} CountAbsent(w: seq<Cell>, x: Cell)
    requires forall i :: 0 <= i < |w| ==> w[i] != x
    ensures Count(w, x) == 0
  {
    if w != [] {
      CountAbsent(w[1..], x);
    }
  }

  lemma {:induction false} SumColsEmpty(b: Board, ai: Cell, d: Dir, r: int, c: nat)
    requires WellFormed(b) && AllEmpty(b) && ai != Empty && RowLo(d) <= r < RowHi(b, d)
    ensures SumCols(b, ai, d, r, c) == 0
    decreases ColHi(b, d) - c
  {
    if c < ColHi(b, d) {
      FamilyRange(b, r, c, d);
      var w := Window(b, r, c, d);
      assert w == [Empty, Empty, Empty, Empty];
      CountAbsent(w, ai);
      CountAbsent(w, Opponent(ai));
      SumColsEmpty(b, ai, d, r, c + 1);
    }
  }

  lemma {:induction false} SumRowsEmpty(b: Board, ai: Cell, d: Dir, r: int)
    requires WellFormed(b) && AllEmpty(b) && ai != Empty && RowLo(d) <= r
    ensures SumRows(b, ai, d, r) == 0
    decreases RowHi(b, d) - r
  {
    if r < RowHi(b, d) {
      SumColsEmpty(b, ai, d, r, 0);
      SumRowsEmpty(b, ai, d, r + 1);
    }
  }

  /** On an empty board no window scores, for either colour the engine plays. */
  lemma EmptyBoardWindowsZero(b: Board, ai: Cell)
    requires WellFormed(b) && AllEmpty(b) && ai != Empty
    ensures WindowTotal(b, ai) == 0
  {
    SumRowsEmpty(b, ai, Horizontal, RowLo(Horizontal));
    SumRowsEmpty(b, ai, Vertical, RowLo(Vertical));
    SumRowsEmpty(b, ai, DiagDown, RowLo(DiagDown));
    SumRowsEmpty(b, ai, DiagUp, RowLo(DiagUp));
  }

  /** Blocking an opponent's open three or two is worth more than building one's own. */
  lemma OppThreeOutweighs()
    ensures -OppThreeWeight > ThreeWeight
    ensures -OppTwoWeight > TwoWeight
  {
  }

  function Column(b: Board, c: nat): (col: seq<Cell>)
    requires WellFormed(b) && c < Cols(b)
    ensures |col| == Rows(b) && forall r :: 0 <= r < Rows(b) ==> col[r] == b[r][c]
  {
    seq(Rows(b), r requires 0 <= r < Rows(b) => b[r][c])
  }

  /** Pieces of `ai` in the centre column `cols // 2`. */
  function CenterCount(b: Board, ai: Cell): nat
    requires WellFormed(b) && Cols(b) >= 1
  {
    Count(Column(b, Cols(b) / 2), ai)
  }

  /** The column is legal and dropping `p` there wins at once. */
  predicate WinsAt(b: Board, c: nat, p: Cell)
    requires WellFormed(b)
  {
    c < Cols(b) && b[0][c] == Empty && IsWinner(DropPiece(b, c, p).value, p)
  }

  /** `WinsAt` is the test the source writes: the drop succeeds and the resulting board is a win. */
  lemma WinsAtDrop(b: Board, c: nat, p: Cell)
    requires WellFormed(b) && c < Cols(b)
    ensures WinsAt(b, c, p) <==> DropPiece(b, c, p).Some? && IsWinner(DropPiece(b, c, p).value, p)
  {
  }

  /** The set of columns in which `p` wins with one move. */
  function WinningColumns(b: Board, p: Cell): set<nat>
    requires WellFormed(b)
  {
    set c: nat | c < Cols(b) && WinsAt(b, c, p)
  }

  /** The loop body of `count_immediate_wins`, over the listed columns. */
  function CountWinsIn(b: Board, p: Cell, cols: seq<nat>): (k: nat)
    requires WellFormed(b) && forall i :: 0 <= i < |cols| ==> cols[i] < Cols(b)
    ensures k <= |cols|
  {
    if cols == [] then 0
    else
      var child := DropPiece(b, cols[0], p);
      (if child.Some? && IsWinner(child.value, p) then 1 else 0) + CountWinsIn(b, p, cols[1..])
  }

  /** The winning columns among the listed ones. */
  function WinsAmong(b: Board, p: Cell, cols: seq<nat>): set<nat>
    requires WellFormed(b)
  {
    set c | c in cols && WinsAt(b, c, p)
  }

  /** How many listed columns satisfy `f`. */
  function CountWhere(cols: seq<nat>, f: nat -> bool): nat
  {
    if cols == [] then 0 else (if f(cols[0]) then 1 else 0) + CountWhere(cols[1..], f)
  }

  /** The listed columns that satisfy `f`. */
  function Where(cols: seq<nat>, f: nat -> bool): set<nat>
  {
    set c | c in cols && f(c)
  }

  /** On a list without repetitions, counting along the list counts a set. */
  lemma {:induction false} CountWhereIsSetSize(cols: seq<nat>, f: nat -> bool)
    requires Increasing(cols)
    ensures CountWhere(cols, f) == |Where(cols, f)|
    decreases |cols|
  {
    if cols != [] {
      var rest := cols[1..];
      IncreasingTail(cols);
      CountWhereIsSetSize(rest, f);
      if f(cols[0]) {
        assert Where(cols, f) == Where(rest, f) + {cols[0]};
      } else {
        assert Where(cols, f) == Where(rest, f);
      }
    }
  }

  /** The tail of a strictly increasing list is strictly increasing and does not contain the head. */
  lemma IncreasingTail(cols: seq<nat>)
    requires Increasing(cols) && cols != []
    ensures Increasing(cols[1..]) && cols[0] !in cols[1..]
  {
    var rest := cols[1..];
    forall i, j | 0 <= i < j < |rest| ensures rest[i] < rest[j] {
      assert rest[i] == cols[i + 1] && rest[j] == cols[j + 1];
    }
    forall i | 0 <= i < |rest| ensures rest[i] != cols[0] {
      assert rest[i] == cols[i + 1];
    }
  }

  lemma {:induction false} CountWinsInIsCountWhere(b: Board, p: Cell, cols: seq<nat>)
    requires WellFormed(b)
    requires forall i :: 0 <= i < |cols| ==> cols[i] < Cols(b) && b[0][cols[i]] == Empty
    ensures CountWinsIn(b, p, cols) == CountWhere(cols, (c: nat) => WinsAt(b, c, p))
    decreases |cols|
  {
    if cols != [] {
      CountWinsInIsCountWhere(b, p, cols[1..]);
    }
  }

  /** Counting along a strictly increasing list of legal columns counts the set of winning ones. */
  lemma CountWinsInIsSetSize(b: Board, p: Cell, cols: seq<nat>)
    requires WellFormed(b) && Increasing(cols)
    requires forall i :: 0 <= i < |cols| ==> cols[i] < Cols(b) && b[0][cols[i]] == Empty
    ensures CountWinsIn(b, p, cols) == |WinsAmong(b, p, cols)|
  {
    var f := (c: nat) => WinsAt(b, c, p);
    CountWinsInIsCountWhere(b, p, cols);
    CountWhereIsSetSize(cols, f);
    assert Where(cols, f) == WinsAmong(b, p, cols);
  }

  lemma WinsAmongValid(b: Board, p: Cell)
    requires WellFormed(b)
    ensures WinsAmong(b, p, ValidLocations(b)) == WinningColumns(b, p)
  {
    var valid := ValidLocations(b);
    forall c | c in WinningColumns(b, p) ensures c in WinsAmong(b, p, valid) {
      assert c in valid;
    }
  }

  /**
    `count_immediate_wins`: the number of legal columns in which `p` wins with
    one move; at most the number of legal columns.
  */
  function CountImmediateWins(b: Board, p: Cell): (k: nat)
    requires WellFormed(b)
    ensures k <= |ValidLocations(b)|
    ensures k == |WinningColumns(b, p)|
  {
    var valid := ValidLocations(b);
    assert forall i :: 0 <= i < |valid| ==> valid[i] in valid;
    CountWinsInIsSetSize(b, p, valid);
    WinsAmongValid(b, p);
    CountWinsIn(b, p, valid)
  }

  /** Own fork bonus: nothing below two immediate wins, 6000 per extra win. */
  function ForkBonus(k: nat): int
  {
    if k >= 2 then ForkWeight * (k - 1) else 0
  }

  /** Opponent fork penalty: nothing below two immediate wins, 6500 per extra win. */
  function ForkPenalty(k: nat): int
  {
    if k >= 2 then OppForkWeight * (k - 1) else 0
  }

  /** The part of `score_position` that does not look one move ahead. */
  function BaseScore(b: Board, ai: Cell): int
    requires WellFormed(b) && Cols(b) >= 1
  {
    CenterWeight * CenterCount(b, ai) + WindowTotal(b, ai)
  }

  /**
    `score_position`: the base score plus the fork terms, which vanish unless a
    side has at least two immediate wins.
  */
  function ScorePosition(b: Board, ai: Cell): (s: int)
    requires WellFormed(b) && Cols(b) >= 1
    ensures var k, k' := |WinningColumns(b, ai)|, |WinningColumns(b, Opponent(ai))|;
      && (k < 2 && k' < 2 ==> s == BaseScore(b, ai))
      && (k >= 2 && k' < 2 ==> s == BaseScore(b, ai) + ForkWeight * (k - 1))
      && (k < 2 && k' >= 2 ==> s == BaseScore(b, ai) - OppForkWeight * (k' - 1))
      && (k >= 2 && k' >= 2 ==> s == BaseScore(b, ai) + ForkWeight * (k - 1) - OppForkWeight * (k' - 1))
  {
    var opp := Opponent(ai);
    BaseScore(b, ai) + ForkBonus(CountImmediateWins(b, ai)) - ForkPenalty(CountImmediateWins(b, opp))
  }

  /**
    Fork dominance: with the base score and the opponent's threats fixed, a
    position scores strictly higher the more immediate wins beyond one it offers,
    and one immediate win scores the same as none.
  */
  lemma ForkDominance(b1: Board, b2: Board, ai: Cell)
    requires WellFormed(b1) && Cols(b1) >= 1 && WellFormed(b2) && Cols(b2) >= 1
    requires BaseScore(b1, ai) == BaseScore(b2, ai)
    requires CountImmediateWins(b1, Opponent(ai)) == CountImmediateWins(b2, Opponent(ai))
    ensures CountImmediateWins(b1, ai) > CountImmediateWins(b2, ai) >= 1 ==> ScorePosition(b1, ai) > ScorePosition(b2, ai)
    ensures CountImmediateWins(b1, ai) <= 1 && CountImmediateWins(b2, ai) <= 1 ==> ScorePosition(b1, ai) == ScorePosition(b2, ai)
  {
  }

  /** An opponent fork of k threats costs more than an own fork of k threats earns. */
  lemma OpponentForkOutweighs(k: nat)
    requires k >= 2
    ensures ForkPenalty(k) > ForkBonus(k) > 0
  {
  }
}
