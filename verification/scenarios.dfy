/**
  The immediate-win positions of the solver's test script, stated as lemmas
  about `ChooseBestMove`. The script's boards use the camera encoding, in
  which 1 is the AI's colour; here those cells hold `Yel`, the AI piece the
  script passes. Its boards are not all reachable under gravity (pieces
  hover over empty cells); the solver does not check that, and neither does
  the model.
*/
module Scenarios {
  import opened Wrappers
  import opened Board
  import opened Heuristic
  import opened Search
  import opened Openings

  const E := Empty
  const Y := Yel

  /** On an open column whose bottom cell is empty, a piece falls to the bottom row. */
  lemma LandsOnFloor(b: Board, c: nat, p: Cell)
    requires WellFormed(b) && c < Cols(b) && b[0][c] == Empty && b[Rows(b) - 1][c] == Empty
    ensures DropPiece(b, c, p) == Some(b[Rows(b) - 1 := b[Rows(b) - 1][c := p]])
  {
    assert NextOpenRow(b, c) == Some(Rows(b) - 1);
  }

  /** Three in a row on the bottom row: column 3 completes it. */
  const Case1: Board := [
    [E, E, E, E, E, E, E],
    [E, E, E, E, E, E, E],
    [E, E, E, E, E, E, E],
    [E, E, E, E, E, E, E],
    [E, E, E, E, E, E, E],
    [Y, Y, Y, E, E, E, E]]

  lemma Case1Column3Wins()
    ensures WinsAt(Case1, 3, Yel)
  {
    LandsOnFloor(Case1, 3, Yel);
    assert FourAt(DropPiece(Case1, 3, Yel).value, Yel, 5, 0, Horizontal);
    IsWinnerSpec(DropPiece(Case1, 3, Yel).value, Yel);
  }

  lemma Case1Chooses3()
    ensures ChooseBestMove(Case1, Yel, 3) == Choice(Some(3), Fin(WinScore + 3))
  {
    Case1Column3Wins();
    WinChosenAt3(Case1, Yel, 3);
  }

  /** Three stacked in column 2 over an empty cell: the drop lands below them and makes four. */
  const Case2: Board := [
    [E, E, E, E, E, E, E],
    [E, E, E, E, E, E, E],
    [E, E, Y, E, E, E, E],
    [E, E, Y, E, E, E, E],
    [E, E, Y, E, E, E, E],
    [E, E, E, E, E, E, E]]

  lemma Case2Column3NoWin()
    ensures !WinsAt(Case2, 3, Yel)
  {
    LandsOnFloor(Case2, 3, Yel);
    assert Case2[5][3 := Yel] == [E, E, E, Y, E, E, E];
    IsWinnerSpec(DropPiece(Case2, 3, Yel).value, Yel);
  }

  lemma Case2Column2Wins()
    ensures WinsAt(Case2, 2, Yel)
  {
    LandsOnFloor(Case2, 2, Yel);
    assert FourAt(DropPiece(Case2, 2, Yel).value, Yel, 2, 2, Vertical);
    IsWinnerSpec(DropPiece(Case2, 2, Yel).value, Yel);
  }

  lemma Case2Chooses2()
    ensures ChooseBestMove(Case2, Yel, 3) == Choice(Some(2), Fin(WinScore + 3))
  {
    Case2Column2Wins();
    Case2Column3NoWin();
    WinChosenAt2(Case2, Yel, 3);
  }

  /**
    Three on a falling diagonal at (2,1), (3,2), (4,3). The script expects
    column 0, whose drop would have to stop at (1,0); it falls to (5,0)
    instead, and the first winning column in centre order is 4, completing
    the diagonal at (5,4).
  */
  const Case3: Board := [
    [E, E, E, E, E, E, E],
    [E, E, E, E, E, E, E],
    [E, Y, E, E, E, E, E],
    [E, E, Y, E, E, E, E],
    [E, E, E, Y, E, E, E],
    [E, E, E, E, E, E, E]]

  lemma Case3Column3NoWin()
    ensures !WinsAt(Case3, 3, Yel)
  {
    LandsOnFloor(Case3, 3, Yel);
    assert Case3[5][3 := Yel] == [E, E, E, Y, E, E, E];
    IsWinnerSpec(DropPiece(Case3, 3, Yel).value, Yel);
  }

  lemma Case3Column2NoWin()
    ensures !WinsAt(Case3, 2, Yel)
  {
    LandsOnFloor(Case3, 2, Yel);
    assert Case3[5][2 := Yel] == [E, E, Y, E, E, E, E];
    IsWinnerSpec(DropPiece(Case3, 2, Yel).value, Yel);
  }

  lemma Case3Column0NoWin()
    ensures !WinsAt(Case3, 0, Yel)
  {
    LandsOnFloor(Case3, 0, Yel);
    assert Case3[5][0 := Yel] == [Y, E, E, E, E, E, E];
    IsWinnerSpec(DropPiece(Case3, 0, Yel).value, Yel);
  }

  lemma Case3Column4Wins()
    ensures WinsAt(Case3, 4, Yel)
  {
    LandsOnFloor(Case3, 4, Yel);
    assert FourAt(DropPiece(Case3, 4, Yel).value, Yel, 2, 1, DiagDown);
    IsWinnerSpec(DropPiece(Case3, 4, Yel).value, Yel);
  }

  lemma Case3Chooses4()
    ensures ChooseBestMove(Case3, Yel, 4) == Choice(Some(4), Fin(WinScore + 4))
  {
    Case3Column4Wins();
    Case3Column3NoWin();
    Case3Column2NoWin();
    WinChosenAt4(Case3, Yel, 4);
  }

  /** Three on a rising diagonal at (4,2), (3,3), (2,4): column 1 completes it at (5,1). */
  const Case4: Board := [
    [E, E, E, E, E, E, E],
    [E, E, E, E, E, E, E],
    [E, E, E, E, Y, E, E],
    [E, E, E, Y, E, E, E],
    [E, E, Y, E, E, E, E],
    [E, E, E, E, E, E, E]]

  lemma Case4Column3NoWin()
    ensures !WinsAt(Case4, 3, Yel)
  {
    LandsOnFloor(Case4, 3, Yel);
    assert Case4[5][3 := Yel] == [E, E, E, Y, E, E, E];
    IsWinnerSpec(DropPiece(Case4, 3, Yel).value, Yel);
  }

  lemma Case4Column2NoWin()
    ensures !WinsAt(Case4, 2, Yel)
  {
    LandsOnFloor(Case4, 2, Yel);
    assert Case4[5][2 := Yel] == [E, E, Y, E, E, E, E];
    IsWinnerSpec(DropPiece(Case4, 2, Yel).value, Yel);
  }

  lemma Case4Column4NoWin()
    ensures !WinsAt(Case4, 4, Yel)
  {
    LandsOnFloor(Case4, 4, Yel);
    assert Case4[5][4 := Yel] == [E, E, E, E, Y, E, E];
    IsWinnerSpec(DropPiece(Case4, 4, Yel).value, Yel);
  }

  lemma Case4Column1Wins()
    ensures WinsAt(Case4, 1, Yel)
  {
    LandsOnFloor(Case4, 1, Yel);
    assert FourAt(DropPiece(Case4, 1, Yel).value, Yel, 5, 1, DiagUp);
    IsWinnerSpec(DropPiece(Case4, 1, Yel).value, Yel);
  }

  lemma Case4Chooses1()
    ensures ChooseBestMove(Case4, Yel, 4) == Choice(Some(1), Fin(WinScore + 4))
  {
    Case4Column1Wins();
    Case4Column3NoWin();
    Case4Column2NoWin();
    Case4Column4NoWin();
    WinChosenAt1(Case4, Yel, 4);
  }
}

module Openings {
  import opened Wrappers
  import opened Board
  import opened Heuristic
  import opened Search

  /** With every top cell open, every column from `c` on is listed, in order. */
  lemma {:induction false} ValidFromAllOpen(b: Board, c: nat)
    requires WellFormed(b) && c <= Cols(b)
    requires forall x :: c <= x < Cols(b) ==> b[0][x] == Empty
    ensures |ValidFrom(b, c)| == Cols(b) - c
    ensures forall i :: 0 <= i < Cols(b) - c ==> ValidFrom(b, c)[i] == c + i
    decreases Cols(b) - c
  {
    if c < Cols(b) {
      ValidFromAllOpen(b, c + 1);
      assert ValidFrom(b, c) == [c] + ValidFrom(b, c + 1);
    }
  }

  /** The centre-first order of seven columns. */
  const CentreOrder: seq<nat> := [3, 2, 4, 1, 5, 0, 6]

  // Evaluating `SortByCenter([0, 1, 2, 3, 4, 5, 6], 3)` one insertion at a time.

  lemma SortFrom3()
    ensures SortByCenter([3, 4, 5, 6], 3) == [3, 4, 5, 6]
  {
    assert [3, 4, 5, 6][1..] == [4, 5, 6];
    assert [4, 5, 6][1..] == [5, 6];
    assert [5, 6][1..] == [6];
  }

  lemma SortFrom2()
    ensures SortByCenter([2, 3, 4, 5, 6], 3) == [3, 2, 4, 5, 6]
  {
    SortFrom3();
    assert [2, 3, 4, 5, 6][1..] == [3, 4, 5, 6];
    assert [3, 4, 5, 6][1..] == [4, 5, 6];
  }

  lemma InsertOne()
    ensures Insert(1, [3, 2, 4, 5, 6], 3) == [3, 2, 4, 1, 5, 6]
  {
    assert [3, 2, 4, 5, 6][1..] == [2, 4, 5, 6];
    assert [2, 4, 5, 6][1..] == [4, 5, 6];
    assert [4, 5, 6][1..] == [5, 6];
  }

  lemma SortFrom1()
    ensures SortByCenter([1, 2, 3, 4, 5, 6], 3) == [3, 2, 4, 1, 5, 6]
  {
    SortFrom2();
    InsertOne();
    assert [1, 2, 3, 4, 5, 6][1..] == [2, 3, 4, 5, 6];
  }

  lemma InsertZero()
    ensures Insert(0, [3, 2, 4, 1, 5, 6], 3) == CentreOrder
  {
    assert [3, 2, 4, 1, 5, 6][1..] == [2, 4, 1, 5, 6];
    assert [2, 4, 1, 5, 6][1..] == [4, 1, 5, 6];
    assert [4, 1, 5, 6][1..] == [1, 5, 6];
    assert [1, 5, 6][1..] == [5, 6];
    assert [5, 6][1..] == [6];
  }

  lemma SortFrom0()
    ensures SortByCenter([0, 1, 2, 3, 4, 5, 6], 3) == CentreOrder
  {
    SortFrom1();
    InsertZero();
    assert [0, 1, 2, 3, 4, 5, 6][1..] == [1, 2, 3, 4, 5, 6];
  }

  /** With every top cell of a seven-column board open, every column is valid. */
  lemma SevenOpenColumns(b: Board)
    requires WellFormed(b) && Cols(b) == 7
    requires forall c :: 0 <= c < 7 ==> b[0][c] == Empty
    ensures ValidLocations(b) == [0, 1, 2, 3, 4, 5, 6]
  {
    ValidFromAllOpen(b, 0);
    assert ValidLocations(b) == ValidFrom(b, 0);
  }

  /** On a seven-column board with every column open the order is 3, 2, 4, 1, 5, 0, 6. */
  lemma SevenOpenColumnsOrder(b: Board)
    requires WellFormed(b) && Cols(b) == 7
    requires forall c :: 0 <= c < 7 ==> b[0][c] == Empty
    ensures OrderedValidLocations(b) == CentreOrder
  {
    SevenOpenColumns(b);
    SortFrom0();
  }

  /** With all seven columns open, an immediate win in column 3 is taken first. */
  lemma WinChosenAt3(b: Board, ai: Cell, depth: nat)
    requires WellFormed(b) && Cols(b) == 7
    requires forall c :: 0 <= c < 7 ==> b[0][c] == Empty
    requires WinsAt(b, 3, ai)
    ensures ChooseBestMove(b, ai, depth) == Choice(Some(3), Fin(WinScore + depth))
  {
    SevenOpenColumnsOrder(b);
    FirstWinChosen(b, ai, depth, 0);
  }

  /** With all seven columns open, a win in column 2 is taken when column 3 does not win. */
  lemma WinChosenAt2(b: Board, ai: Cell, depth: nat)
    requires WellFormed(b) && Cols(b) == 7
    requires forall c :: 0 <= c < 7 ==> b[0][c] == Empty
    requires WinsAt(b, 2, ai)
    requires !WinsAt(b, 3, ai)
    ensures ChooseBestMove(b, ai, depth) == Choice(Some(2), Fin(WinScore + depth))
  {
    SevenOpenColumnsOrder(b);
    FirstWinChosen(b, ai, depth, 1);
  }

  /** With all seven columns open, a win in column 4 is taken when neither 3 nor 2 wins. */
  lemma WinChosenAt4(b: Board, ai: Cell, depth: nat)
    requires WellFormed(b) && Cols(b) == 7
    requires forall c :: 0 <= c < 7 ==> b[0][c] == Empty
    requires WinsAt(b, 4, ai)
    requires !WinsAt(b, 3, ai)
    requires !WinsAt(b, 2, ai)
    ensures ChooseBestMove(b, ai, depth) == Choice(Some(4), Fin(WinScore + depth))
  {
    SevenOpenColumnsOrder(b);
    var o := OrderedValidLocations(b);
    forall j | 0 <= j < 2 ensures !WinsAt(b, o[j], ai) {
      if j == 0 { assert o[j] == 3; } else { assert o[j] == 2; }
    }
    assert o[2] == 4;
    FirstWinChosen(b, ai, depth, 2);
  }

  /** With all seven columns open, a win in column 1 is taken when none of 3, 2 and 4 wins. */
  lemma WinChosenAt1(b: Board, ai: Cell, depth: nat)
    requires WellFormed(b) && Cols(b) == 7
    requires forall c :: 0 <= c < 7 ==> b[0][c] == Empty
    requires WinsAt(b, 1, ai)
    requires !WinsAt(b, 3, ai)
    requires !WinsAt(b, 2, ai)
    requires !WinsAt(b, 4, ai)
    ensures ChooseBestMove(b, ai, depth) == Choice(Some(1), Fin(WinScore + depth))
  {
    SevenOpenColumnsOrder(b);
    var o := OrderedValidLocations(b);
    forall j | 0 <= j < 3 ensures !WinsAt(b, o[j], ai) {
      if j == 0 { assert o[j] == 3; } else if j == 1 { assert o[j] == 2; } else { assert o[j] == 4; }
    }
    assert o[3] == 1;
    FirstWinChosen(b, ai, depth, 3);
  }
}
