/**
  The search engine: centre-first move ordering, depth-aware minimax with
  alpha-beta pruning, and the immediate-win shortcut of `choose_best_move`.
*/
module Search {
  import opened Wrappers
  import opened Board
  import opened Heuristic

  /** Base score of a won or lost position. */
  const WinScore := 1_000_000

  // ---------------------------------------------------------------------------
  // Move ordering
  // ---------------------------------------------------------------------------

  /** `abs(c - center)`. */
  function Dist(c: int, center: int): nat
  {
    if c >= center then c - center else center - c
  }

  /**
    The order of `sorted(valid, key=lambda c: abs(c - center))`: nearer the centre
    first, and, the sort being stable over an ascending list, ties by column.
  */
  predicate Before(a: nat, b: nat, center: int)
  {
    Dist(a, center) < Dist(b, center) || (Dist(a, center) == Dist(b, center) && a < b)
  }

  predicate CenterSorted(s: seq<nat>, center: int)
  {
    forall i, j :: 0 <= i < j < |s| ==> Before(s[i], s[j], center)
  }

  /** Insertion of `x` into a list kept in centre order. */
  function Insert(x: nat, s: seq<nat>, center: int): (r: seq<nat>)
    ensures |r| == |s| + 1
  {
    if s == [] then [x]
    else if Before(x, s[0], center) then [x] + s
    else [s[0]] + Insert(x, s[1..], center)
  }

  lemma {:induction false} InsertSpec(x: nat, s: seq<nat>, center: int)
    requires CenterSorted(s, center) && x !in s
    ensures CenterSorted(Insert(x, s, center), center)
    ensures multiset(Insert(x, s, center)) == multiset(s) + multiset{x}
  {
    if s == [] {
    } else if Before(x, s[0], center) {
      assert forall i :: 0 < i < |s| ==> Before(s[0], s[i], center);
    } else {
      var tail := s[1..];
      assert s == [s[0]] + tail;
      SortedTail(s, center);
      InsertSpec(x, tail, center);
      InsertHeadFirst(x, s, Insert(x, tail, center), center);
    }
  }

  /** The head of a sorted list stays first when a later-ordered element is inserted behind it. */
  lemma InsertHeadFirst(x: nat, s: seq<nat>, rest: seq<nat>, center: int)
    requires CenterSorted(s, center) && s != [] && x !in s && !Before(x, s[0], center)
    requires CenterSorted(rest, center) && multiset(rest) == multiset(s[1..]) + multiset{x}
    ensures CenterSorted([s[0]] + rest, center)
    ensures multiset([s[0]] + rest) == multiset(s) + multiset{x}
  {
    var tail := s[1..];
    assert s == [s[0]] + tail;
    assert x != s[0];
    forall k | 0 <= k < |rest| ensures Before(s[0], rest[k], center) {
      assert rest[k] in multiset(rest);
      if rest[k] != x {
        assert rest[k] in multiset(tail);
        var i :| 0 <= i < |tail| && tail[i] == rest[k];
        assert tail[i] == s[i + 1];
      }
    }
    var r := [s[0]] + rest;
    forall i, j | 0 <= i < j < |r| ensures Before(r[i], r[j], center) {
      if i == 0 {
        assert r[j] == rest[j - 1];
      } else {
        assert r[i] == rest[i - 1] && r[j] == rest[j - 1];
      }
    }
  }

  /** Python's stable `sorted(cs, key=lambda c: abs(c - center))`, as an insertion sort. */
  function SortByCenter(cs: seq<nat>, center: int): (r: seq<nat>)
    ensures |r| == |cs|
  {
    if cs == [] then [] else Insert(cs[0], SortByCenter(cs[1..], center), center)
  }

  /** Sorting distinct columns yields them in centre order, each exactly once. */
  lemma {:induction false} SortByCenterSpec(cs: seq<nat>, center: int)
    requires Increasing(cs)
    ensures CenterSorted(SortByCenter(cs, center), center)
    ensures multiset(SortByCenter(cs, center)) == multiset(cs)
  {
    if cs != [] {
      var tail := cs[1..];
      assert cs == [cs[0]] + tail;
      assert Increasing(tail) by {
        forall i, j | 0 <= i < j < |tail| ensures tail[i] < tail[j] {
          assert tail[i] == cs[i + 1] && tail[j] == cs[j + 1];
        }
      }
      SortByCenterSpec(tail, center);
      var sorted := SortByCenter(tail, center);
      assert cs[0] !in sorted by {
        assert cs[0] !in multiset(tail) by {
          forall i | 0 <= i < |tail| ensures tail[i] != cs[0] {
            assert tail[i] == cs[i + 1];
          }
        }
      }
      InsertSpec(cs[0], sorted, center);
    }
  }

  /**
    `ordered_valid_locations`: exactly the legal columns. `OrderedValidLocationsSpec`
    states the order and that each column occurs once.
  */
  function OrderedValidLocations(b: Board): (r: seq<nat>)
    requires WellFormed(b)
    ensures forall c: nat :: c in r <==> c < Cols(b) && b[0][c] == Empty
  {
    OrderedValidLocationsSpec(b);
    SortByCenter(ValidLocations(b), Cols(b) / 2)
  }

  /**
    The ordered list is a permutation of `get_valid_locations`, ordered by
    distance from the centre column `cols // 2`, ties by ascending column.
  */
  lemma OrderedValidLocationsSpec(b: Board)
    requires WellFormed(b)
    ensures var r := SortByCenter(ValidLocations(b), Cols(b) / 2);
      && multiset(r) == multiset(ValidLocations(b))
      && CenterSorted(r, Cols(b) / 2)
      && forall c: nat :: c in r <==> c < Cols(b) && b[0][c] == Empty
  {
    var r := SortByCenter(ValidLocations(b), Cols(b) / 2);
    SortByCenterSpec(ValidLocations(b), Cols(b) / 2);
    assert forall c :: c in r <==> c in multiset(ValidLocations(b));
  }

  /** A strict order sorts a collection one way only. */
  lemma {:induction false} CenterSortedUnique(s: seq<nat>, t: seq<nat>, center: int)
    requires CenterSorted(s, center) && CenterSorted(t, center)
    requires multiset(s) == multiset(t)
    ensures s == t
    decreases |s|
  {
    if s != [] {
      assert |t| == |s| by {
        assert |multiset(s)| == |s| && |multiset(t)| == |t|;
      }
      SameHead(s, t, center);
      SortedTail(s, center);
      SortedTail(t, center);
      assert multiset(s[1..]) == multiset(t[1..]) by {
        MultisetTail(s);
        MultisetTail(t);
      }
      CenterSortedUnique(s[1..], t[1..], center);
      assert s == [s[0]] + s[1..] && t == [t[0]] + t[1..];
    }
  }

  /** Both sorted arrangements start with the least element of the collection. */
  lemma SameHead(s: seq<nat>, t: seq<nat>, center: int)
    requires CenterSorted(s, center) && CenterSorted(t, center)
    requires multiset(s) == multiset(t) && s != []
    ensures t != [] && s[0] == t[0]
  {
    assert s[0] in multiset(t);
    var j :| 0 <= j < |t| && t[j] == s[0];
    assert t[0] in multiset(s);
    var i :| 0 <= i < |s| && s[i] == t[0];
    assert i > 0 ==> Before(s[0], s[i], center);
    assert j > 0 ==> Before(t[0], t[j], center);
  }

  lemma SortedTail(s: seq<nat>, center: int)
    requires CenterSorted(s, center) && s != []
    ensures CenterSorted(s[1..], center)
  {
    forall a, c | 0 <= a < c < |s[1..]| ensures Before(s[1..][a], s[1..][c], center) {
      assert s[1..][a] == s[a + 1] && s[1..][c] == s[c + 1];
    }
  }

  lemma MultisetTail(s: seq<nat>)
    requires s != []
    ensures multiset(s[1..]) == multiset(s) - multiset{s[0]}
  {
    assert s == [s[0]] + s[1..];
  }

  // ---------------------------------------------------------------------------
  // Scores with infinities
  // ---------------------------------------------------------------------------

  /** An integer score or one of the `math.inf` bounds the search starts from. */
  datatype ExtInt = NegInf | Fin(n: int) | PosInf

  predicate Lt(a: ExtInt, b: ExtInt)
  {
    match a
    case NegInf => !b.NegInf?
    case Fin(x) => b.PosInf? || (b.Fin? && x < b.n)
    case PosInf => false
  }

  predicate Le(a: ExtInt, b: ExtInt)
  {
    !Lt(b, a)
  }

  /** Python's `max(a, b)`. */
  function Max(a: ExtInt, b: ExtInt): ExtInt
  {
    if Lt(a, b) then b else a
  }

  /** Python's `min(a, b)`. */
  function Min(a: ExtInt, b: ExtInt): ExtInt
  {
    if Lt(b, a) then b else a
  }

  // ---------------------------------------------------------------------------
  // Minimax with alpha-beta pruning
  // ---------------------------------------------------------------------------

  /** The `(column, score)` pair the search returns. */
  datatype Choice = Choice(col: Option<nat>, score: ExtInt)

  /** Every listed column is on the board and has an empty top cell. */
  predicate AllValid(b: Board, cols: seq<nat>)
    requires WellFormed(b)
  {
    forall i :: 0 <= i < |cols| ==> cols[i] < Cols(b) && b[0][cols[i]] == Empty
  }

  lemma OrderedAllValid(b: Board)
    requires WellFormed(b)
    ensures AllValid(b, OrderedValidLocations(b))
  {
    var L := OrderedValidLocations(b);
    assert forall i :: 0 <= i < |L| ==> L[i] in L;
  }

  lemma TailAllValid(b: Board, cols: seq<nat>)
    requires WellFormed(b) && AllValid(b, cols) && cols != []
    ensures AllValid(b, cols[1..])
    ensures forall c :: c in cols[1..] ==> c in cols
  {
    assert forall i :: 0 <= i < |cols| - 1 ==> cols[1..][i] == cols[i + 1];
  }

  /** A position that is not terminal has a legal column. */
  lemma NonTerminalHasMove(b: Board)
    requires WellFormed(b) && !IsTerminal(b)
    ensures Cols(b) >= 1 && |OrderedValidLocations(b)| >= 1
  {
    var c :| 0 <= c < Cols(b) && b[0][c] == Empty;
    assert c in OrderedValidLocations(b);
  }

  /**
    The score of a node where the search stops: a win for `ai`, a loss, a draw
    on a full board, or the heuristic when only the depth ran out.
  */
  function LeafScore(b: Board, depth: nat, ai: Cell): (s: int)
    requires WellFormed(b)
    ensures IsTerminal(b) ==> (s > 0 <==> IsWinner(b, ai))
    ensures IsTerminal(b) ==> (s < 0 <==> !IsWinner(b, ai) && IsWinner(b, Opponent(ai)))
    ensures !IsTerminal(b) ==> s == ScorePosition(b, ai)
  {
    if IsTerminal(b) then
      if IsWinner(b, ai) then WinScore + depth
      else if IsWinner(b, Opponent(ai)) then -WinScore - depth
      else 0
    else
      NonTerminalHasMove(b);
      ScorePosition(b, ai)
  }

  /** The side to move: `ai` on maximizing layers, its opponent otherwise. */
  function Mover(maximizing: bool, ai: Cell): Cell
  {
    if maximizing then ai else Opponent(ai)
  }

  /**
    `minimax`: the best score for `ai` reachable within `depth` plies, searched
    with alpha-beta pruning. What the score means is stated by `MinimaxSpec`
    and, against plain minimax, by the alpha-beta lemmas.
  */
  function Minimax(b: Board, depth: nat, alpha: ExtInt, beta: ExtInt, maximizing: bool, ai: Cell): (r: Choice)
    requires WellFormed(b)
    ensures r.score.Fin?
    decreases depth, 1, 0
  {
    if depth == 0 || IsTerminal(b) then
      Choice(None, Fin(LeafScore(b, depth, ai)))
    else
      var valid := OrderedValidLocations(b);
      NonTerminalHasMove(b);
      OrderedAllValid(b);
      if maximizing then MaxLoop(b, valid, depth, alpha, beta, ai, NegInf, valid[0])
      else MinLoop(b, valid, depth, alpha, beta, ai, PosInf, valid[0])
  }

  /**
    The leaves of the search: a won or lost terminal position scores plus or
    minus `WinScore` adjusted by the remaining depth, a drawn one 0, and a
    position where only the depth ran out gets the heuristic; an inner node
    returns one of its ordered legal columns.
  */
  lemma MinimaxSpec(b: Board, depth: nat, alpha: ExtInt, beta: ExtInt, maximizing: bool, ai: Cell)
    requires WellFormed(b)
    ensures var r := Minimax(b, depth, alpha, beta, maximizing, ai);
      && (depth == 0 || IsTerminal(b) ==> r.col.None?)
      && (IsTerminal(b) && HasFour(b, ai) ==> r.score == Fin(WinScore + depth))
      && (IsTerminal(b) && !HasFour(b, ai) && HasFour(b, Opponent(ai)) ==> r.score == Fin(-WinScore - depth))
      && (IsTerminal(b) && !HasFour(b, ai) && !HasFour(b, Opponent(ai)) ==> r.score == Fin(0))
      && (depth == 0 && !IsTerminal(b) ==> Cols(b) >= 1 && r.score == Fin(ScorePosition(b, ai)))
      && (depth > 0 && !IsTerminal(b) ==> r.col.Some? && r.col.value in OrderedValidLocations(b))
  {
    IsWinnerSpec(b, ai);
    IsWinnerSpec(b, Opponent(ai));
    if depth == 0 && !IsTerminal(b) {
      NonTerminalHasMove(b);
    }
  }

  /**
    The score the search gives the child reached by the side to move dropping
    into `col`, searched to the child's depth `d`.
  */
  function ChildScore(b: Board, col: nat, d: nat, alpha: ExtInt, beta: ExtInt, maximizing: bool, ai: Cell): (s: ExtInt)
    requires WellFormed(b) && col < Cols(b) && b[0][col] == Empty
    ensures s.Fin?
    decreases d, 2, 0
  {
    Minimax(Child(b, col, maximizing, ai), d, alpha, beta, !maximizing, ai).score
  }

  /** The board after the side to move drops into the legal column `col`. */
  function Child(b: Board, col: nat, maximizing: bool, ai: Cell): (child: Board)
    requires WellFormed(b) && col < Cols(b) && b[0][col] == Empty
    ensures WellFormed(child) && SameShape(b, child)
  {
    DropPieceSpec(b, col, Mover(maximizing, ai));
    DropPiece(b, col, Mover(maximizing, ai)).value
  }

  /** The maximizing `for col in valid_locations` loop, from the current column on. */
  function MaxLoop(b: Board, cols: seq<nat>, depth: nat, alpha: ExtInt, beta: ExtInt, ai: Cell,
                   value: ExtInt, best: nat): (r: Choice)
    requires WellFormed(b) && depth >= 1 && AllValid(b, cols) && !value.PosInf?
    ensures r.col.Some? && (r.col.value == best || r.col.value in cols)
    ensures value.Fin? || cols != [] ==> r.score.Fin?
    decreases depth, 0, |cols|
  {
    if cols == [] then Choice(Some(best), value)
    else
      var col := cols[0];
      var s := ChildScore(b, col, depth - 1, alpha, beta, true, ai);
      var value' := if Lt(value, s) then s else value;
      var best' := if Lt(value, s) then col else best;
      var alpha' := Max(alpha, value');
      if Le(beta, alpha') then Choice(Some(best'), value')
      else
        TailAllValid(b, cols);
        MaxLoop(b, cols[1..], depth, alpha', beta, ai, value', best')
  }

  /** The minimizing loop: the opponent moves, and beta tightens. */
  function MinLoop(b: Board, cols: seq<nat>, depth: nat, alpha: ExtInt, beta: ExtInt, ai: Cell,
                   value: ExtInt, best: nat): (r: Choice)
    requires WellFormed(b) && depth >= 1 && AllValid(b, cols) && !value.NegInf?
    ensures r.col.Some? && (r.col.value == best || r.col.value in cols)
    ensures value.Fin? || cols != [] ==> r.score.Fin?
    decreases depth, 0, |cols|
  {
    if cols == [] then Choice(Some(best), value)
    else
      var col := cols[0];
      var s := ChildScore(b, col, depth - 1, alpha, beta, false, ai);
      var value' := if Lt(s, value) then s else value;
      var best' := if Lt(s, value) then col else best;
      var beta' := Min(beta, value');
      if Le(beta', alpha) then Choice(Some(best'), value')
      else
        TailAllValid(b, cols);
        MinLoop(b, cols[1..], depth, alpha, beta', ai, value', best')
  }

  // ---------------------------------------------------------------------------
  // The top-level API
  // ---------------------------------------------------------------------------

  /** The index of the first listed column from position `i` on that satisfies `f`. */
  function FirstWhere(cols: seq<nat>, f: nat -> bool, i: nat): (r: Option<nat>)
    requires i <= |cols|
    ensures r.Some? ==> i <= r.value < |cols|
    decreases |cols| - i
  {
    if i == |cols| then None
    else if f(cols[i]) then Some(i)
    else FirstWhere(cols, f, i + 1)
  }

  /** The scan finds the first column from `i` on that satisfies `f`, and finds none only when there is none. */
  lemma {:induction false} FirstWhereSpec(cols: seq<nat>, f: nat -> bool, i: nat)
    requires i <= |cols|
    ensures var r := FirstWhere(cols, f, i);
      && (r.None? <==> forall j :: i <= j < |cols| ==> !f(cols[j]))
      && (r.Some? ==> f(cols[r.value]) && forall j :: i <= j < r.value ==> !f(cols[j]))
    decreases |cols| - i
  {
    if i < |cols| && !f(cols[i]) {
      FirstWhereSpec(cols, f, i + 1);
    }
  }

  /** Conversely, a column satisfying `f` with none before it from `k` on is the one found. */
  lemma {:induction false} FirstWhereAt(cols: seq<nat>, f: nat -> bool, k: nat, i: nat)
    requires k <= i < |cols| && f(cols[i])
    requires forall j :: k <= j < i ==> !f(cols[j])
    ensures FirstWhere(cols, f, k) == Some(i)
    decreases i - k
  {
    if k < i {
      FirstWhereAt(cols, f, k + 1, i);
    }
  }

  /** The index of the first listed column in which `ai` wins with one move. */
  function FirstWin(b: Board, cols: seq<nat>, ai: Cell): Option<nat>
    requires WellFormed(b)
  {
    FirstWhere(cols, (c: nat) => WinsAt(b, c, ai), 0)
  }

  /**
    `choose_best_move`: an immediate win, if there is one, is taken at once (the
    first one in centre-first order, scored `WinScore + depth`); otherwise the
    result is that of the full alpha-beta search from (-inf, +inf).
  */
  function ChooseBestMove(b: Board, ai: Cell, depth: nat): (r: Choice)
    requires WellFormed(b)
    ensures r.score.Fin?
  {
    var ordered := OrderedValidLocations(b);
    OrderedAllValid(b);
    match FirstWin(b, ordered, ai)
    case Some(i) => Choice(Some(ordered[i]), Fin(WinScore + depth))
    case None => Minimax(b, depth, NegInf, PosInf, true, ai)
  }

  /**
    With an immediate win the move is the first winning column in centre-first
    order, scored `WinScore + depth`; with no legal column there is no move;
    otherwise, when the search ran, the move is a legal column.
  */
  lemma ChooseBestMoveSpec(b: Board, ai: Cell, depth: nat)
    requires WellFormed(b)
    ensures var r := ChooseBestMove(b, ai, depth);
      var ordered := OrderedValidLocations(b);
      && (WinningColumns(b, ai) != {} ==>
            && r.score == Fin(WinScore + depth)
            && r.col.Some? && r.col.value in WinningColumns(b, ai)
            && exists i :: 0 <= i < |ordered| && ordered[i] == r.col.value
                           && forall j :: 0 <= j < i ==> ordered[j] !in WinningColumns(b, ai))
      && (ValidLocations(b) == [] ==> r.col.None?)
      && (WinningColumns(b, ai) == {} && depth > 0 && !IsTerminal(b) ==> r.col.Some? && r.col.value in ValidLocations(b))
  {
    var ordered := OrderedValidLocations(b);
    OrderedAllValid(b);
    FirstWhereSpec(ordered, (c: nat) => WinsAt(b, c, ai), 0);
    var w := FirstWin(b, ordered, ai);
    if w.Some? {
      var i := w.value;
      assert ordered[i] in WinningColumns(b, ai);
      forall j | 0 <= j < i ensures ordered[j] !in WinningColumns(b, ai) {
        assert !WinsAt(b, ordered[j], ai);
      }
    } else {
      assert WinningColumns(b, ai) == {};
      assert ValidLocations(b) == [] ==> IsTerminal(b) by {
        if ValidLocations(b) == [] {
          forall c | 0 <= c < Cols(b) ensures b[0][c] != Empty {
            assert c !in ValidLocations(b);
          }
        }
      }
      MinimaxSpec(b, depth, NegInf, PosInf, true, ai);
    }
  }

  /** Without an immediate win, `choose_best_move` is the root search from (-inf, +inf). */
  lemma NoWinSearches(b: Board, ai: Cell, depth: nat)
    requires WellFormed(b) && WinningColumns(b, ai) == {}
    ensures ChooseBestMove(b, ai, depth) == Minimax(b, depth, NegInf, PosInf, true, ai)
  {
    var ordered := OrderedValidLocations(b);
    OrderedAllValid(b);
    var f := (c: nat) => WinsAt(b, c, ai);
    forall j | 0 <= j < |ordered| ensures !f(ordered[j]) {
      assert ordered[j] !in WinningColumns(b, ai);
    }
    FirstWhereSpec(ordered, f, 0);
  }

  /**
    A column in which `ai` wins at once, with no winning column before it in
    centre-first order, is the move chosen, with score `WinScore + depth`.
  */
  lemma FirstWinChosen(b: Board, ai: Cell, depth: nat, i: nat)
    requires WellFormed(b) && i < |OrderedValidLocations(b)|
    requires WinsAt(b, OrderedValidLocations(b)[i], ai)
    requires forall j :: 0 <= j < i ==> !WinsAt(b, OrderedValidLocations(b)[j], ai)
    ensures ChooseBestMove(b, ai, depth) == Choice(Some(OrderedValidLocations(b)[i]), Fin(WinScore + depth))
  {
    FirstWhereAt(OrderedValidLocations(b), (c: nat) => WinsAt(b, c, ai), 0, i);
  }
}
