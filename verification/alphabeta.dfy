/**
  Soundness of the pruning in `minimax`: plain minimax over the legal columns,
  with no pruning and no move ordering, as a reference, and the fail-soft
  alpha-beta property that ties the search to it.
*/
module AlphaBeta {
  import opened Wrappers
  import opened Board
  import opened Heuristic
  import opened Search

  // ---------------------------------------------------------------------------
  // Best of a sequence of values
  // ---------------------------------------------------------------------------

  /** `a` is at least as good as `b` for the side to move. */
  predicate AtLeast(a: ExtInt, b: ExtInt, maximizing: bool)
  {
    if maximizing then Le(b, a) else Le(a, b)
  }

  /** The maximum (or minimum) of the values; -inf (or +inf) when there are none. */
  function Fold(vs: seq<ExtInt>, maximizing: bool): ExtInt
  {
    if vs == [] then (if maximizing then NegInf else PosInf)
    else
      var init := Fold(vs[..|vs| - 1], maximizing);
      if maximizing then Max(init, vs[|vs| - 1]) else Min(init, vs[|vs| - 1])
  }

  lemma {:induction false} FoldBound(vs: seq<ExtInt>, maximizing: bool)
    ensures forall i :: 0 <= i < |vs| ==> AtLeast(Fold(vs, maximizing), vs[i], maximizing)
    decreases |vs|
  {
    if vs != [] {
      var init := vs[..|vs| - 1];
      FoldBound(init, maximizing);
      assert forall i :: 0 <= i < |init| ==> init[i] == vs[i];
    }
  }

  lemma {:induction false} FoldAttained(vs: seq<ExtInt>, maximizing: bool)
    requires vs != []
    ensures exists i :: 0 <= i < |vs| && Fold(vs, maximizing) == vs[i]
    decreases |vs|
  {
    var init := vs[..|vs| - 1];
    var last := |vs| - 1;
    if init == [] {
      assert Fold(vs, maximizing) == vs[last];
    } else {
      FoldAttained(init, maximizing);
      var i :| 0 <= i < |init| && Fold(init, maximizing) == init[i];
      assert init[i] == vs[i];
      if Fold(vs, maximizing) == vs[last] {
      } else {
        assert Fold(vs, maximizing) == vs[i];
      }
    }
  }

  lemma BothEmpty(s: seq<ExtInt>, t: seq<ExtInt>)
    requires forall v :: v in s <==> v in t
    ensures s == [] <==> t == []
  {
    if s != [] {
      assert s[0] in t;
    }
    if t != [] {
      assert t[0] in s;
    }
  }

  /** The best value depends only on which values occur, not on their order. */
  lemma FoldSameElements(s: seq<ExtInt>, t: seq<ExtInt>, maximizing: bool)
    requires forall v :: v in s <==> v in t
    ensures Fold(s, maximizing) == Fold(t, maximizing)
  {
    BothEmpty(s, t);
    if s != [] {
      FoldAttained(s, maximizing);
      FoldAttained(t, maximizing);
      FoldBound(s, maximizing);
      FoldBound(t, maximizing);
      var i :| 0 <= i < |s| && Fold(s, maximizing) == s[i];
      var j :| 0 <= j < |t| && Fold(t, maximizing) == t[j];
      assert s[i] in t;
      assert t[j] in s;
    }
  }

  lemma FoldStep(vs: seq<ExtInt>, k: nat, maximizing: bool)
    requires k < |vs|
    ensures Fold(vs[..k + 1], maximizing)
      == if maximizing then Max(Fold(vs[..k], maximizing), vs[k]) else Min(Fold(vs[..k], maximizing), vs[k])
  {
    assert vs[..k + 1][..k] == vs[..k];
  }

  lemma FoldPrefixBound(vs: seq<ExtInt>, k: nat, maximizing: bool)
    requires k <= |vs|
    ensures AtLeast(Fold(vs, maximizing), Fold(vs[..k], maximizing), maximizing)
  {
    if k > 0 {
      FoldAttained(vs[..k], maximizing);
      FoldBound(vs, maximizing);
      var i :| 0 <= i < k && Fold(vs[..k], maximizing) == vs[..k][i];
      assert vs[..k][i] == vs[i];
    }
  }

  /** Two listings of the same columns, with each column's value fixed, list the same values. */
  lemma SameColumnsSameValues(L: seq<nat>, V: seq<nat>, s: seq<ExtInt>, t: seq<ExtInt>)
    requires |s| == |L| && |t| == |V|
    requires forall c :: c in L <==> c in V
    requires forall i, j :: 0 <= i < |L| && 0 <= j < |V| && L[i] == V[j] ==> s[i] == t[j]
    ensures forall v :: v in s <==> v in t
  {
    forall v ensures v in s <==> v in t {
      if v in s {
        var i :| 0 <= i < |s| && s[i] == v;
        assert L[i] in V;
        var j :| 0 <= j < |V| && V[j] == L[i];
        assert t[j] == v;
      }
      if v in t {
        var j :| 0 <= j < |t| && t[j] == v;
        assert V[j] in L;
        var i :| 0 <= i < |L| && L[i] == V[j];
        assert s[i] == v;
      }
    }
  }

  // ---------------------------------------------------------------------------
  // Reference: plain depth-limited minimax
  // ---------------------------------------------------------------------------

  /** The value of the depth-limited game tree: the best child over every legal column. */
  function Value(b: Board, depth: nat, maximizing: bool, ai: Cell): ExtInt
    requires WellFormed(b)
    decreases depth, 2
  {
    if depth == 0 || IsTerminal(b) then Fin(LeafScore(b, depth, ai))
    else
      ValidAllValid(b);
      Fold(ChildValues(b, ValidLocations(b), depth, maximizing, ai), maximizing)
  }

  /** The values of the children reached through the listed columns, in list order. */
  function ChildValues(b: Board, cols: seq<nat>, depth: nat, maximizing: bool, ai: Cell): (vs: seq<ExtInt>)
    requires WellFormed(b) && depth >= 1 && AllValid(b, cols)
    ensures |vs| == |cols|
    decreases depth, 1, |cols|
  {
    if cols == [] then []
    else
      TailAllValid(b, cols);
      [ChildValue(b, cols[0], depth - 1, maximizing, ai)] + ChildValues(b, cols[1..], depth, maximizing, ai)
  }

  lemma {:induction false} ChildValuesAt(b: Board, cols: seq<nat>, depth: nat, maximizing: bool, ai: Cell, i: nat)
    requires WellFormed(b) && depth >= 1 && AllValid(b, cols) && i < |cols|
    ensures cols[i] < Cols(b) && b[0][cols[i]] == Empty
    ensures ChildValues(b, cols, depth, maximizing, ai)[i] == ChildValue(b, cols[i], depth - 1, maximizing, ai)
    decreases i
  {
    assert cols[i] in cols;
    if i > 0 {
      TailAllValid(b, cols);
      ChildValuesAt(b, cols[1..], depth, maximizing, ai, i - 1);
    }
  }

  /** The reference value of the child reached through `c`, to the child's depth `d`. */
  function ChildValue(b: Board, c: nat, d: nat, maximizing: bool, ai: Cell): ExtInt
    requires WellFormed(b) && c < Cols(b) && b[0][c] == Empty
    decreases d, 3
  {
    Value(Child(b, c, maximizing, ai), d, !maximizing, ai)
  }

  lemma ValidAllValid(b: Board)
    requires WellFormed(b)
    ensures AllValid(b, ValidLocations(b))
  {
    var v := ValidLocations(b);
    assert forall i :: 0 <= i < |v| ==> v[i] in v;
  }

  /** Ordering the columns does not change the reference value. */
  lemma OrderIrrelevant(b: Board, depth: nat, maximizing: bool, ai: Cell)
    requires WellFormed(b) && depth >= 1 && !IsTerminal(b)
    ensures AllValid(b, OrderedValidLocations(b))
    ensures Value(b, depth, maximizing, ai) == Fold(ChildValues(b, OrderedValidLocations(b), depth, maximizing, ai), maximizing)
  {
    var L := OrderedValidLocations(b);
    var V := ValidLocations(b);
    OrderedAllValid(b);
    ValidAllValid(b);
    var s := ChildValues(b, L, depth, maximizing, ai);
    var t := ChildValues(b, V, depth, maximizing, ai);
    assert forall c :: c in L <==> c in V;
    forall i, j | 0 <= i < |L| && 0 <= j < |V| && L[i] == V[j] ensures s[i] == t[j] {
      ChildValuesAt(b, L, depth, maximizing, ai, i);
      ChildValuesAt(b, V, depth, maximizing, ai, j);
    }
    SameColumnsSameValues(L, V, s, t);
    FoldSameElements(s, t, maximizing);
  }

  // ---------------------------------------------------------------------------
  // Fail-soft alpha-beta
  // ---------------------------------------------------------------------------

  /**
    The fail-soft alpha-beta guarantee: a search result strictly inside the
    window (alpha, beta) is the exact value; at or below alpha it is an upper
    bound on the value; at or above beta it is a lower bound.
  */
  predicate FailSoft(v: ExtInt, m: ExtInt, alpha: ExtInt, beta: ExtInt)
  {
    && (Lt(alpha, v) && Lt(v, beta) ==> v == m)
    && (Le(v, alpha) ==> Le(m, v))
    && (Le(beta, v) ==> Le(v, m))
  }

  /** One iteration of the maximizing loop, on values only: what `value` and `alpha` become. */
  lemma MaxStep(alpha0: ExtInt, alpha: ExtInt, beta: ExtInt, value: ExtInt, s: ExtInt, cv: ExtInt, m: ExtInt)
    requires !value.PosInf? && s.Fin?
    requires Lt(alpha0, beta) && alpha == Max(alpha0, value) && Lt(alpha, beta)
    requires Le(m, value) && (Lt(alpha0, value) ==> Le(value, m))
    requires FailSoft(s, cv, alpha, beta)
    ensures var value' := if Lt(value, s) then s else value;
      var alpha' := Max(alpha, value');
      var m' := Max(m, cv);
      && !value'.PosInf?
      && (Le(beta, alpha') ==> Le(beta, value') && Le(value', m'))
      && (!Le(beta, alpha') ==>
            && alpha' == Max(alpha0, value') && Lt(alpha', beta)
            && Le(m', value') && (Lt(alpha0, value') ==> Le(value', m'))
            && (Lt(alpha0, value') && Lt(value, s) ==> s == cv))
  {
  }

  /** One iteration of the minimizing loop, on values only. */
  lemma MinStep(alpha: ExtInt, beta0: ExtInt, beta: ExtInt, value: ExtInt, s: ExtInt, cv: ExtInt, m: ExtInt)
    requires !value.NegInf? && s.Fin?
    requires Lt(alpha, beta0) && beta == Min(beta0, value) && Lt(alpha, beta)
    requires Le(value, m) && (Lt(value, beta0) ==> Le(m, value))
    requires FailSoft(s, cv, alpha, beta)
    ensures var value' := if Lt(s, value) then s else value;
      var beta' := Min(beta, value');
      var m' := Min(m, cv);
      && !value'.NegInf?
      && (Le(beta', alpha) ==> Le(value', alpha) && Le(m', value'))
      && (!Le(beta', alpha) ==>
            && beta' == Min(beta0, value') && Lt(alpha, beta')
            && Le(value', m') && (Lt(value', beta0) ==> Le(m', value'))
            && (Lt(value', beta0) && Lt(s, value) ==> s == cv))
  {
  }

  // ---------------------------------------------------------------------------
  // The two loops of `minimax` with the child search abstracted
  // ---------------------------------------------------------------------------

  /**
    The maximizing loop of `minimax`, where `score(c, alpha, beta)` stands for
    the search of the child reached through column `c` in the window (alpha, beta).
  */
  function MaxScan(score: (nat, ExtInt, ExtInt) -> ExtInt, cols: seq<nat>, alpha: ExtInt, beta: ExtInt,
                   value: ExtInt, best: nat): Choice
    decreases |cols|
  {
    if cols == [] then Choice(Some(best), value)
    else
      var s := score(cols[0], alpha, beta);
      var value' := if Lt(value, s) then s else value;
      var best' := if Lt(value, s) then cols[0] else best;
      var alpha' := Max(alpha, value');
      if Le(beta, alpha') then Choice(Some(best'), value')
      else MaxScan(score, cols[1..], alpha', beta, value', best')
  }

  /** The minimizing loop of `minimax` with the child search abstracted. */
  function MinScan(score: (nat, ExtInt, ExtInt) -> ExtInt, cols: seq<nat>, alpha: ExtInt, beta: ExtInt,
                   value: ExtInt, best: nat): Choice
    decreases |cols|
  {
    if cols == [] then Choice(Some(best), value)
    else
      var s := score(cols[0], alpha, beta);
      var value' := if Lt(s, value) then s else value;
      var best' := if Lt(s, value) then cols[0] else best;
      var beta' := Min(beta, value');
      if Le(beta', alpha) then Choice(Some(best'), value')
      else MinScan(score, cols[1..], alpha, beta', value', best')
  }

  /** The search of each child of `b`, to the child's depth `d`. */
  function ScoreOracle(b: Board, d: nat, maximizing: bool, ai: Cell): (nat, ExtInt, ExtInt) -> ExtInt
    requires WellFormed(b)
  {
    (c: nat, alpha: ExtInt, beta: ExtInt) =>
      if c < Cols(b) && b[0][c] == Empty then ChildScore(b, c, d, alpha, beta, maximizing, ai) else Fin(0)
  }

  /** The reference value of each child of `b`, to the child's depth `d`. */
  function ValueOracle(b: Board, d: nat, maximizing: bool, ai: Cell): nat -> ExtInt
    requires WellFormed(b)
  {
    (c: nat) => if c < Cols(b) && b[0][c] == Empty then ChildValue(b, c, d, maximizing, ai) else Fin(0)
  }

  /** The maximizing loop of `minimax` is the abstract loop run with the real child search. */
  lemma {:induction false} MaxLoopIsScan(b: Board, cols: seq<nat>, depth: nat, alpha: ExtInt, beta: ExtInt, ai: Cell,
                                         value: ExtInt, best: nat)
    requires WellFormed(b) && depth >= 1 && AllValid(b, cols) && !value.PosInf?
    ensures MaxLoop(b, cols, depth, alpha, beta, ai, value, best)
      == MaxScan(ScoreOracle(b, depth - 1, true, ai), cols, alpha, beta, value, best)
    decreases |cols|
  {
    if cols != [] {
      var s := ChildScore(b, cols[0], depth - 1, alpha, beta, true, ai);
      assert ScoreOracle(b, depth - 1, true, ai)(cols[0], alpha, beta) == s;
      var value' := if Lt(value, s) then s else value;
      var best' := if Lt(value, s) then cols[0] else best;
      var alpha' := Max(alpha, value');
      if !Le(beta, alpha') {
        TailAllValid(b, cols);
        MaxLoopIsScan(b, cols[1..], depth, alpha', beta, ai, value', best');
      }
    }
  }

  /** The minimizing loop of `minimax` is the abstract loop run with the real child search. */
  lemma {:induction false} MinLoopIsScan(b: Board, cols: seq<nat>, depth: nat, alpha: ExtInt, beta: ExtInt, ai: Cell,
                                         value: ExtInt, best: nat)
    requires WellFormed(b) && depth >= 1 && AllValid(b, cols) && !value.NegInf?
    ensures MinLoop(b, cols, depth, alpha, beta, ai, value, best)
      == MinScan(ScoreOracle(b, depth - 1, false, ai), cols, alpha, beta, value, best)
    decreases |cols|
  {
    if cols != [] {
      var s := ChildScore(b, cols[0], depth - 1, alpha, beta, false, ai);
      assert ScoreOracle(b, depth - 1, false, ai)(cols[0], alpha, beta) == s;
      var value' := if Lt(s, value) then s else value;
      var best' := if Lt(s, value) then cols[0] else best;
      var beta' := Min(beta, value');
      if !Le(beta', alpha) {
        TailAllValid(b, cols);
        MinLoopIsScan(b, cols[1..], depth, alpha, beta', ai, value', best');
      }
    }
  }

  /**
    The maximizing loop, from column `k` of `L` on, keeps the fail-soft
    guarantee for the best of the values `vs` of the listed columns, provided
    every child search keeps it for its own child.
  */
  lemma {:induction false} MaxScanSound(score: (nat, ExtInt, ExtInt) -> ExtInt, val: nat -> ExtInt, L: seq<nat>,
                                        vs: seq<ExtInt>, k: nat, alpha0: ExtInt, alpha: ExtInt, beta: ExtInt,
                                        value: ExtInt, best: nat)
    requires |vs| == |L| && k <= |L| && !value.PosInf?
    requires forall i :: 0 <= i < |L| ==> vs[i] == val(L[i])
    requires forall c, a, t :: c in L && Lt(a, t) ==> score(c, a, t).Fin? && FailSoft(score(c, a, t), val(c), a, t)
    requires Lt(alpha0, beta) && alpha == Max(alpha0, value) && Lt(alpha, beta)
    requires var m := Fold(vs[..k], true);
      Le(m, value) && (Lt(alpha0, value) ==> Le(value, m))
    requires Lt(alpha0, value) ==> best in L && val(best) == value
    ensures var r := MaxScan(score, L[k..], alpha, beta, value, best);
      && FailSoft(r.score, Fold(vs, true), alpha0, beta)
      && (Lt(alpha0, r.score) && Lt(r.score, beta) ==> r.col.Some? && r.col.value in L && val(r.col.value) == r.score)
    decreases |L| - k
  {
    if k == |L| {
      assert vs[..k] == vs;
    } else {
      var col := L[k];
      assert L[k..][0] == col && L[k..][1..] == L[k + 1..];
      var s := score(col, alpha, beta);
      FoldStep(vs, k, true);
      MaxStep(alpha0, alpha, beta, value, s, vs[k], Fold(vs[..k], true));
      var value' := if Lt(value, s) then s else value;
      var best' := if Lt(value, s) then col else best;
      var alpha' := Max(alpha, value');
      if Le(beta, alpha') {
        FoldPrefixBound(vs, k + 1, true);
      } else {
        MaxScanSound(score, val, L, vs, k + 1, alpha0, alpha', beta, value', best');
      }
    }
  }

  /** The minimizing loop keeps the fail-soft guarantee, with the roles of alpha and beta exchanged. */
  lemma {:induction false} MinScanSound(score: (nat, ExtInt, ExtInt) -> ExtInt, val: nat -> ExtInt, L: seq<nat>,
                                        vs: seq<ExtInt>, k: nat, alpha: ExtInt, beta0: ExtInt, beta: ExtInt,
                                        value: ExtInt, best: nat)
    requires |vs| == |L| && k <= |L| && !value.NegInf?
    requires forall i :: 0 <= i < |L| ==> vs[i] == val(L[i])
    requires forall c, a, t :: c in L && Lt(a, t) ==> score(c, a, t).Fin? && FailSoft(score(c, a, t), val(c), a, t)
    requires Lt(alpha, beta0) && beta == Min(beta0, value) && Lt(alpha, beta)
    requires var m := Fold(vs[..k], false);
      Le(value, m) && (Lt(value, beta0) ==> Le(m, value))
    requires Lt(value, beta0) ==> best in L && val(best) == value
    ensures var r := MinScan(score, L[k..], alpha, beta, value, best);
      && FailSoft(r.score, Fold(vs, false), alpha, beta0)
      && (Lt(alpha, r.score) && Lt(r.score, beta0) ==> r.col.Some? && r.col.value in L && val(r.col.value) == r.score)
    decreases |L| - k
  {
    if k == |L| {
      assert vs[..k] == vs;
    } else {
      var col := L[k];
      assert L[k..][0] == col && L[k..][1..] == L[k + 1..];
      var s := score(col, alpha, beta);
      FoldStep(vs, k, false);
      MinStep(alpha, beta0, beta, value, s, vs[k], Fold(vs[..k], false));
      var value' := if Lt(s, value) then s else value;
      var best' := if Lt(s, value) then col else best;
      var beta' := Min(beta, value');
      if Le(beta', alpha) {
        FoldPrefixBound(vs, k + 1, false);
      } else {
        MinScanSound(score, val, L, vs, k + 1, alpha, beta0, beta', value', best');
      }
    }
  }

  // ---------------------------------------------------------------------------
  // Fail-soft soundness of `minimax`
  // ---------------------------------------------------------------------------

  /**
    `minimax` with alpha-beta pruning satisfies the fail-soft guarantee with
    respect to plain minimax.
  */
  lemma AlphaBetaSound(b: Board, depth: nat, alpha: ExtInt, beta: ExtInt, maximizing: bool, ai: Cell)
    requires WellFormed(b) && Lt(alpha, beta)
    ensures FailSoft(Minimax(b, depth, alpha, beta, maximizing, ai).score, Value(b, depth, maximizing, ai), alpha, beta)
    decreases depth, 3
  {
    if depth > 0 && !IsTerminal(b) {
      AlphaBetaColumn(b, depth, alpha, beta, maximizing, ai);
    }
  }

  /**
    At an inner node the search keeps the fail-soft guarantee, and a score it
    returns strictly inside the window comes with a legal column whose child
    has exactly that value.
  */
  lemma AlphaBetaColumn(b: Board, depth: nat, alpha: ExtInt, beta: ExtInt, maximizing: bool, ai: Cell)
    requires WellFormed(b) && Lt(alpha, beta) && depth > 0 && !IsTerminal(b)
    ensures var r := Minimax(b, depth, alpha, beta, maximizing, ai);
      && FailSoft(r.score, Value(b, depth, maximizing, ai), alpha, beta)
      && (Lt(alpha, r.score) && Lt(r.score, beta) ==>
            && r.col.Some? && r.col.value < Cols(b) && b[0][r.col.value] == Empty
            && ChildValue(b, r.col.value, depth - 1, maximizing, ai) == r.score)
    decreases depth, 2
  {
    var L := OrderedValidLocations(b);
    NonTerminalHasMove(b);
    OrderIrrelevant(b, depth, maximizing, ai);
    NodeScanSound(b, L, depth, alpha, beta, maximizing, ai);
    if maximizing {
      MaxLoopIsScan(b, L, depth, alpha, beta, ai, NegInf, L[0]);
    } else {
      MinLoopIsScan(b, L, depth, alpha, beta, ai, PosInf, L[0]);
    }
  }

  /** The loop over the columns `L`, run with the real child search, keeps the fail-soft guarantee for the best child value. */
  lemma NodeScanSound(b: Board, L: seq<nat>, depth: nat, alpha: ExtInt, beta: ExtInt, maximizing: bool, ai: Cell)
    requires WellFormed(b) && depth >= 1 && AllValid(b, L) && L != [] && Lt(alpha, beta)
    ensures var score := ScoreOracle(b, depth - 1, maximizing, ai);
      var r := if maximizing then MaxScan(score, L, alpha, beta, NegInf, L[0])
               else MinScan(score, L, alpha, beta, PosInf, L[0]);
      && FailSoft(r.score, Fold(ChildValues(b, L, depth, maximizing, ai), maximizing), alpha, beta)
      && (Lt(alpha, r.score) && Lt(r.score, beta) ==>
            r.col.Some? && r.col.value in L && ValueOracle(b, depth - 1, maximizing, ai)(r.col.value) == r.score)
    decreases depth, 1
  {
    var vs := ChildValues(b, L, depth, maximizing, ai);
    var score := ScoreOracle(b, depth - 1, maximizing, ai);
    var val := ValueOracle(b, depth - 1, maximizing, ai);
    ChildValuesOracle(b, L, depth, maximizing, ai);
    OracleSound(b, L, depth - 1, maximizing, ai);
    assert L[0..] == L;
    if maximizing {
      MaxScanSound(score, val, L, vs, 0, alpha, alpha, beta, NegInf, L[0]);
    } else {
      MinScanSound(score, val, L, vs, 0, alpha, beta, beta, PosInf, L[0]);
    }
  }

  /** The reference values of the listed children are those the value oracle gives. */
  lemma ChildValuesOracle(b: Board, L: seq<nat>, depth: nat, maximizing: bool, ai: Cell)
    requires WellFormed(b) && depth >= 1 && AllValid(b, L)
    ensures var vs := ChildValues(b, L, depth, maximizing, ai);
      forall i :: 0 <= i < |L| ==> vs[i] == ValueOracle(b, depth - 1, maximizing, ai)(L[i])
  {
    var vs := ChildValues(b, L, depth, maximizing, ai);
    forall i | 0 <= i < |L| ensures vs[i] == ValueOracle(b, depth - 1, maximizing, ai)(L[i]) {
      ChildValuesAt(b, L, depth, maximizing, ai, i);
    }
  }

  /** Every child search of the listed columns keeps the fail-soft guarantee for its child. */
  lemma OracleSound(b: Board, L: seq<nat>, d: nat, maximizing: bool, ai: Cell)
    requires WellFormed(b) && AllValid(b, L)
    ensures var score := ScoreOracle(b, d, maximizing, ai);
      var val := ValueOracle(b, d, maximizing, ai);
      forall c, a, t :: c in L && Lt(a, t) ==> score(c, a, t).Fin? && FailSoft(score(c, a, t), val(c), a, t)
    decreases d, 5
  {
    var score := ScoreOracle(b, d, maximizing, ai);
    var val := ValueOracle(b, d, maximizing, ai);
    forall c, a, t | c in L && Lt(a, t) ensures score(c, a, t).Fin? && FailSoft(score(c, a, t), val(c), a, t) {
      var i :| 0 <= i < |L| && L[i] == c;
      ChildScoreSound(b, c, d, a, t, maximizing, ai);
    }
  }

  /** The search score of one child obeys the fail-soft guarantee for that child's value. */
  lemma ChildScoreSound(b: Board, col: nat, d: nat, alpha: ExtInt, beta: ExtInt, maximizing: bool, ai: Cell)
    requires WellFormed(b) && col < Cols(b) && b[0][col] == Empty && Lt(alpha, beta)
    ensures FailSoft(ChildScore(b, col, d, alpha, beta, maximizing, ai), ChildValue(b, col, d, maximizing, ai), alpha, beta)
    decreases d, 4
  {
    AlphaBetaSound(Child(b, col, maximizing, ai), d, alpha, beta, !maximizing, ai);
  }

  /**
    `choose_best_move` without an immediate win returns exactly the plain
    minimax value, and, when it searched, a legal column whose child attains it.
  */
  lemma ChooseBestMoveOptimal(b: Board, ai: Cell, depth: nat)
    requires WellFormed(b) && WinningColumns(b, ai) == {}
    ensures ChooseBestMove(b, ai, depth).score == Value(b, depth, true, ai)
    ensures var r := ChooseBestMove(b, ai, depth);
      depth > 0 && !IsTerminal(b) ==>
        && r.col.Some? && r.col.value < Cols(b) && b[0][r.col.value] == Empty
        && ChildValue(b, r.col.value, depth - 1, true, ai) == Value(b, depth, true, ai)
  {
    NoWinSearches(b, ai, depth);
    AlphaBetaSound(b, depth, NegInf, PosInf, true, ai);
    if depth > 0 && !IsTerminal(b) {
      AlphaBetaColumn(b, depth, NegInf, PosInf, true, ai);
    }
  }
}
