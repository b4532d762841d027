/** Depth-limited alpha-beta search over `Isolation.Node`, shared by both agent
    variants. `Minimax` is plain minimax, the reference every property is stated
    against; `AlphaBeta`, `MaxLoop` and `MinLoop` follow the nested `max_value` and
    `min_value` routines step by step (terminal test, then depth horizon, then the
    children in action order with fail-soft cutoffs); `RootLoop` follows the
    top-level loop that keeps `best_score` and `best_move`. */
module Search {
  import opened ExtReal
  import opened Isolation

  /** What a search reads off a node it does not expand: the value of a
      finished game, and the static estimate at the depth horizon. */
  datatype Eval = Eval(terminal: Node -> Ext, horizon: Node -> Ext)

  // ------------------------------------------------------------------
  // Reference: plain depth-limited minimax

  function Minimax(e: Eval, n: Node, depth: int, maximizing: bool): Ext
    decreases depth, 1
  {
    if n.terminal then e.terminal(n)
    else if depth <= 0 then e.horizon(n)
    else Best(e, n.moves, depth - 1, maximizing)
  }

  /** The value a `maximizing` (or minimizing) node backs up from the children
      `ms`, each searched to `depth` by the other side; -inf (or +inf) when
      there are none, as the loops start from those. */
  function Best(e: Eval, ms: seq<Move>, depth: int, maximizing: bool): Ext
    decreases depth, 2, |ms|
  {
    if ms == [] then (if maximizing then NegInf else PosInf)
    else
      var rest := Best(e, ms[..|ms| - 1], depth, maximizing);
      var last := Minimax(e, ms[|ms| - 1].next, depth, !maximizing);
      if maximizing then Max(rest, last) else Min(rest, last)
  }

  // ------------------------------------------------------------------
  // The search as the source runs it

  function AlphaBeta(e: Eval, n: Node, alpha: Ext, beta: Ext, depth: int, maximizing: bool): Ext
    decreases depth, 1
  {
    if n.terminal then e.terminal(n)
    else if depth <= 0 then e.horizon(n)
    else if maximizing then MaxLoop(e, n.moves, 0, NegInf, alpha, beta, depth)
    else MinLoop(e, n.moves, 0, PosInf, alpha, beta, depth)
  }

  /** The loop of `max_value` from child `k` on, with running `value` and `alpha`. */
  function MaxLoop(e: Eval, ms: seq<Move>, k: nat, value: Ext, alpha: Ext, beta: Ext, depth: int): Ext
    requires k <= |ms| && depth > 0
    decreases depth, 0, |ms| - k
  {
    if k == |ms| then value
    else
      var v := Max(value, AlphaBeta(e, ms[k].next, alpha, beta, depth - 1, false));
      if Le(beta, v) then v
      else MaxLoop(e, ms, k + 1, v, Max(alpha, v), beta, depth)
  }

  /** The loop of `min_value` from child `k` on, with running `value` and `beta`. */
  function MinLoop(e: Eval, ms: seq<Move>, k: nat, value: Ext, alpha: Ext, beta: Ext, depth: int): Ext
    requires k <= |ms| && depth > 0
    decreases depth, 0, |ms| - k
  {
    if k == |ms| then value
    else
      var v := Min(value, AlphaBeta(e, ms[k].next, alpha, beta, depth - 1, true));
      if Le(v, alpha) then v
      else MinLoop(e, ms, k + 1, v, alpha, Min(beta, v), depth)
  }

  // ------------------------------------------------------------------
  // Fail-soft window property

  /** How a fail-soft result `r` searched in the window (alpha, beta) relates
      to the true value `m`: exact inside the window, an upper bound when it
      fails low, a lower bound when it fails high. When alpha < beta the guards
      `Lt(r, beta)` and `Lt(alpha, r)` of the last two clauses always hold;
      they only matter for an empty window alpha == beta, about whose boundary
      value nothing can be said. */
  predicate FailSoft(r: Ext, m: Ext, alpha: Ext, beta: Ext) {
    && (Lt(alpha, r) && Lt(r, beta) ==> r == m)
    && (Le(r, alpha) && Lt(r, beta) ==> Le(m, r))
    && (Le(beta, r) && Lt(alpha, r) ==> Le(r, m))
  }

  /** For a proper window the guards fall away: the textbook statement. */
  lemma FailSoftProperWindow(r: Ext, m: Ext, alpha: Ext, beta: Ext)
    requires Lt(alpha, beta) && FailSoft(r, m, alpha, beta)
    ensures Lt(alpha, r) && Lt(r, beta) ==> r == m
    ensures Le(r, alpha) ==> Le(m, r)
    ensures Le(beta, r) ==> Le(r, m)
  {
  }

  lemma {:induction false} BestBoundsChild(e: Eval, ms: seq<Move>, depth: int, k: int)
    requires 0 <= k < |ms|
    ensures Le(Minimax(e, ms[k].next, depth, false), Best(e, ms, depth, true))
    ensures Le(Best(e, ms, depth, false), Minimax(e, ms[k].next, depth, true))
    decreases |ms|
  {
    if k < |ms| - 1 {
      var init := ms[..|ms| - 1];
      assert init[k] == ms[k];
      BestBoundsChild(e, init, depth, k);
    }
  }

  /** Appending child `k` to the prefix `ms[..k]`. */
  lemma BestStep(e: Eval, ms: seq<Move>, depth: int, k: int, maximizing: bool)
    requires 0 <= k < |ms|
    ensures var m := Minimax(e, ms[k].next, depth, !maximizing);
            Best(e, ms[..k + 1], depth, maximizing)
            == if maximizing then Max(Best(e, ms[..k], depth, true), m)
               else Min(Best(e, ms[..k], depth, false), m)
  {
    assert ms[..k + 1][..k] == ms[..k];
  }

  /** Every node searched by `max_value`/`min_value` in a window with
      alpha <= beta returns a fail-soft bound on its minimax value. */
  lemma {:induction false} AlphaBetaFailSoft(e: Eval, n: Node, alpha: Ext, beta: Ext, depth: int, maximizing: bool)
    requires Le(alpha, beta)
    ensures FailSoft(AlphaBeta(e, n, alpha, beta, depth, maximizing), Minimax(e, n, depth, maximizing), alpha, beta)
    decreases depth, 1
  {
    if !n.terminal && depth > 0 {
      assert n.moves[..0] == [];
      if maximizing {
        MaxLoopFailSoft(e, n.moves, 0, NegInf, alpha, alpha, beta, depth);
      } else {
        MinLoopFailSoft(e, n.moves, 0, PosInf, alpha, beta, beta, depth);
      }
    }
  }

  /** Loop invariant of `max_value` at child `k`: `alpha` has only grown from
      `alpha0` by the running value, no cutoff has happened yet, and the
      running value is a fail-soft bound on the best of the children seen. */
  lemma {:induction false} MaxLoopFailSoft(e: Eval, ms: seq<Move>, k: nat, value: Ext, alpha0: Ext, alpha: Ext, beta: Ext, depth: int)
    requires k <= |ms| && depth > 0
    requires Le(alpha0, beta) && alpha == Max(alpha0, value)
    requires value == NegInf || Lt(value, beta)
    requires Lt(alpha0, value) ==> value == Best(e, ms[..k], depth - 1, true)
    requires Le(value, alpha0) ==> Le(Best(e, ms[..k], depth - 1, true), value)
    ensures FailSoft(MaxLoop(e, ms, k, value, alpha, beta, depth), Best(e, ms, depth - 1, true), alpha0, beta)
    decreases depth, 0, |ms| - k
  {
    if k == |ms| {
      assert ms[..k] == ms;
    } else {
      var r := AlphaBeta(e, ms[k].next, alpha, beta, depth - 1, false);
      AlphaBetaFailSoft(e, ms[k].next, alpha, beta, depth - 1, false);
      BestStep(e, ms, depth - 1, k, true);
      var v := Max(value, r);
      if Le(beta, v) {
        BestBoundsChild(e, ms, depth - 1, k);
      } else {
        MaxLoopFailSoft(e, ms, k + 1, v, alpha0, Max(alpha, v), beta, depth);
      }
    }
  }

  /** Loop invariant of `min_value` at child `k`, dual to `MaxLoopFailSoft`. */
  lemma {:induction false} MinLoopFailSoft(e: Eval, ms: seq<Move>, k: nat, value: Ext, alpha: Ext, beta0: Ext, beta: Ext, depth: int)
    requires k <= |ms| && depth > 0
    requires Le(alpha, beta0) && beta == Min(beta0, value)
    requires value == PosInf || Lt(alpha, value)
    requires Lt(value, beta0) ==> value == Best(e, ms[..k], depth - 1, false)
    requires Le(beta0, value) ==> Le(value, Best(e, ms[..k], depth - 1, false))
    ensures FailSoft(MinLoop(e, ms, k, value, alpha, beta, depth), Best(e, ms, depth - 1, false), alpha, beta0)
    decreases depth, 0, |ms| - k
  {
    if k == |ms| {
      assert ms[..k] == ms;
    } else {
      var r := AlphaBeta(e, ms[k].next, alpha, beta, depth - 1, true);
      AlphaBetaFailSoft(e, ms[k].next, alpha, beta, depth - 1, true);
      BestStep(e, ms, depth - 1, k, false);
      var v := Min(value, r);
      if Le(v, alpha) {
        BestBoundsChild(e, ms, depth - 1, k);
      } else {
        MinLoopFailSoft(e, ms, k + 1, v, alpha, beta0, Min(beta, v), depth);
      }
    }
  }

  /** With the full window the pruned search computes minimax exactly. */
  lemma AlphaBetaFullWindow(e: Eval, n: Node, depth: int, maximizing: bool)
    ensures AlphaBeta(e, n, NegInf, PosInf, depth, maximizing) == Minimax(e, n, depth, maximizing)
  {
    AlphaBetaFailSoft(e, n, NegInf, PosInf, depth, maximizing);
  }

  // ------------------------------------------------------------------
  // Top level: choosing the move

  /** When a child's value replaces the best move so far:
      `AtLeast` is `value >= best_score`, `Exceeds` is `value > best_score`,
      `ExceedsOrFirst` also takes the first child unconditionally. */
  datatype TieBreak = AtLeast | Exceeds | ExceedsOrFirst

  /** The accumulator (`best_move`, `best_score`). */
  datatype Choice = Choice(move: Option<Action>, score: Ext)

  predicate Replaces(tie: TieBreak, v: Ext, best: Choice) {
    match tie
    case AtLeast => Le(best.score, v)
    case Exceeds => Lt(best.score, v)
    case ExceedsOrFirst => best.move.None? || Lt(best.score, v)
  }

  /** The top-level loop from child `k` on; each child is a min node searched
      to `childDepth` in the window (alpha, +inf). */
  function RootLoop(e: Eval, ms: seq<Move>, k: nat, alpha: Ext, best: Choice, childDepth: int, tie: TieBreak): Choice
    requires k <= |ms|
    decreases |ms| - k
  {
    if k == |ms| then best
    else
      var v := AlphaBeta(e, ms[k].next, alpha, PosInf, childDepth, false);
      var best' := if Replaces(tie, v, best) then Choice(Some(ms[k].action), v) else best;
      RootLoop(e, ms, k + 1, Max(alpha, v), best', childDepth, tie)
  }

  function RootSearch(e: Eval, n: Node, childDepth: int, tie: TieBreak): Choice {
    RootLoop(e, n.moves, 0, NegInf, Choice(None, NegInf), childDepth, tie)
  }

  /** Child `j` attains the best child value and is the first in action order
      to do so. */
  predicate IsFirstBest(e: Eval, ms: seq<Move>, depth: int, j: int) {
    && 0 <= j < |ms|
    && Minimax(e, ms[j].next, depth, false) == Best(e, ms, depth, true)
    && forall i :: 0 <= i < j ==> Lt(Minimax(e, ms[i].next, depth, false), Best(e, ms, depth, true))
  }

  /** Whether no move has been chosen yet, after `k` children with best score `score`. */
  predicate NoMoveYet(tie: TieBreak, k: int, score: Ext) {
    if tie == Exceeds then score == NegInf else k == 0
  }

  /** One top-level step: a child searched in (alpha, +inf) raises alpha to
      what its true value would, and is exact whenever it raises alpha. */
  lemma RootStep(r: Ext, m: Ext, alpha: Ext)
    requires FailSoft(r, m, alpha, PosInf)
    ensures Max(alpha, r) == Max(alpha, m)
    ensures Lt(alpha, r) ==> r == m
  {
  }

  lemma {:induction false} RootLoopInvariant(e: Eval, ms: seq<Move>, k: nat, alpha: Ext, best: Choice, childDepth: int, tie: TieBreak, j: int)
    requires k <= |ms|
    requires alpha == best.score && best.score == Best(e, ms[..k], childDepth, true)
    requires best.move.None? <==> NoMoveYet(tie, k, best.score)
    requires best.move.Some? ==> 0 <= j < k && best.move == Some(ms[j].action)
    requires best.move.Some? && tie != AtLeast ==> IsFirstBest(e, ms[..k], childDepth, j)
    ensures var c := RootLoop(e, ms, k, alpha, best, childDepth, tie);
      && c.score == Best(e, ms, childDepth, true)
      && (c.move.None? <==> NoMoveYet(tie, |ms|, c.score))
      && (c.move.Some? ==> exists j' :: 0 <= j' < |ms| && c.move == Some(ms[j'].action)
                                        && (tie != AtLeast ==> IsFirstBest(e, ms, childDepth, j')))
    decreases |ms| - k
  {
    if k == |ms| {
      assert ms[..k] == ms;
    } else {
      var child := ms[k].next;
      var r := AlphaBeta(e, child, alpha, PosInf, childDepth, false);
      var m := Minimax(e, child, childDepth, false);
      AlphaBetaFailSoft(e, child, alpha, PosInf, childDepth, false);
      RootStep(r, m, alpha);
      BestStep(e, ms, childDepth, k, true);
      var pre, post := ms[..k], ms[..k + 1];
      assert Best(e, post, childDepth, true) == Max(alpha, r);
      if Replaces(tie, r, best) {
        var best' := Choice(Some(ms[k].action), r);
        if tie != AtLeast {
          assert Lt(alpha, r) || k == 0;
          assert r == m;
          forall i | 0 <= i < k
            ensures Lt(Minimax(e, post[i].next, childDepth, false), Best(e, post, childDepth, true))
          {
            BestBoundsChild(e, pre, childDepth, i);
            assert pre[i] == post[i];
          }
          assert IsFirstBest(e, post, childDepth, k);
        }
        RootLoopInvariant(e, ms, k + 1, Max(alpha, r), best', childDepth, tie, k);
      } else {
        if best.move.Some? && tie != AtLeast {
          forall i | 0 <= i < j
            ensures Lt(Minimax(e, post[i].next, childDepth, false), Best(e, post, childDepth, true))
          {
            assert pre[i] == post[i];
          }
          assert pre[j] == post[j];
          assert IsFirstBest(e, post, childDepth, j);
        }
        RootLoopInvariant(e, ms, k + 1, Max(alpha, r), best, childDepth, tie, j);
      }
    }
  }

  /** The final `best_score` is the largest minimax value among the children;
      for a non-terminal root this is the root's own minimax value one ply
      deeper than the children are searched. */
  lemma RootSearchScore(e: Eval, n: Node, childDepth: int, tie: TieBreak)
    ensures RootSearch(e, n, childDepth, tie).score == Best(e, n.moves, childDepth, true)
    ensures !n.terminal && childDepth >= 0 ==>
              RootSearch(e, n, childDepth, tie).score == Minimax(e, n, childDepth + 1, true)
  {
    assert n.moves[..0] == [];
    RootLoopInvariant(e, n.moves, 0, NegInf, Choice(None, NegInf), childDepth, tie, 0);
  }

  /** The chosen move is one of `actions()`. It is missing exactly when there
      are no actions under `>=` and under the corrected rule; under `>` it is
      missing exactly when no child's value rises above -inf. */
  lemma RootSearchMove(e: Eval, n: Node, childDepth: int, tie: TieBreak)
    ensures var c := RootSearch(e, n, childDepth, tie);
      && (c.move.Some? ==> c.move.value in n.Actions())
      && (tie != Exceeds ==> (c.move.None? <==> |n.moves| == 0))
      && (tie == Exceeds ==> (c.move.None? <==> Best(e, n.moves, childDepth, true) == NegInf))
  {
    assert n.moves[..0] == [];
    RootLoopInvariant(e, n.moves, 0, NegInf, Choice(None, NegInf), childDepth, tie, 0);
    var c := RootSearch(e, n, childDepth, tie);
    if c.move.Some? {
      var j :| 0 <= j < |n.moves| && c.move == Some(n.moves[j].action);
      assert n.Actions()[j] == c.move.value;
    }
  }

  /** Under `>` and under the corrected rule, the chosen move is the first
      child in action order whose minimax value is the best. */
  lemma RootSearchFirstBest(e: Eval, n: Node, childDepth: int, tie: TieBreak)
    requires tie != AtLeast
    ensures var c := RootSearch(e, n, childDepth, tie);
      c.move.Some? ==> exists j :: IsFirstBest(e, n.moves, childDepth, j) && c.move.value == n.moves[j].action
  {
    assert n.moves[..0] == [];
    RootLoopInvariant(e, n.moves, 0, NegInf, Choice(None, NegInf), childDepth, tie, 0);
  }
}
