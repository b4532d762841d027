/** The plain alpha-beta routine of `alphabeta.py`: terminal positions are
    scored by `utility(0)` whoever searches, the depth horizon by the liberty
    count of the player to move divided by one plus its wall proximity, minus
    the opponent's liberty count; every root child is searched to the full
    `depth`, and a child replaces the best move only when strictly better. */
module PlainAlphaBeta {
  import opened ExtReal
  import opened Isolation
  import opened Search

  /** The coordinates `wall` reads off a cell: `x = loc % (W+2)`,
      `y = loc // (W+2)` (the opposite assignment to `distance` in
      `my_custom_player.py`). The divisor is positive, so Dafny's `%` and `/`
      agree with Python's. */
  function WallX(b: Board, loc: Cell): int {
    loc % (b.width + 2)
  }

  function WallY(b: Board, loc: Cell): int {
    loc / (b.width + 2)
  }

  predicate NearSideWall(b: Board, loc: Cell) {
    WallX(b, loc) <= 3 || WallX(b, loc) >= b.width - 2
  }

  predicate NearEndWall(b: Board, loc: Cell) {
    WallY(b, loc) <= 2 || WallY(b, loc) >= b.height - 3
  }

  /** How many of the two axes put the cell close to a wall. */
  function Proximity(b: Board, loc: Cell): (r: nat)
    ensures r <= 2
    ensures r == 0 <==> !NearSideWall(b, loc) && !NearEndWall(b, loc)
    ensures r == 2 <==> NearSideWall(b, loc) && NearEndWall(b, loc)
  {
    (if NearSideWall(b, loc) then 1 else 0) + (if NearEndWall(b, loc) then 1 else 0)
  }

  /** `wall`: the proximity of the player to move. */
  method Wall(b: Board, state: Node) returns (proximity: int)
    ensures proximity == Proximity(b, state.Loc(state.player))
    ensures 0 <= proximity <= 2
  {
    var loc := state.Loc(state.player);
    var x := loc % (b.width + 2);
    var y := loc / (b.width + 2);
    proximity := 0;
    if x <= 3 || x >= b.width - 2 {
      proximity := proximity + 1;
    }
    if y <= 2 || y >= b.height - 3 {
      proximity := proximity + 1;
    }
  }

  /** The depth-horizon estimate, with Python's true division taken as exact
      real division. It lies between the plain mobility difference and the
      difference with own mobility cut to a third, and equals the plain
      difference away from all walls. */
  function WallRatioScore(b: Board, n: Node): (r: real)
    ensures var own := |n.Liberties(n.player)| as real;
            var opp := |n.Liberties(Opponent(n.player))| as real;
            && own / 3.0 - opp <= r <= own - opp
            && (Proximity(b, n.Loc(n.player)) == 0 ==> r == own - opp)
  {
    var own := |n.Liberties(n.player)| as real;
    var opp := |n.Liberties(Opponent(n.player))| as real;
    var p := Proximity(b, n.Loc(n.player));
    assert p == 0 || p == 1 || p == 2;
    own / ((p + 1) as real) - opp
  }

  /** Terminal positions score `utility(0)`, the horizon `WallRatioScore`. */
  function PlainEval(b: Board): Eval {
    Eval((n: Node) => n.Utility(0), (n: Node) => Fin(WallRatioScore(b, n)))
  }

  /** The horizon formula in the form the routines compute it, from `wall`. */
  method HorizonValue(b: Board, n: Node) returns (v: Ext)
    ensures v == Fin(WallRatioScore(b, n))
  {
    var w := Wall(b, n);
    v := Fin((|n.Liberties(n.player)| as real) / ((w + 1) as real)
             - |n.Liberties(Opponent(n.player))| as real);
  }

  /** `max_value`. `visited` counts the children searched. */
  method MaxValue(b: Board, n: Node, alpha: Ext, beta: Ext, depth: int) returns (v: Ext, ghost visited: nat)
    ensures v == AlphaBeta(PlainEval(b), n, alpha, beta, depth, true)
    ensures n.terminal ==> v == n.Utility(0)
    ensures !n.terminal && depth <= 0 ==> v == Fin(WallRatioScore(b, n))
    ensures Le(alpha, beta) ==> FailSoft(v, Minimax(PlainEval(b), n, depth, true), alpha, beta)
    ensures visited <= |n.moves|
    ensures !n.terminal && depth > 0 && visited < |n.moves| ==> Le(beta, v)
    decreases depth
  {
    ghost var e := PlainEval(b);
    if Le(alpha, beta) {
      AlphaBetaFailSoft(e, n, alpha, beta, depth, true);
    }
    visited := 0;
    if n.terminal {
      v := n.Utility(0);
      return;
    }
    if depth <= 0 {
      v := HorizonValue(b, n);
      return;
    }
    v := NegInf;
    var a := alpha;
    for i := 0 to |n.moves|
      invariant MaxLoop(e, n.moves, i, v, a, beta, depth) == AlphaBeta(e, n, alpha, beta, depth, true)
      invariant Le(alpha, a)
      invariant visited == i
    {
      var w: Ext;
      ghost var seen: nat;
      w, seen := MinValue(b, n.moves[i].next, a, beta, depth - 1);
      v := Max(v, w);
      visited := i + 1;
      if Le(beta, v) {
        return;
      }
      a := Max(a, v);
    }
  }

  /** `min_value`. `visited` counts the children searched. */
  method MinValue(b: Board, n: Node, alpha: Ext, beta: Ext, depth: int) returns (v: Ext, ghost visited: nat)
    ensures v == AlphaBeta(PlainEval(b), n, alpha, beta, depth, false)
    ensures n.terminal ==> v == n.Utility(0)
    ensures !n.terminal && depth <= 0 ==> v == Fin(WallRatioScore(b, n))
    ensures Le(alpha, beta) ==> FailSoft(v, Minimax(PlainEval(b), n, depth, false), alpha, beta)
    ensures visited <= |n.moves|
    ensures !n.terminal && depth > 0 && visited < |n.moves| ==> Le(v, alpha)
    decreases depth
  {
    ghost var e := PlainEval(b);
    if Le(alpha, beta) {
      AlphaBetaFailSoft(e, n, alpha, beta, depth, false);
    }
    visited := 0;
    if n.terminal {
      v := n.Utility(0);
      return;
    }
    if depth <= 0 {
      v := HorizonValue(b, n);
      return;
    }
    v := PosInf;
    var bt := beta;
    for i := 0 to |n.moves|
      invariant MinLoop(e, n.moves, i, v, alpha, bt, depth) == AlphaBeta(e, n, alpha, beta, depth, false)
      invariant Le(bt, beta)
      invariant visited == i
    {
      var w: Ext;
      ghost var seen: nat;
      w, seen := MaxValue(b, n.moves[i].next, alpha, bt, depth - 1);
      v := Min(v, w);
      visited := i + 1;
      if Le(v, alpha) {
        return;
      }
      bt := Min(bt, v);
    }
  }

  /** `alpha_beta_search`: every child is searched to the full `depth`, and
      the move is the first child in action order with the best minimax value;
      there is none exactly when no child's value rises above -inf. */
  method AlphaBetaSearch(b: Board, n: Node, depth: int) returns (bestMove: Option<Action>)
    ensures bestMove == RootSearch(PlainEval(b), n, depth, Exceeds).move
    ensures bestMove.None? <==> Best(PlainEval(b), n.moves, depth, true) == NegInf
    ensures bestMove.Some? ==> exists j :: IsFirstBest(PlainEval(b), n.moves, depth, j)
                                           && bestMove.value == n.moves[j].action
  {
    ghost var e := PlainEval(b);
    var alpha, beta := NegInf, PosInf;
    var bestScore := NegInf;
    bestMove := None;
    for i := 0 to |n.moves|
      invariant RootLoop(e, n.moves, i, alpha, Choice(bestMove, bestScore), depth, Exceeds)
                == RootSearch(e, n, depth, Exceeds)
    {
      var v: Ext;
      ghost var seen: nat;
      v, seen := MinValue(b, n.moves[i].next, alpha, beta, depth);
      alpha := Max(alpha, v);
      if Lt(bestScore, v) {
        bestScore := v;
        bestMove := Some(n.moves[i].action);
      }
    }
    RootSearchMove(e, n, depth, Exceeds);
    RootSearchFirstBest(e, n, depth, Exceeds);
  }
}
