/** The agent of `my_custom_player.py`: four mobility evaluators over the two
    players' liberties, the alpha-beta search that scores terminal positions by
    `utility(play_id)` and the depth horizon by `base_score`, and the per-turn
    driver `get_action`. */
module MyCustomPlayer {
  import opened ExtReal
  import opened Isolation
  import opened Search

  // ------------------------------------------------------------------
  // Liberty lists

  /** `intersection`: how many entries of `own` also occur in `opp`. */
  function Intersection(own: seq<Cell>, opp: seq<Cell>): (r: nat)
    ensures r <= |own|
  {
    if own == [] then 0
    else (if own[0] in opp then 1 else 0) + Intersection(own[1..], opp)
  }

  predicate Distinct(s: seq<Cell>) {
    forall i, j :: 0 <= i < j < |s| ==> s[i] != s[j]
  }

  function Elements(s: seq<Cell>): set<Cell> {
    set x | x in s
  }

  lemma {:induction false} IntersectionDisjoint(own: seq<Cell>, opp: seq<Cell>)
    requires forall i :: 0 <= i < |own| ==> own[i] !in opp
    ensures Intersection(own, opp) == 0
  {
    if own != [] {
      assert forall i :: 0 <= i < |own| - 1 ==> own[1..][i] == own[i + 1];
      IntersectionDisjoint(own[1..], opp);
    }
  }

  lemma {:induction false} IntersectionContained(own: seq<Cell>, opp: seq<Cell>)
    requires forall i :: 0 <= i < |own| ==> own[i] in opp
    ensures Intersection(own, opp) == |own|
  {
    if own != [] {
      assert forall i :: 0 <= i < |own| - 1 ==> own[1..][i] == own[i + 1];
      IntersectionContained(own[1..], opp);
    }
  }

  /** For a list of distinct cells the count is the size of the set intersection. */
  lemma {:induction false} IntersectionCardinality(own: seq<Cell>, opp: seq<Cell>)
    requires Distinct(own)
    ensures Intersection(own, opp) == |Elements(own) * Elements(opp)|
  {
    if own == [] {
      assert Elements(own) == {};
    } else {
      var h, t := own[0], own[1..];
      DistinctTail(own);
      IntersectionCardinality(t, opp);
      var all, tail, other := Elements(own), Elements(t), Elements(opp);
      ElementsCons(own);
      assert h !in tail;
      if h in opp {
        assert h in other;
        assert all * other == tail * other + {h};
      } else {
        assert h !in other;
        assert all * other == tail * other;
      }
    }
  }

  lemma DistinctTail(s: seq<Cell>)
    requires s != [] && Distinct(s)
    ensures Distinct(s[1..]) && s[0] !in s[1..]
  {
  }

  lemma ElementsCons(s: seq<Cell>)
    requires s != []
    ensures Elements(s) == {s[0]} + Elements(s[1..])
  {
  }

  lemma {:induction false} ElementsSize(s: seq<Cell>)
    ensures |Elements(s)| <= |s|
  {
    if s != [] {
      ElementsSize(s[1..]);
      ElementsCons(s);
    }
  }

  // ------------------------------------------------------------------
  // Wall distance

  /** The coordinates `distance` reads off a cell: `x = loc // (W+2)`,
      `y = loc % (W+2)`. The divisor is positive, so Dafny's `/` and `%`
      agree with Python's floor division and modulo. */
  function Column(b: Board, loc: Cell): int {
    loc / (b.width + 2)
  }

  function Row(b: Board, loc: Cell): int {
    loc % (b.width + 2)
  }

  /** At least two away from each of the four limits `distance` measures. */
  predicate FarFromWalls(b: Board, loc: Cell) {
    && 2 <= Column(b, loc) <= b.width - 1
    && 2 <= Row(b, loc) <= b.height - 3
  }

  function Smaller(a: int, c: int): int {
    if c < a then c else a
  }

  /** `distance`: the least of `x`, `W+1-x`, `y` and `H-1-y` for the cell of the
      player to move, whichever player the evaluator is scoring for. */
  function Distance(b: Board, n: Node): (r: int)
    ensures var x, y := Column(b, n.Loc(n.player)), Row(b, n.Loc(n.player));
      && r <= x && r <= b.width + 1 - x && r <= y && r <= b.height - 1 - y
      && (r == x || r == b.width + 1 - x || r == y || r == b.height - 1 - y)
    ensures r >= 2 <==> FarFromWalls(b, n.Loc(n.player))
  {
    var loc := n.Loc(n.player);
    var x, y := Column(b, loc), Row(b, loc);
    Smaller(Smaller(Smaller(x, b.width + 1 - x), y), b.height - 1 - y)
  }

  // ------------------------------------------------------------------
  // Evaluators

  /** `base_score`: own mobility minus the opponent's. It favours `p`
      exactly when `p` has more liberties. */
  function BaseScore(n: Node, p: PlayerId): (r: int)
    ensures -|n.Liberties(Opponent(p))| <= r <= |n.Liberties(p)|
    ensures r > 0 <==> |n.Liberties(p)| > |n.Liberties(Opponent(p))|
    ensures r == 0 <==> |n.Liberties(p)| == |n.Liberties(Opponent(p))|
  {
    |n.Liberties(p)| - |n.Liberties(Opponent(p))|
  }

  /** `intersect_score`: the opponent's mobility weighs twice, and each own
      liberty the opponent shares wins one point back. */
  function IntersectScore(n: Node, p: PlayerId): (r: int)
    ensures var own, opp := n.Liberties(p), n.Liberties(Opponent(p));
      |own| - 2 * |opp| <= r <= 2 * |own| - 2 * |opp|
  {
    var own, opp := n.Liberties(p), n.Liberties(Opponent(p));
    |own| - 2 * |opp| + Intersection(own, opp)
  }

  /** `avoid_wall_score`: the base score plus shared liberties, with own
      mobility counted twice when the player to move is far from the walls. */
  function AvoidWallScore(b: Board, n: Node, p: PlayerId): (r: int)
    ensures var own, opp := n.Liberties(p), n.Liberties(Opponent(p));
      r == BaseScore(n, p) + Intersection(own, opp)
           + (if FarFromWalls(b, n.Loc(n.player)) then |own| else 0)
  {
    var own, opp := n.Liberties(p), n.Liberties(Opponent(p));
    if Distance(b, n) >= 2 then 2 * |own| - |opp| + Intersection(own, opp)
    else |own| - |opp| + Intersection(own, opp)
  }

  /** `combined_score`: the intersect score, with own mobility counted twice
      when the player to move is far from the walls. */
  function CombinedScore(b: Board, n: Node, p: PlayerId): (r: int)
    ensures r == IntersectScore(n, p)
                 + (if FarFromWalls(b, n.Loc(n.player)) then |n.Liberties(p)| else 0)
  {
    var own, opp := n.Liberties(p), n.Liberties(Opponent(p));
    if Distance(b, n) >= 2 then 2 * |own| - 2 * |opp| + Intersection(own, opp)
    else |own| - 2 * |opp| + Intersection(own, opp)
  }

  /** With distinct own liberties, `intersect_score` is the base score minus
      the opponent liberties that are not also own liberties, so it never
      exceeds `base_score`. */
  lemma IntersectScoreVsBase(n: Node, p: PlayerId)
    requires Distinct(n.Liberties(p))
    ensures var own, opp := n.Liberties(p), n.Liberties(Opponent(p));
      IntersectScore(n, p) == BaseScore(n, p) - |opp| + |Elements(own) * Elements(opp)|
    ensures IntersectScore(n, p) <= BaseScore(n, p)
  {
    var own, opp := n.Liberties(p), n.Liberties(Opponent(p));
    IntersectionCardinality(own, opp);
    ElementsSize(opp);
    var common, all := Elements(own) * Elements(opp), Elements(opp);
    assert all == common + (all - common);
    assert |all| == |common| + |all - common|;
  }

  // ------------------------------------------------------------------
  // Search

  /** Terminal positions score `utility(play_id)`, the horizon `base_score`. */
  function CustomEval(playId: PlayerId): Eval {
    Eval((n: Node) => n.Utility(playId), (n: Node) => Fin(BaseScore(n, playId) as real))
  }

  /** `max_value`. `visited` counts the children searched. */
  method MaxValue(n: Node, playId: PlayerId, alpha: Ext, beta: Ext, depth: int) returns (value: Ext, ghost visited: nat)
    ensures value == AlphaBeta(CustomEval(playId), n, alpha, beta, depth, true)
    ensures n.terminal ==> value == n.Utility(playId)
    ensures !n.terminal && depth <= 0 ==> value == Fin(BaseScore(n, playId) as real)
    ensures Le(alpha, beta) ==> FailSoft(value, Minimax(CustomEval(playId), n, depth, true), alpha, beta)
    ensures visited <= |n.moves|
    ensures !n.terminal && depth > 0 && visited < |n.moves| ==> Le(beta, value)
    decreases depth
  {
    ghost var e := CustomEval(playId);
    if Le(alpha, beta) {
      AlphaBetaFailSoft(e, n, alpha, beta, depth, true);
    }
    visited := 0;
    if n.terminal {
      value := n.Utility(playId);
      return;
    }
    if depth <= 0 {
      value := Fin(BaseScore(n, playId) as real);
      return;
    }
    value := NegInf;
    var a := alpha;
    for i := 0 to |n.moves|
      invariant MaxLoop(e, n.moves, i, value, a, beta, depth) == AlphaBeta(e, n, alpha, beta, depth, true)
      invariant Le(alpha, a)
      invariant visited == i
    {
      var v: Ext;
      ghost var seen: nat;
      v, seen := MinValue(n.moves[i].next, playId, a, beta, depth - 1);
      value := Max(value, v);
      visited := i + 1;
      if Le(beta, value) {
        return;
      }
      a := Max(a, value);
    }
  }

  /** `min_value`. `visited` counts the children searched. */
  method MinValue(n: Node, playId: PlayerId, alpha: Ext, beta: Ext, depth: int) returns (value: Ext, ghost visited: nat)
    ensures value == AlphaBeta(CustomEval(playId), n, alpha, beta, depth, false)
    ensures n.terminal ==> value == n.Utility(playId)
    ensures !n.terminal && depth <= 0 ==> value == Fin(BaseScore(n, playId) as real)
    ensures Le(alpha, beta) ==> FailSoft(value, Minimax(CustomEval(playId), n, depth, false), alpha, beta)
    ensures visited <= |n.moves|
    ensures !n.terminal && depth > 0 && visited < |n.moves| ==> Le(value, alpha)
    decreases depth
  {
    ghost var e := CustomEval(playId);
    if Le(alpha, beta) {
      AlphaBetaFailSoft(e, n, alpha, beta, depth, false);
    }
    visited := 0;
    if n.terminal {
      value := n.Utility(playId);
      return;
    }
    if depth <= 0 {
      value := Fin(BaseScore(n, playId) as real);
      return;
    }
    value := PosInf;
    var b := beta;
    for i := 0 to |n.moves|
      invariant MinLoop(e, n.moves, i, value, alpha, b, depth) == AlphaBeta(e, n, alpha, beta, depth, false)
      invariant Le(b, beta)
      invariant visited == i
    {
      var v: Ext;
      ghost var seen: nat;
      v, seen := MaxValue(n.moves[i].next, playId, alpha, b, depth - 1);
      value := Min(value, v);
      visited := i + 1;
      if Le(value, alpha) {
        return;
      }
      b := Min(b, value);
    }
  }

  /** `alpha_beta_search` as written: children searched to `depth - 1`, and a
      child replaces the best move when its value is `>=` the best score. */
  method AlphaBetaSearch(n: Node, playId: PlayerId, depth: int) returns (move: Option<Action>)
    ensures move == RootSearch(CustomEval(playId), n, depth - 1, AtLeast).move
    ensures move.None? <==> |n.moves| == 0
    ensures move.Some? ==> move.value in n.Actions()
  {
    ghost var e := CustomEval(playId);
    var alpha, beta := NegInf, PosInf;
    var bestScore := NegInf;
    move := None;
    for i := 0 to |n.moves|
      invariant RootLoop(e, n.moves, i, alpha, Choice(move, bestScore), depth - 1, AtLeast)
                == RootSearch(e, n, depth - 1, AtLeast)
    {
      var value: Ext;
      ghost var seen: nat;
      value, seen := MinValue(n.moves[i].next, playId, alpha, beta, depth - 1);
      alpha := Max(alpha, value);
      if Le(bestScore, value) {
        bestScore := value;
        move := Some(n.moves[i].action);
      }
    }
    RootSearchMove(e, n, depth - 1, AtLeast);
  }

  /** `alpha_beta_search` with the tie-break corrected: the first child is
      always taken, later ones only when strictly better. The move is then the
      first child in action order with the best minimax value. */
  method AlphaBetaSearchCorrected(n: Node, playId: PlayerId, depth: int) returns (move: Option<Action>)
    ensures move == RootSearch(CustomEval(playId), n, depth - 1, ExceedsOrFirst).move
    ensures move.None? <==> |n.moves| == 0
    ensures move.Some? ==> exists j :: IsFirstBest(CustomEval(playId), n.moves, depth - 1, j)
                                       && move.value == n.moves[j].action
  {
    ghost var e := CustomEval(playId);
    var alpha, beta := NegInf, PosInf;
    var bestScore := NegInf;
    move := None;
    for i := 0 to |n.moves|
      invariant RootLoop(e, n.moves, i, alpha, Choice(move, bestScore), depth - 1, ExceedsOrFirst)
                == RootSearch(e, n, depth - 1, ExceedsOrFirst)
    {
      var value: Ext;
      ghost var seen: nat;
      value, seen := MinValue(n.moves[i].next, playId, alpha, beta, depth - 1);
      alpha := Max(alpha, value);
      if move.None? || Lt(bestScore, value) {
        bestScore := value;
        move := Some(n.moves[i].action);
      }
    }
    RootSearchMove(e, n, depth - 1, ExceedsOrFirst);
    RootSearchFirstBest(e, n, depth - 1, ExceedsOrFirst);
  }

  /** A non-terminal position for player 0 to score, with `own` liberties for
      player 0 and none for player 1. */
  function Position(own: nat, moves: seq<Move>): Node {
    Node(false, Fin(0.0), Fin(0.0), 0, 2, 0, 0, seq(own, i => i), [], moves)
  }

  /** Under `>=`, a later child that fails low at exactly `alpha` takes the
      best move: child `a` is worth 5, child `b` only 3, yet the depth-2 search
      returns the action of `b`. The corrected rule returns `a`. */
  lemma TieBreakCounterexample()
    ensures var e := CustomEval(0);
      var a := Position(0, [Move(1, Position(5, []))]);
      var b := Position(0, [Move(2, Position(5, [])), Move(3, Position(3, []))]);
      var root := Position(0, [Move(10, a), Move(20, b)]);
      && Minimax(e, a, 1, false) == Fin(5.0)
      && Minimax(e, b, 1, false) == Fin(3.0)
      && RootSearch(e, root, 1, AtLeast).move == Some(20)
      && RootSearch(e, root, 1, ExceedsOrFirst).move == Some(10)
  {
  }

  /** The same flaw at the depth `get_action` submits (children searched to
      depth 2): each leaf sits under a one-move reply of player 0, so child
      `a` is worth 5 and child `b` only 3, yet `>=` returns `b`. */
  lemma DriverTieBreakCounterexample()
    ensures var e := CustomEval(0);
      var a := Position(0, [Move(1, Position(0, [Move(7, Position(5, []))]))]);
      var b := Position(0, [Move(2, Position(0, [Move(8, Position(5, []))])),
                            Move(3, Position(0, [Move(9, Position(3, []))]))]);
      var root := Position(0, [Move(10, a), Move(20, b)]);
      && Minimax(e, a, 2, false) == Fin(5.0)
      && Minimax(e, b, 2, false) == Fin(3.0)
      && RootSearch(e, root, 2, AtLeast).move == Some(20)
      && RootSearch(e, root, 2, ExceedsOrFirst).move == Some(10)
  {
  }

  // ------------------------------------------------------------------
  // Per-turn driver

  class CustomPlayer {
    const playerId: PlayerId
    /** Every move handed to `self.queue.put`, oldest first. */
    var queue: seq<Option<Action>>

    constructor (playerId: PlayerId)
      ensures this.playerId == playerId && queue == []
    {
      this.playerId := playerId;
      queue := [];
    }

    /** `get_action`. `raised` stands for the `IndexError` that
        `random.choice` raises on an empty action list; nothing is submitted
        then. The random choice is an arbitrary legal action. */
    method GetAction(state: Node) returns (raised: bool)
      modifies this
      ensures raised <==> state.plyCount < 2 && |state.moves| == 0
      ensures raised ==> queue == old(queue)
      ensures !raised && state.plyCount < 2 ==>
                exists a :: a in state.Actions() && queue == old(queue) + [Some(a)]
      ensures state.plyCount >= 2 ==>
                queue == old(queue) + [RootSearch(CustomEval(playerId), state, 2, ExceedsOrFirst).move]
    {
      raised := false;
      if state.plyCount < 2 {
        if |state.moves| == 0 {
          raised := true;
          return;
        }
        var k :| 0 <= k < |state.moves|;
        queue := queue + [Some(state.moves[k].action)];
        assert state.Actions()[k] == state.moves[k].action;
      } else {
        var depthLimit := 3;
        var move: Option<Action> := None;
        for depth := 1 to depthLimit + 1
          invariant queue == old(queue)
          invariant depth > 1 ==> move == RootSearch(CustomEval(playerId), state, depth - 2, ExceedsOrFirst).move
        {
          move := AlphaBetaSearchCorrected(state, playerId, depth);
        }
        queue := queue + [move];
      }
    }
  }
}
