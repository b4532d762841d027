# Alpha-beta agent for knight's Isolation

This project models the search core of an agent for knight's Isolation. Two
players each sit on one cell of a bounded grid, move like chess knights, and a
player with no legal move loses. The agent picks its move with a depth-limited
alpha-beta minimax search. The search uses fail-soft cutoffs and scores
positions at the horizon with mobility evaluators built from the players'
liberties (the cells a knight can reach in one hop).

The repository holds two drifted copies of the search. Both searches are
modelled as written:

- `my_custom_player.py` scores finished games with `utility(play_id)` and the
  horizon with `base_score`. It searches root children to `depth - 1` and breaks
  ties with `>=`. Its `get_action` driver runs depths 1 to 3 and submits one move.
  The modelled driver calls the search with the tie-break corrected (see
  Findings), not the `>=` search.
- `alphabeta.py` scores finished games with `utility(0)`. At the horizon it
  divides the mover's liberty count by one plus its wall proximity and subtracts
  the opponent's count. It searches root children to the full `depth` and breaks
  ties with `>`.

Structure:

- `ext_real.dfy`: module `ExtReal`. Search values are reals extended with
  -inf and +inf, and Python's `max` and `min` are modelled over them.
- `isolation.dfy`: module `Isolation`. The game state is an explicit finite
  tree. Each `Node` records what the game engine would answer for that
  position: whether it is terminal, the utilities, the player to move, the ply
  count, both locations, both liberty lists, and `moves` (the actions in the
  engine's order, each paired with the resulting state).
- `search.dfy`: module `Search`, shared by both variants.
  - `Minimax`/`Best` is plain minimax, the reference.
  - `AlphaBeta`, `MaxLoop` and `MinLoop` follow `max_value`/`min_value` step by step.
  - `RootLoop`/`RootSearch` follow the top-level loop, parameterised by the
    tie-break rule and by the depth given to the children.
  - The lemmas state the fail-soft window property and what the top level returns.
- `my_custom_player.dfy`: module `MyCustomPlayer`. The four evaluators,
  `distance` and `intersection`. The recursive routines and the top level are
  imperative methods, each proved equal to the functional search and
  fail-soft against minimax. The driver is the class `CustomPlayer`.
- `alphabeta.dfy`: module `PlainAlphaBeta`. `wall`, the horizon formula, and
  the three routines.

## Model

| member | source | states |
|---|---|---|
| Search.AlphaBetaFailSoft | my_custom_player.py:54-78 | For any window with alpha <= beta, a node's result is fail-soft against its minimax value to the same depth. It is exact strictly inside the window, an upper bound when it is <= alpha, and a lower bound when it is >= beta. Both variants share this; alphabeta.py:13-53 is the same pair of routines. |
| Search.MaxLoopFailSoft | my_custom_player.py:72-78 | Invariant of the `max_value` loop. `alpha` is the start alpha raised by the running value, `value` is below beta (no cutoff yet), and `value` is a fail-soft bound on the best child seen so far. Returning at `value >= beta` and returning after the last child both give fail-soft results. |
| Search.MinLoopFailSoft | my_custom_player.py:59-65 | The dual invariant of the `min_value` loop, with its cutoff at `value <= alpha` and `beta` lowered by the running value. |
| Search.AlphaBetaFullWindow | my_custom_player.py:80-85 | Searched in the window (-inf, +inf), the pruned search returns exactly the minimax value. |
| Search.RootLoopInvariant | my_custom_player.py:84-89 | Invariant of the top-level loop under each tie-break rule. `alpha` equals `best_score`, which equals the best minimax value of the children seen. The move is one of those children. Under `>` and the corrected rule it is the first of them with the best value. |
| Search.RootSearchScore | my_custom_player.py:80-90 | The final `best_score` is the maximum of the children's minimax values at the child depth. For a non-terminal root this is the root's minimax value one ply deeper. |
| Search.RootSearchMove | my_custom_player.py:80-90 | The returned move is an element of `actions()`. Under `>=` (and the corrected rule) it is `None` exactly when `actions()` is empty. Under `>` it is `None` exactly when the best child value is -inf. |
| Search.RootSearchFirstBest | alphabeta.py:55-65 | Under a strict tie-break, the returned move is the first child in action order whose minimax value equals the best child value. |
| MyCustomPlayer.Intersection | my_custom_player.py:135-137 | The count of own liberties that also occur among the opponent's liberties is never more than the number of own liberties. |
| MyCustomPlayer.IntersectionDisjoint | my_custom_player.py:135-137 | The count is 0 when no own liberty occurs among the opponent's. |
| MyCustomPlayer.IntersectionContained | my_custom_player.py:135-137 | The count is the length of the own list when every own liberty is also an opponent liberty. |
| MyCustomPlayer.IntersectionCardinality | my_custom_player.py:135-137 | For a list of distinct cells, the count equals the size of the set intersection. |
| MyCustomPlayer.Distance | my_custom_player.py:128-133 | The result is the least of `x`, `W+1-x`, `y` and `H-1-y`, where `x = loc // (W+2)` and `y = loc % (W+2)` for the player to move. It is >= 2 exactly when the cell is at least two away from each of those limits. |
| MyCustomPlayer.BaseScore | my_custom_player.py:92-97 | `base_score` lies between minus the opponent's mobility and own mobility. It is positive exactly when `p` has more liberties than the opponent, and zero exactly when both have the same number. |
| MyCustomPlayer.IntersectScore | my_custom_player.py:99-104 | `intersect_score` lies between own mobility minus twice the opponent's and twice own mobility minus twice the opponent's. The shared own liberties decide where it falls in that range. |
| MyCustomPlayer.IntersectScoreVsBase | my_custom_player.py:99-104 | With distinct own liberties, `intersect_score` equals `base_score` minus the opponent's list length plus the number of distinct cells the two lists share. So it never exceeds `base_score`. |
| MyCustomPlayer.AvoidWallScore | my_custom_player.py:106-115 | `avoid_wall_score` is `base_score` plus the shared liberties, plus own mobility once more exactly when the player to move is far from the walls (`distance >= 2`). |
| MyCustomPlayer.CombinedScore | my_custom_player.py:117-126 | `combined_score` is `intersect_score`, plus own mobility once more exactly when the player to move is far from the walls. |
| MyCustomPlayer.MaxValue | my_custom_player.py:67-78 | The result equals the functional search. A terminal node returns `utility(play_id)` at any depth. A non-terminal node at depth <= 0 returns `base_score`. The result is fail-soft against minimax. Children are visited in action order and fewer than all only after a `value >= beta` cutoff. |
| MyCustomPlayer.MinValue | my_custom_player.py:54-65 | The same as `MaxValue`, with the cutoff at `value <= alpha`. |
| MyCustomPlayer.AlphaBetaSearch | my_custom_player.py:80-90 | As written (`depth - 1`, `>=`), the result equals the functional top level. It is `None` exactly when `actions()` is empty, and otherwise an element of `actions()`. |
| MyCustomPlayer.AlphaBetaSearchCorrected | my_custom_player.py:80-90 | With the tie-break corrected, the move is `None` exactly when `actions()` is empty. Otherwise it is the first child in action order with the best depth-1 minimax value. |
| MyCustomPlayer.TieBreakCounterexample | my_custom_player.py:85-89 | A concrete two-child tree on which the `>=` rule returns the child of value 3 over the child of value 5. The corrected rule returns the child of value 5. |
| MyCustomPlayer.DriverTieBreakCounterexample | my_custom_player.py:44-48 | At the depth `get_action` submits (root children searched to depth 2), a concrete tree where the `>=` rule returns the child worth 3 over the child worth 5, and the corrected rule returns the child worth 5. |
| MyCustomPlayer.CustomPlayer.GetAction | my_custom_player.py:22-48 | Below two plies, it submits exactly one move, an element of `actions()`. With no actions, the `IndexError` is raised and nothing is submitted. From two plies on, it submits exactly one move: the result of the corrected search (`AlphaBetaSearchCorrected`, first best child) at depth 3. The depth-1 and depth-2 results are discarded. |
| PlainAlphaBeta.Proximity | alphabeta.py:74-79 | The wall proximity is in {0, 1, 2}. It is 0 exactly when the cell is near neither wall pair and 2 exactly when it is near both. |
| PlainAlphaBeta.Wall | alphabeta.py:67-79 | The proximity counter returns the proximity of the player to move, using `x = loc % (W+2)` and `y = loc // (W+2)`. The result lies in 0..2, so the divisor `wall + 1` is at least 1. |
| PlainAlphaBeta.WallRatioScore | alphabeta.py:21-25 | The horizon estimate lies between the mobility difference with own mobility cut to a third and the plain mobility difference. It equals the plain difference when the mover is near no wall. |
| PlainAlphaBeta.HorizonValue | alphabeta.py:42-46 | The formula computed from `wall` equals the horizon estimate. |
| PlainAlphaBeta.MaxValue | alphabeta.py:34-53 | The result equals the functional search. A terminal node returns `utility(0)`, whoever searches and at any depth. At depth <= 0 it returns the liberty ratio. The result is fail-soft against minimax with the same leaf and utility. Children are cut off only at `v >= beta`. |
| PlainAlphaBeta.MinValue | alphabeta.py:13-32 | The same as `MaxValue`, with the early `return v` at `v <= alpha`. |
| PlainAlphaBeta.AlphaBetaSearch | alphabeta.py:55-65 | Children are searched to the full `depth`. The move is the first child in action order that attains the maximum child minimax value. It is `None` exactly when that maximum is -inf, which includes the case of no actions. |

## Findings

| source | as written | input that shows it | evidently intended | confidence | as-written member | corrected member |
|---|---|---|---|---|---|---|
| my_custom_player.py:87 | `if value >= best_score` lets a later child whose fail-low bound is exactly `alpha` replace the best move, although that child's true value can be lower. | `alpha_beta_search(root, 0, 2)`. The root's first child has one reply of score 5 (value 5). The second child has replies of scores 5 and 3 (value 3). The second child fails low at 5, and `>=` returns its action. | The move with "the best possible value" (my_custom_player.py:51-52): the first child with the best value, and never `None` while actions exist. | high (proved, not executed) | MyCustomPlayer.AlphaBetaSearch, MyCustomPlayer.TieBreakCounterexample | MyCustomPlayer.AlphaBetaSearchCorrected |

In the corrected rule, the first child is always taken and later children only
when strictly better. `MyCustomPlayer.CustomPlayer.GetAction` uses the
corrected search.

## Behaviour of the code worth noting

- `alphabeta.py` scores a finished game by `utility(0)`, whichever player
  searches and whichever side is to move.
- `get_action` submits once, after the depth-3 search. A preemption during the
  depth-3 search therefore leaves no move submitted for the turn.
- `get_action` stops at depth 3.

## Left out

- The game engine (`actions`, `result`, `terminal_test`, `utility`,
  `liberties`, `locs`, `player`, `ply_count`) is not part of this model. Each
  tree node records its answers, so the model does not check that the tree is
  a real Isolation game.
- The board constants `_WIDTH` and `_HEIGHT` come from the engine. They are the
  parameter `Board`.
- The harness's wall-clock preemption (stopping the agent mid-search) is not
  modelled. `get_action` runs to completion.
- `self.queue` is only the sequence of submitted moves.
- `self.context` is left out; the core does not use it.
- `random.choice` is an arbitrary choice of one legal action. Its uniform
  distribution is not modelled.
- Floats: `float("inf")` is an extended-real sentinel. Python's true division
  in the horizon formula of `alphabeta.py` is exact real division, so IEEE
  rounding is not modelled.
- The engine's `None` locations before both players have moved are not
  modelled. Cells are integers. In `my_custom_player.py` the search and its
  evaluators only run from ply 2 on (my_custom_player.py:40).
- The `state` argument of `intersection` is unused and is dropped.
- MyCustomPlayer.CustomPlayer.GetAction: calls `AlphaBetaSearchCorrected`
  where `get_action` calls the `>=` search (my_custom_player.py:47), because
  the driver is meant to submit the best move (my_custom_player.py:51-52) and
  the `>=` rule does not (see Findings). On the tree of
  `DriverTieBreakCounterexample`, searched at depth 3 as `get_action` does, the
  program submits the child worth 3 and the model submits the child worth 5.
- MyCustomPlayer.AlphaBetaSearch: the default `depth=3` of `alpha_beta_search`
  is not modelled; `depth` is always passed, as every call in the source does.
- MyCustomPlayer.AlphaBetaSearch: states only that the move is `None` exactly
  without actions and is otherwise legal. It does not state that the move is
  optimal, because that does not hold (see Findings).
- Search.FailSoft: for an empty window (alpha == beta), nothing is stated about
  a result equal to that bound. The top level passes such a window once
  `alpha` reaches +inf, and it needs no property of that child.
