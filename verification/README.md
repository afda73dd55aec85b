# Hawkgirl capture agents — a verified model of the decision core

This project models the decision core of the two Pacman capture-the-flag
agents in `contest/Hawkgirl.py` and proves properties of it in Dafny 4.11.

- **Offensive agent** (`OffensiveReflexAgent`):
  - It scores each non-`Stop` move with a fail-soft alpha-beta search against
    the last non-Pacman opponent, the "ghost".
  - Search leaves are scored by a feature/weight evaluator: food distances, the
    `dist2enemy` threshold policy, and the capsule-distance sentinel.
  - Every evaluation also advances a small tracker of the last opponent's
    position (`ghostPosition`, `elapseTime`). When that opponent is out of
    sight, the tracker guesses its next cell (`inferencePos`, `overBound`).
- **Defensive agent** (`DefensiveReflexAgent`):
  - It scores every legal move by its own feature set: invaders, on-defence
    flag, stop/reverse flags, and the noisy distance to the opponents.
  - That noisy distance comes from the rounded mean of each opponent's belief
    counter (`getBeliefs`), moved off walls by `getNearestLegalLocation`.

The host game is not modelled:

- The board is a type parameter `S`.
- Every query the agents make of the game is a function field of `Game.Host`:
  legal actions, successor generation, agent states, walls, maze distance,
  score, food and capsules. Maze distances are `nat`. The assumptions the
  agents make of the host are listed under "Left out".
- `Values.Result` stands for a Python exception: `random.choice` or `min` on
  an empty list, division by an empty count, or recursion that gives up.
- `float("infinity")` is the `Ext` value `PosInf`, and `-float("infinity")`
  is `NegInf`.
- Random choices are either nondeterministic (`:|`) or lists of draws passed
  in as parameters.

Modules:

| module | file | contents |
|---|---|---|
| `Values` | values.dfy | Option, Result, and the extended integers `Ext` with their order, `Min`, `Max` |
| `Sums` | sums.dfy | sums over finite sets, for averaging belief keys |
| `Game` | game.dfy | positions, directions, `Host`, `getSuccessor`, `Stop` removal, arg-max with tie-breaking |
| `Positions` | positions.dfy | `getBeliefs` mean and Python 2 rounding, `getNearestLegalLocation` |
| `Features` | features.dfy | both feature maps, both weight tables, the dot product |
| `Tracker` | tracker.dfy | `overBound`, candidate cells, the pop-while-iterating filter, tracker updates |
| `Search` | search.dfy | the unpruned minimax value (`MinValue`/`MaxValue`), the walks of the tree a pruned search makes (`Visit`, `MinVisit`/`MaxVisit`), and the facts about fail-soft windows |
| `Offensive` | offensive.dfy | class `OffensiveAgent`: tracker fields, evaluation, alpha-beta, `miniMax`, `chooseAction` |
| `Defensive` | defensive.dfy | class `DefensiveAgent`: belief counters, closest opponent, features, `chooseAction` |

Three behaviours of the code shape the model:

- `getBeliefs` (lines 124-132) averages every key of the counter, whatever
  weight the key holds. The model does the same.
- The offensive `getFeatures` (lines 199-208) updates `ghostPosition` and
  `elapseTime` on every call, and the search calls it at every leaf. So
  `OffensiveAgent.Evaluate` and the search methods modify the agent, and
  each search method states the series of tracker updates its evaluations
  make, in order.
- The candidate filter (lines 258-260) pops from the list it is iterating
  over, so the cell just after a popped one is never examined and an
  over-bound cell can survive. `Tracker.OverBoundCellCanSurvive` exhibits a
  candidate list where this happens.

## Model

| member | source | states |
|---|---|---|
| Values.Min | contest/Hawkgirl.py:329 | Python `min` of two scores: the result is one of them and no greater than either |
| Values.Max | contest/Hawkgirl.py:345 | Python `max` of two scores: the result is one of them and no smaller than either |
| Game.Reverse | contest/Hawkgirl.py:399 | `Directions.REVERSE` maps `Stop` to itself and every other direction to a different one |
| Game.ReverseInvolution | contest/Hawkgirl.py:399 | reversing a direction twice gives it back |
| Game.RemoveStop | contest/Hawkgirl.py:290-291 | removing the first `Stop` leaves the list unchanged when there is none and one shorter otherwise; no new action appears and no other action is lost |
| Game.RemoveStopDropsStop | contest/Hawkgirl.py:342-343 | on a list without repeats, no `Stop` remains after removal, and the result still has no repeats |
| Game.MaxOf | contest/Hawkgirl.py:83 | `max(values)` is one of the values and at least every value |
| Game.MaxOfUnique | contest/Hawkgirl.py:295 | any member of the list that bounds every value from above is `max(values)` |
| Game.PickBest | contest/Hawkgirl.py:83-86 | fails exactly on an empty action list (`max` of nothing); otherwise returns an action whose value is the maximum |
| Positions.RoundToNearest | contest/Hawkgirl.py:132 | Python 2 `round(num / den)` is within half a unit of the quotient, and a tie goes away from zero |
| Positions.MeanOfOne | contest/Hawkgirl.py:124-132 | the mean of a counter with a single key is that key |
| Positions.MeanWithinColumns | contest/Hawkgirl.py:128-132 | the rounded mean column lies between the least and the greatest column of the keys |
| Positions.FirstOpen | contest/Hawkgirl.py:144-146 | the first non-wall cell of the probe list (every probed cell before it is a wall), or none exactly when every probed cell is a wall |
| Positions.NearestLegalLocation | contest/Hawkgirl.py:135-147 | returns an open location unchanged, else the first open neighbour in west, east, south, north order; any location returned is open and at most one step per random draw (plus one) away; it fails when the draws run out |
| Features.MissingFeatureIsZero | contest/Hawkgirl.py:104-106 | a feature the counter lacks counts as 0 in `features * weights` |
| Features.UnweightedFeatureIgnored | contest/Hawkgirl.py:104-106 | a feature without a weight does not change the score, whatever its value |
| Features.DotProduct | contest/Hawkgirl.py:106 | the loop over the feature keys computes the dot product over the keys both maps share |
| Features.MinDistanceIsLeast | contest/Hawkgirl.py:384 | the minimum maze distance to a non-empty list is at most the distance to each member and equals the distance to one of them |
| Features.FoodDistances | contest/Hawkgirl.py:178-187 | the food loop yields the floor of the mean distance (between the two bracketing multiples of the count) and the least distance |
| Features.CapsuleDistance | contest/Hawkgirl.py:229-233 | 0 when there are no capsules, otherwise the least distance to a capsule |
| Features.Dist2EnemyFeature | contest/Hawkgirl.py:212-226 | the threshold policy: -100 below distance 2, floor of -100/distance below 5, 0 when farther or unknown; negated while the ghost is scared, except that distance 0 then gives 1 |
| Features.Dist2EnemyCloserIsWorse | contest/Hawkgirl.py:216-221 | for an unscared ghost, the feature lies in [-100, 0] and never rises as the ghost comes closer; an unknown ghost scores as well as a far one |
| Features.Invaders | contest/Hawkgirl.py:388-389 | there are at most as many invaders as opponents |
| Features.InvadersAreVisiblePacmen | contest/Hawkgirl.py:389 | a position is an invader's exactly when some opponent is a Pacman in sight at that position |
| Features.InvaderCount | contest/Hawkgirl.py:388-390 | `numInvaders` is the number of opponents that are Pacmen in sight |
| Features.NoInvadersInSight | contest/Hawkgirl.py:389-390 | with no opponent both Pacman and in sight, the invader list is empty |
| Features.DefensiveFeaturesHold | contest/Hawkgirl.py:369-402 | the defensive map holds the noisy distance, `onDefense` 0 for a Pacman and 1 otherwise, and the invader count; `distanceToCapsule` is present exactly when capsules are defended; `invaderDistance` is present exactly when there are invaders, as the least distance negated while scared; `stop` and `reverse` are present, with value 1, exactly for a `Stop` and for a reversing move |
| Features.InvaderFeaturesHold | contest/Hawkgirl.py:370-396 | the part of the defensive map built before the move flags: the same facts, and neither move flag yet |
| Features.MoveFlagsHold | contest/Hawkgirl.py:398-400 | the move flags add `stop` for `Stop` and `reverse` for the reverse of the facing direction, and leave every other feature as it was |
| Features.NoisyDistanceNotWeighted | contest/Hawkgirl.py:404-405 | the defensive score does not depend on the noisy distance, since it has no weight |
| Features.InvaderFeaturesNoisy | contest/Hawkgirl.py:375 | the noisy distance only sets its own key |
| Tracker.OverBoundSides | contest/Hawkgirl.py:273-281 | column 15 is in bound for both teams; every other column is over bound for exactly one team |
| Tracker.OpenNeighbours | contest/Hawkgirl.py:245-257 | the candidates are the non-wall cells among north, south, west and east of the last guess, listed in that order, at most four and without repeats |
| Tracker.IndexOf | contest/Hawkgirl.py:260 | `list.index(pos)` finds the first position holding `pos` |
| Tracker.SurvivorsKeepInBound | contest/Hawkgirl.py:258-260 | the filter never removes an in-bound candidate |
| Tracker.SurvivorsFromCandidates | contest/Hawkgirl.py:258-260 | the filter only removes candidates, never adds any |
| Tracker.OverBoundCellCanSurvive | contest/Hawkgirl.py:258-260 | of two consecutive over-bound cells, only the first is popped |
| Tracker.DropStep | contest/Hawkgirl.py:259-260 | one iteration pops the examined cell exactly when it is over bound, keeping the scan invariant |
| Tracker.DropOverBound | contest/Hawkgirl.py:258-260 | the in-place pop-while-iterating loop leaves exactly the cells the filter specification keeps |
| Tracker.Update | contest/Hawkgirl.py:203-208 | a sighting resets the counter to 0 and tracks the seen position; otherwise the counter advances by one and the guess becomes the tracked position |
| Tracker.InferredShape | contest/Hawkgirl.py:262-265 | `inferencePos` returns a position exactly when a position was tracked and fewer than six turns have passed unseen |
| Tracker.UnseenCounts | contest/Hawkgirl.py:206-207 | every unseen update advances the counter by one |
| Tracker.LostStaysLost | contest/Hawkgirl.py:241-242 | once the tracked position is unknown, it stays unknown until the ghost is seen again |
| Tracker.TrackedWhileRecent | contest/Hawkgirl.py:262-265 | starting from a tracked position, it stays tracked exactly while the counter stays below 6 |
| Tracker.LostAtSixthUnseenTurn | contest/Hawkgirl.py:262-265 | after a sighting, fewer than six unseen turns keep a tracked position and six or more lose it |
| Tracker.EvaluationsJoin | contest/Hawkgirl.py:203-208 | two series of tracker updates, one after the other, form one series from the first start to the last end |
| Search.LeavesAtDepthFour | contest/Hawkgirl.py:321-327 | a Min node at depth 4 is scored by evaluation without expanding, and a Min node whose ghost has no legal action is worth +infinity |
| Search.MinOverBelowEach | contest/Hawkgirl.py:328-329 | the minimum over the ghost's answers is at most the value of each answer, and of every prefix |
| Search.MaxOverAboveEach | contest/Hawkgirl.py:344-345 | the maximum over the agent's moves is at least the value of each move, and of every prefix |
| Search.FullWindowIsExact | contest/Hawkgirl.py:292 | with the window (-infinity, +infinity), a fail-soft result is the exact minimax value |
| Search.MinLoopStep | contest/Hawkgirl.py:328-332 | one answer of the Min loop either cuts off with a score bounding the true minimum from above, or keeps the loop invariant with the narrowed beta |
| Search.MaxLoopStep | contest/Hawkgirl.py:344-348 | one move of the Max loop either cuts off with a score bounding the true maximum from below, or keeps the loop invariant with the raised alpha |
| Search.MinLoopDone | contest/Hawkgirl.py:333 | a Min loop that runs to the end returns a fail-soft value of the node |
| Search.MaxLoopDone | contest/Hawkgirl.py:349 | a Max loop that runs to the end returns a fail-soft value of the node |
| Search.MinCutoff | contest/Hawkgirl.py:330-331 | a Min score at or below alpha that bounds the true value from above is fail-soft |
| Search.MaxCutoff | contest/Hawkgirl.py:346-347 | a Max score at or above beta that bounds the true value from below is fail-soft |
| Search.MinCutAt | contest/Hawkgirl.py:330-331 | a cut-off after a prefix of the ghost's answers is fail-soft for the whole node |
| Search.MaxCutAt | contest/Hawkgirl.py:346-347 | a cut-off after a prefix of the agent's moves is fail-soft for the whole node |
| Search.MinAfterAnswer | contest/Hawkgirl.py:328-332 | after the Max search of one ghost answer, either the cut-off is fail-soft for the node or the invariant holds one answer further |
| Search.MaxAfterMove | contest/Hawkgirl.py:344-348 | after the Min search of one agent move, either the cut-off is fail-soft for the node or the invariant holds one move further |
| Offensive.LastGhost | contest/Hawkgirl.py:306-309 | the ghost `miniMax` searches against is an opponent that is not a Pacman and comes after every other such opponent; there is none exactly when every opponent is a Pacman |
| Offensive.OffensiveAgent.constructor | contest/Hawkgirl.py:155-156 | a new agent tracks no position and has a zero counter |
| Offensive.OffensiveAgent.InferencePos | contest/Hawkgirl.py:240-271 | the guess is none without a tracked position or from count 6 on; at count 5 it is a drawn surviving candidate; otherwise it is a drawn candidate at the least distance from the agent; it fails on an empty list as `random.choice`/`min` do |
| Offensive.OffensiveAgent.Track | contest/Hawkgirl.py:199-208 | the tracker moves to the updated state when the guess succeeds, and the result is the new tracked position |
| Offensive.OffensiveAgent.AssembleFeatures | contest/Hawkgirl.py:188-233 | the feature map built from the food aggregates, the scared timer, the enemy distance and the capsule distance is the offensive feature map |
| Offensive.OffensiveAgent.GetFeatures | contest/Hawkgirl.py:171-235 | the offensive `getFeatures` updates the tracker and returns the offensive feature map against the new tracked position |
| Offensive.OffensiveAgent.Evaluate | contest/Hawkgirl.py:100-106 | the score is the dot product of the offensive features with the offensive weights; while the last opponent is always in sight, it is the same value whatever the tracker held |
| Offensive.OffensiveAgent.SeenSeriesEnds | contest/Hawkgirl.py:203-205 | while the last opponent is always in sight, a series of evaluations never raises and leaves the counter at 0 and the position the last evaluated state shows |
| Offensive.OffensiveAgent.LostWhileUnseen | contest/Hawkgirl.py:206-207 | once the position is lost, a series of evaluations in which the opponent is never seen does not raise, keeps it lost and adds one to the counter per evaluation |
| Offensive.OffensiveAgent.EvaluateLeaf | contest/Hawkgirl.py:100-106 | one evaluation as a search value: one tracker update on the evaluated state and the offensive score against the new tracked position; while always in sight, the same value whatever the tracker held |
| Offensive.OffensiveAgent.SearchLeaf | contest/Hawkgirl.py:321-322 | a depth-4 Min node returns the evaluation of its own state, the only state evaluated, fail-soft for the leaf value |
| Offensive.OffensiveAgent.AlphaBetaMinValue | contest/Hawkgirl.py:318-333 | its tracker goes through one update per state it evaluates, in evaluation order, and those states are the leaves of a walk of the search tree below it: each expanded node searches its first children in order, each child built by `generateSuccessor`; at depth 4 it evaluates its own state only, with one tracker update and the offensive score; a Min node without ghost actions returns +infinity and leaves the tracker alone; with the last opponent always in sight and a non-empty window, the result is fail-soft for the unpruned Min value |
| Offensive.OffensiveAgent.MinOverAnswers | contest/Hawkgirl.py:323-333 | the loop walks the Max nodes of a prefix of the ghost's answers, in order, with one tracker update per evaluated state; it walks all of them unless the result is at or below alpha (the cut-off); it returns +infinity on no answers, and otherwise a fail-soft value of the minimum over the answers |
| Offensive.OffensiveAgent.MinAnswer | contest/Hawkgirl.py:328-329 | one iteration over a ghost answer: the walk of its Max node and its tracker updates extend the loop's, and the result is fail-soft for the Max value while the last opponent is always in sight |
| Offensive.OffensiveAgent.AlphaBetaMaxValue | contest/Hawkgirl.py:336-349 | its tracker goes through one update per state it evaluates, in evaluation order, and those states are the leaves of a walk of the search tree below it: each expanded node searches its first children in order, each child built by `generateSuccessor`; a Max node whose agent has no non-`Stop` move returns -infinity and leaves the tracker alone; otherwise, under the same condition, the result is fail-soft for the unpruned Max value |
| Offensive.OffensiveAgent.MaxOverMoves | contest/Hawkgirl.py:339-349 | the loop walks the Min nodes of a prefix of the agent's moves, in order, with one tracker update per evaluated state; it walks all of them unless the result is at or above beta (the cut-off); it returns -infinity on no moves, and otherwise a fail-soft value of the maximum over the moves |
| Offensive.OffensiveAgent.MaxMove | contest/Hawkgirl.py:344-345 | one iteration over an agent move: the walk of its Min node and its tracker updates extend the loop's, and the result is fail-soft for the Min value while the last opponent is always in sight |
| Offensive.OffensiveAgent.FindGhost | contest/Hawkgirl.py:303-309 | the loop over the opponents picks the last non-Pacman one |
| Offensive.OffensiveAgent.MiniMax | contest/Hawkgirl.py:300-315 | the tracker goes through one update per evaluated state, in order, and those states are the leaves of a walk of the root's tree; when no ghost is in sight, exactly one evaluation of the root state and its score; fail-soft for the root value, which is the evaluation when no ghost is in sight and the Min value from depth 1 otherwise; with the full window it is exactly the unpruned root value |
| Offensive.OffensiveAgent.ScoreAction | contest/Hawkgirl.py:292 | one element of the comprehension: the walk of the action's tree and its tracker updates extend the loop's, and the value is the unpruned root value while the last opponent is always in sight |
| Offensive.OffensiveAgent.ScoreActions | contest/Hawkgirl.py:292 | the list comprehension over the actions: the states evaluated are the leaves of one walk per action, in action order, all actions when it does not raise, with one tracker update each; while the last opponent is always in sight, it does not raise, holds the unpruned value of each action, and leaves the counter at 0 and the position shown by the last evaluated state |
| Offensive.OffensiveAgent.ChooseAction | contest/Hawkgirl.py:283-298 | the states evaluated are the leaves of one walk per non-`Stop` action, in order, with one tracker update each; while the last opponent is always in sight the tracker ends unchanged or with counter 0 and a known position; fails when no move other than `Stop` is legal; returns a legal action, never `Stop` when legal actions do not repeat; while the last opponent is always in sight, it returns a move whose unpruned value is the greatest of all non-`Stop` moves |
| Defensive.Seeded | contest/Hawkgirl.py:52 | there are four belief counters, one per agent index |
| Defensive.SeededCounters | contest/Hawkgirl.py:52-70 | the counter of each index holds the spawn cells of the opponents with that index, each with weight 1 |
| Defensive.InitialBelief | contest/Hawkgirl.py:53-70 | with distinct opponent indices, each opponent's counter holds exactly its spawn cell, and `getBeliefs` returns that cell |
| Defensive.ClosestIsLeast | contest/Hawkgirl.py:358-366 | the closest-opponent loop fails exactly when some location fails; otherwise the result is at most 100, at most the distance to each location, and below 100 only when it is the distance to one of them |
| Defensive.ClosestNext | contest/Hawkgirl.py:363-365 | one iteration either raises with the location's error or keeps the smaller of the running value and the new distance |
| Defensive.ClosestFailureSticks | contest/Hawkgirl.py:363-365 | once an iteration has raised, the loop's result is that failure |
| Defensive.Belief | contest/Hawkgirl.py:124-132 | `getBeliefs` raises exactly on an empty counter, whose count is 0 |
| Defensive.Locations | contest/Hawkgirl.py:363-365 | one estimated location per opponent: the nearest legal cell to the mean of its counter |
| Defensive.ScoresOfAt | contest/Hawkgirl.py:80 | the list of values holds, at each position, the score of the action there |
| Defensive.BestScoreWins | contest/Hawkgirl.py:83-86 | an action whose value is the maximum scores at least as much as every action of the list |
| Defensive.HoldsBelowSome | contest/Hawkgirl.py:80 | the list comprehension raises exactly when the evaluation of some action raises |
| Defensive.DefensiveAgent.constructor | contest/Hawkgirl.py:52-70 | `registerInitialState` seeds the belief counters with the spawn cells |
| Defensive.DefensiveAgent.GetBeliefs | contest/Hawkgirl.py:124-132 | the accumulator loop computes the rounded mean of the counter's keys, or raises on an empty counter |
| Defensive.DefensiveAgent.LocateOpponent | contest/Hawkgirl.py:364-365 | an opponent's estimate is the nearest legal cell to its belief mean |
| Defensive.DefensiveAgent.GetClosestOpponent | contest/Hawkgirl.py:358-366 | the loop computes the least distance, capped at 100, from the agent's next position to the estimated opponents |
| Defensive.DefensiveAgent.GetFeatures | contest/Hawkgirl.py:369-402 | fails exactly when some opponent's estimate raises; otherwise it returns the defensive feature map holding the closest-opponent distance |
| Defensive.DefensiveAgent.Evaluate | contest/Hawkgirl.py:100-106 | fails exactly when some estimate raises; otherwise the score is the dot product of the defensive features with the defensive weights |
| Defensive.DefensiveAgent.ScoreMoves | contest/Hawkgirl.py:80 | the values of all actions, in order, or a failure exactly when the evaluation of some action raises |
| Defensive.DefensiveAgent.ChooseAction | contest/Hawkgirl.py:72-86 | fails exactly when no action is legal or some evaluation raises; otherwise returns a legal action that scores at least as much as every legal action |

## Left out

- The host game is not part of this model. This covers `generateSuccessor`, `getLegalActions`, `getAgentState`, the wall grid, `getMazeDistance`, food, capsules, score and `nearestPoint`. Each is an uninterpreted function field of `Game.Host`.
- `getSuccessor`'s second application of a move that stops half-way (lines 88-98) is host glue with no property of its own. `Game.Successor` models it and states nothing about it.
- Both agents assume that the host always shows their own position: `Valid()` in both classes, and both constructors, require it for every state. The code reads its own position without a check.
- The offensive agent assumes at least one opponent (`opponents != []` in its `Valid()` and constructor), since the code reads `opponentsInd[-1]`.
- The defensive agent assumes every opponent index is below 4, since the code indexes its four belief counters with them.
- `getOpponents` and `isOnRedTeam` are the constants `opponents` and `red` of each agent, the same in every state.
- The host's `wall` and `mazeDist` take no state, because the walls of a layout never change during a game.
- The base class's `getFeatures` and `getWeights` (lines 108-122) are left out. Both agents override them, so they are never called.
- `createTeam` and its lookup of agent classes by name (lines 20-40) are left out. They are configuration, not decision logic.
- The fields `start`, `numFood`, `foodNum0`, `opponentZeroPos`, `pacman_land`, `ghost_land` and `going_left` (lines 48-70) are left out. They are set but never read by the core.
- Randomness is left out. `random.choice` is a nondeterministic pick, or a list of draws passed in. The model proves which list the pick comes from, not that the choice is uniform.
- Floating point is left out. Every feature is an integer in this Python 2 code: maze distances are integers, and `/` on integers floors. So scores are integers, and the two infinities are separate values of `Ext`.
- Python's recursion limit is left out. `Positions.NearestLegalLocation` takes a finite list of draws instead, and when the draws run out it fails, standing for the recursion error.
- Offensive.OffensiveAgent.AlphaBetaMinValue: equality with the unpruned value is proved only while the last opponent is in sight in every state. Every leaf evaluation moves the tracker, so otherwise leaves in different branches see different tracker states, and the pruned and unpruned trees need not agree.
- Offensive.OffensiveAgent.AlphaBetaMaxValue: the same condition as for the Min node.
- Offensive.OffensiveAgent.MinOverAnswers: the same condition as for the Min node.
- Offensive.OffensiveAgent.MaxOverMoves: the same condition as for the Min node.
- Offensive.OffensiveAgent.MiniMax: fail-soft and exactness are stated under the same condition. Without it, the tracker series and the no-ghost fallback are stated, but not the searched value.
- Offensive.OffensiveAgent.MinOverAnswers: the walk states that a prefix of the answers is searched, and all of them unless the result is a cut-off value. It does not state that the search stops at the first answer that causes the cut-off. The same holds for MaxOverMoves.
- Offensive.OffensiveAgent.ChooseAction: "best move" is stated under the same condition. `Stop` is excluded only when the legal actions do not repeat, because the code removes the first `Stop` only.
- `miniMax` has a `depth` argument that is never used (line 300); `MiniMax` does not take it.
- Feature names are the constructors of `Features.Feature` rather than strings, and `util.Counter` is a `map` whose missing keys count as 0.
