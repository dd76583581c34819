# Pacman multi-agent move choice, modelled in Dafny

This project models the move-choice logic of the Pacman agents in
`search_and_games/multiAgents.py`:

- `ReflexAgent.getAction` scores every legal move with the reflex heuristic.
  It takes the maximum score, collects every index that attains it (the tie
  set), and returns the move at a randomly chosen tied index.
- `ReflexAgent.evaluationFunction` is the reflex heuristic. A move that
  leaves Pacman in place scores -1000. Any other move scores the successor's
  own score entry, minus 2 × the distance to the nearest food (0 when no food
  is left), plus 3 × the distance to the nearest ghost.
- `scoreEvaluationFunction` returns the agent's entry of the state's score
  vector.
- `MultiPacmanAgent.getAction` removes the first `'Stop'` from the legal
  moves. It then evaluates each remaining move's successor one ply ahead and
  makes the same tie-set choice.
- `RandomAgent.getAction` returns any legal move.

Modules, one per concern:

- `Results` (results.dfy) is the error datatype. Each Python exception the
  code can raise becomes an `Err` value.
- `Extrema` (extrema.dfy) models Python's `max()` and `min()`.
- `Lists` (lists.dfy) models `list.remove` and Python subscripting.
- `Selection` (selection.dfy) holds the tie set and the random pick.
- `Reflex` (reflex.dfy) holds the heuristic.
- `Agents` (agents.dfy) holds the agents.

The game state is not modelled. Its observations are inputs:

- The legal-move list is a `seq<Direction>`.
- Successor generation is a function `Direction -> GameView`.
- A `GameView` is what the heuristic reads: Pacman's position, the food
  cells, the ghost positions and the score vector.
- The distance function is a parameter. `Reflex.Manhattan` is the
  `|dx| + |dy|` instance.

`random.choice` is an unconstrained choice (`:|`) from the tie set.

Where the code and its own documentation disagree, the model follows the code:

- The docstring of `MultiPacmanAgent.getAction` promises the expectimax
  action using `self.depth`, with ghosts choosing uniformly at random. The
  code evaluates the successors one ply ahead, never reads `self.depth` and
  has no ghost turns. `Agents.MultiGetAction` does the same.
- The searching agent removes only the first `'Stop'` from its moves and
  raises `ValueError` when there is none (`Lists.RemoveFirst`,
  `Agents.Candidates`).
- The reflex agent keeps `Stop` among its moves and relies on the -1000
  value for a move that leaves Pacman in place.

## Model

| member | source | states |
|---|---|---|
| Extrema.MaxOf | search_and_games/multiAgents.py:46 | `max` of an empty score list is an error. Otherwise the result is one of the scores and no score exceeds it. |
| Extrema.MinOf | search_and_games/multiAgents.py:80 | `min` of an empty list is an error. Otherwise the result is one of the values and no value is below it. |
| Extrema.MaxOfAtArgMax | search_and_games/multiAgents.py:46-47 | At any index whose score no other score exceeds, the score equals `max(scores)`. So "equals the maximum" and "is an argmax" coincide. |
| Extrema.MinOfAtArgMin | search_and_games/multiAgents.py:87 | The minimum equals the value at any index no other value undercuts. |
| Selection.IndicesWhere | search_and_games/multiAgents.py:47 | The comprehension yields exactly the indices whose score equals the given value: each listed index has that score, each such index is listed, and they strictly ascend. |
| Selection.BestIndices | search_and_games/multiAgents.py:46-47 | The tie set is an error exactly when there are no scores. Otherwise it is non-empty, strictly ascending, and holds exactly the argmax indices. |
| Selection.PickBest | search_and_games/multiAgents.py:48 | The random pick fails only on an empty score list. It returns a member of the tie set, whose score is at least every other score. |
| Selection.DistinctScoresSingleBest | search_and_games/multiAgents.py:46-48 | With pairwise distinct scores the tie set has exactly one index, so the choice is deterministic. |
| Selection.TiedScoresEqual | search_and_games/multiAgents.py:166-168 | Any two members of the tie set have the same score, and it is the maximum. |
| Lists.FirstIndex | search_and_games/multiAgents.py:159 | The position `remove` deletes is an occurrence of the value with no earlier occurrence. |
| Lists.RemoveFirst | search_and_games/multiAgents.py:159 | `remove('Stop')` fails exactly when `'Stop'` is absent. Otherwise it yields the list with only its first `'Stop'` cut out and every other move in its original order. |
| Lists.RemoveFirstRestores | search_and_games/multiAgents.py:159 | Re-inserting the removed value at its first-occurrence position gives back the original list. |
| Lists.RemoveFirstMultiset | search_and_games/multiAgents.py:159 | Removal takes away exactly one copy of the value and keeps every other element. The list gets one shorter. |
| Lists.RemoveFirstOnlyOccurrence | search_and_games/multiAgents.py:159 | When `'Stop'` occurs once, it no longer occurs after removal. |
| Lists.PyIndex | search_and_games/multiAgents.py:107 | A subscript succeeds exactly for `-len <= i < len`, otherwise IndexError. A success is an element of the list. |
| Lists.PyIndexNegativeAlias | search_and_games/multiAgents.py:93 | A negative subscript `i - len` names the same element as `i`. |
| Reflex.Manhattan | search_and_games/multiAgents.py:78 | The Manhattan distance is non-negative and is zero exactly between equal cells. |
| Reflex.Distances | search_and_games/multiAgents.py:76-79 | The distance list has one entry per target, in the targets' order, each the distance from Pacman's new position to that target. |
| Reflex.NearestFood | search_and_games/multiAgents.py:82-89 | The nearest-food distance is 0 with no food. Otherwise it is the distance to some food cell and at most the distance to every food cell. |
| Reflex.NearestGhost | search_and_games/multiAgents.py:76-80 | The nearest-ghost distance is an error exactly when there are no ghosts. Otherwise it is the distance to some ghost and at most the distance to every ghost. |
| Reflex.NearestAtArgMin | search_and_games/multiAgents.py:80-87 | Both minima equal the distance to any target that is nearest by the distance function. |
| Reflex.Evaluate | search_and_games/multiAgents.py:54-96 | A move that leaves Pacman in place scores exactly -1000, whatever the food, ghosts or score. A move that changes position succeeds exactly when a ghost exists and the agent's score entry exists. Its error is the missing-ghost `min` error first, then the subscript error. |
| Reflex.EvaluateAtNearest | search_and_games/multiAgents.py:93 | For a move, the value equals score − 2·d(p, nearest food cell) + 3·d(p, nearest ghost) for any nearest food cell and any nearest ghost. |
| Reflex.EvaluateNoFood | search_and_games/multiAgents.py:88-93 | With no food left the food term is 0: the value is score + 3·d(p, nearest ghost). |
| Reflex.EvaluateFoodTradeoff | search_and_games/multiAgents.py:93 | Changing only the food changes the value by exactly 2 per step of nearest-food distance. The value is non-increasing in that distance. |
| Reflex.EvaluateGhostTradeoff | search_and_games/multiAgents.py:93 | Changing only the ghosts changes the value by exactly 3 per step of nearest-ghost distance. The value is non-decreasing in that distance. |
| Reflex.NearestFoodAntitone | search_and_games/multiAgents.py:82-87 | While food remains, eating food never brings the nearest food closer. |
| Reflex.NearestGhostAntitone | search_and_games/multiAgents.py:76-80 | An extra ghost never pushes the nearest ghost farther away. |
| Reflex.EvaluateManhattanBound | search_and_games/multiAgents.py:85-93 | Under Manhattan distance the food term can only lower a move's value below score + 3·(nearest ghost distance). |
| Agents.ScoreEvaluation | search_and_games/multiAgents.py:99-107 | `scoreEvaluationFunction` is the `index`-th entry of the score vector, an element of it. It raises IndexError exactly when `index` is out of Python's subscript range. |
| Agents.EvaluateAll | search_and_games/multiAgents.py:45 | Scoring the moves succeeds exactly when every move's evaluation succeeds, and then yields each move's score at its index. A failure is the first failing move's error. |
| Agents.ChooseBest | search_and_games/multiAgents.py:45-52 | Max, tie set and pick fail on no moves (the `max` error) or on a failing evaluation. Otherwise the returned move is at an index whose score no other move's score exceeds. |
| Agents.ReflexGetAction | search_and_games/multiAgents.py:32-52 | The reflex agent fails with the `max` error when there are no legal moves, and with the first failing move's error when a heuristic evaluation fails. Otherwise it returns a legal move whose heuristic value is at least every legal move's. If any move scores above -1000, the chosen move changes Pacman's position. |
| Agents.MultiGetAction | search_and_games/multiAgents.py:136-178 | The searching agent fails with the `remove` error when `'Stop'` is absent and with the `max` error when `'Stop'` is the only move. When a candidate's evaluation fails, it fails with the first failing candidate's error. Otherwise, when every candidate evaluates, it returns a non-removed legal move whose one-ply successor value is at least every candidate's. It never returns `Stop` when `Stop` occurs once. |
| Agents.DefaultMultiGetAction | search_and_games/multiAgents.py:125-127 | With the default `scoreEvaluationFunction` for agent 0: no `'Stop'` is the `remove` error, `[Stop]` alone is the `max` error, and a candidate whose successor has an empty score vector gives IndexError (the first such candidate). Otherwise the chosen move's successor has the highest Pacman score among the candidate moves. |
| Agents.RandomGetAction | search_and_games/multiAgents.py:185-188 | The random agent returns a member of the legal moves. It fails (IndexError) exactly when there are none. |

## Left out

- The `GameState` implementation is not part of this model: `getLegalActions`, `generateSuccessor`, `generatePacmanSuccessor`, `getPacmanPosition`, `getFood`, `getGhostPositions`, `getScore`. Their results are inputs.
- `util.manhattanDistance` is not part of this model. The distance is a parameter, and `Reflex.Manhattan` is the assumed `|dx| + |dy|` instance.
- The `util.lookup` of the evaluation function by name, and `int(depth)`, are configuration plumbing. The evaluation function is a parameter of `Agents.MultiGetAction`, and `self.depth` is never read by the code.
- All `print` tracing is left out as pure output. This includes line 92's `newGhostDistances[0]`, which cannot fail once line 80's `min` has succeeded.
- `random.choice` is left out as a distribution. The model promises only that the pick is some member of the tie set (or of the legal moves).
- `maxPointsMove` is dead code that returns 0, so it is left out.
- Scores and distances are unbounded integers. Python would also accept floats; floating point is left out.
- `Agents.MultiGetAction`, `Agents.ChooseBest` and `Agents.ReflexGetAction` state the chosen move's optimality over move values rather than over positions. With duplicate moves in the legal list, each duplicate has the same value, so nothing is lost.
