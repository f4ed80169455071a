# Snake decision engine — a verified model

This project models the decision core of a Snake-playing agent on a square
board of `size × size` cells. The `x` coordinate grows rightwards and `y`
grows downwards. The snake's body is a sequence of cells, head first. The
core consists of:

- **Perception**: the board encoding, head and tail extraction, and two
  breadth-first searches. The flood fill counts the cells reachable from a
  start. The point-to-point search decides whether a target can be reached.
  Both treat the body as obstacles. The flood fill exempts the food cell;
  the point-to-point search exempts its start and its target.
- **Path planning**: A* with the Manhattan heuristic, the "safe path"
  wrapper around it, and the breadth-first "longest path" exploration.
- **Safety**: the collision test. It checks the board edge and every
  segment except the tail. Also the isolation test and the forward
  simulation of a body along a list of actions.
- **Cost**: the turn cost, and the cost of one action. That cost is a turn
  term, a path-to-food term, and a trap penalty.
- **Policy**: the safe-move filter, and the choice of the cheapest safe
  move.
- **Environment**: the game step (move, grow, collide, finish), reset and
  the state snapshot.
- **Rule tables**: coordinate validity, the movement deltas, the
  relative-turn table and the validated game-state record.

Connectivity is stated once, declaratively, in `Geometry`. A *walk* is a
sequence of adjacent cells whose cells after the first are on the board and
not obstacles. `Reaches(s, t, size, obstacles)` says that such a walk leads
from `s` to `t`. `ShortestCells` is the number of cells of the shortest
such walk. Every search is proved against these definitions:

- the flood fill returns exactly the reachable cells;
- the point-to-point search answers `Reaches`;
- A* returns `None` exactly when the goal is unreachable, and otherwise a
  walk of minimal length.

The cost function is proved equal to a specification written in terms of
`ShortestCells` and the reachable component. The policy is proved to
return a cheapest safe move, with ties going to the earliest direction in
the order Up, Down, Left, Right. The environment is a class whose `Step`
method is proved to follow the state-transition function `StepState`. That
transition keeps the invariant "non-empty snake without repeated cells,
food off the snake, score = length − 2".

Modules: `Wrappers` and `Geometry` (geometry.dfy), `StatePerception`,
`PathPlanning`, `SafetyLogic`, `CostFunction`, `PolicyAgent`,
`SnakeEnvironment` and `GameRules`, one file per source file.

## Model

| member | source | states |
|---|---|---|
| Geometry.Rank | snake_env.py:6-10 | The four directions in declaration order Up, Down, Left, Right; every direction has exactly one position in that order |
| Geometry.MoveOpposite | snake_env.py:6-10 | A move followed by the opposite move returns to the start cell; no move leaves the cell unchanged; the opposite of the opposite is the direction itself, and never equal to it |
| Geometry.MoveInjective | snake_env.py:6-10 | The four deltas are distinct: two directions lead from a cell to the same cell iff they are the same direction |
| Geometry.ShortestCells | path_planning.py:20-24 | The length of a shortest walk is defined exactly when the target is reachable, and no walk is shorter |
| Geometry.ComponentIsReach | state_perception.py:65-108 | The reachable component of a start holds exactly the cells it reaches |
| StatePerception.EncodeBoard | state_perception.py:14-39 | A fresh `size × size` grid indexed `[y, x]`: 2 on the food cell, otherwise 1 on any body cell, otherwise 0; off-board body or food cells leave no mark |
| StatePerception.GetHeadTailCoordinates | state_perception.py:41-48 | Fails exactly on the empty body; otherwise yields the first and the last segment |
| StatePerception.ReachObstacles | state_perception.py:86-90 | The flood fill's obstacles are the body cells other than the food cell |
| StatePerception.PathObstacles | state_perception.py:120-126 | The point-to-point obstacles are the body cells other than the start and the target |
| StatePerception.IsValidMove | state_perception.py:50-63 | A move is valid iff the cell is on the board and on no body cell, the tail included |
| StatePerception.FreshNeighbors | state_perception.py:97-106 | The free unvisited neighbours of a cell, one per direction in the given order: each is free, unvisited and one delta away |
| StatePerception.FreshNeighborsAdjacent | state_perception.py:97-106 | Over Up, Down, Left, Right, the fresh neighbours are adjacent to the cell, and every free unvisited neighbour is among them |
| StatePerception.EnqueueNeighbors | state_perception.py:95-106 | The queue grows by exactly the fresh neighbours of the dequeued cell, in the order Up, Down, Left, Right: each adjacent, free, unvisited and appended once; they are marked visited; afterwards every free neighbour is visited |
| StatePerception.VisitNext | state_perception.py:92-106 | Dequeuing a cell and enqueuing its free unvisited neighbours keeps the search invariant, and either visits a new cell or shortens the queue |
| StatePerception.FloodStep | state_perception.py:92-106 | One dequeue-and-expand step keeps the search invariant, and either visits a new cell or shortens the queue |
| StatePerception.FloodResult | state_perception.py:92-108 | An exhausted flood fill lists the start first, then only free cells, without repetition, and lists a cell iff the start reaches it; at most `size²` cells when the start is on the board |
| StatePerception.FindReachableAreas | state_perception.py:65-108 | The count equals the number of listed cells; the list starts with the start cell, has no repeats, contains exactly the cells reachable with the food exempt, and, when the start is on the board, has at most `size²` cells |
| StatePerception.HasPathToTarget | state_perception.py:111-146 | True iff the target is reachable with start and target exempt from the body; always true when start equals target |
| StatePerception.AdjacentTargetReached | state_perception.py:120-126 | An on-board target next to the start is always reached, since it is exempt from the obstacles even if it lies on the body |
| SafetyLogic.AllButTail | safety_logic.py:105 | The body without its last segment: one element shorter (empty for the empty body), agreeing with the body position by position |
| SafetyLogic.IsCollision | safety_logic.py:92-107 | A cell collides iff it is off the board or lies in the body without its last segment |
| SafetyLogic.CollisionMeaning | safety_logic.py:92-107 | A cell collides iff it is off the board or equals some segment other than the last |
| SafetyLogic.OffBoardCollides | safety_logic.py:98-99 | Every off-board cell collides, whatever the body |
| SafetyLogic.ShortBodyNeverCollides | safety_logic.py:92-107 | With at most one segment only the board edge can cause a collision |
| SafetyLogic.TailIsNotCollision | safety_logic.py:100-106 | On a body without repeated cells, the current tail cell (on the board) is not a collision |
| SafetyLogic.ValidMoveNoCollision | state_perception.py:50-63 | A valid move is never a collision; a non-colliding move that is not valid is exactly the move onto the tail |
| SafetyLogic.IsFutureIsolated | safety_logic.py:109-127 | Isolated iff the head reaches neither the food nor the tail, each with its own exemptions; never isolated when the head is on the food or the tail |
| SafetyLogic.ActionAt | safety_logic.py:164-167 | Step `i` takes the listed action while the list lasts, and the current direction afterwards |
| SafetyLogic.SimStep | safety_logic.py:169-197 | A collision ends the run with −100 and leaves body, food and direction alone; otherwise the new head is the moved head; eating keeps the old body behind it, uses up the food and adds +9; otherwise the tail is dropped and −1 is added; the length grows by at most one |
| SafetyLogic.Simulate | safety_logic.py:163-178 | A run of steps that stops at the first collision never empties the body |
| SafetyLogic.SimulateNSteps | safety_logic.py:129-207 | Fails exactly when at least one step is asked of an empty body; otherwise returns the state `Simulate` defines |
| SafetyLogic.SimulateShape | safety_logic.py:163-207 | Over a run the body keeps its length or grows by one, growing iff the food was present and is used up; used-up food never returns; the reward is −1 per move, +10 if grown, −100 if the run ended in a collision |
| SafetyLogic.SimulateKeepsDirection | safety_logic.py:164-167 | Once the action list is used up, the direction never changes |
| SafetyLogic.WallScenario | safety_logic.py:312-320 | Body `[(0,1),(1,1)]` on a 3 × 3 board moving left ends the run with reward −100 |
| SafetyLogic.OffBoardStartScenario | safety_logic.py:301-309 | The initial body `[(5,5),(5,6)]` on a 5 × 5 board lies off the board, so two steps right end at once with −100 |
| PathPlanning.Heuristic | path_planning.py:14-18 | The Manhattan distance is zero iff the cells are equal |
| PathPlanning.HeuristicSymmetric | path_planning.py:14-18 | The heuristic is symmetric |
| PathPlanning.HeuristicStep | path_planning.py:14-18 | The heuristic is consistent: it drops by at most one across an adjacent step; adjacent cells are at distance 1 |
| PathPlanning.HeuristicAdmissible | path_planning.py:14-18 | The heuristic never exceeds the number of steps of any walk between the cells |
| PathPlanning.PopMin | path_planning.py:45 | Picks an entry of the open set that no other entry precedes under the key (f, g, x, y) |
| PathPlanning.Relax | path_planning.py:50-67 | Expands a popped entry: keeps the open set as a prefix; lowers costs only; records every free neighbour at cost ≤ g + 1 with a matching entry; every entry stays a genuine walk; the termination measure never grows and shrinks when anything is pushed |
| PathPlanning.SearchInit | path_planning.py:30-33 | The initial open set and cost table satisfy the search invariant |
| PathPlanning.FrontierBound | path_planning.py:44-67 | While the goal is reachable, some open entry has f at most the length of any walk to the goal |
| PathPlanning.GoalPopped | path_planning.py:47-48 | An entry for the goal that no entry precedes yields a shortest walk |
| PathPlanning.RelaxNeighbor | path_planning.py:50-67 | Handles one neighbour: a free neighbour ends up recorded at cost ≤ g + 1; costs only fall; the frontier keeps its prefix and every entry stays a genuine walk; the termination measure never grows and shrinks when an entry is pushed |
| PathPlanning.Expand | path_planning.py:44-67 | One loop iteration after a non-goal pop keeps the search invariant, and the slack shrinks or stays while the frontier shrinks |
| PathPlanning.SearchStep | path_planning.py:50-67 | Popping a non-goal entry and relaxing it keeps the search invariant |
| PathPlanning.Exhausted | path_planning.py:69 | An empty open set under the invariant means the goal is unreachable |
| PathPlanning.AStarSearch | path_planning.py:20-69 | Returns no path iff the goal is unreachable with start and goal exempt; a returned path is a walk from start to goal, and no walk between them is shorter |
| PathPlanning.FindSafePath | path_planning.py:135-171 | Both branches give the A* result on the body: no path iff unreachable, otherwise a shortest walk |
| PathPlanning.ExploreObstacles | path_planning.py:84-86 | The exploration's obstacles are the body and avoided cells other than the start |
| PathPlanning.EnqueueTrails | path_planning.py:96-108 | Appends each free unvisited neighbour with the trail extended by the current cell; the new trails are walks from the start without repeats; every free neighbour ends up visited |
| PathPlanning.TrailExtend | path_planning.py:107-108 | Extending a trail by its cell and stepping to a free unvisited neighbour gives a trail again |
| PathPlanning.FindLongestPath | path_planning.py:71-133 | No result iff the start lies on the body or the avoided cells, or has no free neighbour; a result is a walk from the start without repeated cells |
| PathPlanning.HeuristicExample | path_planning.py:178 | The distance from (0,0) to (3,4) is 7 |
| PathPlanning.SearchToSelf | path_planning.py:47-48 | A search from a cell to itself returns exactly that one cell |
| PathPlanning.TopRowDetour | path_planning.py:201-207 | On a 3 × 3 board with body `(1,1),(1,2),(1,3)` a path from (0,1) to (2,1) exists, of at most 5 cells |
| CostFunction.TurnCost | cost_function.py:21-40 | 0 iff the direction is kept, 1000000 iff it is reversed, 1 iff it turns by 90 degrees |
| CostFunction.TurnCostSymmetric | cost_function.py:21-40 | Turning from a to b costs the same as from b to a |
| CostFunction.HypotheticalBody | cost_function.py:92-98 | After the move, the body gains the new head; the tail stays only when the new head is on the food |
| CostFunction.PathTerm | cost_function.py:74-81 | The specified path term: 1000 when the food is unreachable from the new head with both exempt; otherwise the cell count of a shortest walk, less 100 when that count is 1 |
| CostFunction.IsolationTerm | cost_function.py:100-106 | The specified trap term: 500 iff the new head reaches neither the food nor the new tail in the hypothetical body and its reachable component has fewer than twice the body's cells, else 0 |
| CostFunction.ActionCost | cost_function.py:42-112 | The specified cost: infinite iff the new head collides; an error when the hypothetical body is empty; otherwise 5 × turn cost + path term + trap term |
| CostFunction.PathLength | cost_function.py:74-81 | The A* result has length `ShortestCells` when a path exists, and none exists exactly when `ShortestCells` is undefined |
| CostFunction.CountIsComponent | cost_function.py:104-105 | The flood-fill count equals the size of the reachable component |
| CostFunction.FoodPathTerm | cost_function.py:74-81 | The path term: path length, minus 100 when the path is one cell, or 1000 when there is no path |
| CostFunction.TrapPenalty | cost_function.py:100-106 | The trap penalty: 500 when the new head reaches neither food nor new tail and its component is smaller than twice the new body, else 0 |
| CostFunction.CalculateActionCost | cost_function.py:42-112 | The step-by-step computation yields exactly the specified cost `ActionCost`: infinite for a colliding move, an error when the new body has no tail, otherwise 5 × turn cost + path term + trap penalty |
| CostFunction.NoTailCost | cost_function.py:92-98 | A safe move of an empty body that does not eat leaves no tail, so the cost cannot be computed |
| CostFunction.InfiniteIffCollision | cost_function.py:67-68 | The cost is infinite iff the move collides; it fails iff the move is safe, the body is empty and the new head is not the food |
| CostFunction.TurnTerm | cost_function.py:71 | The turn term is 0, 5 or 5000000, and 0 exactly when going straight |
| CostFunction.HypotheticalLength | cost_function.py:92-98 | The new body is one longer when the food is eaten and as long otherwise; its head is the new head |
| CostFunction.FoodBonus | cost_function.py:74-81 | Stepping onto the food gives a path term of −99; any other cell gives at least 2 |
| CostFunction.NoTrapWhenReachable | cost_function.py:101-102 | No trap penalty when the new head reaches the food or the new tail |
| CostFunction.NoTrapWhenRoomy | cost_function.py:104-106 | No trap penalty when the component has at least twice as many cells as the new body |
| CostFunction.FoodAtNext | cost_function.py:74-106 | A move onto the food gets −99 for the path and no trap penalty |
| CostFunction.CollisionScenario | cost_function.py:145-161 | Moving up from (0,0) with body `[(0,0),(0,1)]` costs infinity |
| CostFunction.StraightToFoodScenario | cost_function.py:163-185 | Going left from (1,1) onto the food at (0,1) without turning costs −99 |
| CostFunction.TurnToFoodScenario | cost_function.py:187-209 | Turning left from up onto the food at (0,1) costs −94 |
| PolicyAgent.CostLess | policy_agent.py:75 | The order the sort key compares by: a finite cost is below infinity and below any larger finite cost; infinity is below nothing |
| PolicyAgent.Agent.constructor | policy_agent.py:12-13 | The agent keeps the board size |
| PolicyAgent.Agent.GetSafeActions | policy_agent.py:15-25 | A direction is listed iff its move does not collide, in the order Up, Down, Left, Right |
| PolicyAgent.Agent.ChooseBestAction | policy_agent.py:27-78 | With no safe move, the current direction. It fails iff some safe move's cost fails. Otherwise the result is safe, no safe move is cheaper, and every safe move earlier in the order is strictly dearer |
| PolicyAgent.ScoreActions | policy_agent.py:57-72 | Either one cost per listed direction, in list order, each the specified cost of that direction, or a failure caused by some listed direction whose cost cannot be computed |
| PolicyAgent.FirstLeast | policy_agent.py:74-76 | Picks a least cost, no cost is lower, and every earlier cost is strictly higher (what a stable sort puts first) |
| PolicyAgent.FirstLeastIsCheapest | policy_agent.py:74-78 | For any costing of directions, the first least entry of a list in direction order is no dearer than any listed direction and strictly cheaper than every earlier one |
| PolicyAgent.FirstMinimum | policy_agent.py:74-78 | The first least-cost entry of the ordered safe list is a cheapest safe move and strictly cheaper than each earlier one (the stable sort's first element) |
| PolicyAgent.EmptySafeListMeansTrapped | policy_agent.py:39-54 | An empty safe list means every direction collides, so the fallback loop finds nothing and the current direction is returned |
| PolicyAgent.CornerWalls | policy_agent.py:104-122 | Head (0,0), body `[(0,0),(0,1)]`: up and left are unsafe |
| PolicyAgent.CornerOpenings | policy_agent.py:104-122 | In the same corner, down (onto the tail) and right are safe |
| PolicyAgent.StraightOnCost | cost_function.py:42-112 | Head (5,5), body `[(5,5),(5,6)]`, heading right, food at (4,5): going straight on costs at most 5, through the detour around the head |
| PolicyAgent.ReversalScenario | policy_agent.py:127-140 | In that state every direction is safe, the reversal LEFT onto the food costs 4999901, and going straight on is strictly cheaper, so the model's choice is not LEFT |
| PolicyAgent.LoopScenario | policy_agent.py:143-153 | Head (1,1), body `[(1,1),(1,2),(2,2),(2,1)]`: every direction except down is safe |
| SnakeEnvironment.FirstFree | snake_env.py:22-28 | The food generator's choice is the first draw not on the snake; there is none iff every draw is on the snake |
| SnakeEnvironment.GenerateFood | snake_env.py:22-28 | The sampling loop returns the first draw off the snake |
| SnakeEnvironment.StepState | snake_env.py:30-68 | One step as a transition: a finished game fails unchanged; otherwise the direction is stored, an empty snake fails, a wall or self collision ends the game with −10, eating grows the snake and places food from the draws with +10, any other move shifts the snake with −1, and a snake filling the board ends the game with 100 |
| SnakeEnvironment.SnakeEnv.constructor | snake_env.py:14-20 | Snake `[(5,5),(5,6)]`, direction up, food from the generator, score 0, not done |
| SnakeEnvironment.SnakeEnv.GetState | snake_env.py:70-82 | The observation reports body, food, direction, score, board size and done flag |
| SnakeEnvironment.SnakeEnv.Step | snake_env.py:30-68 | The new fields and the returned outcome are those of `StepState` on the old fields |
| SnakeEnvironment.SnakeEnv.Reset | snake_env.py:84-93 | Restores snake `[(5,5),(5,6)]`, direction up, new food, score 0, not done, and returns the observation |
| SnakeEnvironment.StepAfterGameOver | snake_env.py:31-32 | A step on a finished game fails and changes nothing |
| SnakeEnvironment.StepCollision | snake_env.py:42-50 | A wall or self collision ends the game with −10, keeps snake, food and score, and still records the new direction |
| SnakeEnvironment.StepEat | snake_env.py:53-57 | Eating puts the new head in front of the whole old snake, adds one point, places food off the new snake, and pays 10 (100 when the board is full) |
| SnakeEnvironment.StepMove | snake_env.py:58-61 | An ordinary move puts the new head in front of the old snake minus its tail, keeps length, food and score, and pays −1 (100 when the board is full) |
| SnakeEnvironment.OrdinaryStep | snake_env.py:35-61 | A non-colliding move that misses the food on a board the snake does not fill gives the whole new state: the new direction, the new head in front of the snake minus its tail, and reward −1 |
| SnakeEnvironment.StepFullBoard | snake_env.py:64-66 | A snake filling all `size²` cells ends the game with reward 100 |
| SnakeEnvironment.StepKeepsInv | snake_env.py:30-68 | Every step keeps the invariant: non-empty snake without repeated cells, food off the snake, score = length − 2 |
| SnakeEnvironment.InitialInv | snake_env.py:84-93 | A fresh or reset game satisfies the invariant |
| SnakeEnvironment.EatScenario | snake_env.py:112-123 | Snake `[(2,2),(2,3)]` moving up onto the food at (2,1) grows to three segments, scores 1 and gets food elsewhere |
| SnakeEnvironment.WallScenario | snake_env.py:125-132 | Snake `[(0,1),(1,1)]` on a 3 × 3 board moving left ends the game with −10 |
| SnakeEnvironment.TailChaseScenario | snake_env.py:134-152 | With the food at (0,0), off the path, throughout (the test places it there only before the last move), after up, left, down from `[(2,2),(3,2),(3,3),(2,3)]`, moving right enters the current tail cell (2,2): an ordinary move paying −1, not a collision |
| SnakeEnvironment.NoBoardFillingEat | snake_env.py:22-28 | With the snake on the board and food drawn from the board, an eating step leaves the snake shorter than `size²` and pays 10: an eat that fills the board cannot be taken, since the generator would find no free cell |
| GameRules.NewRules | game_rules.py:8-22 | Accepted iff width and height are positive; an invalid width is reported before an invalid height |
| GameRules.IsValidCoordinate | game_rules.py:31-35 | A coordinate is valid iff `0 ≤ x < width` and `0 ≤ y < height` |
| GameRules.ValidCoordinateInBounds | game_rules.py:31-35 | On a square board a coordinate is valid iff the cell is in bounds |
| GameRules.MovementRules | game_rules.py:37-46 | The movement table: UP (0, −1), DOWN (0, 1), LEFT (−1, 0), RIGHT (1, 0) |
| GameRules.MovementDeltasAreUnit | game_rules.py:37-46 | Every key of the movement table is a direction name, and every delta is a unit step along one axis |
| GameRules.MovementDeltasOpposite | game_rules.py:37-46 | Opposite directions have negated deltas |
| GameRules.MovementMatchesMove | game_rules.py:37-46 | The movement table agrees with the way the head moves on the board |
| GameRules.TurnTable | game_rules.py:121-143 | The relative-turn table: for each direction name, STRAIGHT keeps it, LEFT_TURN gives the direction to its left (UP to LEFT, LEFT to DOWN, DOWN to RIGHT, RIGHT to UP) and RIGHT_TURN the reverse rotation |
| GameRules.GetAbsoluteDirection | game_rules.py:121-143 | An unknown direction is refused first, then an unknown relative action; otherwise the result is a direction name |
| GameRules.StraightKeepsDirection | game_rules.py:132-137 | Going straight keeps the direction |
| GameRules.TurnsRotateDelta | game_rules.py:132-137 | A left turn rotates the delta (dx, dy) to (dy, −dx) and a right turn to (−dy, dx): both are perpendicular to the old direction |
| GameRules.OppositeTurnsCancel | game_rules.py:132-137 | A left turn then a right turn, or a right turn then a left turn, restores the direction |
| GameRules.FourLeftTurns | game_rules.py:132-137 | Four left turns restore the direction |
| GameRules.RightThenLeftIsUp | game_rules.py:169-171 | Moving right and turning left leads up |
| GameRules.NewGameState | game_rules.py:67-92 | Refused iff the direction is not one of the four names; otherwise stores its inputs, with score = length − 3 |
| GameRules.ScoreCountsGrowth | game_rules.py:92 | A three-segment snake scores 0, and each extra segment adds one point |

## Left out

- evaluation_logger.py is not part of this model. It writes JSON files, with timestamps and console output.
- The default arguments `SnakeEnv(size=10)` (snake_env.py:14) and `SnakeGameRules(board_width=10, board_height=10)` (game_rules.py:8) are not modelled: Dafny has no default parameters, so every caller passes the size or the dimensions.
- Console output, the `__main__` demo blocks and the numpy array type are not modelled. `EncodeBoard` fills an `array2<int>`.
- The random food generator draws from a finite sequence of cells passed in as `draws`. The constructor, `Reset` and an eating `Step` require that every draw lies on the board, as `random.randint(0, size - 1)` gives, and that some draw is off the snake. The Python loop runs until one appears and never ends on a full board; the model excludes that case by its precondition instead of running forever (`SnakeEnvironment.NoBoardFillingEat`). Which cell the generator picks is not modelled beyond "the first draw off the snake".
- The A* open set is a sequence, not a binary heap. A pop takes the first entry that is least under (f, g, x, y). Python's tuple order would compare the stored paths next, but this never matters: a cell is pushed again only with a strictly smaller g, so (f, g, cell) is unique in the open set.
- The `path` lists carried by the point-to-point BFS queue are never read by it, so they are not modelled.
- The two BFS functions at safety_logic.py:21-87 repeat state_perception.py:65-146 line for line. Both files use the one model in `StatePerception`.
- PathPlanning.FindLongestPath: the contract does not say which explored trail is returned. The code returns the longest trail dequeued first. The contract only says that the result is a repeat-free walk from the start, plus when there is none.
- cost_function.py uses `deque` at line 92 without importing it, so as written every non-colliding call raises `NameError`. The model gives the evidently intended behaviour: push the new head, and pop the tail unless the food is eaten.
- Each source file declares its own `Direction` enum. Callers pass snake_env's enum to `turn_cost`, whose opposite table (cost_function.py:31-37) is keyed on cost_function's own enum. The reversal branch is therefore never reached from them, and a reversal costs 1 there. The model has one `Direction` type and keeps the table as written.
- PolicyAgent.Agent.ChooseBestAction: because of that table, its choice differs from the source's whenever a reversal is safe, for example for any two-segment body, whose reversal enters the tail. In the test at policy_agent.py:127-140 (snake `[(5,5),(5,6)]` heading right, food at (4,5)) the source (with `deque` imported) gives the reversal LEFT a cost of 5 + 1 − 100 = −94 and chooses it, as the test expects. In the model LEFT costs 5 × 1000000 − 99 and going straight on costs at most 5, so LEFT is not chosen (`PolicyAgent.ReversalScenario`).
- Costs are floats in the source. All finite costs are integers, so the model uses `int`, with `Inf` for `float('inf')`.
- The policy's fallback loop (policy_agent.py:49-53) tests the same predicate as the safe-move filter. It therefore never returns from inside the loop (`PolicyAgent.EmptySafeListMeansTrapped`), and the model returns the current direction directly.
- An empty body makes Python raise `IndexError` in several places: `simulate_n_steps`, `step`, and the cost function when the new head is not the food. The model returns an error value (`NoHead`, `EmptySnake`, `NoTail`).
- `simulate_n_steps` never reads its environment argument. Its input dictionary is reduced to body, direction, food and board size, and its empty `info` dictionary is dropped. Its result is a `SimState` that includes the reward and the done flag.
- `step`'s `info` message is the `Message` datatype, and `get_state`'s dictionary is the `Observation` record.
- In game_rules.py, the `isinstance` and tuple-shape checks are guaranteed by Dafny's types. Several members return fixed data and are not modelled: `get_board_dimensions`, `get_collision_conditions`, `get_scoring_condition`, `coordinate_system`, `__repr__`, and the two `ActionSpace` getters.
- Several inline test assertions disagree with the code as written. The model follows the code, and no test outcome is assumed:
  - state_perception.py:180: the start cell is always counted (`FindReachableAreas`: `cells[0] == start`), even when it lies on the body.
  - state_perception.py:210: an adjacent target is always reached (`StatePerception.AdjacentTargetReached`).
  - path_planning.py:207: a path exists (`PathPlanning.TopRowDetour`).
  - safety_logic.py:225: (5,6) is the tail of that body, so it is not a collision (`SafetyLogic.TailIsNotCollision`).
  - safety_logic.py:308: the initial snake lies off a 5 × 5 board, so the run ends at once (`SafetyLogic.OffBoardStartScenario`).
  - safety_logic.py:320: a collision step gives −100, not −101 (`SafetyLogic.WallScenario`).
  - cost_function.py:127: see the `Direction` note above.
  - snake_env.py:151-152: the final move enters the tail cell (`SnakeEnvironment.TailChaseScenario`).
  - policy_agent.py:153: three moves are safe there (`PolicyAgent.LoopScenario`).
- The expected choices in the policy tests at policy_agent.py:102 and 122 are not stated as lemmas. Each depends on concrete A* results on a 10 × 10 board. The expected choice at policy_agent.py:140 does not hold in the model (see `PolicyAgent.Agent.ChooseBestAction` above). The test at policy_agent.py:163 expects UP and is not stated as a lemma either; it does not exercise the fallback, since three moves are safe there.
