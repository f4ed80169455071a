/**
 * The cost of a proposed action: infinite on an immediate collision,
 * otherwise a weighted turn penalty, the length of the shortest path to the
 * food (with a bonus for eating at once), and a penalty when the move looks
 * like a trap.
 */
module CostFunction {
  import opened Wrappers
  import opened Geometry
  import opened StatePerception
  import opened PathPlanning
  import opened SafetyLogic

  /** Cost of changing from `current` to `next`: 0 straight on, 1000000 reversing, 1 for a quarter turn. */
  function TurnCost(current: Direction, next: Direction): (c: nat)
    ensures c == 0 <==> current == next
    ensures c == 1000000 <==> next == Opposite(current)
    ensures c == 1 <==> current != next && next != Opposite(current)
  {
    if current == next then 0
    else if Opposite(current) == next then 1000000
    else 1
  }

  /** The table is symmetric over all pairs of directions. */
  lemma TurnCostSymmetric(a: Direction, b: Direction)
    ensures TurnCost(a, b) == TurnCost(b, a)
  {
  }

  /** An action cost: a veto (`inf`) or a finite integer. */
  datatype Cost = Inf | Fin(value: int)

  /** Failure of the cost computation: the hypothetical body has no tail to aim for. */
  datatype CostError = NoTail

  /**
   * The body after moving the head to `next`: the head is pushed to the
   * front, and the tail is dropped unless `next` is the food.
   */
  function HypotheticalBody(body: seq<Cell>, next: Cell, food: Cell): (hyp: seq<Cell>)
    ensures next == food ==> hyp == [next] + body
    ensures next != food ==> |hyp| == |body| && (body != [] ==> hyp == [next] + body[..|body| - 1])
  {
    var pushed := [next] + body;
    if next != food then pushed[..|pushed| - 1] else pushed
  }

  /**
   * The path term: the cell count of the shortest path from `next` to the
   * food (start included), less 100 when that count is 1 (the food is
   * `next` itself); 1000 when the food cannot be reached.
   */
  ghost function PathTerm(next: Cell, food: Cell, size: int, body: seq<Cell>): int
  {
    match ShortestCells(next, food, size, PathObstacles(body, next, food))
    case None => 1000
    case Some(n) => if n == 1 then n - 100 else n
  }

  /**
   * The trap term: 500 when, with the hypothetical body, neither the food
   * nor the new tail can be reached from `next` and the free area around
   * `next` has fewer than twice as many cells as the body.
   */
  ghost function IsolationTerm(next: Cell, food: Cell, size: int, hyp: seq<Cell>): int
    requires hyp != []
  {
    var tail := hyp[|hyp| - 1];
    if && !Reaches(next, food, size, PathObstacles(hyp, next, food))
       && !Reaches(next, tail, size, PathObstacles(hyp, next, tail))
       && |Component(next, size, ReachObstacles(hyp, food))| < |hyp| * 2
    then 500 else 0
  }

  /** The cost of moving the head from `head` in direction `action` while heading `current`. */
  ghost function ActionCost(head: Cell, current: Direction, action: Direction, body: seq<Cell>, food: Cell, size: int)
    : Result<Cost, CostError>
  {
    var next := Move(head, action);
    if IsCollision(next, size, body) then Success(Inf)
    else
      var hyp := HypotheticalBody(body, next, food);
      if hyp == [] then Failure(NoTail)
      else Success(Fin(TurnCost(current, action) * 5 + PathTerm(next, food, size, body) + IsolationTerm(next, food, size, hyp)))
  }

  /** The number of cells of a shortest-path search result, as the path term reads it. */
  lemma PathLength(r: Option<seq<Cell>>, next: Cell, food: Cell, size: int, body: seq<Cell>)
    requires IsShortestPathResult(r, next, food, size, PathObstacles(body, next, food))
    ensures r.Some? ==> r.value != [] && ShortestCells(next, food, size, PathObstacles(body, next, food)) == Some(|r.value|)
    ensures r.None? ==> ShortestCells(next, food, size, PathObstacles(body, next, food)).None?
  {
    if r.Some? {
      ShortestFromWalk(r.value, next, food, size, PathObstacles(body, next, food));
    }
  }

  /** The flood-fill count from `start` is the size of its free component. */
  lemma CountIsComponent(start: Cell, size: int, obstacles: set<Cell>, cells: seq<Cell>)
    requires Distinct(cells)
    requires forall c :: c in cells <==> Reaches(start, c, size, obstacles)
    ensures |cells| == |Component(start, size, obstacles)|
  {
    forall c
      ensures c in CellSet(cells) <==> c in Component(start, size, obstacles)
    {
      ComponentIsReach(start, c, size, obstacles);
    }
    assert CellSet(cells) == Component(start, size, obstacles);
    DistinctCard(cells);
  }

  /**
   * The food term: A* from `next` to the food; a path adds its cell count,
   * less 100 when it is the single cell `next`; no path adds 1000.
   */
  method FoodPathTerm(next: Cell, food: Cell, size: int, body: seq<Cell>) returns (term: int)
    ensures term == PathTerm(next, food, size, body)
  {
    term := 0;
    var pathToFood := AStarSearch(next, food, size, body);
    PathLength(pathToFood, next, food, size, body);
    if pathToFood.Some? && pathToFood.value != [] {
      term := term + |pathToFood.value|;
      if |pathToFood.value| == 1 {
        term := term - 100;
      }
    } else {
      term := term + 1000;
    }
  }

  /**
   * The trap check against the hypothetical body: when A* finds neither the
   * food nor the new tail, a flood fill from `next` counts the free area, and
   * fewer than twice the body length costs 500.
   */
  method TrapPenalty(next: Cell, food: Cell, size: int, hyp: seq<Cell>) returns (penalty: int)
    requires hyp != []
    ensures penalty == IsolationTerm(next, food, size, hyp)
  {
    penalty := 0;
    var nextTail := hyp[|hyp| - 1];
    var toFood := AStarSearch(next, food, size, hyp);
    if toFood.None? || toFood.value == [] {
      var toTail := AStarSearch(next, nextTail, size, hyp);
      if toTail.None? || toTail.value == [] {
        var count, cells := FindReachableAreas(next, size, hyp, food);
        CountIsComponent(next, size, ReachObstacles(hyp, food), cells);
        if count < |hyp| * 2 {
          penalty := 500;
        }
      }
    }
  }

  /**
   * Computes the cost term by term: the collision veto, the weighted turn,
   * the path to the food, then the trap check against the hypothetical body.
   */
  method CalculateActionCost(head: Cell, current: Direction, action: Direction, body: seq<Cell>, food: Cell, size: int)
    returns (r: Result<Cost, CostError>)
    ensures r == ActionCost(head, current, action, body, food, size)
  {
    var next := Move(head, action);
    if IsCollision(next, size, body) {
      return Success(Inf);
    }
    var cost := 0;
    cost := cost + TurnCost(current, action) * 5;
    var pathTerm := FoodPathTerm(next, food, size, body);
    cost := cost + pathTerm;
    var hyp := [next] + body;
    if next != food {
      hyp := hyp[..|hyp| - 1];
    }
    assert hyp == HypotheticalBody(body, next, food);
    if hyp == [] {
      NoTailCost(head, current, action, body, food, size);
      return Failure(NoTail);
    }
    var penalty := TrapPenalty(next, food, size, hyp);
    cost := cost + penalty;
    assert cost == TurnCost(current, action) * 5 + pathTerm + penalty;
    FiniteCost(head, current, action, body, food, size, hyp);
    r := Success(Fin(cost));
  }

  /** With no tail left after the move, the cost cannot be computed. */
  lemma NoTailCost(head: Cell, current: Direction, action: Direction, body: seq<Cell>, food: Cell, size: int)
    requires !IsCollision(Move(head, action), size, body)
    requires body == [] && Move(head, action) != food
    ensures ActionCost(head, current, action, body, food, size) == Failure(NoTail)
  {
  }

  /** A safe move with a tail left costs its three terms. */
  lemma FiniteCost(head: Cell, current: Direction, action: Direction, body: seq<Cell>, food: Cell, size: int, hyp: seq<Cell>)
    requires !IsCollision(Move(head, action), size, body)
    requires hyp == HypotheticalBody(body, Move(head, action), food) && hyp != []
    ensures ActionCost(head, current, action, body, food, size) ==
      Success(Fin(TurnCost(current, action) * 5 + PathTerm(Move(head, action), food, size, body) + IsolationTerm(Move(head, action), food, size, hyp)))
  {
  }

  // ---------------------------------------------------------------------------
  // Properties of the cost

  /** The cost is infinite exactly when the next head collides; no empty-body failure hides a collision. */
  lemma InfiniteIffCollision(head: Cell, current: Direction, action: Direction, body: seq<Cell>, food: Cell, size: int)
    ensures ActionCost(head, current, action, body, food, size) == Success(Inf) <==>
      IsCollision(Move(head, action), size, body)
    ensures ActionCost(head, current, action, body, food, size).Failure? <==>
      !IsCollision(Move(head, action), size, body) && body == [] && Move(head, action) != food
  {
  }

  /** The turn contributes 0, 5 or 5000000. */
  lemma TurnTerm(current: Direction, action: Direction)
    ensures TurnCost(current, action) * 5 in {0, 5, 5000000}
    ensures TurnCost(current, action) * 5 == 0 <==> current == action
  {
  }

  /** The hypothetical body keeps the length or grows by one, exactly when `next` is the food, and starts at `next`. */
  lemma HypotheticalLength(body: seq<Cell>, next: Cell, food: Cell)
    ensures |HypotheticalBody(body, next, food)| == if next == food then |body| + 1 else |body|
    ensures HypotheticalBody(body, next, food) != [] ==> HypotheticalBody(body, next, food)[0] == next
  {
  }

  /** The food bonus fires exactly when the next head is the food. */
  lemma FoodBonus(next: Cell, food: Cell, size: int, body: seq<Cell>)
    ensures next == food ==> PathTerm(next, food, size, body) == -99
    ensures next != food ==> PathTerm(next, food, size, body) >= 2
  {
    var obstacles := PathObstacles(body, next, food);
    var s := ShortestCells(next, food, size, obstacles);
    if next == food {
      assert WalkFrom([next], next, food, size, obstacles);
      ShortestFromWalk([next], next, food, size, obstacles);
    } else if s.Some? {
      var p :| WalkFrom(p, next, food, size, obstacles) && |p| == s.value;
    }
  }

  /** Reaching the food or the new tail rules the trap penalty out. */
  lemma NoTrapWhenReachable(next: Cell, food: Cell, size: int, hyp: seq<Cell>)
    requires hyp != []
    requires Reaches(next, food, size, PathObstacles(hyp, next, food)) ||
             Reaches(next, hyp[|hyp| - 1], size, PathObstacles(hyp, next, hyp[|hyp| - 1]))
    ensures IsolationTerm(next, food, size, hyp) == 0
  {
  }

  /** A wide-open area rules the trap penalty out as well. */
  lemma NoTrapWhenRoomy(next: Cell, food: Cell, size: int, hyp: seq<Cell>)
    requires hyp != []
    requires |Component(next, size, ReachObstacles(hyp, food))| >= |hyp| * 2
    ensures IsolationTerm(next, food, size, hyp) == 0
  {
  }

  /** Body `[(0,0), (0,1)]` moving up from (0,0) leaves the board: the cost is infinite. */
  lemma CollisionScenario()
    ensures ActionCost(Cell(0, 0), Up, Up, [Cell(0, 0), Cell(0, 1)], Cell(5, 5), 10) == Success(Inf)
  {
  }

  /** Heading left from (1,1) with body `[(1,1), (1,2)]`, moving left onto the food at (0,1) costs −99. */
  lemma StraightToFoodScenario()
    ensures ActionCost(Cell(1, 1), Left, Left, [Cell(1, 1), Cell(1, 2)], Cell(0, 1), 10) == Success(Fin(-99))
  {
    var next := Move(Cell(1, 1), Left);
    assert next == Cell(0, 1);
    FoodAtNext(next, 10, [Cell(1, 1), Cell(1, 2)]);
  }

  /** The same move while heading up adds a quarter turn: 5 − 99 = −94. */
  lemma TurnToFoodScenario()
    ensures ActionCost(Cell(1, 1), Up, Left, [Cell(1, 1), Cell(1, 2)], Cell(0, 1), 10) == Success(Fin(-94))
  {
    var next := Move(Cell(1, 1), Left);
    assert next == Cell(0, 1);
    FoodAtNext(next, 10, [Cell(1, 1), Cell(1, 2)]);
  }

  /** When the next head is the food, the path term is −99 and there is no trap penalty. */
  lemma FoodAtNext(next: Cell, size: int, body: seq<Cell>)
    ensures PathTerm(next, next, size, body) == -99
    ensures IsolationTerm(next, next, size, HypotheticalBody(body, next, next)) == 0
  {
    FoodBonus(next, next, size, body);
    ReachesSelf(next, size, PathObstacles(HypotheticalBody(body, next, next), next, next));
  }
}
