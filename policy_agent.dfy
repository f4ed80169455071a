/**
 * The policy: keep the directions whose next head does not collide, cost
 * each of them, and take the cheapest, ties going to the earliest direction.
 */
module PolicyAgent {
  import opened Wrappers
  import opened Geometry
  import opened SafetyLogic
  import opened CostFunction
  import StatePerception

  /** The order the costs are sorted by: finite costs by value, all below `inf`. */
  predicate CostLess(a: Cost, b: Cost)
  {
    a.Fin? && (b.Inf? || a.value < b.value)
  }

  /** Moving from `head` in direction `d` does not collide. */
  predicate SafeMove(head: Cell, d: Direction, size: int, body: seq<Cell>)
  {
    !IsCollision(Move(head, d), size, body)
  }

  /** The cost of direction `d` (`inf` stands in when the cost cannot be computed). */
  ghost function CostOf(head: Cell, current: Direction, d: Direction, body: seq<Cell>, food: Cell, size: int): Cost
  {
    var r := ActionCost(head, current, d, body, food, size);
    if r.Success? then r.value else Inf
  }

  class Agent {
    const boardSize: int

    constructor(boardSize: int)
      ensures this.boardSize == boardSize
    {
      this.boardSize := boardSize;
    }

    /** The directions whose next head does not collide, in the order Up, Down, Left, Right. */
    method GetSafeActions(head: Cell, body: seq<Cell>) returns (safe: seq<Direction>)
      ensures forall d :: d in safe <==> SafeMove(head, d, boardSize, body)
      ensures forall i, j :: 0 <= i < j < |safe| ==> Rank(safe[i]) < Rank(safe[j])
    {
      safe := [];
      for k := 0 to |Directions|
        invariant forall d :: d in safe <==> Rank(d) < k && SafeMove(head, d, boardSize, body)
        invariant forall i, j :: 0 <= i < j < |safe| ==> Rank(safe[i]) < Rank(safe[j])
        invariant forall i :: 0 <= i < |safe| ==> Rank(safe[i]) < k
      {
        var action := Directions[k];
        RankOfDirection(k);
        var next := Move(head, action);
        if !IsCollision(next, boardSize, body) {
          safe := safe + [action];
        }
      }
    }

    /**
     * The cheapest safe direction, ties going to the earliest; the current
     * direction when no direction is safe. A cost that cannot be computed
     * for a safe direction makes the whole choice fail.
     */
    method ChooseBestAction(head: Cell, current: Direction, body: seq<Cell>, food: Cell)
      returns (r: Result<Direction, CostError>)
      ensures (forall d :: !SafeMove(head, d, boardSize, body)) ==> r == Success(current)
      ensures r.Failure? <==>
        exists d :: SafeMove(head, d, boardSize, body) && ActionCost(head, current, d, body, food, boardSize).Failure?
      ensures r.Success? && (exists d :: SafeMove(head, d, boardSize, body)) ==>
        && SafeMove(head, r.value, boardSize, body)
        && (forall d :: SafeMove(head, d, boardSize, body) ==>
              !CostLess(CostOf(head, current, d, body, food, boardSize), CostOf(head, current, r.value, body, food, boardSize)))
        && (forall d :: SafeMove(head, d, boardSize, body) && Rank(d) < Rank(r.value) ==>
              CostLess(CostOf(head, current, r.value, body, food, boardSize), CostOf(head, current, d, body, food, boardSize)))
    {
      var possible := GetSafeActions(head, body);
      if possible == [] {
        return Success(current);
      }
      assert possible[0] in possible;
      var scored := ScoreActions(head, current, possible, body, food, boardSize);
      if scored.Failure? {
        return Failure(scored.error);
      }
      var costs := scored.value;
      var best := FirstLeast(costs);
      FirstMinimum(head, current, body, food, boardSize, possible, costs, best);
      return Success(possible[best]);
    }
  }

  /**
   * The cost of each listed direction, in list order; the first cost that
   * cannot be computed makes the whole scoring fail.
   */
  method ScoreActions(head: Cell, current: Direction, actions: seq<Direction>, body: seq<Cell>, food: Cell, size: int)
    returns (r: Result<seq<Cost>, CostError>)
    ensures r.Success? ==> |r.value| == |actions|
    ensures r.Success? ==>
      forall i :: 0 <= i < |actions| ==> ActionCost(head, current, actions[i], body, food, size) == Success(r.value[i])
    ensures r.Failure? ==> exists i :: 0 <= i < |actions| && ActionCost(head, current, actions[i], body, food, size).Failure?
  {
    var costs: seq<Cost> := [];
    for k := 0 to |actions|
      invariant |costs| == k
      invariant forall i :: 0 <= i < k ==> ActionCost(head, current, actions[i], body, food, size) == Success(costs[i])
    {
      var c := CalculateActionCost(head, current, actions[k], body, food, size);
      if c.Failure? {
        return Failure(c.error);
      }
      costs := costs + [c.value];
    }
    return Success(costs);
  }

  /** The index of the first least cost: nothing is cheaper, and everything before it is dearer. */
  method FirstLeast(costs: seq<Cost>) returns (best: nat)
    requires costs != []
    ensures best < |costs|
    ensures forall i :: 0 <= i < |costs| ==> !CostLess(costs[i], costs[best])
    ensures forall i :: 0 <= i < best ==> CostLess(costs[best], costs[i])
  {
    best := 0;
    for k := 1 to |costs|
      invariant best < k
      invariant forall i :: 0 <= i < k ==> !CostLess(costs[i], costs[best])
      invariant forall i :: 0 <= i < best ==> CostLess(costs[best], costs[i])
    {
      if CostLess(costs[k], costs[best]) {
        best := k;
      }
    }
  }

  /**
   * The first entry of least cost in the Rank-ordered safe list is no dearer
   * than any safe direction and strictly cheaper than every earlier one.
   */
  lemma FirstMinimum(head: Cell, current: Direction, body: seq<Cell>, food: Cell, size: int,
                     possible: seq<Direction>, costs: seq<Cost>, best: nat)
    requires forall d :: d in possible <==> SafeMove(head, d, size, body)
    requires forall i, j :: 0 <= i < j < |possible| ==> Rank(possible[i]) < Rank(possible[j])
    requires |costs| == |possible| && best < |costs|
    requires forall i :: 0 <= i < |costs| ==> ActionCost(head, current, possible[i], body, food, size) == Success(costs[i])
    requires forall i :: 0 <= i < |costs| ==> !CostLess(costs[i], costs[best])
    requires forall i :: 0 <= i < best ==> CostLess(costs[best], costs[i])
    ensures SafeMove(head, possible[best], size, body)
    ensures forall d :: SafeMove(head, d, size, body) ==> ActionCost(head, current, d, body, food, size).Success?
    ensures forall d :: SafeMove(head, d, size, body) ==>
      !CostLess(CostOf(head, current, d, body, food, size), CostOf(head, current, possible[best], body, food, size))
    ensures forall d :: SafeMove(head, d, size, body) && Rank(d) < Rank(possible[best]) ==>
      CostLess(CostOf(head, current, possible[best], body, food, size), CostOf(head, current, d, body, food, size))
  {
    assert possible[best] in possible;
    var costOf := d => CostOf(head, current, d, body, food, size);
    forall i | 0 <= i < |costs|
      ensures costOf(possible[i]) == costs[i]
    {
    }
    FirstLeastIsCheapest(costOf, possible, costs, best);
    forall d | SafeMove(head, d, size, body)
      ensures ActionCost(head, current, d, body, food, size).Success?
    {
      assert d in possible;
      var i :| 0 <= i < |possible| && possible[i] == d;
    }
  }

  /** The first least entry of a Rank-ordered list is no dearer than any entry and strictly cheaper than every earlier one. */
  lemma FirstLeastIsCheapest(costOf: Direction -> Cost, possible: seq<Direction>, costs: seq<Cost>, best: nat)
    requires forall i, j :: 0 <= i < j < |possible| ==> Rank(possible[i]) < Rank(possible[j])
    requires |costs| == |possible| && best < |costs|
    requires forall i :: 0 <= i < |costs| ==> costOf(possible[i]) == costs[i]
    requires forall i :: 0 <= i < |costs| ==> !CostLess(costs[i], costs[best])
    requires forall i :: 0 <= i < best ==> CostLess(costs[best], costs[i])
    ensures forall d :: d in possible ==> !CostLess(costOf(d), costOf(possible[best]))
    ensures forall d :: d in possible && Rank(d) < Rank(possible[best]) ==> CostLess(costOf(possible[best]), costOf(d))
  {
    forall d | d in possible
      ensures !CostLess(costOf(d), costOf(possible[best]))
      ensures Rank(d) < Rank(possible[best]) ==> CostLess(costOf(possible[best]), costOf(d))
    {
      var i :| 0 <= i < |possible| && possible[i] == d;
      if Rank(d) < Rank(possible[best]) {
        assert i < best;
      }
    }
  }

  /** The fallback loop of the policy tests the same predicate as the safe list, so an empty list means every move collides. */
  lemma EmptySafeListMeansTrapped(head: Cell, size: int, body: seq<Cell>, safe: seq<Direction>)
    requires forall d :: d in safe <==> SafeMove(head, d, size, body)
    requires safe == []
    ensures forall i :: 0 <= i < |Directions| ==> IsCollision(Move(head, Directions[i]), size, body)
  {
    forall i | 0 <= i < |Directions|
      ensures IsCollision(Move(head, Directions[i]), size, body)
    {
      assert Directions[i] !in safe;
    }
  }

  /** Head (0,0) with body `[(0,0), (0,1)]` on a 10 by 10 board: Up and Left leave the board. */
  lemma CornerWalls()
    ensures !SafeMove(Cell(0, 0), Up, 10, [Cell(0, 0), Cell(0, 1)])
    ensures !SafeMove(Cell(0, 0), Left, 10, [Cell(0, 0), Cell(0, 1)])
  {
  }

  /** In the same corner, Down (onto the tail) and Right are safe. */
  lemma CornerOpenings()
    ensures SafeMove(Cell(0, 0), Down, 10, [Cell(0, 0), Cell(0, 1)])
    ensures SafeMove(Cell(0, 0), Right, 10, [Cell(0, 0), Cell(0, 1)])
  {
    var body := [Cell(0, 0), Cell(0, 1)];
    assert AllButTail(body) == [Cell(0, 0)];
    assert Cell(0, 1) !in AllButTail(body) && Cell(1, 0) !in AllButTail(body);
  }

  /** Head (1,1) with body `[(1,1), (1,2), (2,2), (2,1)]`: Up, Left and Right (onto the tail) are safe; only Down collides. */
  lemma LoopScenario(d: Direction)
    ensures SafeMove(Cell(1, 1), d, 10, [Cell(1, 1), Cell(1, 2), Cell(2, 2), Cell(2, 1)]) <==> d != Down
  {
    assert AllButTail([Cell(1, 1), Cell(1, 2), Cell(2, 2), Cell(2, 1)]) == [Cell(1, 1), Cell(1, 2), Cell(2, 2)];
    match d
    case Up => assert Move(Cell(1, 1), d) == Cell(1, 0);
    case Down => assert Move(Cell(1, 1), d) == Cell(1, 2);
    case Left => assert Move(Cell(1, 1), d) == Cell(0, 1);
    case Right => assert Move(Cell(1, 1), d) == Cell(2, 1);
  }

  /** The detour (6,5), (6,4), (5,4), (4,4), (4,5) around the cell (5,5) is a walk on a 10 by 10 board. */
  lemma DetourWalk(obstacles: set<Cell>)
    requires forall c :: c in obstacles ==> c == Cell(5, 5) || c == Cell(5, 6)
    ensures WalkFrom([Cell(6, 5), Cell(6, 4), Cell(5, 4), Cell(4, 4), Cell(4, 5)], Cell(6, 5), Cell(4, 5), 10, obstacles)
  {
    var p := [Cell(6, 5), Cell(6, 4), Cell(5, 4), Cell(4, 4), Cell(4, 5)];
    var moves := [Up, Left, Left, Down];
    forall i | 0 <= i < |p| - 1
      ensures Adjacent(p[i], p[i + 1])
    {
      assert p[i + 1] == Move(p[i], moves[i]);
    }
    forall i | 1 <= i < |p|
      ensures Free(p[i], 10, obstacles)
    {
      assert p[i] != Cell(5, 5) && p[i] != Cell(5, 6);
    }
  }

  /** Going straight on from (5,5) heading Right, with the food at (4,5) behind the head, costs at most 5. */
  lemma StraightOnCost()
    ensures var r := ActionCost(Cell(5, 5), Right, Right, [Cell(5, 5), Cell(5, 6)], Cell(4, 5), 10);
      r.Success? && r.value.Fin? && r.value.value <= 5
  {
    var head, body, food, next := Cell(5, 5), [Cell(5, 5), Cell(5, 6)], Cell(4, 5), Cell(6, 5);
    assert Move(head, Right) == next;
    assert AllButTail(body) == [head];
    var hyp := HypotheticalBody(body, next, food);
    assert hyp == [next, head];
    var obstacles := StatePerception.PathObstacles(body, next, food);
    DetourWalk(obstacles);
    var hypObstacles := StatePerception.PathObstacles(hyp, next, food);
    DetourWalk(hypObstacles);
    assert IsolationTerm(next, food, 10, hyp) == 0;
    var n := ShortestCells(next, food, 10, obstacles);
    assert n.Some? && n.value <= 5;
    var q :| WalkFrom(q, next, food, 10, obstacles) && |q| == n.value;
    assert q[0] != q[|q| - 1];
  }

  /**
   * Head (5,5) with body `[(5,5), (5,6)]` heading Right on a 10 by 10 board,
   * food at (4,5): every direction is safe, and the reversal Left onto the
   * food costs 5 × 1000000 − 99, dearer than going straight on (at most 5),
   * so the cheapest safe direction is never Left.
   */
  lemma ReversalScenario(d: Direction)
    ensures SafeMove(Cell(5, 5), d, 10, [Cell(5, 5), Cell(5, 6)])
    ensures CostOf(Cell(5, 5), Right, Left, [Cell(5, 5), Cell(5, 6)], Cell(4, 5), 10) == Fin(4999901)
    ensures CostLess(CostOf(Cell(5, 5), Right, Right, [Cell(5, 5), Cell(5, 6)], Cell(4, 5), 10),
                     CostOf(Cell(5, 5), Right, Left, [Cell(5, 5), Cell(5, 6)], Cell(4, 5), 10))
  {
    var head, body, food := Cell(5, 5), [Cell(5, 5), Cell(5, 6)], Cell(4, 5);
    assert AllButTail(body) == [head];
    match d {
      case Up => assert Move(head, d) == Cell(5, 4);
      case Down => assert Move(head, d) == Cell(5, 6);
      case Left => assert Move(head, d) == food;
      case Right => assert Move(head, d) == Cell(6, 5);
    }
    assert Move(head, Left) == food;
    FoodAtNext(food, 10, body);
    assert TurnCost(Right, Left) == 1000000;
    assert HypotheticalBody(body, food, food) == [food] + body;
    assert ActionCost(head, Right, Left, body, food, 10) == Success(Fin(4999901));
    StraightOnCost();
  }
}
