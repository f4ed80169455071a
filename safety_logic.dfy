/**
 * Safety predicates: collision of a prospective head cell, the isolation
 * test built on the two-target reachability search, and the forward
 * simulation of a body along a sequence of actions.
 */
module SafetyLogic {
  import opened Wrappers
  import opened Geometry
  import opened StatePerception

  /** The body without its last segment (empty for an empty body). */
  function AllButTail(body: seq<Cell>): (r: seq<Cell>)
    ensures |r| == if body == [] then 0 else |body| - 1
    ensures forall i :: 0 <= i < |r| ==> r[i] == body[i]
  {
    if body == [] then [] else body[..|body| - 1]
  }

  /**
   * A head moved to `pos` collides when `pos` is off the board or lies on
   * the body other than its current tail segment.
   */
  predicate IsCollision(pos: Cell, size: int, body: seq<Cell>)
  {
    !InBounds(pos, size) || pos in AllButTail(body)
  }

  /** Collision, stated on indices: off the board, or equal to some segment before the last. */
  lemma CollisionMeaning(pos: Cell, size: int, body: seq<Cell>)
    ensures IsCollision(pos, size, body) <==>
      !InBounds(pos, size) || exists i :: 0 <= i < |body| - 1 && body[i] == pos
  {
    if exists i :: 0 <= i < |body| - 1 && body[i] == pos {
      var i :| 0 <= i < |body| - 1 && body[i] == pos;
      assert AllButTail(body)[i] == pos;
    }
  }

  /** Every off-board cell collides, whatever the body. */
  lemma OffBoardCollides(pos: Cell, size: int, body: seq<Cell>)
    requires !InBounds(pos, size)
    ensures IsCollision(pos, size, body)
  {
  }

  /** A body of at most one segment never causes a self-collision. */
  lemma ShortBodyNeverCollides(pos: Cell, size: int, body: seq<Cell>)
    requires |body| <= 1
    ensures IsCollision(pos, size, body) <==> !InBounds(pos, size)
  {
    assert AllButTail(body) == [];
  }

  /** On a body without repeated cells, moving onto the current tail is not a collision. */
  lemma TailIsNotCollision(size: int, body: seq<Cell>)
    requires body != [] && Distinct(body) && InBounds(body[|body| - 1], size)
    ensures !IsCollision(body[|body| - 1], size, body)
  {
    CollisionMeaning(body[|body| - 1], size, body);
  }

  /** A valid move (on the board and off the whole body) is never a collision; the converse fails only at the tail. */
  lemma ValidMoveNoCollision(pos: Cell, size: int, body: seq<Cell>)
    ensures IsValidMove(pos, size, body) ==> !IsCollision(pos, size, body)
    ensures !IsCollision(pos, size, body) && !IsValidMove(pos, size, body) ==>
      body != [] && pos == body[|body| - 1]
  {
    CollisionMeaning(pos, size, body);
    if !IsCollision(pos, size, body) && !IsValidMove(pos, size, body) {
      var i :| 0 <= i < |body| && body[i] == pos;
      assert i == |body| - 1;
    }
  }

  /**
   * A head is isolated when the body blocks its way both to the food and to
   * the tail (each search exempting its own start and target).
   */
  method IsFutureIsolated(head: Cell, food: Cell, size: int, body: seq<Cell>, tail: Cell) returns (isolated: bool)
    ensures isolated <==>
      !Reaches(head, food, size, PathObstacles(body, head, food)) &&
      !Reaches(head, tail, size, PathObstacles(body, head, tail))
    ensures head == food || head == tail ==> !isolated
  {
    var toFood := HasPathToTarget(head, food, size, body);
    if toFood {
      return false;
    }
    var toTail := HasPathToTarget(head, tail, size, body);
    if toTail {
      return false;
    }
    return true;
  }

  // ---------------------------------------------------------------------------
  // Forward simulation

  /** The simulated state: body (head first), remaining food, direction, accumulated reward, and whether it ended. */
  datatype SimState = SimState(body: seq<Cell>, food: Option<Cell>, direction: Direction, reward: int, done: bool)

  datatype SimError = NoHead

  /** The action of step `i`: the listed one, or the current direction once the list runs out. */
  function ActionAt(actions: seq<Direction>, i: nat, current: Direction): (d: Direction)
    ensures i < |actions| ==> d == actions[i]
    ensures i >= |actions| ==> d == current
  {
    if i < |actions| then actions[i] else current
  }

  /**
   * One simulated step: a collision ends the run with −100 and leaves the
   * body alone; otherwise the head advances, the tail is dropped unless the
   * food was reached (then +10 and the food is used up), and −1 is charged.
   */
  function SimStep(s: SimState, action: Direction, size: int): (r: SimState)
    requires s.body != []
    ensures r.body != []
    ensures IsCollision(Move(s.body[0], action), size, s.body) ==>
      r == s.(done := true, reward := s.reward - 100)
    ensures !IsCollision(Move(s.body[0], action), size, s.body) ==>
      && r.body[0] == Move(s.body[0], action)
      && r.direction == action && r.done == s.done
      && (s.food == Some(r.body[0]) ==>
            r.body[1..] == s.body && r.food.None? && r.reward == s.reward + 9)
      && (s.food != Some(r.body[0]) ==>
            r.body[1..] == AllButTail(s.body) && r.food == s.food && r.reward == s.reward - 1)
    ensures |s.body| <= |r.body| <= |s.body| + 1
  {
    var head := Move(s.body[0], action);
    if IsCollision(head, size, s.body) then
      s.(done := true, reward := s.reward - 100)
    else
      var ate := s.food == Some(head);
      var body := [head] + (if ate then s.body else s.body[..|s.body| - 1]);
      var food := if ate then None else s.food;
      var reward := s.reward + (if ate then 10 else 0) - 1;
      SimState(body, food, action, reward, s.done)
  }

  /** The run from step `i` up to `n`: stops at the first collision. */
  function Simulate(s: SimState, actions: seq<Direction>, i: nat, n: int, size: int): (r: SimState)
    requires s.body != []
    ensures r.body != []
    decreases n - i
  {
    if s.done || i >= n then s
    else Simulate(SimStep(s, ActionAt(actions, i, s.direction), size), actions, i + 1, n, size)
  }

  /** The start of a simulation from a game state: no reward yet, not ended. */
  function InitialSim(body: seq<Cell>, direction: Direction, food: Cell): SimState
  {
    SimState(body, Some(food), direction, 0, false)
  }

  /**
   * Rolls a copy of the body forward `n` steps. A run of at least one step
   * over an empty body fails (there is no head); otherwise the result is the
   * state `Simulate` describes.
   */
  method SimulateNSteps(body: seq<Cell>, direction: Direction, food: Cell, size: int, actions: seq<Direction>, n: int)
    returns (r: Result<SimState, SimError>)
    ensures r.Failure? <==> body == [] && n > 0
    ensures r.Success? && body != [] ==> r.value == Simulate(InitialSim(body, direction, food), actions, 0, n, size)
    ensures r.Success? && body == [] ==> r.value == InitialSim(body, direction, food)
  {
    var snake := body;
    var currentDirection := direction;
    var currentFood: Option<Cell> := Some(food);
    var totalReward := 0;
    var done := false;
    var i := 0;
    while i < n
      invariant 0 <= i
      invariant i > 0 ==> snake != []
      invariant !done
      invariant i == 0 ==> snake == body && currentFood == Some(food) && currentDirection == direction && totalReward == 0
      invariant snake != [] && body != [] ==>
        Simulate(SimState(snake, currentFood, currentDirection, totalReward, done), actions, i, n, size) ==
        Simulate(InitialSim(body, direction, food), actions, 0, n, size)
      invariant snake == [] ==> i == 0 && body == []
      invariant body == [] ==> i == 0
      decreases n - i
    {
      var action := if i < |actions| then actions[i] else currentDirection;
      if snake == [] {
        return Failure(NoHead);
      }
      var head := Move(snake[0], action);
      if IsCollision(head, size, snake) {
        done := true;
        totalReward := totalReward - 100;
        assert SimState(snake, currentFood, currentDirection, totalReward, done) ==
          SimStep(SimState(snake, currentFood, currentDirection, totalReward + 100, false), action, size);
        return Success(SimState(snake, currentFood, currentDirection, totalReward, done));
      }
      ghost var before := SimState(snake, currentFood, currentDirection, totalReward, done);
      snake := [head] + snake;
      if Some(head) != currentFood {
        snake := snake[..|snake| - 1];
      } else {
        totalReward := totalReward + 10;
        currentFood := None;
      }
      totalReward := totalReward - 1;
      currentDirection := action;
      assert SimState(snake, currentFood, currentDirection, totalReward, done) == SimStep(before, action, size);
      i := i + 1;
    }
    return Success(SimState(snake, currentFood, currentDirection, totalReward, done));
  }

  /** The number of steps of a run that moved the head (the colliding step, if any, excluded). */
  function Moves(s: SimState, actions: seq<Direction>, i: nat, n: int, size: int): (m: nat)
    requires s.body != []
    ensures i + m <= (if n < i then i else n)
    decreases n - i
  {
    if s.done || i >= n then 0
    else
      var t := SimStep(s, ActionAt(actions, i, s.direction), size);
      if t.done then 0 else 1 + Moves(t, actions, i + 1, n, size)
  }

  /**
   * Over a whole run the body keeps its length or grows by exactly one, and
   * it grows exactly when the food was present and has been used up; food
   * that is gone never returns. The reward is −1 per move, plus 10 at most
   * once, minus 100 when the run ended in a collision.
   */
  lemma {:induction false} SimulateShape(s: SimState, actions: seq<Direction>, i: nat, n: int, size: int)
    requires s.body != [] && !s.done
    ensures var r := Simulate(s, actions, i, n, size);
      && |s.body| <= |r.body| <= |s.body| + 1
      && (|r.body| == |s.body| + 1 <==> s.food.Some? && r.food.None?)
      && (r.food.Some? ==> r.food == s.food)
      && r.reward == s.reward - Moves(s, actions, i, n, size)
           + (if |r.body| == |s.body| + 1 then 10 else 0) - (if r.done then 100 else 0)
    decreases n - i
  {
    if i < n {
      var t := SimStep(s, ActionAt(actions, i, s.direction), size);
      if !t.done {
        SimulateShape(t, actions, i + 1, n, size);
      }
    }
  }

  /** Once the action list is used up, every further step repeats the direction last taken. */
  lemma {:induction false} SimulateKeepsDirection(s: SimState, actions: seq<Direction>, i: nat, n: int, size: int)
    requires s.body != [] && i >= |actions|
    ensures Simulate(s, actions, i, n, size).direction == s.direction
    decreases n - i
  {
    if !s.done && i < n {
      SimulateKeepsDirection(SimStep(s, s.direction, size), actions, i + 1, n, size);
    }
  }

  /** Body `[(0,1), (1,1)]` heading left on a 3 by 3 board: one step left hits the wall, ending with −100. */
  lemma WallScenario()
    ensures var r := Simulate(InitialSim([Cell(0, 1), Cell(1, 1)], Left, Cell(2, 2)), [Left], 0, 1, 3);
      r.done && r.reward == -100
  {
    assert !InBounds(Move(Cell(0, 1), Left), 3);
  }

  /** Body `[(5,5), (5,6)]` on a 5 by 5 board already lies off the board, so two steps right end at once with −100. */
  lemma OffBoardStartScenario()
    ensures var r := Simulate(InitialSim([Cell(5, 5), Cell(5, 6)], Up, Cell(0, 0)), [Right, Right], 0, 2, 5);
      r.done && r.reward == -100
  {
    assert !InBounds(Move(Cell(5, 5), Right), 5);
  }
}
