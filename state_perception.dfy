/**
 * Perception of the board: the encoded grid, head and tail of the body, the
 * static move check, and the two breadth-first searches (the free-area flood
 * fill and the path-existence test).
 */
module StatePerception {
  import opened Wrappers
  import opened Geometry

  datatype PerceptionError = EmptyBody

  /** Cell codes of the encoded board. */
  const EmptyCode: int := 0
  const BodyCode: int := 1
  const FoodCode: int := 2

  /**
   * The encoded board: row `y`, column `x` holds 2 for the food, 1 for a body
   * cell and 0 otherwise; cells of the body or the food that lie off the board
   * are ignored.
   */
  method EncodeBoard(size: nat, body: seq<Cell>, food: Cell) returns (board: array2<int>)
    ensures fresh(board)
    ensures board.Length0 == size && board.Length1 == size
    ensures forall y, x :: 0 <= y < size && 0 <= x < size ==>
      board[y, x] == (if Cell(x, y) == food then FoodCode
                      else if Cell(x, y) in body then BodyCode
                      else EmptyCode)
  {
    board := new int[size, size]((y, x) => EmptyCode);
    for i := 0 to |body|
      invariant forall y, x :: 0 <= y < size && 0 <= x < size ==>
        board[y, x] == (if Cell(x, y) in body[..i] then BodyCode else EmptyCode)
    {
      var c := body[i];
      if 0 <= c.x < size && 0 <= c.y < size {
        board[c.y, c.x] := BodyCode;
      }
      assert body[..i + 1] == body[..i] + [c];
    }
    assert body[..|body|] == body;
    if 0 <= food.x < size && 0 <= food.y < size {
      board[food.y, food.x] := FoodCode;
    }
  }

  /** Head and tail of the body; an empty body is an error. */
  function GetHeadTailCoordinates(body: seq<Cell>): (r: Result<(Cell, Cell), PerceptionError>)
    ensures r.Failure? <==> body == []
    ensures r.Success? ==> r.value.0 == body[0] && r.value.1 == body[|body| - 1]
  {
    if body == [] then Failure(EmptyBody) else Success((body[0], body[|body| - 1]))
  }

  /** A static move check: on the board and not on any body cell, tail included. */
  predicate IsValidMove(pos: Cell, size: int, body: seq<Cell>)
  {
    InBounds(pos, size) && pos !in body
  }

  /** The obstacles of the flood fill: the body cells, with the food cell exempt. */
  function ReachObstacles(body: seq<Cell>, food: Cell): (obstacles: set<Cell>)
    ensures forall c :: c in obstacles <==> c in body && c != food
  {
    CellSet(body) - {food}
  }

  /** The obstacles of a point-to-point search: the body cells, with start and target exempt. */
  function PathObstacles(body: seq<Cell>, start: Cell, target: Cell): (obstacles: set<Cell>)
    ensures forall c :: c in obstacles <==> c in body && c != start && c != target
  {
    CellSet(body) - {target} - {start}
  }

  /**
   * The free neighbours of `cur` that are not in `visited`, one per direction
   * of `ds` and in the order of `ds`.
   */
  function FreshNeighbors(cur: Cell, size: int, obstacles: set<Cell>, visited: set<Cell>,
                          ds: seq<Direction>): (r: seq<Cell>)
    ensures forall c :: c in r ==> Free(c, size, obstacles) && c !in visited
    ensures forall c :: c in r ==> exists i :: 0 <= i < |ds| && c == Move(cur, ds[i])
    ensures |r| <= |ds|
  {
    if ds == [] then []
    else
      var n := Move(cur, ds[|ds| - 1]);
      var rest := FreshNeighbors(cur, size, obstacles, visited, ds[..|ds| - 1]);
      if Free(n, size, obstacles) && n !in visited then rest + [n] else rest
  }

  /** A free, unvisited neighbour in the direction `ds[i]` is among the fresh neighbours. */
  lemma {:induction false} FreshContains(cur: Cell, size: int, obstacles: set<Cell>, visited: set<Cell>,
                                         ds: seq<Direction>, i: nat)
    requires i < |ds|
    requires Free(Move(cur, ds[i]), size, obstacles) && Move(cur, ds[i]) !in visited
    ensures Move(cur, ds[i]) in FreshNeighbors(cur, size, obstacles, visited, ds)
  {
    if i < |ds| - 1 {
      FreshContains(cur, size, obstacles, visited, ds[..|ds| - 1], i);
    }
  }

  /**
   * The fresh neighbours of `cur` are exactly its free unvisited neighbours:
   * each is adjacent to `cur`, and none is missing.
   */
  lemma FreshNeighborsAdjacent(cur: Cell, size: int, obstacles: set<Cell>, visited: set<Cell>)
    ensures forall c :: c in FreshNeighbors(cur, size, obstacles, visited, Directions) ==> Adjacent(cur, c)
    ensures forall d :: Free(Move(cur, d), size, obstacles) && Move(cur, d) !in visited ==>
      Move(cur, d) in FreshNeighbors(cur, size, obstacles, visited, Directions)
  {
    forall d | Free(Move(cur, d), size, obstacles) && Move(cur, d) !in visited
      ensures Move(cur, d) in FreshNeighbors(cur, size, obstacles, visited, Directions)
    {
      FreshContains(cur, size, obstacles, visited, Directions, Rank(d));
    }
  }

  /**
   * Extending the directions by `Directions[k]` appends at most its own
   * neighbour, which no earlier direction produced.
   */
  lemma FreshStep(cur: Cell, size: int, obstacles: set<Cell>, visited: set<Cell>, k: nat)
    requires k < |Directions|
    ensures Move(cur, Directions[k]) !in FreshNeighbors(cur, size, obstacles, visited, Directions[..k])
    ensures FreshNeighbors(cur, size, obstacles, visited, Directions[..k + 1])
      == FreshNeighbors(cur, size, obstacles, visited, Directions[..k])
         + (if Free(Move(cur, Directions[k]), size, obstacles) && Move(cur, Directions[k]) !in visited
            then [Move(cur, Directions[k])] else [])
  {
    assert Directions[..k + 1][..k] == Directions[..k];
    forall i | 0 <= i < k
      ensures Move(cur, Directions[..k][i]) != Move(cur, Directions[k])
    {
      RankOfDirection(i);
      RankOfDirection(k);
      MoveInjective(cur, Directions[i], Directions[k]);
    }
  }

  /** No cell is a fresh neighbour twice. */
  lemma {:induction false} FreshDistinct(cur: Cell, size: int, obstacles: set<Cell>, visited: set<Cell>, k: nat)
    requires k <= |Directions|
    ensures Distinct(FreshNeighbors(cur, size, obstacles, visited, Directions[..k]))
  {
    if k > 0 {
      FreshDistinct(cur, size, obstacles, visited, k - 1);
      FreshStep(cur, size, obstacles, visited, k - 1);
      var n := Move(cur, Directions[k - 1]);
      DistinctConcat(FreshNeighbors(cur, size, obstacles, visited, Directions[..k - 1]),
                     if Free(n, size, obstacles) && n !in visited then [n] else []);
    }
  }

  /**
   * One expansion step shared by both searches: every free neighbour of `cur`
   * not yet visited is marked visited and appended to the queue, in direction
   * order.
   */
  method EnqueueNeighbors(cur: Cell, size: int, obstacles: set<Cell>, visited: set<Cell>, queue: seq<Cell>,
                          ghost start: Cell, ghost walks: map<Cell, seq<Cell>>)
    returns (visited': set<Cell>, queue': seq<Cell>, ghost walks': map<Cell, seq<Cell>>)
    requires cur in visited
    requires WalksFor(visited, walks, start, size, obstacles)
    ensures |queue'| >= |queue| && queue'[..|queue|] == queue
    ensures queue'[|queue|..] == FreshNeighbors(cur, size, obstacles, visited, Directions)
    ensures forall c :: c in queue'[|queue|..] ==> Adjacent(cur, c)
    ensures Distinct(queue'[|queue|..])
    ensures visited' == visited + CellSet(queue'[|queue|..])
    ensures forall c :: c in queue'[|queue|..] ==> c !in visited && Free(c, size, obstacles)
    ensures Closed(cur, visited', size, obstacles)
    ensures WalksFor(visited', walks', start, size, obstacles)
  {
    visited', queue', walks' := visited, queue, walks;
    for k := 0 to |Directions|
      invariant |queue'| >= |queue| && queue'[..|queue|] == queue
      invariant queue'[|queue|..] == FreshNeighbors(cur, size, obstacles, visited, Directions[..k])
      invariant visited' == visited + CellSet(queue'[|queue|..])
      invariant cur in visited'
      invariant WalksFor(visited', walks', start, size, obstacles)
    {
      var next := Move(cur, Directions[k]);
      FreshStep(cur, size, obstacles, visited, k);
      if InBounds(next, size) && next !in visited' && next !in obstacles {
        WalkExtend(walks'[cur], start, cur, next, size, obstacles);
        ghost var added := queue'[|queue|..];
        visited' := visited' + {next};
        queue' := queue' + [next];
        walks' := walks'[next := walks'[cur] + [next]];
        assert queue'[|queue|..] == added + [next];
      }
    }
    assert Directions[..|Directions|] == Directions;
    FreshNeighborsAdjacent(cur, size, obstacles, visited);
    FreshDistinct(cur, size, obstacles, visited, |Directions|);
  }

  /**
   * What both searches keep true between iterations: `visited` is exactly the
   * cells dequeued so far plus the queue, none twice, the start first; every
   * visited cell but the start is free; every dequeued cell has all its free
   * neighbours visited; and every visited cell has a walk from the start.
   */
  ghost predicate FloodInv(start: Cell, size: int, obstacles: set<Cell>, cells: seq<Cell>, queue: seq<Cell>,
                           visited: set<Cell>, walks: map<Cell, seq<Cell>>)
  {
    && visited == CellSet(cells + queue)
    && Distinct(cells + queue)
    && |cells + queue| >= 1 && (cells + queue)[0] == start
    && (forall c :: c in visited && c != start ==> Free(c, size, obstacles))
    && (forall c :: c in cells ==> Closed(c, visited, size, obstacles))
    && WalksFor(visited, walks, start, size, obstacles)
  }

  lemma FloodInit(start: Cell, size: int, obstacles: set<Cell>)
    ensures FloodInv(start, size, obstacles, [], [start], {start}, map[start := [start]])
  {
    assert WalkFrom([start], start, start, size, obstacles);
    assert [] + [start] == [start];
  }

  /** Dequeuing the head of the queue and enqueuing its new neighbours keeps the invariant and makes progress. */
  lemma FloodStep(start: Cell, size: int, obstacles: set<Cell>, cells: seq<Cell>, queue: seq<Cell>,
                  visited: set<Cell>, walks: map<Cell, seq<Cell>>,
                  queue': seq<Cell>, visited': set<Cell>, walks': map<Cell, seq<Cell>>)
    requires FloodInv(start, size, obstacles, cells, queue, visited, walks)
    requires queue != []
    requires |queue'| >= |queue| - 1 && queue'[..|queue| - 1] == queue[1..]
    requires Distinct(queue'[|queue| - 1..])
    requires visited' == visited + CellSet(queue'[|queue| - 1..])
    requires forall c :: c in queue'[|queue| - 1..] ==> c !in visited && Free(c, size, obstacles)
    requires Closed(queue[0], visited', size, obstacles)
    requires WalksFor(visited', walks', start, size, obstacles)
    ensures FloodInv(start, size, obstacles, cells + [queue[0]], queue', visited', walks')
    ensures Grid(size) - visited' < Grid(size) - visited || (visited' == visited && |queue'| < |queue|)
  {
    var cur := queue[0];
    var before := cells + queue;
    var added := queue'[|queue| - 1..];
    var cells' := cells + [cur];
    assert queue' == queue[1..] + added;
    assert cells' + queue' == before + added;
    forall x | x in added
      ensures x !in before
    {
      assert x !in CellSet(before);
    }
    DistinctConcat(before, added);
    assert CellSet(before + added) == CellSet(before) + CellSet(added);
    forall c | c in cells'
      ensures Closed(c, visited', size, obstacles)
    {
      if c != cur {
        assert Closed(c, visited, size, obstacles);
      }
    }
    if added != [] {
      var a := added[0];
      assert a in added;
      assert Free(a, size, obstacles) && a !in visited;
      InGrid(a, size);
      assert a in Grid(size) - visited;
      assert a !in Grid(size) - visited';
    }
  }

  /** When the queue is empty, the dequeued cells are exactly the cells the start reaches. */
  lemma FloodDone(start: Cell, size: int, obstacles: set<Cell>, cells: seq<Cell>, visited: set<Cell>,
                  walks: map<Cell, seq<Cell>>)
    requires FloodInv(start, size, obstacles, cells, [], visited, walks)
    ensures forall c :: c in cells <==> Reaches(start, c, size, obstacles)
  {
    assert cells + [] == cells;
    forall c
      ensures c in cells <==> Reaches(start, c, size, obstacles)
    {
      if c in cells {
        assert WalkFrom(walks[c], start, c, size, obstacles);
      } else if Reaches(start, c, size, obstacles) {
        ClosedContainsReach(visited, start, c, size, obstacles);
      }
    }
  }

  /** What an exhausted flood fill has computed. */
  lemma FloodResult(start: Cell, size: int, obstacles: set<Cell>, cells: seq<Cell>, visited: set<Cell>,
                    walks: map<Cell, seq<Cell>>)
    requires FloodInv(start, size, obstacles, cells, [], visited, walks)
    ensures Distinct(cells)
    ensures |cells| >= 1 && cells[0] == start
    ensures forall i :: 1 <= i < |cells| ==> Free(cells[i], size, obstacles)
    ensures forall c :: c in cells <==> Reaches(start, c, size, obstacles)
    ensures InBounds(start, size) ==> |cells| <= size * size
  {
    FloodDone(start, size, obstacles, cells, visited, walks);
    assert cells + [] == cells;
    forall i | 1 <= i < |cells|
      ensures Free(cells[i], size, obstacles)
    {
      assert cells[i] != cells[0];
      assert cells[i] in CellSet(cells);
    }
    if InBounds(start, size) {
      forall c | c in cells
        ensures c in Grid(size)
      {
        InGrid(c, size);
      }
      DistinctWithin(cells, Grid(size));
      GridCard(size);
    }
  }

  /** One iteration of both searches: dequeue the head of the queue and enqueue its free unvisited neighbours. */
  method VisitNext(ghost start: Cell, size: int, obstacles: set<Cell>, ghost cells: seq<Cell>, queue: seq<Cell>,
                   visited: set<Cell>, ghost walks: map<Cell, seq<Cell>>)
    returns (visited': set<Cell>, queue': seq<Cell>, ghost walks': map<Cell, seq<Cell>>)
    requires FloodInv(start, size, obstacles, cells, queue, visited, walks) && queue != []
    ensures FloodInv(start, size, obstacles, cells + [queue[0]], queue', visited', walks')
    ensures Grid(size) - visited' < Grid(size) - visited || (visited' == visited && |queue'| < |queue|)
  {
    assert queue[0] in CellSet(cells + queue);
    visited', queue', walks' := EnqueueNeighbors(queue[0], size, obstacles, visited, queue[1..], start, walks);
    FloodStep(start, size, obstacles, cells, queue, visited, walks, queue', visited', walks');
  }

  /**
   * Flood fill from `start` over free cells (the food cell is exempt from the
   * body obstacles). Returns the number of cells dequeued and the cells in
   * dequeue order; the start is always counted first, even on a body cell.
   */
  method FindReachableAreas(start: Cell, size: int, body: seq<Cell>, food: Cell)
    returns (count: nat, cells: seq<Cell>)
    ensures count == |cells|
    ensures Distinct(cells)
    ensures |cells| >= 1 && cells[0] == start
    ensures forall i :: 1 <= i < |cells| ==> Free(cells[i], size, ReachObstacles(body, food))
    ensures forall c :: c in cells <==> Reaches(start, c, size, ReachObstacles(body, food))
    ensures InBounds(start, size) ==> count <= size * size
  {
    var obstacles := CellSet(body);
    if food in obstacles {
      obstacles := obstacles - {food};
    }
    count, cells := 0, [];
    var queue := [start];
    var visited := {start};
    ghost var walks := map[start := [start]];
    FloodInit(start, size, obstacles);
    while queue != []
      invariant obstacles == ReachObstacles(body, food)
      invariant count == |cells|
      invariant FloodInv(start, size, obstacles, cells, queue, visited, walks)
      decreases Grid(size) - visited, |queue|
    {
      var cur := queue[0];
      var visited', queue', walks' := VisitNext(start, size, obstacles, cells, queue, visited, walks);
      count := count + 1;
      cells := cells + [cur];
      visited, queue, walks := visited', queue', walks';
    }
    FloodResult(start, size, obstacles, cells, visited, walks);
  }

  /**
   * Breadth-first test for a path from `start` to `target`; the body cells
   * are obstacles except the start and the target themselves. Stops as soon
   * as the target is dequeued.
   */
  method HasPathToTarget(start: Cell, target: Cell, size: int, body: seq<Cell>) returns (found: bool)
    ensures found <==> Reaches(start, target, size, PathObstacles(body, start, target))
    ensures start == target ==> found
  {
    var obstacles := CellSet(body);
    if target in obstacles {
      obstacles := obstacles - {target};
    }
    if start in obstacles {
      obstacles := obstacles - {start};
    }
    var queue := [start];
    var visited := {start};
    ghost var cells: seq<Cell> := [];
    ghost var walks := map[start := [start]];
    FloodInit(start, size, obstacles);
    while queue != []
      invariant obstacles == PathObstacles(body, start, target)
      invariant FloodInv(start, size, obstacles, cells, queue, visited, walks)
      invariant target !in cells
      decreases Grid(size) - visited, |queue|
    {
      var cur := queue[0];
      if cur == target {
        assert cur in CellSet(cells + queue);
        assert WalkFrom(walks[cur], start, target, size, obstacles);
        return true;
      }
      var visited', queue', walks' := VisitNext(start, size, obstacles, cells, queue, visited, walks);
      cells := cells + [cur];
      visited, queue, walks := visited', queue', walks';
    }
    FloodDone(start, size, obstacles, cells, visited, walks);
    if start == target {
      ReachesSelf(start, size, obstacles);
    }
    return false;
  }

  /**
   * The point-to-point search exempts its target from the obstacles, so an
   * on-board target next to the start is always reached, body or not.
   */
  lemma AdjacentTargetReached(start: Cell, target: Cell, size: int, body: seq<Cell>)
    requires Adjacent(start, target) && InBounds(target, size)
    ensures Reaches(start, target, size, PathObstacles(body, start, target))
  {
    assert WalkFrom([start, target], start, target, size, PathObstacles(body, start, target));
  }
}
