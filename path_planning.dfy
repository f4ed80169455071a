/**
 * Path planning: the Manhattan heuristic, A* search for a shortest path
 * between two cells, the safe-path wrapper around it, and the breadth-first
 * "longest path" exploration.
 */
module PathPlanning {
  import opened Wrappers
  import opened Geometry
  import opened StatePerception

  /** Manhattan distance `|dx| + |dy|`. */
  function Heuristic(a: Cell, b: Cell): (r: nat)
    ensures r == 0 <==> a == b
  {
    (if a.x >= b.x then a.x - b.x else b.x - a.x) + (if a.y >= b.y then a.y - b.y else b.y - a.y)
  }

  /** The distance is symmetric. */
  lemma HeuristicSymmetric(a: Cell, b: Cell)
    ensures Heuristic(a, b) == Heuristic(b, a)
  {
  }

  /** One step changes the distance to any cell by at most one. */
  lemma HeuristicStep(a: Cell, b: Cell, c: Cell)
    requires Adjacent(a, b)
    ensures Heuristic(a, c) <= 1 + Heuristic(b, c)
    ensures Heuristic(a, b) == 1
  {
  }

  /** The heuristic never overestimates: a walk from `a` to `b` takes at least `Heuristic(a, b)` steps. */
  lemma {:induction false} HeuristicAdmissible(p: seq<Cell>, a: Cell, b: Cell, size: int, obstacles: set<Cell>)
    requires WalkFrom(p, a, b, size, obstacles)
    ensures Heuristic(a, b) <= |p| - 1
    decreases |p|
  {
    if |p| > 1 {
      WalkSuffix(p, 1, size, obstacles);
      HeuristicAdmissible(p[1..], p[1], b, size, obstacles);
      HeuristicStep(a, p[1], b);
    }
  }

  /** A shortest path result: a shortest walk from `start` to `goal`, or None exactly when there is none. */
  ghost predicate IsShortestPathResult(r: Option<seq<Cell>>, start: Cell, goal: Cell, size: int, obstacles: set<Cell>)
  {
    && (r.None? <==> !Reaches(start, goal, size, obstacles))
    && (r.Some? ==> WalkFrom(r.value, start, goal, size, obstacles))
    && (r.Some? ==> forall q :: WalkFrom(q, start, goal, size, obstacles) ==> |r.value| <= |q|)
  }

  // ---------------------------------------------------------------------------
  // The A* frontier

  /** A frontier entry `(f, g, cell, path)`: `path` holds the cells before `cell`. */
  datatype Entry = Entry(f: int, g: nat, cell: Cell, path: seq<Cell>)

  /** Strict order of the priority queue: by f, then g, then the cell's (x, y). */
  predicate KeyLess(a: Entry, b: Entry)
  {
    || a.f < b.f
    || (a.f == b.f && a.g < b.g)
    || (a.f == b.f && a.g == b.g && a.cell.x < b.cell.x)
    || (a.f == b.f && a.g == b.g && a.cell.x == b.cell.x && a.cell.y < b.cell.y)
  }

  /** Index of the first entry of the frontier that no other entry precedes. */
  method PopMin(open: seq<Entry>) returns (i: nat)
    requires open != []
    ensures i < |open|
    ensures forall j :: 0 <= j < |open| ==> !KeyLess(open[j], open[i])
  {
    i := 0;
    for j := 1 to |open|
      invariant i < j
      invariant forall k :: 0 <= k < j ==> !KeyLess(open[k], open[i])
    {
      if KeyLess(open[j], open[i]) {
        i := j;
      }
    }
  }

  /** Recorded costs only ever go down, and no recorded cell is forgotten. */
  ghost predicate Improves(g: map<Cell, nat>, g': map<Cell, nat>)
  {
    forall c :: c in g ==> c in g' && g'[c] <= g[c]
  }

  /**
   * A well-formed entry: its cell's recorded cost is at most its g, its path
   * plus its cell is a duplicate-free walk from the start with g steps, f lies
   * between g and g plus the heuristic, and the i-th cell of its path has a
   * recorded cost of at most i.
   */
  ghost predicate EntryOk(e: Entry, start: Cell, goal: Cell, size: int, obstacles: set<Cell>, g: map<Cell, nat>)
  {
    && e.cell in g && g[e.cell] <= e.g
    && |e.path| == e.g
    && WalkFrom(e.path + [e.cell], start, e.cell, size, obstacles)
    && Distinct(e.path + [e.cell])
    && e.g <= e.f <= e.g + Heuristic(e.cell, goal)
    && (forall i :: 0 <= i < |e.path| ==> e.path[i] in g && g[e.path[i]] <= i)
  }

  /** Some frontier entry carries `c` with its recorded cost. */
  ghost predicate Covered(c: Cell, open: seq<Entry>, g: map<Cell, nat>)
  {
    c in g && exists i :: 0 <= i < |open| && open[i].cell == c && open[i].g == g[c]
  }

  /** `c` has been expanded with its recorded cost: its free neighbours cost at most one more. */
  ghost predicate Settled(c: Cell, g: map<Cell, nat>, goal: Cell, size: int, obstacles: set<Cell>)
  {
    && c in g && c != goal
    && forall d :: Free(Move(c, d), size, obstacles) ==> Move(c, d) in g && g[Move(c, d)] <= g[c] + 1
  }

  /** The invariant of the A* loop. */
  ghost predicate SearchInv(open: seq<Entry>, g: map<Cell, nat>, start: Cell, goal: Cell, size: int, obstacles: set<Cell>)
  {
    && start in g && g[start] == 0
    && (forall c :: c in g ==> c == start || InBounds(c, size))
    && (forall i :: 0 <= i < |open| ==> EntryOk(open[i], start, goal, size, obstacles, g))
    && (forall c :: c in g ==> Covered(c, open, g) || Settled(c, g, goal, size, obstacles))
  }

  /** The (cell, cost) pairs a board cell could still be recorded with: shrinks with every push. */
  ghost function Slack(g: map<Cell, nat>, size: int, bound: nat): set<(Cell, int)>
  {
    set c, v | c in Grid(size) && 0 <= v < bound && (c !in g || v < g[c]) :: (c, v)
  }

  lemma EntryOkMono(e: Entry, start: Cell, goal: Cell, size: int, obstacles: set<Cell>, g: map<Cell, nat>, g': map<Cell, nat>)
    requires EntryOk(e, start, goal, size, obstacles, g)
    requires Improves(g, g')
    ensures EntryOk(e, start, goal, size, obstacles, g')
  {
  }

  /** The path of an entry is duplicate-free inside the board plus the start, so its g is bounded. */
  lemma EntryBound(e: Entry, start: Cell, goal: Cell, size: int, obstacles: set<Cell>, g: map<Cell, nat>)
    requires EntryOk(e, start, goal, size, obstacles, g)
    ensures e.g + 1 < |Grid(size) + {start}| + 1
  {
    var s := e.path + [e.cell];
    forall c | c in s
      ensures c in Grid(size) + {start}
    {
      var i :| 0 <= i < |s| && s[i] == c;
      if i > 0 {
        InGrid(c, size);
      }
    }
    DistinctWithin(s, Grid(size) + {start});
  }

  /**
   * Expansion of one popped entry: every free neighbour whose recorded cost
   * `cur.g + 1` improves (or is the first for that cell) gets the new cost and
   * a new frontier entry.
   */
  method Relax(cur: Entry, goal: Cell, size: int, obstacles: set<Cell>, open: seq<Entry>, g: map<Cell, nat>,
               ghost start: Cell, ghost bound: nat)
    returns (open': seq<Entry>, g': map<Cell, nat>)
    requires EntryOk(cur, start, goal, size, obstacles, g)
    requires cur.g + 1 < bound
    requires forall i :: 0 <= i < |open| ==> EntryOk(open[i], start, goal, size, obstacles, g)
    ensures |open'| >= |open| && open'[..|open|] == open
    ensures Improves(g, g')
    ensures forall c :: c in g && g'[c] != g[c] ==> g'[c] < g[c]
    ensures forall c :: c in g' && c !in g ==> InBounds(c, size)
    ensures forall c :: c in g' && (c !in g || g'[c] != g[c]) ==> Covered(c, open', g')
    ensures forall i :: 0 <= i < |open'| ==> EntryOk(open'[i], start, goal, size, obstacles, g')
    ensures forall d :: Free(Move(cur.cell, d), size, obstacles) ==>
      Move(cur.cell, d) in g' && g'[Move(cur.cell, d)] <= cur.g + 1
    ensures Slack(g', size, bound) <= Slack(g, size, bound)
    ensures |open'| > |open| ==> Slack(g', size, bound) < Slack(g, size, bound)
  {
    open', g' := open, g;
    for k := 0 to |Directions|
      invariant |open'| >= |open| && open'[..|open|] == open
      invariant Improves(g, g')
      invariant EntryOk(cur, start, goal, size, obstacles, g')
      invariant forall c :: c in g' && c !in g ==> InBounds(c, size)
      invariant forall c :: c in g' && (c !in g || g'[c] != g[c]) ==> Covered(c, open', g')
      invariant forall i :: 0 <= i < |open'| ==> EntryOk(open'[i], start, goal, size, obstacles, g')
      invariant forall d :: Rank(d) < k && Free(Move(cur.cell, d), size, obstacles) ==>
        Move(cur.cell, d) in g' && g'[Move(cur.cell, d)] <= cur.g + 1
      invariant Slack(g', size, bound) <= Slack(g, size, bound)
      invariant |open'| > |open| ==> Slack(g', size, bound) < Slack(g, size, bound)
    {
      ghost var before := g';
      open', g' := RelaxNeighbor(cur, Directions[k], goal, size, obstacles, open, g, open', g', start, bound);
      RankOfDirection(k);
      ImprovesTrans(g, before, g');
    }
  }

  lemma ImprovesTrans(g: map<Cell, nat>, g': map<Cell, nat>, g'': map<Cell, nat>)
    requires Improves(g, g') && Improves(g', g'')
    ensures Improves(g, g'')
  {
  }

  /**
   * The body of `Relax`'s loop for direction `d`: a free neighbour whose
   * cost `cur.g + 1` is new or strictly better is recorded and pushed.
   */
  method RelaxNeighbor(cur: Entry, d: Direction, goal: Cell, size: int, obstacles: set<Cell>,
                       ghost open: seq<Entry>, ghost g: map<Cell, nat>, open': seq<Entry>, g': map<Cell, nat>,
                       ghost start: Cell, ghost bound: nat)
    returns (open'': seq<Entry>, g'': map<Cell, nat>)
    requires cur.g + 1 < bound
    requires |open'| >= |open| && open'[..|open|] == open
    requires Improves(g, g')
    requires EntryOk(cur, start, goal, size, obstacles, g')
    requires forall c :: c in g' && c !in g ==> InBounds(c, size)
    requires forall c :: c in g' && (c !in g || g'[c] != g[c]) ==> Covered(c, open', g')
    requires forall i :: 0 <= i < |open'| ==> EntryOk(open'[i], start, goal, size, obstacles, g')
    requires Slack(g', size, bound) <= Slack(g, size, bound)
    requires |open'| > |open| ==> Slack(g', size, bound) < Slack(g, size, bound)
    ensures |open''| >= |open| && open''[..|open|] == open
    ensures Improves(g', g'')
    ensures EntryOk(cur, start, goal, size, obstacles, g'')
    ensures forall c :: c in g'' && c !in g ==> InBounds(c, size)
    ensures forall c :: c in g'' && (c !in g || g''[c] != g[c]) ==> Covered(c, open'', g'')
    ensures forall i :: 0 <= i < |open''| ==> EntryOk(open''[i], start, goal, size, obstacles, g'')
    ensures Free(Move(cur.cell, d), size, obstacles) ==>
      Move(cur.cell, d) in g'' && g''[Move(cur.cell, d)] <= cur.g + 1
    ensures Slack(g'', size, bound) <= Slack(g, size, bound)
    ensures |open''| > |open| ==> Slack(g'', size, bound) < Slack(g, size, bound)
  {
    open'', g'' := open', g';
    var neighbor := Move(cur.cell, d);
    if !InBounds(neighbor, size) {
      return;
    }
    if neighbor in obstacles {
      return;
    }
    var newG := cur.g + 1;
    if neighbor !in g' || newG < g'[neighbor] {
      var entry := Entry(newG + Heuristic(neighbor, goal), newG, neighbor, cur.path + [cur.cell]);
      assert Adjacent(cur.cell, neighbor);
      PushEntriesOk(cur, neighbor, entry, goal, size, obstacles, open', g', start);
      PushCovered(neighbor, newG, entry, open', g, g');
      PushFrame(neighbor, newG, entry, size, obstacles, open, g, open', g', bound);
      g'' := g'[neighbor := newG];
      open'' := open' + [entry];
    }
  }

  /** Pushing an entry keeps the old frontier as a prefix, and recording a new cost for a free cell shrinks the slack. */
  lemma PushFrame(n: Cell, v: nat, entry: Entry, size: int, obstacles: set<Cell>,
                  open: seq<Entry>, g: map<Cell, nat>, open': seq<Entry>, g': map<Cell, nat>, bound: nat)
    requires Free(n, size, obstacles) && v < bound && (n !in g' || v < g'[n])
    requires |open'| >= |open| && open'[..|open|] == open
    requires forall c :: c in g' && c !in g ==> InBounds(c, size)
    requires Slack(g', size, bound) <= Slack(g, size, bound)
    ensures (open' + [entry])[..|open|] == open
    ensures forall c :: c in g'[n := v] && c !in g ==> InBounds(c, size)
    ensures Slack(g'[n := v], size, bound) < Slack(g, size, bound)
  {
    SlackShrinks(g', n, v, size, bound);
    assert (open' + [entry])[..|open|] == open'[..|open|];
  }

  /** After a lowered cost for `n` and a pushed entry, every frontier entry is still well formed. */
  lemma PushEntriesOk(cur: Entry, n: Cell, entry: Entry, goal: Cell, size: int, obstacles: set<Cell>,
                      open': seq<Entry>, g': map<Cell, nat>, start: Cell)
    requires Adjacent(cur.cell, n) && Free(n, size, obstacles)
    requires n !in g' || cur.g + 1 < g'[n]
    requires entry == Entry(cur.g + 1 + Heuristic(n, goal), cur.g + 1, n, cur.path + [cur.cell])
    requires EntryOk(cur, start, goal, size, obstacles, g')
    requires forall i :: 0 <= i < |open'| ==> EntryOk(open'[i], start, goal, size, obstacles, g')
    ensures Improves(g', g'[n := cur.g + 1])
    ensures EntryOk(cur, start, goal, size, obstacles, g'[n := cur.g + 1])
    ensures forall i :: 0 <= i < |open' + [entry]| ==> EntryOk((open' + [entry])[i], start, goal, size, obstacles, g'[n := cur.g + 1])
  {
    var g'' := g'[n := cur.g + 1];
    var open'' := open' + [entry];
    PushedEntryOk(cur, n, entry, start, goal, size, obstacles, g');
    assert Improves(g', g'');
    EntryOkMono(cur, start, goal, size, obstacles, g', g'');
    forall i | 0 <= i < |open''|
      ensures EntryOk(open''[i], start, goal, size, obstacles, g'')
    {
      if i < |open'| {
        assert open''[i] == open'[i];
        EntryOkMono(open'[i], start, goal, size, obstacles, g', g'');
      }
    }
  }

  /** After a lowered cost for `n` and a pushed entry for it, every changed cost is still covered by the frontier. */
  lemma PushCovered(n: Cell, v: nat, entry: Entry, open': seq<Entry>, g: map<Cell, nat>, g': map<Cell, nat>)
    requires entry.cell == n && entry.g == v
    requires forall c :: c in g' && (c !in g || g'[c] != g[c]) ==> Covered(c, open', g')
    ensures forall c :: c in g'[n := v] && (c !in g || g'[n := v][c] != g[c]) ==> Covered(c, open' + [entry], g'[n := v])
  {
    var g'' := g'[n := v];
    var open'' := open' + [entry];
    forall c | c in g'' && (c !in g || g''[c] != g[c])
      ensures Covered(c, open'', g'')
    {
      if c == n {
        assert open''[|open''| - 1].cell == c;
      } else {
        assert Covered(c, open', g');
        var i :| 0 <= i < |open'| && open'[i].cell == c && open'[i].g == g'[c];
        assert open''[i] == open'[i];
      }
    }
  }

  /** The entry pushed for a free neighbour whose cost improves is well formed under the updated costs. */
  lemma PushedEntryOk(cur: Entry, n: Cell, entry: Entry, start: Cell, goal: Cell, size: int,
                      obstacles: set<Cell>, g: map<Cell, nat>)
    requires EntryOk(cur, start, goal, size, obstacles, g)
    requires Adjacent(cur.cell, n) && Free(n, size, obstacles)
    requires n !in g || cur.g + 1 < g[n]
    requires entry == Entry(cur.g + 1 + Heuristic(n, goal), cur.g + 1, n, cur.path + [cur.cell])
    ensures EntryOk(entry, start, goal, size, obstacles, g[n := cur.g + 1])
  {
    var g' := g[n := cur.g + 1];
    var s := cur.path + [cur.cell];
    WalkExtend(s, start, cur.cell, n, size, obstacles);
    forall i | 0 <= i < |s|
      ensures s[i] != n
    {
      if i < |cur.path| {
        assert s[i] == cur.path[i];
      }
    }
    DistinctConcat(s, [n]);
    assert n != cur.cell by {
      MoveOpposite(cur.cell, Up);
    }
    forall i | 0 <= i < |entry.path|
      ensures entry.path[i] in g' && g'[entry.path[i]] <= i
    {
      assert entry.path[i] in s;
    }
  }

  /** Recording a strictly smaller cost `v` for a board cell removes at least `(c, v)` from the slack. */
  lemma SlackShrinks(g: map<Cell, nat>, c: Cell, v: nat, size: int, bound: nat)
    requires InBounds(c, size) && v < bound
    requires c !in g || v < g[c]
    ensures Slack(g[c := v], size, bound) < Slack(g, size, bound)
  {
    InGrid(c, size);
    assert (c, v as int) in Slack(g, size, bound);
    assert (c, v as int) !in Slack(g[c := v], size, bound);
  }

  /** The initial frontier `[(0, 0, start, [])]` with `g = {start: 0}` satisfies the loop invariant. */
  lemma SearchInit(start: Cell, goal: Cell, size: int, obstacles: set<Cell>)
    ensures SearchInv([Entry(0, 0, start, [])], map[start := 0], start, goal, size, obstacles)
  {
    var e := Entry(0, 0, start, []);
    assert e.path + [e.cell] == [start];
    assert WalkFrom([start], start, start, size, obstacles);
    assert [e][0].cell == start && [e][0].g == 0;
    assert Covered(start, [e], map[start := 0]);
  }

  /**
   * Along any walk from the start to the goal, the first cell that is not
   * settled is carried by a frontier entry whose f does not exceed the walk's
   * step count.
   */
  lemma {:induction false} FrontierBound(open: seq<Entry>, g: map<Cell, nat>, start: Cell, goal: Cell, size: int,
                                         obstacles: set<Cell>, q: seq<Cell>, j: nat)
    requires SearchInv(open, g, start, goal, size, obstacles)
    requires WalkFrom(q, start, goal, size, obstacles)
    requires j < |q| && q[j] in g && g[q[j]] <= j
    ensures exists k :: 0 <= k < |open| && open[k].f <= |q| - 1
    decreases |q| - j
  {
    var c := q[j];
    if Covered(c, open, g) {
      var k :| 0 <= k < |open| && open[k].cell == c && open[k].g == g[c];
      WalkSuffix(q, j, size, obstacles);
      assert WalkFrom(q[j..], c, goal, size, obstacles);
      HeuristicAdmissible(q[j..], c, goal, size, obstacles);
      assert EntryOk(open[k], start, goal, size, obstacles, g);
    } else {
      assert Settled(c, g, goal, size, obstacles);
      assert j + 1 < |q|;
      var d := AdjacentMove(c, q[j + 1]);
      assert Free(Move(c, d), size, obstacles);
      FrontierBound(open, g, start, goal, size, obstacles, q, j + 1);
    }
  }

  /** A popped goal entry carries a shortest walk: its f bounds every walk's step count from below. */
  lemma GoalPopped(open: seq<Entry>, i: nat, g: map<Cell, nat>, start: Cell, goal: Cell, size: int, obstacles: set<Cell>)
    requires SearchInv(open, g, start, goal, size, obstacles)
    requires i < |open| && open[i].cell == goal
    requires forall j :: 0 <= j < |open| ==> !KeyLess(open[j], open[i])
    ensures IsShortestPathResult(Some(open[i].path + [open[i].cell]), start, goal, size, obstacles)
  {
    var e := open[i];
    assert EntryOk(e, start, goal, size, obstacles, g);
    var p := e.path + [e.cell];
    forall q | WalkFrom(q, start, goal, size, obstacles)
      ensures |p| <= |q|
    {
      FrontierBound(open, g, start, goal, size, obstacles, q, 0);
      var k :| 0 <= k < |open| && open[k].f <= |q| - 1;
      assert !KeyLess(open[k], e);
    }
  }

  /** A cell whose cost a relaxation left alone stays covered or settled after popping entry `i`. */
  lemma KeptCell(c: Cell, open: seq<Entry>, i: nat, g: map<Cell, nat>, open': seq<Entry>, g': map<Cell, nat>,
                 goal: Cell, size: int, obstacles: set<Cell>)
    requires c in g && c in g' && g'[c] == g[c]
    requires Covered(c, open, g) || Settled(c, g, goal, size, obstacles)
    requires i < |open| && open[i].cell != goal
    requires |open'| >= |open| - 1 && open'[..|open| - 1] == open[..i] + open[i + 1..]
    requires Improves(g, g')
    requires forall d :: Free(Move(open[i].cell, d), size, obstacles) ==>
      Move(open[i].cell, d) in g' && g'[Move(open[i].cell, d)] <= open[i].g + 1
    ensures Covered(c, open', g') || Settled(c, g', goal, size, obstacles)
  {
    if Covered(c, open, g) {
      var k :| 0 <= k < |open| && open[k].cell == c && open[k].g == g[c];
      if k < i {
        assert open'[k] == open[k];
      } else if k > i {
        assert open'[k - 1] == open[k];
      } else {
        assert Settled(c, g', goal, size, obstacles);
      }
    } else {
      assert Settled(c, g, goal, size, obstacles);
    }
  }

  /** Popping a non-goal entry and relaxing its neighbours preserves the loop invariant. */
  lemma SearchStep(open: seq<Entry>, i: nat, g: map<Cell, nat>, open': seq<Entry>, g': map<Cell, nat>,
                   start: Cell, goal: Cell, size: int, obstacles: set<Cell>)
    requires SearchInv(open, g, start, goal, size, obstacles)
    requires i < |open| && open[i].cell != goal
    requires |open'| >= |open| - 1 && open'[..|open| - 1] == open[..i] + open[i + 1..]
    requires Improves(g, g')
    requires forall c :: c in g' && c !in g ==> InBounds(c, size)
    requires forall c :: c in g' && (c !in g || g'[c] != g[c]) ==> Covered(c, open', g')
    requires forall k :: 0 <= k < |open'| ==> EntryOk(open'[k], start, goal, size, obstacles, g')
    requires forall d :: Free(Move(open[i].cell, d), size, obstacles) ==>
      Move(open[i].cell, d) in g' && g'[Move(open[i].cell, d)] <= open[i].g + 1
    ensures SearchInv(open', g', start, goal, size, obstacles)
  {
    assert EntryOk(open[i], start, goal, size, obstacles, g);
    forall c | c in g'
      ensures Covered(c, open', g') || Settled(c, g', goal, size, obstacles)
    {
      if c in g && g'[c] == g[c] {
        KeptCell(c, open, i, g, open', g', goal, size, obstacles);
      }
    }
  }

  /** An empty frontier means every recorded cell is settled, so the goal cannot be reached. */
  lemma Exhausted(g: map<Cell, nat>, start: Cell, goal: Cell, size: int, obstacles: set<Cell>)
    requires SearchInv([], g, start, goal, size, obstacles)
    ensures !Reaches(start, goal, size, obstacles)
  {
    if Reaches(start, goal, size, obstacles) {
      forall c | c in g.Keys
        ensures Closed(c, g.Keys, size, obstacles)
      {
        assert Settled(c, g, goal, size, obstacles);
      }
      ClosedContainsReach(g.Keys, start, goal, size, obstacles);
    }
  }

  /** Taking entry `i` out of the open set leaves well-formed entries behind. */
  lemma RemoveEntry(open: seq<Entry>, i: nat, rest: seq<Entry>, start: Cell, goal: Cell, size: int, obstacles: set<Cell>, g: map<Cell, nat>)
    requires i < |open| && rest == open[..i] + open[i + 1..]
    requires forall k :: 0 <= k < |open| ==> EntryOk(open[k], start, goal, size, obstacles, g)
    ensures EntryOk(open[i], start, goal, size, obstacles, g)
    ensures forall k :: 0 <= k < |rest| ==> EntryOk(rest[k], start, goal, size, obstacles, g)
  {
    forall k | 0 <= k < |rest|
      ensures EntryOk(rest[k], start, goal, size, obstacles, g)
    {
      if k < i {
        assert rest[k] == open[k];
      } else {
        assert rest[k] == open[k + 1];
      }
    }
  }

  /**
   * One iteration of the search after a non-goal entry `i` has been popped:
   * relax its neighbours. The invariant is kept, and the termination measure
   * (slack, then frontier size) decreases.
   */
  method Expand(ghost frontier: seq<Entry>, ghost i: nat, e: Entry, rest: seq<Entry>, g: map<Cell, nat>,
                ghost start: Cell, goal: Cell, size: int, obstacles: set<Cell>, ghost bound: nat)
    returns (open': seq<Entry>, g': map<Cell, nat>)
    requires SearchInv(frontier, g, start, goal, size, obstacles)
    requires i < |frontier| && e == frontier[i] && e.cell != goal && rest == frontier[..i] + frontier[i + 1..]
    requires bound == |Grid(size) + {start}| + 1
    ensures SearchInv(open', g', start, goal, size, obstacles)
    ensures Slack(g', size, bound) < Slack(g, size, bound) ||
            (Slack(g', size, bound) == Slack(g, size, bound) && |open'| < |frontier|)
  {
    RemoveEntry(frontier, i, rest, start, goal, size, obstacles, g);
    EntryBound(e, start, goal, size, obstacles, g);
    open', g' := Relax(e, goal, size, obstacles, rest, g, start, bound);
    SearchStep(frontier, i, g, open', g', start, goal, size, obstacles);
    assert |open'| == |rest| ==> open' == rest;
  }

  /**
   * A* from `start` to `goal` around the snake body (the start and the goal
   * themselves are not obstacles): a shortest walk, or None exactly when the
   * goal is unreachable.
   */
  method AStarSearch(start: Cell, goal: Cell, size: int, body: seq<Cell>) returns (path: Option<seq<Cell>>)
    ensures IsShortestPathResult(path, start, goal, size, PathObstacles(body, start, goal))
  {
    var open := [Entry(0, 0, start, [])];
    var gCosts := map[start := 0];
    var obstacles := CellSet(body);
    if goal in obstacles {
      obstacles := obstacles - {goal};
    }
    if start in obstacles {
      obstacles := obstacles - {start};
    }
    assert obstacles == PathObstacles(body, start, goal);
    ghost var bound := |Grid(size) + {start}| + 1;
    SearchInit(start, goal, size, obstacles);
    while open != []
      invariant SearchInv(open, gCosts, start, goal, size, obstacles)
      decreases Slack(gCosts, size, bound), |open|
    {
      var i := PopMin(open);
      var e := open[i];
      ghost var frontier, before := open, gCosts;
      open := open[..i] + open[i + 1..];
      if e.cell == goal {
        GoalPopped(frontier, i, gCosts, start, goal, size, obstacles);
        return Some(e.path + [e.cell]);
      }
      open, gCosts := Expand(frontier, i, e, open, gCosts, start, goal, size, obstacles, bound);
    }
    Exhausted(gCosts, start, goal, size, obstacles);
    return None;
  }

  /**
   * The safe-path planner: A* to the target around the body. Pathfinding to
   * the current tail and to any other target take the same search; the tail
   * only selects the branch.
   */
  method FindSafePath(start: Cell, target: Cell, size: int, body: seq<Cell>, tail: Cell) returns (path: Option<seq<Cell>>)
    ensures IsShortestPathResult(path, start, target, size, PathObstacles(body, start, target))
  {
    if target == tail {
      path := AStarSearch(start, target, size, body);
      if path.Some? && path.value != [] {
        return path;
      }
      return None;
    } else {
      path := AStarSearch(start, target, size, body);
    }
  }

  // ---------------------------------------------------------------------------
  // Breadth-first exploration with paths

  /** The obstacles of the exploration: body and avoided cells, with the start exempt. */
  function ExploreObstacles(body: seq<Cell>, avoid: seq<Cell>, start: Cell): (obstacles: set<Cell>)
    ensures forall c :: c in obstacles <==> (c in body || c in avoid) && c != start
  {
    CellSet(body + avoid) - {start}
  }

  /** `start` has a free neighbour. */
  predicate CanStep(start: Cell, size: int, obstacles: set<Cell>)
  {
    exists d :: Free(Move(start, d), size, obstacles)
  }

  /** A queued `(cell, path)` pair: path plus cell is a duplicate-free walk from the start, all of it visited. */
  ghost predicate Trail(e: (Cell, seq<Cell>), start: Cell, size: int, obstacles: set<Cell>, visited: set<Cell>)
  {
    && e.0 in visited
    && WalkFrom(e.1 + [e.0], start, e.0, size, obstacles)
    && Distinct(e.1 + [e.0])
    && (forall c :: c in e.1 ==> c in visited)
  }

  /** Appends `(n, path + [cur])` for every free, unvisited neighbour `n` of `cur`, in direction order. */
  method EnqueueTrails(cur: Cell, path: seq<Cell>, size: int, obstacles: set<Cell>, visited: set<Cell>,
                       queue: seq<(Cell, seq<Cell>)>, ghost start: Cell)
    returns (visited': set<Cell>, queue': seq<(Cell, seq<Cell>)>)
    requires Trail((cur, path), start, size, obstacles, visited)
    ensures |queue'| >= |queue| && queue'[..|queue|] == queue
    ensures forall k :: |queue| <= k < |queue'| ==> queue'[k].1 == path + [cur]
    ensures forall k :: |queue| <= k < |queue'| ==> Trail(queue'[k], start, size, obstacles, visited')
    ensures forall k :: |queue| <= k < |queue'| ==> queue'[k].0 !in visited
    ensures visited <= visited'
    ensures forall c :: c in visited' && c !in visited ==> Free(c, size, obstacles)
    ensures |queue'| == |queue| ==> visited' == visited
    ensures Closed(cur, visited', size, obstacles)
  {
    visited', queue' := visited, queue;
    for k := 0 to |Directions|
      invariant |queue'| >= |queue| && queue'[..|queue|] == queue
      invariant forall j :: |queue| <= j < |queue'| ==> queue'[j].1 == path + [cur]
      invariant forall j :: |queue| <= j < |queue'| ==> Trail(queue'[j], start, size, obstacles, visited')
      invariant forall j :: |queue| <= j < |queue'| ==> queue'[j].0 !in visited
      invariant visited <= visited'
      invariant forall c :: c in visited' && c !in visited ==> Free(c, size, obstacles)
      invariant |queue'| == |queue| ==> visited' == visited
      invariant forall d :: Rank(d) < k && Free(Move(cur, d), size, obstacles) ==> Move(cur, d) in visited'
    {
      RankOfDirection(k);
      var neighbor := Move(cur, Directions[k]);
      if !InBounds(neighbor, size) {
        continue;
      }
      if neighbor in obstacles {
        continue;
      }
      if neighbor in visited' {
        continue;
      }
      ghost var old' := visited';
      visited' := visited' + {neighbor};
      queue' := queue' + [(neighbor, path + [cur])];
      TrailExtend(cur, path, neighbor, start, size, obstacles, old');
      forall j | |queue| <= j < |queue'|
        ensures Trail(queue'[j], start, size, obstacles, visited')
      {
        if j < |queue'| - 1 {
          TrailMono(queue'[j], start, size, obstacles, old', visited');
        }
      }
    }
  }

  lemma TrailMono(e: (Cell, seq<Cell>), start: Cell, size: int, obstacles: set<Cell>, visited: set<Cell>, visited': set<Cell>)
    requires Trail(e, start, size, obstacles, visited) && visited <= visited'
    ensures Trail(e, start, size, obstacles, visited')
  {
  }

  /** Entries queued earlier stay trails as more cells are visited, so the whole extended queue holds trails. */
  lemma QueueTrails(queue: seq<(Cell, seq<Cell>)>, queue': seq<(Cell, seq<Cell>)>, start: Cell, size: int,
                    obstacles: set<Cell>, visited: set<Cell>, visited': set<Cell>)
    requires |queue'| >= |queue| && queue'[..|queue|] == queue
    requires forall k :: 0 <= k < |queue| ==> Trail(queue[k], start, size, obstacles, visited)
    requires forall k :: |queue| <= k < |queue'| ==> Trail(queue'[k], start, size, obstacles, visited')
    requires visited <= visited'
    ensures forall k :: 0 <= k < |queue'| ==> Trail(queue'[k], start, size, obstacles, visited')
  {
    forall k | 0 <= k < |queue|
      ensures Trail(queue'[k], start, size, obstacles, visited')
    {
      assert queue'[k] == queue[k];
      TrailMono(queue[k], start, size, obstacles, visited, visited');
    }
  }

  /** Stepping from a trail's end to a free unvisited neighbour gives a trail once the neighbour is visited. */
  lemma TrailExtend(cur: Cell, path: seq<Cell>, n: Cell, start: Cell, size: int, obstacles: set<Cell>, visited: set<Cell>)
    requires Trail((cur, path), start, size, obstacles, visited)
    requires Adjacent(cur, n) && Free(n, size, obstacles) && n !in visited
    ensures Trail((n, path + [cur]), start, size, obstacles, visited + {n})
  {
    var s := path + [cur];
    WalkExtend(s, start, cur, n, size, obstacles);
    forall x | x in s
      ensures x in visited
    {
    }
    DistinctConcat(s, [n]);
  }

  /**
   * Breadth-first exploration from `start` that keeps the longest path prefix
   * dequeued. The result, when there is one, is a duplicate-free walk from the
   * start; it is None exactly when the start is itself a body or avoided cell,
   * or the start has no free neighbour.
   */
  method FindLongestPath(start: Cell, size: int, body: seq<Cell>, avoid: seq<Cell>) returns (r: Option<seq<Cell>>)
    ensures r.Some? ==> IsWalk(r.value, size, ExploreObstacles(body, avoid, start)) && r.value[0] == start
    ensures r.Some? ==> Distinct(r.value)
    ensures r.None? <==> start in body || start in avoid || !CanStep(start, size, ExploreObstacles(body, avoid, start))
  {
    var queue: seq<(Cell, seq<Cell>)> := [(start, [])];
    var visited := {start};
    var obstacles := CellSet(body + avoid);
    if start in obstacles {
      obstacles := obstacles - {start};
    }
    assert obstacles == ExploreObstacles(body, avoid, start);
    var longest: seq<Cell> := [];
    ghost var longestEnd := start;
    ghost var started := false;
    assert WalkFrom([start], start, start, size, obstacles);
    while queue != []
      invariant start in visited
      invariant forall c :: c in visited ==> c == start || InBounds(c, size)
      invariant forall k :: 0 <= k < |queue| ==> Trail(queue[k], start, size, obstacles, visited)
      invariant longest != [] ==> WalkFrom(longest + [longestEnd], start, longestEnd, size, obstacles)
      invariant longest != [] ==> Distinct(longest + [longestEnd])
      invariant !started ==> queue == [(start, [])] && longest == [] && visited == {start}
      invariant started ==> forall k :: 0 <= k < |queue| ==> queue[k].1 != []
      invariant started && longest == [] && CanStep(start, size, obstacles) ==> queue != []
      decreases (Grid(size) + {start}) - visited, |queue|
    {
      var cur := queue[0].0;
      var path := queue[0].1;
      assert Trail(queue[0], start, size, obstacles, visited);
      queue := queue[1..];
      if |path| > |longest| {
        longest := path;
        longestEnd := cur;
      }
      ghost var visitedBefore, queueBefore := visited, queue;
      visited, queue := EnqueueTrails(cur, path, size, obstacles, visited, queue, start);
      QueueTrails(queueBefore, queue, start, size, obstacles, visitedBefore, visited);
      if !started {
        if CanStep(start, size, obstacles) {
          var d :| Free(Move(start, d), size, obstacles);
          MoveOpposite(start, d);
          assert Move(start, d) in visited && Move(start, d) !in visitedBefore;
        }
        started := true;
      }
      if |queue| > |queueBefore| {
        var n := queue[|queueBefore|].0;
        assert Trail(queue[|queueBefore|], start, size, obstacles, visited);
        assert n in visited && n !in visitedBefore;
        InGrid(n, size);
      }
    }
    if start in CellSet(body + avoid) {
      return None;
    }
    if longest != [] {
      var p := longest + [longestEnd];
      WalkPrefix(p, |longest|, size, obstacles);
      assert p[..|longest|] == longest;
      var d := AdjacentMove(start, p[1]);
      assert Free(Move(start, d), size, obstacles);
      return Some(longest);
    }
    return None;
  }

  // ---------------------------------------------------------------------------
  // Scenarios

  /** The distance from (0, 0) to (3, 4) is 7. */
  lemma HeuristicExample()
    ensures Heuristic(Cell(0, 0), Cell(3, 4)) == 7
  {
  }

  /** Searching from a cell to itself finds the one-cell path. */
  lemma SearchToSelf(start: Cell, size: int, body: seq<Cell>, r: Option<seq<Cell>>)
    requires IsShortestPathResult(r, start, start, size, PathObstacles(body, start, start))
    ensures r == Some([start])
  {
    ReachesSelf(start, size, PathObstacles(body, start, start));
    assert WalkFrom([start], start, start, size, PathObstacles(body, start, start));
    assert |r.value| == 1;
    assert r.value == [r.value[0]];
  }

  /** The walk over the top row around the body in column 1. */
  lemma TopRowWalk() returns (p: seq<Cell>)
    ensures |p| == 5
    ensures WalkFrom(p, Cell(0, 1), Cell(2, 1), 3, PathObstacles([Cell(1, 1), Cell(1, 2), Cell(1, 3)], Cell(0, 1), Cell(2, 1)))
  {
    var obstacles := PathObstacles([Cell(1, 1), Cell(1, 2), Cell(1, 3)], Cell(0, 1), Cell(2, 1));
    assert Cell(0, 0) !in obstacles && Cell(1, 0) !in obstacles && Cell(2, 0) !in obstacles;
    p := [Cell(0, 1)];
    assert WalkFrom(p, Cell(0, 1), Cell(0, 1), 3, obstacles);
    assert Move(Cell(0, 1), Up) == Cell(0, 0);
    WalkExtend(p, Cell(0, 1), Cell(0, 1), Cell(0, 0), 3, obstacles);
    p := p + [Cell(0, 0)];
    assert Move(Cell(0, 0), Right) == Cell(1, 0);
    WalkExtend(p, Cell(0, 1), Cell(0, 0), Cell(1, 0), 3, obstacles);
    p := p + [Cell(1, 0)];
    assert Move(Cell(1, 0), Right) == Cell(2, 0);
    WalkExtend(p, Cell(0, 1), Cell(1, 0), Cell(2, 0), 3, obstacles);
    p := p + [Cell(2, 0)];
    assert Move(Cell(2, 0), Down) == Cell(2, 1);
    WalkExtend(p, Cell(0, 1), Cell(2, 0), Cell(2, 1), 3, obstacles);
    p := p + [Cell(2, 1)];
    assert |p| == 5;
  }

  /**
   * On a 3 by 3 board with the body in column 1 (rows 1 to 3), (2, 1) is
   * still reachable from (0, 1) over the top row, so the search succeeds.
   */
  lemma TopRowDetour(r: Option<seq<Cell>>)
    requires IsShortestPathResult(r, Cell(0, 1), Cell(2, 1), 3, PathObstacles([Cell(1, 1), Cell(1, 2), Cell(1, 3)], Cell(0, 1), Cell(2, 1)))
    ensures r.Some? && |r.value| <= 5
  {
    var p := TopRowWalk();
    assert Reaches(Cell(0, 1), Cell(2, 1), 3, PathObstacles([Cell(1, 1), Cell(1, 2), Cell(1, 3)], Cell(0, 1), Cell(2, 1)));
  }
}
