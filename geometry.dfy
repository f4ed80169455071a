/** Option and Result, the two outcome types used across the model. */
module Wrappers {
  datatype Option<T> = None | Some(value: T)

  datatype Result<T, E> = Success(value: T) | Failure(error: E)
}

/**
 * Integer geometry of the square board: cells, the four directions and their
 * unit deltas, and the declarative notion of a walk through free cells that
 * every search of the engine is proved against.
 */
module Geometry {
  import opened Wrappers

  /** A board cell (x, y); x grows to the right, y grows downwards. */
  datatype Cell = Cell(x: int, y: int)

  /** The four absolute directions, in the order the enum declares them. */
  datatype Direction = Up | Down | Left | Right

  /** Declaration order, used by every loop `for d in Direction`. */
  const Directions: seq<Direction> := [Up, Down, Left, Right]

  /** Position of a direction in declaration order. */
  function Rank(d: Direction): (r: nat)
    ensures r < |Directions| && Directions[r] == d
  {
    match d
    case Up => 0
    case Down => 1
    case Left => 2
    case Right => 3
  }

  /** The `k`-th direction of the declaration order has rank `k`. */
  lemma RankOfDirection(k: nat)
    requires k < |Directions|
    ensures Rank(Directions[k]) == k
  {
    if k == 0 {
    } else if k == 1 {
    } else if k == 2 {
    } else {
    }
  }

  /** The unit delta of each direction: UP = (0, -1), DOWN = (0, 1), LEFT = (-1, 0), RIGHT = (1, 0). */
  function Delta(d: Direction): (int, int)
  {
    match d
    case Up => (0, -1)
    case Down => (0, 1)
    case Left => (-1, 0)
    case Right => (1, 0)
  }

  /** The cell one step from `c` in direction `d`. */
  function Move(c: Cell, d: Direction): Cell
  {
    Cell(c.x + Delta(d).0, c.y + Delta(d).1)
  }

  function Opposite(d: Direction): Direction
  {
    match d
    case Up => Down
    case Down => Up
    case Left => Right
    case Right => Left
  }

  /** Moving one way and then the opposite way returns to the start, and no move stays put. */
  lemma MoveOpposite(c: Cell, d: Direction)
    ensures Move(Move(c, d), Opposite(d)) == c
    ensures Move(c, d) != c
    ensures Opposite(Opposite(d)) == d && Opposite(d) != d
  {
  }

  /** Distinct directions lead to distinct cells. */
  lemma MoveInjective(c: Cell, d1: Direction, d2: Direction)
    ensures Move(c, d1) == Move(c, d2) <==> d1 == d2
  {
  }

  /** `c` lies on the board `[0, size) x [0, size)`. */
  predicate InBounds(c: Cell, size: int)
  {
    0 <= c.x < size && 0 <= c.y < size
  }

  /** The set of cells of a body (Python's `set(snake_body)`). */
  function CellSet(cells: seq<Cell>): set<Cell>
  {
    set c | c in cells
  }

  predicate Distinct<T(==)>(s: seq<T>)
  {
    forall i, j :: 0 <= i < j < |s| ==> s[i] != s[j]
  }

  /** `b` is one direction delta away from `a`. */
  predicate Adjacent(a: Cell, b: Cell)
  {
    b == Move(a, Up) || b == Move(a, Down) || b == Move(a, Left) || b == Move(a, Right)
  }

  /** The direction that leads from a cell to an adjacent one. */
  lemma AdjacentMove(a: Cell, b: Cell) returns (d: Direction)
    requires Adjacent(a, b)
    ensures b == Move(a, d)
  {
    if b == Move(a, Up) {
      d := Up;
    } else if b == Move(a, Down) {
      d := Down;
    } else if b == Move(a, Left) {
      d := Left;
    } else {
      d := Right;
    }
  }

  /** A cell a search may enter: on the board and not an obstacle. */
  predicate Free(c: Cell, size: int, obstacles: set<Cell>)
  {
    InBounds(c, size) && c !in obstacles
  }

  /**
   * A walk: consecutive cells are adjacent and every cell after the first is
   * free. The first cell (the start of a search) is never checked.
   */
  predicate IsWalk(p: seq<Cell>, size: int, obstacles: set<Cell>)
  {
    && |p| >= 1
    && (forall i :: 0 <= i < |p| - 1 ==> Adjacent(p[i], p[i + 1]))
    && (forall i :: 1 <= i < |p| ==> Free(p[i], size, obstacles))
  }

  predicate WalkFrom(p: seq<Cell>, s: Cell, t: Cell, size: int, obstacles: set<Cell>)
  {
    IsWalk(p, size, obstacles) && p[0] == s && p[|p| - 1] == t
  }

  /** `t` is 4-connected to `s` through free cells. */
  ghost predicate Reaches(s: Cell, t: Cell, size: int, obstacles: set<Cell>)
  {
    exists p :: WalkFrom(p, s, t, size, obstacles)
  }

  /** Every free neighbour of `c` is already in `visited`. */
  predicate Closed(c: Cell, visited: set<Cell>, size: int, obstacles: set<Cell>)
  {
    forall d :: Free(Move(c, d), size, obstacles) ==> Move(c, d) in visited
  }

  /** Every cell of `visited` comes with a walk from `s` that ends at it. */
  ghost predicate WalksFor(visited: set<Cell>, walks: map<Cell, seq<Cell>>, s: Cell, size: int, obstacles: set<Cell>)
  {
    forall c :: c in visited ==> c in walks && WalkFrom(walks[c], s, c, size, obstacles)
  }

  /** The cells of the board. */
  ghost function Grid(size: int): set<Cell>
  {
    set x, y | 0 <= x < size && 0 <= y < size :: Cell(x, y)
  }

  /** The free component of `s`: `s` and every cell a walk from `s` reaches. */
  ghost function Component(s: Cell, size: int, obstacles: set<Cell>): set<Cell>
  {
    {s} + set c | c in Grid(size) && Reaches(s, c, size, obstacles)
  }

  /** `n` is the number of cells of a shortest walk from `s` to `t`. */
  ghost predicate IsShortest(n: nat, s: Cell, t: Cell, size: int, obstacles: set<Cell>)
  {
    && (exists p :: WalkFrom(p, s, t, size, obstacles) && |p| == n)
    && (forall p :: WalkFrom(p, s, t, size, obstacles) ==> n <= |p|)
  }

  /** The length, in cells, of a shortest walk from `s` to `t`, or None when none exists. */
  ghost function ShortestCells(s: Cell, t: Cell, size: int, obstacles: set<Cell>): (r: Option<nat>)
    ensures r.Some? <==> Reaches(s, t, size, obstacles)
    ensures r.Some? ==> IsShortest(r.value, s, t, size, obstacles)
  {
    if Reaches(s, t, size, obstacles) then
      var p :| WalkFrom(p, s, t, size, obstacles);
      ShortestExists(p, s, t, size, obstacles);
      var n :| IsShortest(n, s, t, size, obstacles);
      Some(n)
    else
      None
  }

  // ---------------------------------------------------------------------------
  // Lemmas about walks and the board

  lemma InGrid(c: Cell, size: int)
    ensures c in Grid(size) <==> InBounds(c, size)
  {
    if InBounds(c, size) {
      assert c == Cell(c.x, c.y);
    }
  }

  /** A walk from `s` to itself exists: the one-cell walk. */
  lemma ReachesSelf(s: Cell, size: int, obstacles: set<Cell>)
    ensures Reaches(s, s, size, obstacles)
  {
    assert WalkFrom([s], s, s, size, obstacles);
  }

  /** A walk extended by a free neighbour of its last cell is a walk. */
  lemma WalkExtend(p: seq<Cell>, s: Cell, t: Cell, n: Cell, size: int, obstacles: set<Cell>)
    requires WalkFrom(p, s, t, size, obstacles)
    requires Adjacent(t, n) && Free(n, size, obstacles)
    ensures WalkFrom(p + [n], s, n, size, obstacles)
  {
    var q := p + [n];
    assert forall i :: 0 <= i < |p| ==> q[i] == p[i];
  }

  /** A non-empty prefix of a walk is a walk. */
  lemma WalkPrefix(p: seq<Cell>, k: nat, size: int, obstacles: set<Cell>)
    requires IsWalk(p, size, obstacles) && 1 <= k <= |p|
    ensures IsWalk(p[..k], size, obstacles)
  {
  }

  /** A non-empty suffix of a walk is a walk (its first cell is no longer checked). */
  lemma WalkSuffix(p: seq<Cell>, k: nat, size: int, obstacles: set<Cell>)
    requires IsWalk(p, size, obstacles) && k < |p|
    ensures IsWalk(p[k..], size, obstacles)
  {
    var q := p[k..];
    forall i | 0 <= i < |q| - 1
      ensures Adjacent(q[i], q[i + 1])
    {
      assert q[i] == p[k + i] && q[i + 1] == p[k + i + 1];
    }
  }

  /**
   * A set that contains `s` and is closed under free neighbours contains the
   * end of every walk from `s`: this is what makes an exhausted search complete.
   */
  lemma {:induction false} ClosedContainsWalks(visited: set<Cell>, s: Cell, size: int, obstacles: set<Cell>, p: seq<Cell>)
    requires s in visited
    requires forall c :: c in visited ==> Closed(c, visited, size, obstacles)
    requires IsWalk(p, size, obstacles) && p[0] == s
    ensures p[|p| - 1] in visited
    decreases |p|
  {
    if |p| > 1 {
      WalkPrefix(p, |p| - 1, size, obstacles);
      ClosedContainsWalks(visited, s, size, obstacles, p[..|p| - 1]);
      var a := p[|p| - 2];
      assert a in visited && Closed(a, visited, size, obstacles);
      assert Adjacent(a, p[|p| - 1]) && Free(p[|p| - 1], size, obstacles);
    }
  }

  /** The same, stated for reachability. */
  lemma ClosedContainsReach(visited: set<Cell>, s: Cell, t: Cell, size: int, obstacles: set<Cell>)
    requires s in visited
    requires forall c :: c in visited ==> Closed(c, visited, size, obstacles)
    requires Reaches(s, t, size, obstacles)
    ensures t in visited
  {
    var p :| WalkFrom(p, s, t, size, obstacles);
    ClosedContainsWalks(visited, s, size, obstacles, p);
  }

  /** Membership in the free component is exactly reachability. */
  lemma ComponentIsReach(s: Cell, c: Cell, size: int, obstacles: set<Cell>)
    ensures c in Component(s, size, obstacles) <==> Reaches(s, c, size, obstacles)
  {
    if c == s {
      ReachesSelf(s, size, obstacles);
    } else if Reaches(s, c, size, obstacles) {
      var p :| WalkFrom(p, s, c, size, obstacles);
      assert |p| > 1 && Free(p[|p| - 1], size, obstacles);
      InGrid(c, size);
    }
  }

  /** Some walk from `s` to `t` has the fewest cells. */
  lemma {:induction false} ShortestExists(p: seq<Cell>, s: Cell, t: Cell, size: int, obstacles: set<Cell>)
    requires WalkFrom(p, s, t, size, obstacles)
    ensures exists n :: IsShortest(n, s, t, size, obstacles)
    decreases |p|
  {
    if forall q :: WalkFrom(q, s, t, size, obstacles) ==> |p| <= |q| {
      assert IsShortest(|p|, s, t, size, obstacles);
    } else {
      var q :| WalkFrom(q, s, t, size, obstacles) && |q| < |p|;
      ShortestExists(q, s, t, size, obstacles);
    }
  }

  /** A walk as short as every other walk gives the shortest length. */
  lemma ShortestFromWalk(p: seq<Cell>, s: Cell, t: Cell, size: int, obstacles: set<Cell>)
    requires WalkFrom(p, s, t, size, obstacles)
    requires forall q :: WalkFrom(q, s, t, size, obstacles) ==> |p| <= |q|
    ensures ShortestCells(s, t, size, obstacles) == Some(|p|)
  {
    var r := ShortestCells(s, t, size, obstacles);
    assert r.Some?;
    var q :| WalkFrom(q, s, t, size, obstacles) && |q| == r.value;
  }

  // ---------------------------------------------------------------------------
  // Counting cells

  /** A duplicate-free sequence has as many elements as its set. */
  lemma {:induction false} DistinctCard<T>(s: seq<T>)
    requires Distinct(s)
    ensures |set x | x in s| == |s|
  {
    if |s| > 0 {
      var t := s[1..];
      assert Distinct(t);
      DistinctCard(t);
      assert (set x | x in s) == (set x | x in t) + {s[0]};
      assert s[0] !in (set x | x in t);
    }
  }

  /** A duplicate-free sequence inside a set is no longer than the set. */
  lemma DistinctWithin<T>(s: seq<T>, bound: set<T>)
    requires Distinct(s)
    requires forall x :: x in s ==> x in bound
    ensures |s| <= |bound|
  {
    DistinctCard(s);
    var a := set x | x in s;
    assert bound == a + (bound - a);
    assert a !! (bound - a);
  }

  /** Concatenating two duplicate-free sequences with no common element is duplicate-free. */
  lemma DistinctConcat<T>(a: seq<T>, b: seq<T>)
    requires Distinct(a) && Distinct(b)
    requires forall x :: x in b ==> x !in a
    ensures Distinct(a + b)
  {
    var s := a + b;
    forall i, j | 0 <= i < j < |s|
      ensures s[i] != s[j]
    {
      if j < |a| {
      } else if i >= |a| {
        assert s[i] == b[i - |a|] && s[j] == b[j - |a|];
      } else {
        assert s[i] in a && s[j] == b[j - |a|];
      }
    }
  }

  ghost function Row(width: nat, y: int): set<Cell>
  {
    set x | 0 <= x < width :: Cell(x, y)
  }

  /** The first `height` rows of the board. */
  ghost function Rows(width: nat, height: nat): set<Cell>
  {
    if height == 0 then {} else Rows(width, height - 1) + Row(width, height - 1)
  }

  lemma {:induction false} RowCard(width: nat, y: int)
    ensures |Row(width, y)| == width
  {
    if width > 0 {
      RowCard(width - 1, y);
      assert Row(width, y) == Row(width - 1, y) + {Cell(width - 1, y)};
    }
  }

  lemma {:induction false} RowsMembers(width: nat, height: nat, c: Cell)
    ensures c in Rows(width, height) <==> 0 <= c.x < width && 0 <= c.y < height
  {
    if height > 0 {
      RowsMembers(width, height - 1, c);
      if c.y == height - 1 && 0 <= c.x < width {
        assert c == Cell(c.x, height - 1);
      }
    }
  }

  lemma {:induction false} RowsCard(width: nat, height: nat)
    ensures |Rows(width, height)| == width * height
  {
    if height > 0 {
      RowsCard(width, height - 1);
      RowCard(width, height - 1);
      var below, last := Rows(width, height - 1), Row(width, height - 1);
      forall c | c in last
        ensures c !in below
      {
        RowsMembers(width, height - 1, c);
      }
      DisjointUnionCard(below, last);
      MulStep(width, height);
    }
  }

  lemma DisjointUnionCard<T>(a: set<T>, b: set<T>)
    requires forall c :: c in b ==> c !in a
    ensures |a + b| == |a| + |b|
  {
    assert a !! b;
  }

  lemma MulStep(w: nat, h: nat)
    requires h > 0
    ensures w * (h - 1) + w == w * h
  {
  }

  /** The board has `size * size` cells. */
  lemma GridCard(size: int)
    requires size >= 0
    ensures |Grid(size)| == size * size
  {
    RowsCard(size, size);
    forall c | true
      ensures c in Grid(size) <==> c in Rows(size, size)
    {
      InGrid(c, size);
      RowsMembers(size, size, c);
    }
    assert Grid(size) == Rows(size, size);
  }
}
