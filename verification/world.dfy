/**
 * What a search reads from its Generator: the world bounds, the walls, the
 * number of active directions and the heuristic; plus the direction table,
 * collision detection and the notion of a walk on the grid.
 */
module World {
  import opened Coordinates
  import opened Heuristic
  import WallList

  /** The direction table the Generator constructor builds: entries 0-3 orthogonal, 4-7 diagonal. */
  const DIRECTION: seq<Vec2i> := [
    Vec2i(0, 1), Vec2i(1, 0), Vec2i(0, -1), Vec2i(-1, 0),
    Vec2i(-1, -1), Vec2i(1, 1), Vec2i(-1, 1), Vec2i(1, -1)
  ]

  /** The cost of one move along DIRECTION[i]: 10 for the orthogonal entries, 14 for the diagonal ones. */
  function StepCost(i: nat): nat
  {
    if i < 4 then 10 else 14
  }

  /** The table holds the four unit orthogonal offsets, then the four unit diagonal ones, all distinct. */
  lemma DirectionTable()
    ensures |DIRECTION| == 8
    ensures forall i :: 0 <= i < 4 ==> Abs(DIRECTION[i].x) + Abs(DIRECTION[i].y) == 1
    ensures forall i :: 4 <= i < 8 ==> Abs(DIRECTION[i].x) == 1 && Abs(DIRECTION[i].y) == 1
    ensures forall i, j :: 0 <= i < j < 8 ==> DIRECTION[i] != DIRECTION[j]
  {
  }

  /** A snapshot of the Generator fields that findPath reads. */
  datatype Config = Config(worldSize: Vec2i, walls: seq<Vec2i>, directions: nat, heuristic: HeuristicFunction)
  {
    /** setDiagonalMovement only ever stores 4 or 8. */
    predicate Valid()
    {
      directions == 4 || directions == 8
    }
  }

  predicate InBounds(size: Vec2i, c: Vec2i)
  {
    0 <= c.x < size.x && 0 <= c.y < size.y
  }

  /** The cells of a world of the given size. */
  ghost function Grid(size: Vec2i): set<Vec2i>
  {
    set x: int, y: int | 0 <= x < size.x && 0 <= y < size.y :: Vec2i(x, y)
  }

  /** The number of cells in a world of the given size (none when a side is not positive). */
  function CellCount(size: Vec2i): nat
  {
    (if size.x < 0 then 0 else size.x) * (if size.y < 0 then 0 else size.y)
  }

  lemma InGrid(size: Vec2i, c: Vec2i)
    ensures c in Grid(size) <==> InBounds(size, c)
  {
    if InBounds(size, c) {
      assert c == Vec2i(c.x, c.y);
    }
  }

  ghost function Row(width: int, y: int): set<Vec2i>
  {
    set x: int | 0 <= x < width :: Vec2i(x, y)
  }

  lemma {:induction false} RowSize(width: nat, y: int)
    ensures |Row(width, y)| == width
    decreases width
  {
    if width == 0 {
      assert Row(width, y) == {};
    } else {
      RowSize(width - 1, y);
      assert Row(width, y) == Row(width - 1, y) + {Vec2i(width - 1, y)};
    }
  }

  /** The top row of a world of positive height, split off from the rows below it. */
  lemma GridSplit(size: Vec2i)
    requires size.x >= 0 && size.y > 0
    ensures Grid(size) == Grid(Vec2i(size.x, size.y - 1)) + Row(size.x, size.y - 1)
    ensures Grid(Vec2i(size.x, size.y - 1)) !! Row(size.x, size.y - 1)
  {
    var lower := Vec2i(size.x, size.y - 1);
    forall c ensures c in Grid(size) <==> c in Grid(lower) + Row(size.x, size.y - 1) {
      InGrid(size, c);
      InGrid(lower, c);
      if c.y == size.y - 1 && 0 <= c.x < size.x {
        assert c == Vec2i(c.x, size.y - 1);
      }
    }
    forall c | c in Row(size.x, size.y - 1) ensures c !in Grid(lower) {
      InGrid(lower, c);
    }
  }

  lemma GridEmpty(size: Vec2i)
    requires size.x <= 0 || size.y <= 0
    ensures Grid(size) == {}
  {
    forall c | c in Grid(size) ensures false {
      InGrid(size, c);
    }
  }

  lemma CellCountSplit(w: nat, h: nat)
    requires h > 0
    ensures CellCount(Vec2i(w, h)) == CellCount(Vec2i(w, h - 1)) + w
  {
    assert w * h == w * (h - 1) + w;
  }

  /** A world has CellCount cells. */
  lemma {:induction false} GridSize(size: Vec2i)
    ensures |Grid(size)| == CellCount(size)
    decreases if size.y < 0 then 0 else size.y
  {
    if size.x <= 0 || size.y <= 0 {
      GridEmpty(size);
    } else {
      var lower := Vec2i(size.x, size.y - 1);
      GridSize(lower);
      RowSize(size.x, size.y - 1);
      GridSplit(size);
      CellCountSplit(size.x, size.y);
    }
  }

  /** detectCollision: a cell is blocked when it lies outside the world or on a wall. */
  function DetectCollision(cfg: Config, c: Vec2i): (r: bool)
    ensures r <==> !InBounds(cfg.worldSize, c) || c in cfg.walls
  {
    c.x < 0 || c.x >= cfg.worldSize.x || c.y < 0 || c.y >= cfg.worldSize.y ||
    WallList.Find(cfg.walls, c) != |cfg.walls|
  }

  /** The first of the active directions that leads from `from` to `to`, or -1 when none does. */
  function MoveIndex(directions: nat, from: Vec2i, to: Vec2i): (d: int)
    requires directions <= |DIRECTION|
    ensures -1 <= d < directions
    ensures d >= 0 ==> Add(from, DIRECTION[d]) == to
    ensures d == -1 <==> forall i :: 0 <= i < directions ==> Add(from, DIRECTION[i]) != to
  {
    if directions == 0 then -1
    else
      var d := MoveIndex(directions - 1, from, to);
      if d >= 0 then d
      else if Add(from, DIRECTION[directions - 1]) == to then directions - 1
      else -1
  }

  /** Moving along an active direction is recognised as that very direction. */
  lemma MoveIndexOf(directions: nat, from: Vec2i, i: nat)
    requires i < directions <= |DIRECTION|
    ensures MoveIndex(directions, from, Add(from, DIRECTION[i])) == i
  {
    DirectionTable();
    var d := MoveIndex(directions, from, Add(from, DIRECTION[i]));
    AddCancel(from, from, DIRECTION[d], DIRECTION[i]);
  }

  /**
   * w is a walk: every cell follows the previous one by an active direction
   * and every cell after the first is free.
   */
  ghost predicate IsWalk(cfg: Config, w: seq<Vec2i>)
    requires cfg.Valid()
  {
    |w| > 0 && forall k :: 0 <= k < |w| - 1 ==> StepAt(cfg, w, k)
  }

  /** Cell k + 1 of w follows cell k by an active direction and is free. */
  ghost predicate StepAt(cfg: Config, w: seq<Vec2i>, k: nat)
    requires cfg.Valid() && k + 1 < |w|
  {
    MoveIndex(cfg.directions, w[k], w[k + 1]) >= 0 && !DetectCollision(cfg, w[k + 1])
  }

  /** The target can be reached from the source by some walk. */
  ghost predicate Reachable(cfg: Config, source: Vec2i, target: Vec2i)
    requires cfg.Valid()
  {
    exists w :: IsWalk(cfg, w) && w[0] == source && w[|w| - 1] == target
  }

  /** A walk extends backwards by one active move onto its free first cell, adding that move's cost. */
  lemma WalkPrepend(cfg: Config, x: Vec2i, w: seq<Vec2i>)
    requires cfg.Valid() && IsWalk(cfg, w)
    requires MoveIndex(cfg.directions, x, w[0]) >= 0 && !DetectCollision(cfg, w[0])
    ensures IsWalk(cfg, [x] + w)
    ensures WalkCost(cfg, [x] + w) == StepCost(MoveIndex(cfg.directions, x, w[0])) + WalkCost(cfg, w)
  {
    var w' := [x] + w;
    forall k | 0 <= k < |w'| - 1 ensures StepAt(cfg, w', k) {
      if k > 0 {
        assert StepAt(cfg, w, k - 1);
      }
    }
    assert w'[1..] == w;
  }

  /** The total step cost of a walk. */
  function WalkCost(cfg: Config, w: seq<Vec2i>): nat
    requires cfg.Valid()
  {
    if |w| <= 1 then 0
    else
      var d := MoveIndex(cfg.directions, w[0], w[1]);
      (if d >= 0 then StepCost(d) else 0) + WalkCost(cfg, w[1..])
  }

  /** The octagonal estimate of a single move is exactly its cost. */
  lemma OctagonalExactOnStep(a: Vec2i, i: nat)
    requires i < 8
    ensures Octagonal(a, Add(a, DIRECTION[i])) == StepCost(i)
  {
  }

  /** The Manhattan estimate of a diagonal move is 20, more than its cost of 14. */
  lemma ManhattanOverestimatesDiagonal(a: Vec2i, i: nat)
    requires 4 <= i < 8
    ensures Manhattan(a, Add(a, DIRECTION[i])) == 20 > StepCost(i)
  {
  }

  /** The octagonal estimate is consistent: one move lowers it by at most the move's cost. */
  lemma OctagonalConsistent(a: Vec2i, target: Vec2i, i: nat)
    requires i < 8
    ensures Octagonal(a, target) <= StepCost(i) + Octagonal(Add(a, DIRECTION[i]), target)
  {
  }

  /** The Manhattan estimate is consistent for orthogonal moves. */
  lemma ManhattanConsistent(a: Vec2i, target: Vec2i, i: nat)
    requires i < 4
    ensures Manhattan(a, target) <= StepCost(i) + Manhattan(Add(a, DIRECTION[i]), target)
  {
  }

  /** The octagonal estimate never exceeds the cost of any walk between the two cells. */
  lemma {:induction false} OctagonalAdmissible(cfg: Config, w: seq<Vec2i>)
    requires cfg.Valid() && IsWalk(cfg, w)
    ensures Octagonal(w[0], w[|w| - 1]) <= WalkCost(cfg, w)
    decreases |w|
  {
    if |w| > 1 {
      var rest := w[1..];
      assert IsWalk(cfg, rest) by {
        forall k | 0 <= k < |rest| - 1 ensures StepAt(cfg, rest, k) {
          assert StepAt(cfg, w, k + 1);
        }
      }
      OctagonalAdmissible(cfg, rest);
      assert StepAt(cfg, w, 0);
      var d := MoveIndex(cfg.directions, w[0], w[1]);
      OctagonalConsistent(w[0], w[|w| - 1], d);
      EstimateSymmetric(OctagonalFn, w[0], w[|w| - 1]);
    }
  }

  /** With orthogonal movement only, the Manhattan estimate never exceeds the cost of any walk. */
  lemma {:induction false} ManhattanAdmissible(cfg: Config, w: seq<Vec2i>)
    requires cfg.Valid() && cfg.directions == 4 && IsWalk(cfg, w)
    ensures Manhattan(w[0], w[|w| - 1]) <= WalkCost(cfg, w)
    decreases |w|
  {
    if |w| > 1 {
      var rest := w[1..];
      assert IsWalk(cfg, rest) by {
        forall k | 0 <= k < |rest| - 1 ensures StepAt(cfg, rest, k) {
          assert StepAt(cfg, w, k + 1);
        }
      }
      ManhattanAdmissible(cfg, rest);
      assert StepAt(cfg, w, 0);
      var d := MoveIndex(cfg.directions, w[0], w[1]);
      ManhattanConsistent(w[0], w[|w| - 1], d);
    }
  }

  /** One orthogonal step from a towards t: along x while the columns differ, then along y. */
  function StepTowards(a: Vec2i, t: Vec2i): (i: nat)
    requires a != t
    ensures i < 4
  {
    if a.x < t.x then 1
    else if a.x > t.x then 3
    else if a.y < t.y then 0
    else 2
  }

  /** The L-shaped walk from source to target: along x first, then along y, one orthogonal step at a time. */
  function ManhattanWalk(source: Vec2i, target: Vec2i): (w: seq<Vec2i>)
    ensures |w| > 0 && w[0] == source && w[|w| - 1] == target
    decreases Abs(target.x - source.x) + Abs(target.y - source.y)
  {
    if source == target then [source]
    else [source] + ManhattanWalk(Add(source, DIRECTION[StepTowards(source, target)]), target)
  }

  /**
   * In a world without walls, the L-shaped walk between two cells of the world
   * is a walk, and its cost is the Manhattan estimate.
   */
  lemma {:induction false} ManhattanWalkIsWalk(cfg: Config, source: Vec2i, target: Vec2i)
    requires cfg.Valid() && cfg.walls == []
    requires InBounds(cfg.worldSize, source) && InBounds(cfg.worldSize, target)
    ensures IsWalk(cfg, ManhattanWalk(source, target))
    ensures WalkCost(cfg, ManhattanWalk(source, target)) == Manhattan(source, target)
    decreases Abs(target.x - source.x) + Abs(target.y - source.y)
  {
    if source != target {
      var i := StepTowards(source, target);
      var next := Add(source, DIRECTION[i]);
      ManhattanWalkIsWalk(cfg, next, target);
      MoveIndexOf(cfg.directions, source, i);
      WalkPrepend(cfg, source, ManhattanWalk(next, target));
    }
  }

  /** In a world without walls, every cell of the world is reachable from every other. */
  lemma OpenWorldReachable(cfg: Config, source: Vec2i, target: Vec2i)
    requires cfg.Valid() && cfg.walls == []
    requires InBounds(cfg.worldSize, source) && InBounds(cfg.worldSize, target)
    ensures Reachable(cfg, source, target)
  {
    ManhattanWalkIsWalk(cfg, source, target);
  }
}
