/** A_Star::Generator: the configuration a caller sets up, and the entry point findPath. */
module AStar {
  import opened Coordinates
  import opened Heuristic
  import opened World
  import Search

  class Generator {
    var worldSize: Vec2i
    var directions: nat
    var heuristic: HeuristicFunction
    var direction: seq<Vec2i>
    var walls: seq<Vec2i>

    /** The state every public method keeps: 4 or 8 active directions over the fixed direction table. */
    ghost predicate Valid()
      reads this
    {
      (directions == 4 || directions == 8) && direction == DIRECTION
    }

    /** The fields a search reads. */
    function Settings(): Config
      reads this
    {
      Config(worldSize, walls, directions, heuristic)
    }

    /**
     * Generator(): orthogonal movement, the Manhattan heuristic, the direction
     * table, no walls. The world size is left for setWorldSize.
     */
    constructor ()
      ensures Valid()
      ensures directions == 4 && heuristic == ManhattanFn && walls == []
    {
      worldSize := Vec2i(0, 0);
      walls := [];
      directions := 4;
      heuristic := ManhattanFn;
      direction := DIRECTION;
      new;
      SetDiagonalMovement(false);
      SetHeuristic(ManhattanFn);
    }

    method SetWorldSize(size: Vec2i)
      requires Valid()
      modifies this
      ensures Valid()
      ensures worldSize == size
      ensures directions == old(directions) && heuristic == old(heuristic)
      ensures direction == old(direction) && walls == old(walls)
    {
      worldSize := size;
    }

    method SetDiagonalMovement(enable: bool)
      requires Valid()
      modifies this
      ensures Valid()
      ensures directions == if enable then 8 else 4
      ensures worldSize == old(worldSize) && heuristic == old(heuristic)
      ensures direction == old(direction) && walls == old(walls)
    {
      directions := if enable then 8 else 4;
    }

    method SetHeuristic(h: HeuristicFunction)
      requires Valid()
      modifies this
      ensures Valid()
      ensures heuristic == h
      ensures worldSize == old(worldSize) && directions == old(directions)
      ensures direction == old(direction) && walls == old(walls)
    {
      heuristic := h;
    }

    /** addCollision: append, duplicates allowed. */
    method AddCollision(c: Vec2i)
      requires Valid()
      modifies this
      ensures Valid()
      ensures walls == old(walls) + [c]
      ensures worldSize == old(worldSize) && directions == old(directions)
      ensures heuristic == old(heuristic) && direction == old(direction)
    {
      walls := walls + [c];
    }

    /** removeCollision: erase the first entry equal to c, if there is one. */
    method RemoveCollision(c: Vec2i)
      requires Valid()
      modifies this
      ensures Valid()
      ensures walls == WallList.RemoveFirst(old(walls), c)
      ensures worldSize == old(worldSize) && directions == old(directions)
      ensures heuristic == old(heuristic) && direction == old(direction)
    {
      var i := WallList.Find(walls, c);
      if i != |walls| {
        walls := walls[..i] + walls[i + 1..];
      }
    }

    /** clearCollisions */
    method ClearCollisions()
      requires Valid()
      modifies this
      ensures Valid()
      ensures walls == []
      ensures worldSize == old(worldSize) && directions == old(directions)
      ensures heuristic == old(heuristic) && direction == old(direction)
    {
      walls := [];
    }

    /**
     * findPath: the cells from the last selected node back to the source.
     * Consecutive cells are one active move apart, every cell but the source
     * is inside the world and off the walls, no cell repeats, and the first
     * cell is the target exactly when the target is reachable.
     */
    method FindPath(source: Vec2i, target: Vec2i) returns (path: seq<Vec2i>)
      requires Valid()
      ensures |path| > 0 && path[|path| - 1] == source
      ensures IsWalk(Settings(), Search.Reverse(path))
      ensures forall k :: 0 <= k < |path| - 1 ==> InBounds(worldSize, path[k]) && path[k] !in walls
      ensures forall a, b :: 0 <= a < b < |path| ==> path[a] != path[b]
      ensures path[0] == target <==> Reachable(Settings(), source, target)
    {
      path := Search.FindPath(Settings(), source, target);
    }
  }

  /**
   * The demonstration program: a 25 by 25 world without walls, eight directions,
   * the Euclidean heuristic, from (0, 0) to (20, 20). The path found runs from the
   * target back to the source and stays inside the world.
   */
  method Demo() returns (path: seq<Vec2i>)
    ensures |path| > 0 && path[0] == Vec2i(20, 20) && path[|path| - 1] == Vec2i(0, 0)
    ensures forall k :: 0 <= k < |path| ==> 0 <= path[k].x < 25 && 0 <= path[k].y < 25
  {
    var generator := new Generator();
    generator.SetWorldSize(Vec2i(25, 25));
    generator.SetHeuristic(EuclideanFn);
    generator.SetDiagonalMovement(true);
    OpenWorldReachable(generator.Settings(), Vec2i(0, 0), Vec2i(20, 20));
    path := generator.FindPath(Vec2i(0, 0), Vec2i(20, 20));
  }
}
