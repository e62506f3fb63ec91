/**
 * The integer heuristics of A_Star::Heuristic. Costs use a fixed-point unit:
 * one orthogonal step costs 10 and one diagonal step 14.
 */
module Heuristic {
  import opened Coordinates

  function Abs(n: int): nat
  {
    if n < 0 then -n else n
  }

  function Min(a: int, b: int): int
  {
    if a <= b then a else b
  }

  /** getDelta: the distance between the two cells along each axis. */
  function Delta(source: Vec2i, target: Vec2i): (d: Vec2i)
    ensures d.x >= 0 && d.y >= 0
    ensures d.x == 0 && d.y == 0 <==> source == target
    ensures source.x + d.x == target.x || target.x + d.x == source.x
    ensures source.y + d.y == target.y || target.y + d.y == source.y
  {
    Vec2i(Abs(source.x - target.x), Abs(source.y - target.y))
  }

  /** manhattan: ten per step along each axis. */
  function Manhattan(source: Vec2i, target: Vec2i): nat
  {
    var d := Delta(source, target);
    10 * (d.x + d.y)
  }

  /**
   * euclidean: ten times the straight-line distance, truncated to an integer.
   * The square root is taken exactly on integers: floor(sqrt(100 * (dx^2 + dy^2))).
   */
  function Euclidean(source: Vec2i, target: Vec2i): nat
  {
    var d := Delta(source, target);
    FloorSqrt(100 * (d.x * d.x + d.y * d.y))
  }

  /** octagonal: the diagonal-shortcut estimate, 14 per diagonal and 10 per straight step. */
  function Octagonal(source: Vec2i, target: Vec2i): nat
  {
    var d := Delta(source, target);
    10 * (d.x + d.y) - 6 * Min(d.x, d.y)
  }

  /** The integer square root, rounded down. */
  function FloorSqrt(n: nat): (r: nat)
    ensures r * r <= n < (r + 1) * (r + 1)
  {
    SqrtBelow(n, n)
  }

  /** The largest r <= k whose square does not exceed n, knowing that (k + 1)^2 exceeds it. */
  function SqrtBelow(n: nat, k: nat): (r: nat)
    requires n < (k + 1) * (k + 1)
    ensures r <= k
    ensures r * r <= n < (r + 1) * (r + 1)
    decreases k
  {
    if k * k <= n then k else SqrtBelow(n, k - 1)
  }

  /** The heuristic a Generator can be configured with (the target of std::bind in setHeuristic). */
  datatype HeuristicFunction = ManhattanFn | EuclideanFn | OctagonalFn

  /** Calling the configured heuristic. */
  function Estimate(h: HeuristicFunction, source: Vec2i, target: Vec2i): nat
  {
    match h
    case ManhattanFn => Manhattan(source, target)
    case EuclideanFn => Euclidean(source, target)
    case OctagonalFn => Octagonal(source, target)
  }

  lemma SquareMonotone(a: nat, b: nat)
    requires a <= b
    ensures a * a <= b * b
  {
    assert a * a <= a * b <= b * b;
  }

  /** Every heuristic is zero exactly when the two cells coincide. */
  lemma EstimateZeroIffSame(h: HeuristicFunction, source: Vec2i, target: Vec2i)
    ensures Estimate(h, source, target) == 0 <==> source == target
  {
    var d := Delta(source, target);
    if h == EuclideanFn && source != target {
      var n := 100 * (d.x * d.x + d.y * d.y);
      assert d.x * d.x >= 1 || d.y * d.y >= 1 by {
        if d.x > 0 { SquareMonotone(1, d.x); } else { SquareMonotone(1, d.y); }
      }
      assert n >= 1;
      assert FloorSqrt(n) != 0;
    }
  }

  /** Every heuristic is symmetric in its two cells. */
  lemma EstimateSymmetric(h: HeuristicFunction, source: Vec2i, target: Vec2i)
    ensures Estimate(h, source, target) == Estimate(h, target, source)
  {
    assert Delta(source, target) == Delta(target, source);
  }

  /** The octagonal estimate never exceeds the Manhattan one; it is 10 * max + 4 * min. */
  lemma OctagonalAtMostManhattan(source: Vec2i, target: Vec2i)
    ensures Octagonal(source, target) <= Manhattan(source, target)
    ensures var d := Delta(source, target);
      Octagonal(source, target) == 10 * (d.x + d.y - Min(d.x, d.y)) + 4 * Min(d.x, d.y)
  {
  }

  /** (10(a + b))^2 = 100(a^2 + b^2) + 200ab */
  lemma SquareOfSum(a: nat, b: nat)
    ensures (10 * (a + b)) * (10 * (a + b)) == 100 * (a * a + b * b) + 200 * (a * b)
  {
    calc {
      (10 * (a + b)) * (10 * (a + b));
      100 * ((a + b) * (a + b));
      { assert (a + b) * (a + b) == a * a + 2 * (a * b) + b * b; }
      100 * (a * a + b * b) + 200 * (a * b);
    }
  }

  /** A number no larger than m^2 has a square root no larger than m. */
  lemma FloorSqrtAtMost(n: nat, m: nat)
    requires n <= m * m
    ensures FloorSqrt(n) <= m
  {
    var r := FloorSqrt(n);
    if m < r {
      SquareMonotone(m + 1, r);
    }
  }

  /** The Euclidean estimate never exceeds the Manhattan one. */
  lemma EuclideanAtMostManhattan(source: Vec2i, target: Vec2i)
    ensures Euclidean(source, target) <= Manhattan(source, target)
  {
    var d := Delta(source, target);
    SquareOfSum(d.x, d.y);
    FloorSqrtAtMost(100 * (d.x * d.x + d.y * d.y), 10 * (d.x + d.y));
  }
}
