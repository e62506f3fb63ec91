/**
 * Generator::findPath: A* search over an arena of nodes. Nodes live in a
 * sequence and refer to their parent by position (-1 for none); the open and
 * closed sets are sequences of positions in that arena.
 */
module Search {
  import opened Coordinates
  import opened Heuristic
  import opened World

  /** A search node: its cell, the cost G of the best route found to it, the estimate H, and its parent. */
  datatype Node = Node(coordinates: Vec2i, G: nat, H: nat, parent: int)

  /** Node::getScore */
  function Score(n: Node): nat
  {
    n.G + n.H
  }

  /** The reverse of a sequence. */
  function Reverse<T>(s: seq<T>): (r: seq<T>)
    ensures |r| == |s|
    ensures forall k :: 0 <= k < |s| ==> r[k] == s[|s| - 1 - k]
  {
    seq(|s|, k requires 0 <= k < |s| => s[|s| - 1 - k])
  }

  // ---------------------------------------------------------------------------
  // The search state and its invariant
  // ---------------------------------------------------------------------------

  ghost predicate IndicesIn(arena: seq<Node>, s: seq<nat>)
  {
    forall k :: 0 <= k < |s| ==> s[k] < |arena|
  }

  ghost predicate NoDuplicates(s: seq<nat>)
  {
    forall a, b :: 0 <= a < b < |s| ==> s[a] != s[b]
  }

  /** Every node is in exactly one of the open and closed sets. */
  ghost predicate Partition(n: nat, open: seq<nat>, closed: seq<nat>)
  {
    forall i :: 0 <= i < n ==> (i in open <==> i !in closed)
  }

  /** `at` maps every live cell to the one node standing on it: no cell has two nodes. */
  ghost predicate Indexed(arena: seq<Node>, at: map<Vec2i, nat>)
  {
    (forall c :: c in at ==> at[c] < |arena| && arena[at[c]].coordinates == c) &&
    (forall i :: 0 <= i < |arena| ==> arena[i].coordinates in at && at[arena[i].coordinates] == i)
  }

  /**
   * Node i (not the source) stands on a free cell, its parent is closed and one
   * active move away, its G is the parent's G plus that move's cost, and its H
   * is the heuristic of its cell.
   */
  ghost predicate Linked(cfg: Config, target: Vec2i, arena: seq<Node>, closed: seq<nat>, i: nat)
    requires cfg.Valid() && i < |arena|
  {
    var n := arena[i];
    0 <= n.parent < |arena| && n.parent in closed &&
    !DetectCollision(cfg, n.coordinates) &&
    var d := MoveIndex(cfg.directions, arena[n.parent].coordinates, n.coordinates);
    d >= 0 && n.G == arena[n.parent].G + StepCost(d) &&
    n.H == Estimate(cfg.heuristic, n.coordinates, target)
  }

  /** The invariant of findPath's main loop. */
  ghost predicate SearchState(cfg: Config, source: Vec2i, target: Vec2i,
                              arena: seq<Node>, open: seq<nat>, closed: seq<nat>, at: map<Vec2i, nat>)
  {
    cfg.Valid() && |arena| > 0 && arena[0] == Node(source, 0, 0, -1) &&
    IndicesIn(arena, open) && IndicesIn(arena, closed) && NoDuplicates(open) &&
    Partition(|arena|, open, closed) && Indexed(arena, at) &&
    (forall i :: 0 < i < |arena| ==> Linked(cfg, target, arena, closed, i)) &&
    (forall k :: 0 <= k < |closed| ==> arena[closed[k]].coordinates != target)
  }

  /** The first `upto` active neighbours of node j are blocked or have a node. */
  ghost predicate ExpandedUpTo(cfg: Config, arena: seq<Node>, at: map<Vec2i, nat>, j: nat, upto: nat)
    requires cfg.Valid() && j < |arena| && upto <= cfg.directions
  {
    forall d :: 0 <= d < upto ==>
      DetectCollision(cfg, Add(arena[j].coordinates, DIRECTION[d])) || Add(arena[j].coordinates, DIRECTION[d]) in at
  }

  /** Every closed node is fully expanded, except `cur`, whose first `upto` directions are. */
  ghost predicate Frontier(cfg: Config, arena: seq<Node>, at: map<Vec2i, nat>, closed: seq<nat>, cur: int, upto: nat)
    requires cfg.Valid() && IndicesIn(arena, closed) && upto <= cfg.directions
  {
    forall k :: 0 <= k < |closed| ==>
      ExpandedUpTo(cfg, arena, at, closed[k], if closed[k] == cur then upto else cfg.directions)
  }

  /** The cells a node can stand on: the grid cells, plus the source (which may lie outside the grid). */
  ghost function Allowed(cfg: Config, source: Vec2i): set<Vec2i>
  {
    Grid(cfg.worldSize) + {source}
  }

  lemma InAllowed(cfg: Config, source: Vec2i, c: Vec2i)
    requires c == source || InBounds(cfg.worldSize, c)
    ensures c in Allowed(cfg, source)
  {
    InGrid(cfg.worldSize, c);
  }

  lemma AllowedSize(cfg: Config, source: Vec2i)
    ensures |Allowed(cfg, source)| <= CellCount(cfg.worldSize) + 1
  {
    GridSize(cfg.worldSize);
  }

  // ---------------------------------------------------------------------------
  // The steps of the search
  // ---------------------------------------------------------------------------

  /** The selection loop: a position in the open set whose node has the least score. */
  method SelectMin(arena: seq<Node>, open: seq<nat>) returns (pos: nat)
    requires open != [] && IndicesIn(arena, open)
    ensures pos < |open|
    ensures forall k :: 0 <= k < |open| ==> Score(arena[open[pos]]) <= Score(arena[open[k]])
  {
    pos := 0;
    for k := 0 to |open|
      invariant pos < |open|
      invariant forall j :: 0 <= j < k ==> Score(arena[open[pos]]) <= Score(arena[open[j]])
    {
      if Score(arena[open[k]]) <= Score(arena[open[pos]]) {
        pos := k;
      }
    }
  }

  /** findNodeOnList: a node of the list standing on cell c, or -1 when there is none. */
  method FindNodeOnList(arena: seq<Node>, nodes: seq<nat>, c: Vec2i) returns (r: int)
    requires IndicesIn(arena, nodes)
    ensures r == -1 <==> forall k :: 0 <= k < |nodes| ==> arena[nodes[k]].coordinates != c
    ensures r != -1 ==> 0 <= r < |arena| && r in nodes && arena[r].coordinates == c
  {
    for k := 0 to |nodes|
      invariant forall j :: 0 <= j < k ==> arena[nodes[j]].coordinates != c
    {
      if Equals(arena[nodes[k]].coordinates, c) {
        return nodes[k];
      }
    }
    return -1;
  }

  /** Moving the selected open node to the closed set keeps the invariant. */
  lemma CloseSelected(cfg: Config, source: Vec2i, target: Vec2i,
                      arena: seq<Node>, open: seq<nat>, closed: seq<nat>, at: map<Vec2i, nat>, pos: nat)
    requires SearchState(cfg, source, target, arena, open, closed, at)
    requires Frontier(cfg, arena, at, closed, -1, 0)
    requires pos < |open| && arena[open[pos]].coordinates != target
    ensures var open', closed' := open[..pos] + open[pos + 1..], closed + [open[pos]];
      SearchState(cfg, source, target, arena, open', closed', at) &&
      Frontier(cfg, arena, at, closed', open[pos], 0)
  {
    var cur := open[pos];
    var open', closed' := open[..pos] + open[pos + 1..], closed + [cur];
    MoveToClosed(|arena|, open, closed, pos);
    forall i | 0 < i < |arena| ensures Linked(cfg, target, arena, closed', i) {
      assert Linked(cfg, target, arena, closed, i);
    }
    forall k | 0 <= k < |closed'|
      ensures ExpandedUpTo(cfg, arena, at, closed'[k], if closed'[k] == cur then 0 else cfg.directions)
    {
      if k < |closed| {
        assert closed'[k] in closed;
        assert closed'[k] != cur;
      }
    }
  }

  /** Moving the open entry at `pos` to the end of the closed list keeps the two a partition without duplicates. */
  lemma MoveToClosed(n: nat, open: seq<nat>, closed: seq<nat>, pos: nat)
    requires NoDuplicates(open) && Partition(n, open, closed) && pos < |open|
    ensures var open', closed' := open[..pos] + open[pos + 1..], closed + [open[pos]];
      NoDuplicates(open') && Partition(n, open', closed') && multiset(open') == multiset(open) - multiset{open[pos]}
  {
    var cur := open[pos];
    var open', closed' := open[..pos] + open[pos + 1..], closed + [cur];
    assert open == open[..pos] + [cur] + open[pos + 1..];
    assert forall k :: 0 <= k < |open'| ==> open'[k] == if k < pos then open[k] else open[k + 1];
    forall i | 0 <= i < n ensures i in open' <==> i !in closed' {
      if i != cur {
        if i in open {
          var k :| 0 <= k < |open| && open[k] == i;
          assert open'[if k < pos then k else k - 1] == i;
        }
      }
    }
  }

  /** Frontier survives new nodes, relaxed nodes, and one more expanded direction of `cur`. */
  lemma FrontierStep(cfg: Config, arena: seq<Node>, at: map<Vec2i, nat>, arena': seq<Node>, at': map<Vec2i, nat>,
                     closed: seq<nat>, cur: nat, i: nat)
    requires cfg.Valid() && IndicesIn(arena, closed) && i < cfg.directions
    requires Frontier(cfg, arena, at, closed, cur, i)
    requires |arena| <= |arena'| && cur < |arena|
    requires forall j :: 0 <= j < |arena| ==> arena'[j].coordinates == arena[j].coordinates
    requires forall c :: c in at ==> c in at'
    requires DetectCollision(cfg, Add(arena[cur].coordinates, DIRECTION[i])) || Add(arena[cur].coordinates, DIRECTION[i]) in at'
    ensures IndicesIn(arena', closed)
    ensures Frontier(cfg, arena', at', closed, cur, i + 1)
  {
    forall k | 0 <= k < |closed|
      ensures ExpandedUpTo(cfg, arena', at', closed[k], if closed[k] == cur then i + 1 else cfg.directions)
    {
      var j := closed[k];
      assert ExpandedUpTo(cfg, arena, at, j, if j == cur then i else cfg.directions);
    }
  }

  /** Creating a node for a newly discovered free cell keeps the invariant. */
  lemma AppendNode(cfg: Config, source: Vec2i, target: Vec2i,
                   arena: seq<Node>, open: seq<nat>, closed: seq<nat>, at: map<Vec2i, nat>, cur: nat, i: nat)
    requires SearchState(cfg, source, target, arena, open, closed, at)
    requires cur < |arena| && cur in closed && i < cfg.directions
    requires Frontier(cfg, arena, at, closed, cur, i)
    requires var nb := Add(arena[cur].coordinates, DIRECTION[i]);
      !DetectCollision(cfg, nb) && nb !in at
    ensures var nb := Add(arena[cur].coordinates, DIRECTION[i]);
      var arena' := arena + [Node(nb, arena[cur].G + StepCost(i), Estimate(cfg.heuristic, nb, target), cur)];
      var at' := at[nb := |arena|];
      SearchState(cfg, source, target, arena', open + [|arena|], closed, at') &&
      Frontier(cfg, arena', at', closed, cur, i + 1)
  {
    var nb := Add(arena[cur].coordinates, DIRECTION[i]);
    var arena' := arena + [Node(nb, arena[cur].G + StepCost(i), Estimate(cfg.heuristic, nb, target), cur)];
    var at' := at[nb := |arena|];
    var open' := open + [|arena|];
    MoveIndexOf(cfg.directions, arena[cur].coordinates, i);
    assert Linked(cfg, target, arena', closed, |arena|);
    AppendLinks(cfg, target, arena, closed, arena'[|arena|]);
    assert Partition(|arena'|, open', closed);
    assert Indexed(arena', at');
    FrontierStep(cfg, arena, at, arena', at', closed, cur, i);
  }

  /** Appending a linked node keeps every earlier node linked. */
  lemma AppendLinks(cfg: Config, target: Vec2i, arena: seq<Node>, closed: seq<nat>, n: Node)
    requires cfg.Valid()
    requires forall j :: 0 < j < |arena| ==> Linked(cfg, target, arena, closed, j)
    requires Linked(cfg, target, arena + [n], closed, |arena|)
    ensures forall j :: 0 < j < |arena| + 1 ==> Linked(cfg, target, arena + [n], closed, j)
  {
    forall j | 0 < j < |arena| ensures Linked(cfg, target, arena + [n], closed, j) {
      assert Linked(cfg, target, arena, closed, j);
    }
  }

  /** Giving an open node a cheaper route through `cur` keeps the invariant. */
  lemma RelaxNode(cfg: Config, source: Vec2i, target: Vec2i,
                  arena: seq<Node>, open: seq<nat>, closed: seq<nat>, at: map<Vec2i, nat>, cur: nat, i: nat, s: nat)
    requires SearchState(cfg, source, target, arena, open, closed, at)
    requires cur < |arena| && cur in closed && i < cfg.directions
    requires Frontier(cfg, arena, at, closed, cur, i)
    requires s < |arena| && s in open && arena[s].coordinates == Add(arena[cur].coordinates, DIRECTION[i])
    requires arena[cur].G + StepCost(i) < arena[s].G
    ensures var arena' := arena[s := arena[s].(parent := cur, G := arena[cur].G + StepCost(i))];
      SearchState(cfg, source, target, arena', open, closed, at) &&
      Frontier(cfg, arena', at, closed, cur, i + 1)
  {
    var arena' := arena[s := arena[s].(parent := cur, G := arena[cur].G + StepCost(i))];
    assert s != 0;
    assert s !in closed;
    MoveIndexOf(cfg.directions, arena[cur].coordinates, i);
    assert Linked(cfg, target, arena, closed, s);
    forall j | 0 < j < |arena'| ensures Linked(cfg, target, arena', closed, j) {
      if j != s {
        assert Linked(cfg, target, arena, closed, j);
        assert arena[j].parent != s;
      }
    }
    assert Indexed(arena', at);
    FrontierStep(cfg, arena, at, arena', at, closed, cur, i);
  }

  /** The positions lo, lo + 1, ..., hi - 1. */
  function Range(lo: nat, hi: nat): (r: seq<nat>)
    requires lo <= hi
    ensures |r| == hi - lo && forall k :: 0 <= k < |r| ==> r[k] == lo + k
  {
    seq(hi - lo, k requires 0 <= k < hi - lo => lo + k)
  }

  /** Node n was reached from node cur by one active move, at cur's G plus that move's cost. */
  ghost predicate ReachedFrom(cfg: Config, arena: seq<Node>, cur: nat, n: Node)
    requires cfg.Valid() && cur < |arena|
  {
    n.parent == cur &&
    var d := MoveIndex(cfg.directions, arena[cur].coordinates, n.coordinates);
    d >= 0 && n.G == arena[cur].G + StepCost(d)
  }

  /**
   * What expanding node cur did to the arena and the open set: the nodes it
   * created are appended, reached from cur, carry the heuristic of their cell
   * and are added to the open set, in order; an existing node keeps its cell
   * and H, its G never rises, and if it changed at all it is an open node now
   * reached from cur at a strictly lower G. Node cur itself is unchanged.
   */
  ghost predicate ExpansionOf(cfg: Config, target: Vec2i, arena: seq<Node>, open: seq<nat>,
                              arena': seq<Node>, open': seq<nat>, cur: nat)
    requires cfg.Valid()
  {
    cur < |arena| <= |arena'| && arena'[cur] == arena[cur] &&
    open' == open + Range(|arena|, |arena'|) &&
    (forall j :: |arena| <= j < |arena'| ==>
      ReachedFrom(cfg, arena, cur, arena'[j]) && arena'[j].H == Estimate(cfg.heuristic, arena'[j].coordinates, target)) &&
    (forall j :: 0 <= j < |arena| ==>
      arena'[j].coordinates == arena[j].coordinates && arena'[j].H == arena[j].H && arena'[j].G <= arena[j].G &&
      (arena'[j] != arena[j] ==> arena'[j].G < arena[j].G && j in open && ReachedFrom(cfg, arena, cur, arena'[j])))
  }

  /** Expanding in two steps is an expansion. */
  lemma ExpansionTrans(cfg: Config, target: Vec2i, a0: seq<Node>, o0: seq<nat>, a1: seq<Node>, o1: seq<nat>,
                       a2: seq<Node>, o2: seq<nat>, cur: nat)
    requires cfg.Valid()
    requires ExpansionOf(cfg, target, a0, o0, a1, o1, cur) && ExpansionOf(cfg, target, a1, o1, a2, o2, cur)
    ensures ExpansionOf(cfg, target, a0, o0, a2, o2, cur)
  {
    assert Range(|a0|, |a1|) + Range(|a1|, |a2|) == Range(|a0|, |a2|);
    forall j | 0 <= j < |a0| && a2[j] != a0[j]
      ensures j in o0 && ReachedFrom(cfg, a0, cur, a2[j])
    {
      if a2[j] != a1[j] {
        assert j in o1;
      }
    }
  }

  /**
   * After looking along DIRECTION[d] from the cell `from` of a node with cost g:
   * the neighbour is blocked or has a node, and if that node is not closed its
   * G is at most the cost of the route through `from`.
   */
  ghost predicate Relaxed(cfg: Config, arena: seq<Node>, closed: seq<nat>, at: map<Vec2i, nat>,
                          from: Vec2i, g: nat, d: nat)
    requires cfg.Valid() && d < cfg.directions
  {
    var nb := Add(from, DIRECTION[d]);
    !DetectCollision(cfg, nb) ==>
      nb in at && at[nb] < |arena| && (at[nb] !in closed ==> arena[at[nb]].G <= g + StepCost(d))
  }

  /** The first `upto` active directions from `from` are relaxed. */
  ghost predicate RelaxedUpTo(cfg: Config, arena: seq<Node>, closed: seq<nat>, at: map<Vec2i, nat>,
                              from: Vec2i, g: nat, upto: nat)
    requires cfg.Valid() && upto <= cfg.directions
  {
    forall d :: 0 <= d < upto ==> Relaxed(cfg, arena, closed, at, from, g, d)
  }

  /** Relaxing direction `upto` after the first `upto` extends the relaxed prefix by one. */
  lemma RelaxedUpToStep(cfg: Config, arena: seq<Node>, arena': seq<Node>, closed: seq<nat>,
                        at: map<Vec2i, nat>, at': map<Vec2i, nat>, from: Vec2i, g: nat, upto: nat)
    requires cfg.Valid() && upto < cfg.directions
    requires RelaxedUpTo(cfg, arena, closed, at, from, g, upto)
    requires Relaxed(cfg, arena', closed, at', from, g, upto)
    requires |arena| <= |arena'| && forall j :: 0 <= j < |arena| ==> arena'[j].G <= arena[j].G
    requires forall c :: c in at ==> c in at' && at'[c] == at[c]
    ensures RelaxedUpTo(cfg, arena', closed, at', from, g, upto + 1)
  {
    forall d | 0 <= d < upto ensures Relaxed(cfg, arena', closed, at', from, g, d) {
      RelaxedStays(cfg, arena, arena', closed, at, at', from, g, d);
    }
  }

  /** Later steps that keep known cells on their nodes and never raise a G keep a direction relaxed. */
  lemma RelaxedStays(cfg: Config, arena: seq<Node>, arena': seq<Node>, closed: seq<nat>,
                     at: map<Vec2i, nat>, at': map<Vec2i, nat>, from: Vec2i, g: nat, d: nat)
    requires cfg.Valid() && d < cfg.directions
    requires Relaxed(cfg, arena, closed, at, from, g, d)
    requires |arena| <= |arena'| && forall j :: 0 <= j < |arena| ==> arena'[j].G <= arena[j].G
    requires forall c :: c in at ==> c in at' && at'[c] == at[c]
    ensures Relaxed(cfg, arena', closed, at', from, g, d)
  {
  }

  /**
   * One iteration of the direction loop: look at the neighbour of node `cur`
   * along DIRECTION[i]; skip it when blocked or closed, create a node for it
   * when it has none, and re-parent its open node when the route through
   * `cur` is strictly cheaper.
   */
  method Expand(cfg: Config, source: Vec2i, target: Vec2i,
                arena: seq<Node>, open: seq<nat>, closed: seq<nat>, ghost at: map<Vec2i, nat>, cur: nat, i: nat)
    returns (arena': seq<Node>, open': seq<nat>, ghost at': map<Vec2i, nat>)
    requires SearchState(cfg, source, target, arena, open, closed, at)
    requires cur < |arena| && cur in closed && i < cfg.directions
    requires Frontier(cfg, arena, at, closed, cur, i)
    ensures SearchState(cfg, source, target, arena', open', closed, at')
    ensures Frontier(cfg, arena', at', closed, cur, i + 1)
    ensures forall c :: c in at ==> c in at' && at'[c] == at[c]
    ensures forall c :: c in at' && c !in at ==> at'[c] !in closed
    ensures ExpansionOf(cfg, target, arena, open, arena', open', cur)
    ensures Relaxed(cfg, arena', closed, at', arena[cur].coordinates, arena[cur].G, i)
    ensures var nb := Add(arena[cur].coordinates, DIRECTION[i]);
      var cost := arena[cur].G + StepCost(i);
      if DetectCollision(cfg, nb) || (nb in at && at[nb] in closed) then
        arena' == arena && open' == open
      else if nb !in at then
        arena' == arena + [Node(nb, cost, Estimate(cfg.heuristic, nb, target), cur)] && open' == open + [|arena|]
      else if cost < arena[at[nb]].G then
        arena' == arena[at[nb] := arena[at[nb]].(parent := cur, G := cost)] && open' == open
      else
        arena' == arena && open' == open
  {
    var nb := Add(arena[cur].coordinates, DIRECTION[i]);
    arena', open', at' := arena, open, at;
    assert open + Range(|arena|, |arena|) == open;
    MoveIndexOf(cfg.directions, arena[cur].coordinates, i);
    if DetectCollision(cfg, nb) {
      FrontierStep(cfg, arena, at, arena, at, closed, cur, i);
      return;
    }
    var inClosed := FindNodeOnList(arena, closed, nb);
    if inClosed != -1 {
      FrontierStep(cfg, arena, at, arena, at, closed, cur, i);
      return;
    }
    var cost := arena[cur].G + StepCost(i);
    assert nb in at ==> at[nb] in open;
    var s := FindNodeOnList(arena, open, nb);
    if s == -1 {
      assert nb !in at;
      arena' := arena + [Node(nb, cost, Estimate(cfg.heuristic, nb, target), cur)];
      open' := open + [|arena|];
      assert Range(|arena|, |arena| + 1) == [|arena|];
      at' := at[nb := |arena|];
      AppendNode(cfg, source, target, arena, open, closed, at, cur, i);
    } else if cost < arena[s].G {
      assert s != cur;
      arena' := arena[s := arena[s].(parent := cur, G := cost)];
      RelaxNode(cfg, source, target, arena, open, closed, at, cur, i, s);
    } else {
      FrontierStep(cfg, arena, at, arena, at, closed, cur, i);
    }
  }

  // ---------------------------------------------------------------------------
  // Path reconstruction and the whole search
  // ---------------------------------------------------------------------------

  /** What path reconstruction relies on: the source node at position 0 and every other node linked. */
  ghost predicate ParentLinks(cfg: Config, source: Vec2i, target: Vec2i,
                              arena: seq<Node>, closed: seq<nat>, at: map<Vec2i, nat>)
  {
    cfg.Valid() && |arena| > 0 && arena[0] == Node(source, 0, 0, -1) && Indexed(arena, at) &&
    (forall i :: 0 < i < |arena| ==> Linked(cfg, target, arena, closed, i))
  }

  /**
   * Following one parent link from node c (not the source): prepending the
   * parent's cell keeps a walk, adds exactly the difference in G, and the
   * parent has a strictly smaller G.
   */
  lemma FollowParent(cfg: Config, source: Vec2i, target: Vec2i,
                     arena: seq<Node>, closed: seq<nat>, at: map<Vec2i, nat>, c: nat, rev: seq<Vec2i>)
    requires ParentLinks(cfg, source, target, arena, closed, at)
    requires 0 < c < |arena| && IsWalk(cfg, [arena[c].coordinates] + rev)
    ensures var p := arena[c].parent;
      0 <= p < |arena| && arena[p].G < arena[c].G &&
      IsWalk(cfg, [arena[p].coordinates, arena[c].coordinates] + rev) &&
      WalkCost(cfg, [arena[p].coordinates, arena[c].coordinates] + rev) + arena[p].G
        == WalkCost(cfg, [arena[c].coordinates] + rev) + arena[c].G
  {
    assert Linked(cfg, target, arena, closed, c);
    var p := arena[c].parent;
    WalkPrepend(cfg, arena[p].coordinates, [arena[c].coordinates] + rev);
    assert [arena[p].coordinates] + ([arena[c].coordinates] + rev) == [arena[p].coordinates, arena[c].coordinates] + rev;
  }

  /** Cells of `path` are pairwise distinct and stand on nodes whose G exceeds g. */
  ghost predicate DistinctAbove(arena: seq<Node>, at: map<Vec2i, nat>, path: seq<Vec2i>, g: nat)
  {
    (forall a, b :: 0 <= a < b < |path| ==> path[a] != path[b]) &&
    (forall k :: 0 <= k < |path| ==> path[k] in at && at[path[k]] < |arena| && arena[at[path[k]]].G > g)
  }

  /** Appending the cell of node c keeps the cells distinct, since G strictly decreases along the path. */
  lemma AppendDistinct(arena: seq<Node>, at: map<Vec2i, nat>, path: seq<Vec2i>, c: nat, g: nat)
    requires Indexed(arena, at) && c < |arena| && g <= arena[c].G
    requires DistinctAbove(arena, at, path, arena[c].G)
    ensures forall a, b :: 0 <= a < b < |path| + 1 ==> (path + [arena[c].coordinates])[a] != (path + [arena[c].coordinates])[b]
    ensures g < arena[c].G ==> DistinctAbove(arena, at, path + [arena[c].coordinates], g)
  {
    var path' := path + [arena[c].coordinates];
    forall a, b | 0 <= a < b < |path'| ensures path'[a] != path'[b] {
      if b == |path| {
        assert arena[at[path[a]]].G > arena[c].G;
      }
    }
  }

  /**
   * The reconstruction loop: follow parent links from node `current` back to
   * the source, collecting cells. The cells come out from `current` to the
   * source; reversed, they form a walk whose cost is the node's G.
   */
  method Reconstruct(cfg: Config, source: Vec2i, target: Vec2i,
                     arena: seq<Node>, closed: seq<nat>, ghost at: map<Vec2i, nat>, current: nat)
    returns (path: seq<Vec2i>)
    requires ParentLinks(cfg, source, target, arena, closed, at) && current < |arena|
    ensures |path| > 0 && path[0] == arena[current].coordinates && path[|path| - 1] == source
    ensures IsWalk(cfg, Reverse(path))
    ensures WalkCost(cfg, Reverse(path)) == arena[current].G
    ensures forall a, b :: 0 <= a < b < |path| ==> path[a] != path[b]
  {
    path := [];
    ghost var rev: seq<Vec2i> := [];
    var c: int := current;
    while c != -1
      invariant -1 <= c < |arena|
      invariant rev == Reverse(path)
      invariant c == -1 ==> |path| > 0 && IsWalk(cfg, rev) && rev[0] == source && WalkCost(cfg, rev) == arena[current].G
      invariant c >= 0 ==> IsWalk(cfg, [arena[c].coordinates] + rev)
      invariant c >= 0 ==> WalkCost(cfg, [arena[c].coordinates] + rev) + arena[c].G == arena[current].G
      invariant |path| > 0 ==> path[0] == arena[current].coordinates
      invariant |path| == 0 ==> c == current
      invariant c >= 0 ==> DistinctAbove(arena, at, path, arena[c].G)
      invariant c == -1 ==> forall a, b :: 0 <= a < b < |path| ==> path[a] != path[b]
      decreases if c == -1 then 0 else arena[c].G + 1
    {
      var n := arena[c];
      ghost var rev' := [n.coordinates] + rev;
      assert Reverse(path + [n.coordinates]) == rev';
      if c > 0 {
        FollowParent(cfg, source, target, arena, closed, at, c, rev);
        assert [arena[n.parent].coordinates, n.coordinates] + rev == [arena[n.parent].coordinates] + rev';
        AppendDistinct(arena, at, path, c, arena[n.parent].G);
      } else {
        AppendDistinct(arena, at, path, c, 0);
      }
      path := path + [n.coordinates];
      rev := rev';
      c := n.parent;
    }
  }

  /** With the open set exhausted, every cell a walk from the source reaches has a closed node. */
  lemma {:induction false} ExhaustedSearchCoversWalk(cfg: Config, source: Vec2i, target: Vec2i,
                                                      arena: seq<Node>, closed: seq<nat>, at: map<Vec2i, nat>, w: seq<Vec2i>)
    requires SearchState(cfg, source, target, arena, [], closed, at)
    requires Frontier(cfg, arena, at, closed, -1, 0)
    requires IsWalk(cfg, w) && w[0] == source
    ensures w[|w| - 1] in at && at[w[|w| - 1]] in closed
    decreases |w|
  {
    if |w| == 1 {
      assert 0 !in [];
    } else {
      var w' := w[..|w| - 1];
      assert IsWalk(cfg, w') by {
        forall k | 0 <= k < |w'| - 1 ensures StepAt(cfg, w', k) {
          assert StepAt(cfg, w, k);
        }
      }
      ExhaustedSearchCoversWalk(cfg, source, target, arena, closed, at, w');
      var j := at[w[|w| - 2]];
      var k :| 0 <= k < |closed| && closed[k] == j;
      assert ExpandedUpTo(cfg, arena, at, j, cfg.directions);
      assert StepAt(cfg, w, |w| - 2);
      var d := MoveIndex(cfg.directions, w[|w| - 2], w[|w| - 1]);
      assert Add(arena[j].coordinates, DIRECTION[d]) == w[|w| - 1];
      assert at[w[|w| - 1]] !in [];
    }
  }

  /** With the open set exhausted before the target was selected, no walk reaches the target. */
  lemma ExhaustedSearchMeansUnreachable(cfg: Config, source: Vec2i, target: Vec2i,
                                        arena: seq<Node>, closed: seq<nat>, at: map<Vec2i, nat>)
    requires SearchState(cfg, source, target, arena, [], closed, at)
    requires Frontier(cfg, arena, at, closed, -1, 0)
    ensures !Reachable(cfg, source, target)
  {
    forall w | IsWalk(cfg, w) && w[0] == source ensures w[|w| - 1] != target {
      ExhaustedSearchCoversWalk(cfg, source, target, arena, closed, at, w);
      var k :| 0 <= k < |closed| && closed[k] == at[w[|w| - 1]];
    }
  }

  /**
   * The direction loop: expand the closed node `current` along each of the
   * active directions in turn. Afterwards every closed node is fully expanded;
   * cells already known keep their nodes, and new cells get open nodes.
   */
  method ExpandAll(cfg: Config, source: Vec2i, target: Vec2i,
                   arena: seq<Node>, open: seq<nat>, closed: seq<nat>, ghost at: map<Vec2i, nat>, current: nat)
    returns (arena': seq<Node>, open': seq<nat>, ghost at': map<Vec2i, nat>)
    requires SearchState(cfg, source, target, arena, open, closed, at)
    requires current < |arena| && current in closed
    requires Frontier(cfg, arena, at, closed, current, 0)
    ensures SearchState(cfg, source, target, arena', open', closed, at')
    ensures Frontier(cfg, arena', at', closed, -1, 0)
    ensures forall c :: c in at ==> c in at' && at'[c] == at[c]
    ensures forall c :: c in at' && c !in at ==> at'[c] !in closed
    ensures ExpansionOf(cfg, target, arena, open, arena', open', current)
    ensures RelaxedUpTo(cfg, arena', closed, at', arena[current].coordinates, arena[current].G, cfg.directions)
  {
    arena', open', at' := arena, open, at;
    assert open + Range(|arena|, |arena|) == open;
    for i := 0 to cfg.directions
      invariant SearchState(cfg, source, target, arena', open', closed, at')
      invariant current < |arena'|
      invariant Frontier(cfg, arena', at', closed, current, i)
      invariant forall c :: c in at ==> c in at' && at'[c] == at[c]
      invariant forall c :: c in at' && c !in at ==> at'[c] !in closed
      invariant ExpansionOf(cfg, target, arena, open, arena', open', current)
      invariant RelaxedUpTo(cfg, arena', closed, at', arena[current].coordinates, arena[current].G, i)
    {
      var arena0, open0 := arena', open';
      ghost var at0 := at';
      arena', open', at' := Expand(cfg, source, target, arena', open', closed, at', current, i);
      ExpansionTrans(cfg, target, arena, open, arena0, open0, arena', open', current);
      RelaxedUpToStep(cfg, arena0, arena', closed, at0, at', arena[current].coordinates, arena[current].G, i);
    }
    forall k | 0 <= k < |closed|
      ensures ExpandedUpTo(cfg, arena', at', closed[k], cfg.directions)
    {
      assert ExpandedUpTo(cfg, arena', at', closed[k], if closed[k] == current then cfg.directions else cfg.directions);
    }
  }

  /** The state findPath starts from: one open node, for the source, with G = H = 0 and no parent. */
  lemma InitialState(cfg: Config, source: Vec2i, target: Vec2i)
    requires cfg.Valid()
    ensures SearchState(cfg, source, target, [Node(source, 0, 0, -1)], [0], [], map[source := 0])
    ensures Frontier(cfg, [Node(source, 0, 0, -1)], map[source := 0], [], -1, 0)
  {
  }

  /**
   * Closing the selected node (not the target) keeps the invariant and adds
   * to the closed cells one allowed cell that was not among them.
   */
  lemma CloseRound(cfg: Config, source: Vec2i, target: Vec2i, arena: seq<Node>, open: seq<nat>, closed: seq<nat>,
                   at: map<Vec2i, nat>, done: set<Vec2i>, pos: nat)
    requires SearchState(cfg, source, target, arena, open, closed, at)
    requires Frontier(cfg, arena, at, closed, -1, 0)
    requires forall c :: c in done <==> c in at && at[c] in closed
    requires done <= Allowed(cfg, source)
    requires pos < |open| && arena[open[pos]].coordinates != target
    ensures var open', closed', done' := open[..pos] + open[pos + 1..], closed + [open[pos]], done + {arena[open[pos]].coordinates};
      SearchState(cfg, source, target, arena, open', closed', at) &&
      Frontier(cfg, arena, at, closed', open[pos], 0) &&
      (forall c :: c in done' <==> c in at && at[c] in closed') &&
      done' <= Allowed(cfg, source) &&
      |Allowed(cfg, source) - done'| < |Allowed(cfg, source) - done|
  {
    var current := open[pos];
    var cell := arena[current].coordinates;
    if current > 0 {
      assert Linked(cfg, target, arena, closed, current);
    }
    InAllowed(cfg, source, cell);
    assert cell !in done;
    CloseSelected(cfg, source, target, arena, open, closed, at, pos);
    var done' := done + {cell};
    assert Allowed(cfg, source) - done' == (Allowed(cfg, source) - done) - {cell};
  }

  /** n is the node closed most recently. */
  ghost predicate ClosedLast(closed: seq<nat>, n: nat)
  {
    |closed| > 0 && closed[|closed| - 1] == n
  }

  /**
   * The rest of one round of the main loop, once the selected node is known
   * not to be the target: move it from the open to the closed set and expand
   * it along every active direction.
   */
  method CloseAndExpand(cfg: Config, source: Vec2i, target: Vec2i, arena: seq<Node>, open: seq<nat>, closed: seq<nat>,
                        ghost at: map<Vec2i, nat>, ghost done: set<Vec2i>, pos: nat)
    returns (arena': seq<Node>, open': seq<nat>, closed': seq<nat>, ghost at': map<Vec2i, nat>, ghost done': set<Vec2i>)
    requires SearchState(cfg, source, target, arena, open, closed, at)
    requires Frontier(cfg, arena, at, closed, -1, 0)
    requires forall c :: c in done <==> c in at && at[c] in closed
    requires done <= Allowed(cfg, source) - {target}
    requires pos < |open| && arena[open[pos]].coordinates != target
    ensures SearchState(cfg, source, target, arena', open', closed', at')
    ensures Frontier(cfg, arena', at', closed', -1, 0)
    ensures closed' == closed + [open[pos]] && closed'[|closed'| - 1] == open[pos] && |arena| <= |arena'|
    ensures forall c :: c in done' <==> c in at' && at'[c] in closed'
    ensures done' <= Allowed(cfg, source) - {target}
    ensures |done'| == |done| + 1
    ensures |Allowed(cfg, source) - done'| < |Allowed(cfg, source) - done|
    ensures ExpansionOf(cfg, target, arena, open[..pos] + open[pos + 1..], arena', open', open[pos])
    ensures RelaxedUpTo(cfg, arena', closed', at', arena[open[pos]].coordinates, arena[open[pos]].G, cfg.directions)
  {
    var current := open[pos];
    ghost var cell := arena[current].coordinates;
    CloseRound(cfg, source, target, arena, open, closed, at, done, pos);
    closed' := closed + [current];
    var open1 := open[..pos] + open[pos + 1..];
    done' := done + {cell};
    arena', open', at' := ExpandAll(cfg, source, target, arena, open1, closed', at, current);
  }

  /**
   * One round of the main loop: select a least-score open node; report it if
   * it stands on the target, and otherwise close it and expand it.
   */
  method Round(cfg: Config, source: Vec2i, target: Vec2i, arena: seq<Node>, open: seq<nat>, closed: seq<nat>,
               ghost at: map<Vec2i, nat>, ghost done: set<Vec2i>)
    returns (arena': seq<Node>, open': seq<nat>, closed': seq<nat>, ghost at': map<Vec2i, nat>, ghost done': set<Vec2i>,
             pos: nat, current: nat, reached: bool)
    requires SearchState(cfg, source, target, arena, open, closed, at)
    requires Frontier(cfg, arena, at, closed, -1, 0)
    requires forall c :: c in done <==> c in at && at[c] in closed
    requires done <= Allowed(cfg, source) - {target}
    requires open != []
    ensures pos < |open| && current == open[pos] && current < |arena| && current < |arena'|
    ensures forall k :: 0 <= k < |open| ==> Score(arena[current]) <= Score(arena[open[k]])
    ensures reached ==>
      arena' == arena && open' == open && closed' == closed && at' == at && done' == done &&
      arena[current].coordinates == target && target in Allowed(cfg, source)
    ensures !reached ==>
      SearchState(cfg, source, target, arena', open', closed', at') &&
      Frontier(cfg, arena', at', closed', -1, 0) &&
      (forall c :: c in done' <==> c in at' && at'[c] in closed') &&
      done' <= Allowed(cfg, source) - {target} && |done'| == |done| + 1 &&
      |Allowed(cfg, source) - done'| < |Allowed(cfg, source) - done| &&
      ClosedLast(closed', current) &&
      ExpansionOf(cfg, target, arena, open[..pos] + open[pos + 1..], arena', open', current) &&
      RelaxedUpTo(cfg, arena', closed', at', arena[current].coordinates, arena[current].G, cfg.directions)
  {
    pos := SelectMin(arena, open);
    current := open[pos];
    if Equals(arena[current].coordinates, target) {
      if current > 0 {
        assert Linked(cfg, target, arena, closed, current);
      }
      InAllowed(cfg, source, target);
      arena', open', closed', at', done' := arena, open, closed, at, done;
      reached := true;
      return;
    }
    arena', open', closed', at', done' := CloseAndExpand(cfg, source, target, arena, open, closed, at, done, pos);
    reached := false;
  }

  /**
   * The main loop of findPath: select a least-score open node; stop if it is
   * the target; otherwise close it and expand it. Returns the arena, the
   * closed set and the last selected node, which is the target unless the
   * open set ran dry; then it is the node closed last, and no walk reaches
   * the target. Each round closes a cell of the grid (or the source) that
   * was not closed before.
   */
  method Explore(cfg: Config, source: Vec2i, target: Vec2i)
    returns (arena: seq<Node>, closed: seq<nat>, ghost at: map<Vec2i, nat>, current: nat, ghost rounds: nat)
    requires cfg.Valid()
    ensures ParentLinks(cfg, source, target, arena, closed, at) && current < |arena|
    ensures arena[current].coordinates == target || !Reachable(cfg, source, target)
    ensures arena[current].coordinates == target || ClosedLast(closed, current)
    ensures 1 <= rounds <= CellCount(cfg.worldSize) + 1
  {
    arena := [Node(source, 0, 0, -1)];
    var open: seq<nat> := [0];
    closed := [];
    at := map[source := 0];
    ghost var done: set<Vec2i> := {};
    ghost var found := false;
    current := 0;
    rounds := 0;
    InitialState(cfg, source, target);
    while open != []
      invariant SearchState(cfg, source, target, arena, open, closed, at)
      invariant Frontier(cfg, arena, at, closed, -1, 0)
      invariant current < |arena| && !found
      invariant forall c :: c in done <==> c in at && at[c] in closed
      invariant done <= Allowed(cfg, source) - {target}
      invariant rounds == |done| && (rounds == 0 ==> open == [0])
      invariant rounds > 0 ==> ClosedLast(closed, current)
      decreases |Allowed(cfg, source) - done|
    {
      rounds := rounds + 1;
      var pos, reached;
      arena, open, closed, at, done, pos, current, reached := Round(cfg, source, target, arena, open, closed, at, done);
      if reached {
        found := true;
        break;
      }
    }
    AllowedSize(cfg, source);
    if !found {
      ExhaustedSearchMeansUnreachable(cfg, source, target, arena, closed, at);
    } else {
      assert |done| <= |Allowed(cfg, source) - {target}| == |Allowed(cfg, source)| - 1;
    }
  }

  /** Read from the target end, every cell of a walk except the source is free. */
  lemma ReversedWalkCellsFree(cfg: Config, path: seq<Vec2i>)
    requires cfg.Valid() && IsWalk(cfg, Reverse(path))
    ensures forall k :: 0 <= k < |path| - 1 ==> !DetectCollision(cfg, path[k])
  {
    var w := Reverse(path);
    forall k | 0 <= k < |path| - 1 ensures !DetectCollision(cfg, path[k]) {
      var j: nat := |path| - 2 - k;
      assert j + 1 < |w|;
      assert StepAt(cfg, w, j);
      assert w[j + 1] == path[k];
    }
  }

  /**
   * findPath: run A* from `source` and return the cells from the last selected
   * node back to the source. That node is the target exactly when the target
   * is reachable; otherwise the open set ran dry and the path leads to the
   * last node expanded. The nodes are dropped on return.
   */
  method FindPath(cfg: Config, source: Vec2i, target: Vec2i) returns (path: seq<Vec2i>)
    requires cfg.Valid()
    ensures |path| > 0 && path[|path| - 1] == source
    ensures IsWalk(cfg, Reverse(path))
    ensures forall k :: 0 <= k < |path| - 1 ==> !DetectCollision(cfg, path[k])
    ensures forall a, b :: 0 <= a < b < |path| ==> path[a] != path[b]
    ensures path[0] == target <==> Reachable(cfg, source, target)
  {
    var arena, closed, at, current, rounds := Explore(cfg, source, target);
    path := Reconstruct(cfg, source, target, arena, closed, at, current);
    ReversedWalkCellsFree(cfg, path);
    if path[0] == target {
      assert Reverse(path)[0] == source && Reverse(path)[|path| - 1] == target;
    }
  }
}
