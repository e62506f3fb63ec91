/** The wall list of a Generator: a vector of cells, searched and erased linearly. */
module WallList {
  import opened Coordinates

  /**
   * std::find over the walls: the position of the first entry equal to c,
   * or |walls| (the end iterator) when there is none.
   */
  function Find(walls: seq<Vec2i>, c: Vec2i): (i: nat)
    ensures i <= |walls|
    ensures i < |walls| ==> walls[i] == c
    ensures forall j :: 0 <= j < i ==> walls[j] != c
    ensures i < |walls| <==> c in walls
  {
    if walls == [] then 0
    else if Equals(walls[0], c) then 0
    else 1 + Find(walls[1..], c)
  }

  /** removeCollision: erase the first entry equal to c; nothing happens when c is absent. */
  function RemoveFirst(walls: seq<Vec2i>, c: Vec2i): (r: seq<Vec2i>)
    ensures c !in walls ==> r == walls
    ensures c in walls ==> |r| == |walls| - 1 && multiset(r) == multiset(walls) - multiset{c}
  {
    var i := Find(walls, c);
    if i < |walls| then
      assert walls == walls[..i] + [walls[i]] + walls[i + 1..];
      walls[..i] + walls[i + 1..]
    else
      walls
  }

  /** Only the first occurrence goes: every other entry keeps its place relative to the others. */
  lemma RemoveFirstKeepsOrder(walls: seq<Vec2i>, c: Vec2i, i: nat)
    requires i < |walls| && walls[i] == c
    requires forall j :: 0 <= j < i ==> walls[j] != c
    ensures |RemoveFirst(walls, c)| == |walls| - 1
    ensures forall j :: 0 <= j < i ==> RemoveFirst(walls, c)[j] == walls[j]
    ensures forall j :: i <= j < |walls| - 1 ==> RemoveFirst(walls, c)[j] == walls[j + 1]
  {
    assert Find(walls, c) == i;
  }

  /** Adding a cell that was not a wall and then removing it restores the list. */
  lemma RemoveUndoesAdd(walls: seq<Vec2i>, c: Vec2i)
    requires c !in walls
    ensures RemoveFirst(walls + [c], c) == walls
  {
    assert Find(walls + [c], c) == |walls|;
    assert (walls + [c])[..|walls|] == walls;
  }

  /** Whatever the list held, adding then removing a cell leaves the same walls, counted with multiplicity. */
  lemma RemoveAfterAddSameMultiset(walls: seq<Vec2i>, c: Vec2i)
    ensures multiset(RemoveFirst(walls + [c], c)) == multiset(walls)
  {
    assert c in walls + [c];
  }
}
