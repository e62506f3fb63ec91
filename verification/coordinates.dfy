/** Grid coordinates and movement offsets (A_Star::Vec2i). */
module Coordinates {

  /** A cell of the grid, or an offset between two cells. */
  datatype Vec2i = Vec2i(x: int, y: int)

  /** Vec2i::operator== : coordinate-wise comparison, which is exactly value equality. */
  function Equals(a: Vec2i, b: Vec2i): (r: bool)
    ensures r <==> a == b
  {
    a.x == b.x && a.y == b.y
  }

  /** operator+ : translate a cell by an offset, with no bounds check. */
  function Add(a: Vec2i, b: Vec2i): Vec2i
  {
    Vec2i(a.x + b.x, a.y + b.y)
  }

  /** Translation by a fixed offset is injective, and distinct offsets lead to distinct cells. */
  lemma AddCancel(a: Vec2i, b: Vec2i, c: Vec2i, d: Vec2i)
    ensures Add(a, c) == Add(b, c) ==> a == b
    ensures Add(a, c) == Add(a, d) ==> c == d
  {
  }
}
