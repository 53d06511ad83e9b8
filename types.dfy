/** Geometry records shared by the solvers: 32-bit points and inclusive rectangles. */
module Types {
  import opened Numerics

  /** `Point2I`: a point of two C# `int`s. */
  datatype Point2I = Point2I(x: int, y: int)
  {
    predicate Valid() { IsInt32(x) && IsInt32(y) }

    /** `Add(Point2I)`: componentwise unchecked 32-bit addition. */
    function Add(d: Point2I): (r: Point2I)
      ensures r.Valid()
      ensures IsInt32(d.x + x) && IsInt32(d.y + y) ==> r == Point2I(x + d.x, y + d.y)
    {
      Point2I(Wrap32(d.x + x), Wrap32(d.y + y))
    }

    /** `Add(int, int)`. */
    function AddXY(dx: int, dy: int): (r: Point2I)
      ensures r.Valid()
      ensures IsInt32(dx + x) && IsInt32(dy + y) ==> r == Point2I(x + dx, y + dy)
    {
      Point2I(Wrap32(dx + x), Wrap32(dy + y))
    }
  }

  /** The implicit conversion from an `(int x, int y)` tuple. */
  function FromTuple(p: (int, int)): (r: Point2I)
    ensures (r.x, r.y) == p
  {
    Point2I(p.0, p.1)
  }

  datatype IPoint3 = IPoint3(x: int, y: int, z: int)
  datatype LPoint2 = LPoint2(x: int, y: int)
  datatype LPoint3 = LPoint3(x: int, y: int, z: int)

  function IPoint3FromTuple(p: (int, int, int)): (r: IPoint3)
    ensures (r.x, r.y, r.z) == p
  {
    IPoint3(p.0, p.1, p.2)
  }

  function LPoint2FromTuple(p: (int, int)): (r: LPoint2)
    ensures (r.x, r.y) == p
  {
    LPoint2(p.0, p.1)
  }

  function LPoint3FromTuple(p: (int, int, int)): (r: LPoint3)
    ensures (r.x, r.y, r.z) == p
  {
    LPoint3(p.0, p.1, p.2)
  }

  /** Adding a point is adding its two components. */
  lemma AddIsAddXY(p: Point2I, d: Point2I)
    ensures p.Add(d) == p.AddXY(d.x, d.y)
  {
  }

  /** Adding (0, 0) changes nothing, and adding (dx, dy) then (-dx, -dy) restores the point, even across wrap-around. */
  lemma AddInverse(p: Point2I, dx: int, dy: int)
    requires p.Valid()
    ensures p.AddXY(0, 0) == p
    ensures p.AddXY(dx, dy).AddXY(Wrap32(-dx), Wrap32(-dy)) == p
  {
    Wrap32Inverse(p.x, dx);
    Wrap32Inverse(p.y, dy);
  }

  lemma Wrap32Inverse(v: int, d: int)
    requires IsInt32(v)
    ensures Wrap32(Wrap32(-d) + Wrap32(d + v)) == v
  {
    var half := 0x8000_0000;
    WrapAbsorbs(half, -d, Wrap32(d + v));
    WrapAbsorbs(half, d + v, -d);
  }

  /** `Rect2I`: an inclusive rectangle. */
  datatype Rect2I = Rect2I(left: int, top: int, right: int, bottom: int)
  {
    /** `IsInBounds`: inclusive on all four edges. */
    predicate IsInBounds(p: Point2I)
    {
      left <= p.x <= right && top <= p.y <= bottom
    }
  }

  /** The four corners are in bounds of a non-empty rectangle, and one step outside any edge is not. */
  lemma BoundsAreInclusive(r: Rect2I, p: Point2I)
    requires r.left <= r.right && r.top <= r.bottom
    ensures r.IsInBounds(Point2I(r.left, r.top)) && r.IsInBounds(Point2I(r.right, r.bottom))
    ensures r.IsInBounds(Point2I(r.left, r.bottom)) && r.IsInBounds(Point2I(r.right, r.top))
    ensures !r.IsInBounds(Point2I(r.left - 1, p.y)) && !r.IsInBounds(Point2I(r.right + 1, p.y))
    ensures !r.IsInBounds(Point2I(p.x, r.top - 1)) && !r.IsInBounds(Point2I(p.x, r.bottom + 1))
  {
  }
}
