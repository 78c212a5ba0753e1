// Pin positions and the constructions that derive a new pin from existing
// ones: the midpoint (`Split`), the corner (`Corner`), an offset (`Offset`)
// and the orthogonal projection onto a line (`Project`).

module Geometry {

  /** A pin position. The source keeps doubles; the model keeps exact reals. */
  datatype Vec2d = Vec2d(x: real, y: real)

  function Add(a: Vec2d, b: Vec2d): Vec2d {
    Vec2d(a.x + b.x, a.y + b.y)
  }

  function Sub(a: Vec2d, b: Vec2d): Vec2d {
    Vec2d(a.x - b.x, a.y - b.y)
  }

  function Scale(k: real, a: Vec2d): Vec2d {
    Vec2d(k * a.x, k * a.y)
  }

  function Dot(a: Vec2d, b: Vec2d): real {
    a.x * b.x + a.y * b.y
  }

  /** The z component of the cross product: zero when `a` and `b` are parallel. */
  function Cross(a: Vec2d, b: Vec2d): real {
    a.x * b.y - a.y * b.x
  }

  /** The point half-way between `a` and `b` (`Split`). */
  function Midpoint(a: Vec2d, b: Vec2d): (r: Vec2d)
    ensures Sub(r, a) == Sub(b, r)
  {
    Vec2d((a.x + b.x) / 2.0, (a.y + b.y) / 2.0)
  }

  /** The midpoint is the only point as far from `a` as from `b` along the segment. */
  lemma MidpointUnique(a: Vec2d, b: Vec2d, m: Vec2d)
    requires Sub(m, a) == Sub(b, m)
    ensures m == Midpoint(a, b)
  {
  }

  /** The corner `(a.x, b.y)` (`Corner`): straight below or above `a`, level
      with `b`, so the three points make a right angle at the corner. */
  function Corner(a: Vec2d, b: Vec2d): (r: Vec2d)
    ensures Sub(a, r).x == 0.0 && Sub(b, r).y == 0.0
    ensures Dot(Sub(a, r), Sub(b, r)) == 0.0
  {
    Vec2d(a.x, b.y)
  }

  /** `a` moved by `(dx, dy)` (`Offset`). */
  function Offset(a: Vec2d, dx: real, dy: real): (r: Vec2d)
    ensures Sub(r, a) == Vec2d(dx, dy)
  {
    Vec2d(a.x + dx, a.y + dy)
  }

  /** Offsetting back by the opposite amount returns to the start. */
  lemma OffsetInverse(a: Vec2d, dx: real, dy: real)
    ensures Offset(Offset(a, dx, dy), -dx, -dy) == a
  {
  }

  lemma DotScaled(a: Vec2d, b: Vec2d, k: real)
    ensures Dot(a, Sub(b, Scale(k, a))) == Dot(a, b) - k * Dot(a, a)
  {
    assert a.x * (k * a.x) == k * (a.x * a.x);
    assert a.y * (k * a.y) == k * (a.y * a.y);
  }

  lemma CrossWithScaled(e: Vec2d, k: real)
    ensures Cross(e, Scale(k, e)) == 0.0
  {
    assert e.x * (k * e.y) == k * (e.x * e.y);
    assert e.y * (k * e.x) == k * (e.x * e.y);
  }

  /** `ProjectPoint(v1, v2, p)`: the foot of the perpendicular from `p` onto
      the line through `v1` and `v2`. A zero squared length is replaced by 1,
      which makes the result `v1` when the two ends coincide. The result
      lies on the line; the segment from it to `p` is perpendicular to the
      line whenever the line has a non-zero squared length. */
  function ProjectPoint(v1: Vec2d, v2: Vec2d, p: Vec2d): (r: Vec2d)
    ensures v1 == v2 ==> r == v1
    ensures Cross(Sub(v2, v1), Sub(r, v1)) == 0.0
    ensures Dot(Sub(v2, v1), Sub(v2, v1)) != 0.0 ==> Dot(Sub(v2, v1), Sub(p, r)) == 0.0
  {
    var e1 := Sub(v2, v1);
    var e2 := Sub(p, v1);
    var len2 := Dot(e1, e1);
    var len := if len2 == 0.0 then 1.0 else len2;
    var k := Dot(e1, e2) / len;
    ProjectionFacts(e1, e2, len, k);
    Add(v1, Scale(k, e1))
  }

  lemma ProjectionFacts(e1: Vec2d, e2: Vec2d, len: real, k: real)
    requires len == (if Dot(e1, e1) == 0.0 then 1.0 else Dot(e1, e1))
    requires k == Dot(e1, e2) / len
    ensures e1 == Vec2d(0.0, 0.0) ==> Scale(k, e1) == e1
    ensures Cross(e1, Scale(k, e1)) == 0.0
    ensures Dot(e1, e1) != 0.0 ==> Dot(e1, Sub(e2, Scale(k, e1))) == 0.0
  {
    CrossWithScaled(e1, k);
    DotScaled(e1, e2, k);
    if Dot(e1, e1) != 0.0 {
      assert k * len == Dot(e1, e2);
    }
  }

  /** Lagrange's identity in the plane, solved for each coordinate of `d`. */
  lemma Identity(e: Vec2d, d: Vec2d)
    ensures Dot(e, e) * d.x == e.x * Dot(e, d) - e.y * Cross(e, d)
    ensures Dot(e, e) * d.y == e.y * Dot(e, d) + e.x * Cross(e, d)
  {
  }

  /** A vector perpendicular and parallel to a line of non-zero length is zero. */
  lemma PerpendicularAndParallel(e: Vec2d, d: Vec2d)
    requires Dot(e, e) != 0.0
    requires Dot(e, d) == 0.0 && Cross(e, d) == 0.0
    ensures d == Vec2d(0.0, 0.0)
  {
    Identity(e, d);
    CancelNonZero(Dot(e, e), d.x);
    CancelNonZero(Dot(e, e), d.y);
  }

  lemma CancelNonZero(n: real, z: real)
    requires n != 0.0 && n * z == 0.0
    ensures z == 0.0
  {
    assert z == (n * z) / n;
  }

  /** A projected point is already on the line: projecting it again leaves
      it where it is. */
  lemma ProjectIdempotent(v1: Vec2d, v2: Vec2d, p: Vec2d)
    requires Dot(Sub(v2, v1), Sub(v2, v1)) != 0.0
    ensures ProjectPoint(v1, v2, ProjectPoint(v1, v2, p)) == ProjectPoint(v1, v2, p)
  {
    var q := ProjectPoint(v1, v2, p);
    var q2 := ProjectPoint(v1, v2, q);
    var e1 := Sub(v2, v1);
    var d := Sub(q, q2);
    assert Sub(Sub(q, v1), Sub(q2, v1)) == d;
    CrossLinear(e1, Sub(q, v1), Sub(q2, v1));
    PerpendicularAndParallel(e1, d);
  }

  lemma CrossLinear(e: Vec2d, a: Vec2d, b: Vec2d)
    ensures Cross(e, Sub(a, b)) == Cross(e, a) - Cross(e, b)
  {
  }

  /** Both ends of the line project onto themselves. */
  lemma ProjectFixesEnds(v1: Vec2d, v2: Vec2d)
    requires Dot(Sub(v2, v1), Sub(v2, v1)) != 0.0
    ensures ProjectPoint(v1, v2, v1) == v1
    ensures ProjectPoint(v1, v2, v2) == v2
  {
    var e1 := Sub(v2, v1);
    var q1 := ProjectPoint(v1, v2, v1);
    CrossLinear(e1, Sub(v1, v1), Sub(q1, v1));
    assert Sub(Sub(v1, v1), Sub(q1, v1)) == Sub(v1, q1);
    PerpendicularAndParallel(e1, Sub(v1, q1));
    var q2 := ProjectPoint(v1, v2, v2);
    CrossLinear(e1, e1, Sub(q2, v1));
    assert Cross(e1, e1) == 0.0;
    assert Sub(e1, Sub(q2, v1)) == Sub(v2, q2);
    PerpendicularAndParallel(e1, Sub(v2, q2));
  }
}
