/** Integer plane geometry (Geometry/geometry.cpp): vectors with dot and
    cross products, and five shapes — point, segment, line, ray, circle —
    each able to move by a vector, test whether it contains a point, and
    test whether it meets a segment.  Coordinates are unbounded integers. */
module Geometry {

  function Min(a: int, b: int): int {
    if a <= b then a else b
  }

  function Max(a: int, b: int): int {
    if a <= b then b else a
  }

  /** t lies in the closed interval spanned by a and b, in either order. */
  predicate Between(t: int, a: int, b: int) {
    Min(a, b) <= t <= Max(a, b)
  }

  /** Check: order both pairs, then the larger low end is at most the
      smaller high end. */
  function Check(x1: int, x2: int, x3: int, x4: int): (r: bool)
    ensures r <==> Min(x1, x2) <= Max(x3, x4) && Min(x3, x4) <= Max(x1, x2)
  {
    var lo1, hi1 := if x1 > x2 then x2 else x1, if x1 > x2 then x1 else x2;
    var lo2, hi2 := if x3 > x4 then x4 else x3, if x3 > x4 then x3 else x4;
    Max(lo1, lo2) <= Min(hi1, hi2)
  }

  /** Check holds exactly when the two closed intervals share a point. */
  lemma CheckMeansOverlap(x1: int, x2: int, x3: int, x4: int)
    ensures Check(x1, x2, x3, x4) <==> exists t :: Between(t, x1, x2) && Between(t, x3, x4)
  {
    if Check(x1, x2, x3, x4) {
      var t := Max(Min(x1, x2), Min(x3, x4));
      assert Between(t, x1, x2) && Between(t, x3, x4);
    }
  }

  /** Check does not change when all four coordinates shift together. */
  lemma CheckShift(x1: int, x2: int, x3: int, x4: int, k: int)
    ensures Check(x1 + k, x2 + k, x3 + k, x4 + k) == Check(x1, x2, x3, x4)
  {
  }

  datatype Vector = Vector(x: int, y: int) {

    function Add(v: Vector): Vector {
      Vector(x + v.x, y + v.y)
    }

    function Sub(v: Vector): Vector {
      Vector(x - v.x, y - v.y)
    }

    /** `num * v` and `v *= num`. */
    function Scale(num: int): Vector {
      Vector(x * num, y * num)
    }

    /** Unary minus, which negates the vector in place. */
    function Neg(): Vector {
      Vector(-x, -y)
    }
  }

  /** operator*: the dot product. */
  function Dot(u: Vector, v: Vector): int {
    u.x * v.x + u.y * v.y
  }

  /** operator^: the cross product. */
  function Cross(u: Vector, v: Vector): int {
    u.x * v.y - u.y * v.x
  }

  lemma ProductSymmetry(u: Vector, v: Vector)
    ensures Dot(u, v) == Dot(v, u)
    ensures Cross(u, v) == -Cross(v, u)
    ensures Cross(u, u) == 0
    ensures Dot(u, u) >= 0
  {
  }

  /** Both products are bilinear in their first argument. */
  lemma ProductsLinear(u: Vector, v: Vector, w: Vector, k: int)
    ensures Dot(u.Add(v), w) == Dot(u, w) + Dot(v, w)
    ensures Cross(u.Add(v), w) == Cross(u, w) + Cross(v, w)
    ensures Dot(u.Scale(k), w) == k * Dot(u, w)
    ensures Cross(u.Scale(k), w) == k * Cross(u, w)
  {
  }

  datatype Point = Point(x: int, y: int) {

    function Move(v: Vector): Point {
      Point(x + v.x, y + v.y)
    }

    /** The vector from `q` to this point (operator- on two points). */
    function Minus(q: Point): Vector {
      Vector(x - q.x, y - q.y)
    }

    predicate Contains(p: Point) {
      x == p.x && y == p.y
    }

    predicate CrossSegment(s: Segment) {
      s.Contains(this)
    }
  }

  datatype Segment = Segment(a: Point, b: Point) {

    function Move(v: Vector): Segment {
      Segment(a.Move(v), b.Move(v))
    }

    /** Collinear with the segment, on the same side of `a` as `b`, and no
        farther from `a` than `b` is. */
    predicate Contains(p: Point) {
      var w := p.Minus(a);
      var d := b.Minus(a);
      Cross(w, d) == 0 && Dot(w, d) >= 0 && Dot(w, w) <= Dot(d, d)
    }

    /** Bounding boxes overlap on both axes, and each segment's end points
        lie on opposite (closed) sides of the other's supporting line. */
    predicate CrossSegment(s: Segment) {
      && Check(a.x, b.x, s.a.x, s.b.x)
      && Check(a.y, b.y, s.a.y, s.b.y)
      && Cross(s.a.Minus(a), b.Minus(a)) * Cross(s.b.Minus(a), b.Minus(a)) <= 0
      && Cross(a.Minus(s.a), s.b.Minus(s.a)) * Cross(b.Minus(s.a), s.b.Minus(s.a)) <= 0
    }
  }

  /** Both end points of a segment are on it. */
  lemma SegmentContainsEnds(s: Segment)
    ensures s.Contains(s.a) && s.Contains(s.b)
  {
    ProductSymmetry(s.b.Minus(s.a), s.b.Minus(s.a));
  }

  /** Moving a point by v and subtracting the old point gives v back, and
      moving q by p - q lands on p. */
  lemma MoveMinusInverse(p: Point, q: Point, v: Vector)
    ensures p.Move(v).Minus(p) == v
    ensures q.Move(p.Minus(q)) == p
  {
  }

  lemma ScaledProducts(e: Vector, k: int, n: int)
    ensures Cross(e.Scale(k), e.Scale(n)) == 0
    ensures Dot(e.Scale(k), e.Scale(n)) == (k * n) * Dot(e, e)
  {
    assert e.Scale(k).x * e.Scale(n).y == (k * n) * (e.x * e.y);
    assert e.Scale(k).y * e.Scale(n).x == (k * n) * (e.x * e.y);
    assert e.Scale(k).x * e.Scale(n).x == (k * n) * (e.x * e.x);
    assert e.Scale(k).y * e.Scale(n).y == (k * n) * (e.y * e.y);
  }

  lemma MultiplyMonotone(a: int, b: int, c: nat)
    requires a <= b
    ensures a * c <= b * c
  {
  }

  /** Every lattice point that divides the segment evenly is on it: when
      b = a + n·e, the points a + k·e for 0 <= k <= n are contained. */
  lemma SegmentContainsDivisionPoints(a: Point, e: Vector, n: nat, k: nat)
    requires k <= n
    ensures Segment(a, a.Move(e.Scale(n))).Contains(a.Move(e.Scale(k)))
  {
    var w := e.Scale(k);
    var d := e.Scale(n);
    MoveMinusInverse(a, a, w);
    MoveMinusInverse(a, a, d);
    ScaledProducts(e, k, n);
    ScaledProducts(e, k, k);
    ScaledProducts(e, n, n);
    ProductSymmetry(e, e);
    var dd: nat := Dot(e, e);
    MultiplyMonotone(0, k * n, dd);
    MultiplyMonotone(k * k, n * n, dd) by {
      MultiplyMonotone(k, n, k);
      MultiplyMonotone(k, n, n);
    }
  }

  /** Two segments meet symmetrically. */
  lemma SegmentCrossSymmetric(s: Segment, t: Segment)
    ensures s.CrossSegment(t) == t.CrossSegment(s)
  {
    var p := Cross(t.a.Minus(s.a), s.b.Minus(s.a)) * Cross(t.b.Minus(s.a), s.b.Minus(s.a));
    var q := Cross(s.a.Minus(t.a), t.b.Minus(t.a)) * Cross(s.b.Minus(t.a), t.b.Minus(t.a));
    assert s.CrossSegment(t) == (Check(s.a.x, s.b.x, t.a.x, t.b.x) && Check(s.a.y, s.b.y, t.a.y, t.b.y) && p <= 0 && q <= 0);
    assert t.CrossSegment(s) == (Check(t.a.x, t.b.x, s.a.x, s.b.x) && Check(t.a.y, t.b.y, s.a.y, s.b.y) && q <= 0 && p <= 0);
  }

  /** The line a·x + b·y + c == 0. */
  datatype Line = Line(a: int, b: int, c: int) {

    /** Shift the line by v: only the constant term changes. */
    function Move(v: Vector): Line {
      Line(a, b, c - (a * v.x + b * v.y))
    }

    /** Which side of the line p is on: zero on the line. */
    function Side(p: Point): int {
      a * p.x + b * p.y + c
    }

    predicate Contains(p: Point) {
      Side(p) == 0
    }

    /** The two end points are on opposite closed sides. */
    predicate CrossSegment(s: Segment) {
      var s1 := Side(s.a);
      var s2 := Side(s.b);
      (s1 <= 0 && s2 >= 0) || (s1 >= 0 && s2 <= 0)
    }
  }

  /** Line(p1, p2): the normal is the direction rotated by a quarter turn. */
  function LineThrough(p1: Point, p2: Point): (r: Line)
    ensures r.Contains(p1) && r.Contains(p2)
    ensures p1 != p2 ==> r.a != 0 || r.b != 0
  {
    var d := p2.Minus(p1);
    Line(-d.y, d.x, p1.x * p2.y - p2.x * p1.y)
  }

  /** Moving a line by v moves its points by v. */
  lemma LineMoveShifts(l: Line, v: Vector, p: Point)
    ensures l.Move(v).Side(p.Move(v)) == l.Side(p)
    ensures l.Move(v).Contains(p.Move(v)) <==> l.Contains(p)
  {
  }

  /** A line meets every segment that has an end point on it. */
  lemma LineCrossesAtEndPoint(l: Line, s: Segment)
    requires l.Contains(s.a) || l.Contains(s.b)
    ensures l.CrossSegment(s)
  {
  }

  datatype Ray = Ray(start: Point, direction: Vector) {

    function Move(v: Vector): Ray {
      Ray(start.Move(v), direction)
    }

    /** Parallel to the direction and not behind the start. */
    predicate Contains(p: Point) {
      var w := p.Minus(start);
      Cross(direction, w) == 0 && Dot(direction, w) >= 0
    }

    predicate CrossSegment(s: Segment) {
      var va := s.a.Minus(start);
      var vb := s.b.Minus(start);
      if (va.x == 0 && va.y == 0) || (vb.x == 0 && vb.y == 0) then true
      else
        && RayCheck(va, vb, direction)
        && Cross(va, direction) * Cross(vb, direction) <= 0
        && Cross(direction, va) * Cross(vb, va) >= 0
    }
  }

  /** RayCheck: rejects a segment one of whose end points lies straight
      behind the ray while the other is off the ray's line, and one whose
      both end points lie straight behind it. */
  predicate RayCheck(va: Vector, vb: Vector, dir: Vector) {
    var behindA := Cross(va, dir) == 0 && Dot(va, dir) < 0;
    var behindB := Cross(vb, dir) == 0 && Dot(vb, dir) < 0;
    if behindA && Cross(vb, dir) != 0 then false
    else if behindB && Cross(va, dir) != 0 then false
    else !(behindA && behindB)
  }

  /** Ray(p1, p2) starts at p1 and points towards p2. */
  function RayThrough(p1: Point, p2: Point): (r: Ray)
    ensures r.Contains(p1) && r.Contains(p2)
  {
    Ray(p1, p2.Minus(p1))
  }

  datatype Circle = Circle(centre: Point, radius: int) {

    function Move(v: Vector): Circle {
      Circle(centre.Move(v), radius)
    }

    function SquaredDistance(p: Point): int {
      (centre.x - p.x) * (centre.x - p.x) + (centre.y - p.y) * (centre.y - p.y)
    }

    /** The closed disc. */
    predicate Contains(p: Point) {
      SquaredDistance(p) <= radius * radius
    }

    /** The open disc (ContainsPointNoCircle). */
    predicate ContainsStrictly(p: Point) {
      SquaredDistance(p) < radius * radius
    }

    /** Not when both end points are strictly inside; yes when exactly one
        is in the closed disc; otherwise the supporting line is close
        enough to the centre and the centre's foot falls between the end
        points. */
    predicate CrossSegment(s: Segment) {
      if ContainsStrictly(s.a) && ContainsStrictly(s.b) then false
      else if Contains(s.a) != Contains(s.b) then true
      else
        var d := s.b.Minus(s.a);
        var cofa := -d.y;
        var cofb := d.x;
        var dist := cofa * (centre.x - s.a.x) + cofb * (centre.y - s.a.y);
        var near := dist * dist <= radius * radius * (cofa * cofa + cofb * cofb);
        var normal := Vector(-d.y, d.x);
        near && Cross(centre.Minus(s.b), normal) * Cross(centre.Minus(s.a), normal) <= 0
    }
  }

  /** A point strictly inside is inside. */
  lemma CircleStrictImpliesClosed(c: Circle, p: Point)
    ensures c.ContainsStrictly(p) ==> c.Contains(p)
    ensures c.Contains(c.centre)
  {
  }

  /** A chord with exactly one end in the closed disc meets the circle; a
      segment strictly inside never does. */
  lemma CircleCrossCases(c: Circle, s: Segment)
    ensures c.ContainsStrictly(s.a) && c.ContainsStrictly(s.b) ==> !c.CrossSegment(s)
    ensures c.Contains(s.a) != c.Contains(s.b) ==> c.CrossSegment(s)
  {
  }

  // ---------------------------------------------------------------------
  // The shape interface

  datatype Shape =
    | PointShape(point: Point)
    | SegmentShape(segment: Segment)
    | LineShape(line: Line)
    | RayShape(ray: Ray)
    | CircleShape(circle: Circle)
  {

    function Move(v: Vector): Shape {
      match this
      case PointShape(p) => PointShape(p.Move(v))
      case SegmentShape(s) => SegmentShape(s.Move(v))
      case LineShape(l) => LineShape(l.Move(v))
      case RayShape(r) => RayShape(r.Move(v))
      case CircleShape(c) => CircleShape(c.Move(v))
    }

    predicate Contains(p: Point) {
      match this
      case PointShape(q) => q.Contains(p)
      case SegmentShape(s) => s.Contains(p)
      case LineShape(l) => l.Contains(p)
      case RayShape(r) => r.Contains(p)
      case CircleShape(c) => c.Contains(p)
    }

    predicate CrossSegment(s: Segment) {
      match this
      case PointShape(q) => q.CrossSegment(s)
      case SegmentShape(t) => t.CrossSegment(s)
      case LineShape(l) => l.CrossSegment(s)
      case RayShape(r) => r.CrossSegment(s)
      case CircleShape(c) => c.CrossSegment(s)
    }
  }

  /** Moving by v and then by -v restores every shape. */
  lemma MoveBackRestores(sh: Shape, v: Vector)
    ensures sh.Move(v).Move(v.Neg()) == sh
  {
  }

  /** Every shape moves rigidly: the moved shape contains p + v exactly
      when the original contains p. */
  lemma MoveShiftsContainment(sh: Shape, v: Vector, p: Point)
    ensures sh.Move(v).Contains(p.Move(v)) <==> sh.Contains(p)
  {
    match sh
    case PointShape(q) =>
    case SegmentShape(s) =>
      assert p.Move(v).Minus(s.a.Move(v)) == p.Minus(s.a);
      assert s.b.Move(v).Minus(s.a.Move(v)) == s.b.Minus(s.a);
    case LineShape(l) => LineMoveShifts(l, v, p);
    case RayShape(r) =>
      assert p.Move(v).Minus(r.start.Move(v)) == p.Minus(r.start);
    case CircleShape(c) =>
      assert c.Move(v).SquaredDistance(p.Move(v)) == c.SquaredDistance(p);
  }

  /** Meeting a segment is invariant under moving both by the same vector. */
  lemma MoveShiftsCrossing(sh: Shape, v: Vector, s: Segment)
    ensures sh.Move(v).CrossSegment(s.Move(v)) <==> sh.CrossSegment(s)
  {
    var t := s.Move(v);
    assert t.a.Minus(s.a) == v && t.b.Minus(s.b) == v;
    match sh
    case PointShape(q) =>
      assert t.a.Minus(s.a) == v;
      assert q.Move(v).Minus(t.a) == q.Minus(s.a);
      assert t.b.Minus(t.a) == s.b.Minus(s.a);
    case SegmentShape(u) =>
      var m := u.Move(v);
      CheckShift(u.a.x, u.b.x, s.a.x, s.b.x, v.x);
      CheckShift(u.a.y, u.b.y, s.a.y, s.b.y, v.y);
      assert t.a.Minus(m.a) == s.a.Minus(u.a) && t.b.Minus(m.a) == s.b.Minus(u.a);
      assert m.b.Minus(m.a) == u.b.Minus(u.a);
      assert m.a.Minus(t.a) == u.a.Minus(s.a) && m.b.Minus(t.a) == u.b.Minus(s.a);
      assert t.b.Minus(t.a) == s.b.Minus(s.a);
    case LineShape(l) =>
      LineMoveShifts(l, v, s.a);
      LineMoveShifts(l, v, s.b);
    case RayShape(r) =>
      assert t.a.Minus(r.start.Move(v)) == s.a.Minus(r.start);
      assert t.b.Minus(r.start.Move(v)) == s.b.Minus(r.start);
    case CircleShape(c) =>
      var m := c.Move(v);
      assert m.SquaredDistance(t.a) == c.SquaredDistance(s.a);
      assert m.SquaredDistance(t.b) == c.SquaredDistance(s.b);
      assert t.b.Minus(t.a) == s.b.Minus(s.a);
      assert m.centre.x - t.a.x == c.centre.x - s.a.x && m.centre.y - t.a.y == c.centre.y - s.a.y;
      assert m.centre.Minus(t.a) == c.centre.Minus(s.a) && m.centre.Minus(t.b) == c.centre.Minus(s.b);
  }

  /** A shape made from a point contains exactly that point. */
  lemma PointContainsOnlyItself(q: Point, p: Point)
    ensures PointShape(q).Contains(p) <==> p == q
  {
  }
}
