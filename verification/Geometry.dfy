/** The plane geometry of route following, over the reals. */
module Geometry {

  datatype Point = Point(px: real, py: real)

  function Square(x: real): (r: real)
    ensures r >= 0.0
  {
    x * x
  }

  /** The squared distance; comparing distances is comparing these. */
  function Dist2(p: Point, q: Point): (r: real)
    ensures r >= 0.0
  {
    Square(q.px - p.px) + Square(q.py - p.py)
  }

  /** The point a fraction t of the way from p to q. */
  function Along(p: Point, q: Point, t: real): Point {
    Point(p.px + t * (q.px - p.px), p.py + t * (q.py - p.py))
  }

  predicate OnCircle(c: Point, rad: real, p: Point) {
    Dist2(c, p) == rad * rad
  }

  /** A point of the segment, t of the way along it, that lies on the circle. */
  predicate Hit(c: Point, rad: real, p: Point, q: Point, t: real) {
    0.0 <= t <= 1.0 && OnCircle(c, rad, Along(p, q, t))
  }

  // ----- the quadratic whose roots are the hits

  function QuadA(p: Point, q: Point): real {
    Dist2(p, q)
  }

  function QuadB(c: Point, p: Point, q: Point): real {
    2.0 * ((q.px - p.px) * (p.px - c.px) + (q.py - p.py) * (p.py - c.py))
  }

  function QuadC(c: Point, rad: real, p: Point): real {
    (p.px - c.px) * (p.px - c.px) + (p.py - c.py) * (p.py - c.py) - rad * rad
  }

  function Det(c: Point, rad: real, p: Point, q: Point): real {
    var b := QuadB(c, p, q);
    b * b - 4.0 * QuadA(p, q) * QuadC(c, rad, p)
  }

  lemma CircleIsQuadratic(c: Point, rad: real, p: Point, q: Point, t: real)
    ensures OnCircle(c, rad, Along(p, q, t)) <==> QuadA(p, q) * (t * t) + QuadB(c, p, q) * t + QuadC(c, rad, p) == 0.0
  {
    hide QuadA, QuadB, QuadC, Square;
    var ex, ey, dx, dy := p.px - c.px, p.py - c.py, q.px - p.px, q.py - p.py;
    var a := Along(p, q, t);
    CoefficientsAre(c, rad, p, q);
    Expand(ex, ey, dx, dy, t, QuadA(p, q), QuadB(c, p, q), a.px - c.px, a.py - c.py);
  }

  lemma CoefficientsAre(c: Point, rad: real, p: Point, q: Point)
    ensures var ex, ey, dx, dy := p.px - c.px, p.py - c.py, q.px - p.px, q.py - p.py;
            && QuadA(p, q) == Square(dx) + Square(dy) && QuadB(c, p, q) == 2.0 * (dx * ex + dy * ey)
            && QuadC(c, rad, p) == Square(ex) + Square(ey) - rad * rad
  {
  }

  lemma Expand(ex: real, ey: real, dx: real, dy: real, t: real, a: real, b: real, x: real, y: real)
    requires a == Square(dx) + Square(dy) && b == 2.0 * (dx * ex + dy * ey) && x == ex + t * dx && y == ey + t * dy
    ensures Square(x) + Square(y) == a * (t * t) + b * t + (Square(ex) + Square(ey))
  {
    SquareOfSum(ex, dx, t);
    SquareOfSum(ey, dy, t);
  }

  lemma SquareOfSum(e: real, d: real, t: real)
    ensures (e + t * d) * (e + t * d) == d * d * (t * t) + 2.0 * (d * e) * t + e * e
  {
  }

  /** The roots of a quadratic, from a square root of its determinant. */
  lemma Roots(a: real, b: real, c: real, s: real, t: real)
    requires a > 0.0 && s * s == b * b - 4.0 * a * c
    ensures a * (t * t) + b * t + c == 0.0 <==> t == (-b + s) / (2.0 * a) || t == (-b - s) / (2.0 * a)
  {
    var u := 2.0 * a * t + b;
    var v := a * (t * t) + b * t + c;
    assert u * u == 4.0 * a * v + s * s;
    assert (u - s) * (u + s) == 4.0 * a * v;
    RootIs(a, b, s, t);
    RootIs(a, b, -s, t);
    if v == 0.0 {
      ZeroProduct(u - s, u + s);
    } else {
      NonzeroProduct(4.0 * a, v);
    }
  }

  lemma RootIs(a: real, b: real, s: real, t: real)
    requires a > 0.0
    ensures t == (-b + s) / (2.0 * a) <==> 2.0 * a * t + b == s
  {
  }

  lemma ZeroProduct(x: real, y: real)
    requires x * y == 0.0
    ensures x == 0.0 || y == 0.0
  {
  }

  lemma NonzeroProduct(x: real, y: real)
    requires x != 0.0 && y != 0.0
    ensures x * y != 0.0
  {
  }

  lemma NoRoots(a: real, b: real, c: real, t: real)
    requires a > 0.0 && b * b - 4.0 * a * c < 0.0
    ensures a * (t * t) + b * t + c != 0.0
  {
    var u := 2.0 * a * t + b;
    var v := a * (t * t) + b * t + c;
    assert u * u == 4.0 * a * v + (b * b - 4.0 * a * c);
    assert Square(u) == u * u;
  }

  // ----- the bounding box

  function Max(x: real, y: real): real {
    if x < y then y else x
  }

  function Min(x: real, y: real): real {
    if x < y then x else y
  }

  lemma Between(p: real, q: real, t: real)
    ensures 0.0 <= t <= 1.0 ==> Min(p, q) <= p + t * (q - p) <= Max(p, q)
    ensures p != q && Min(p, q) <= p + t * (q - p) <= Max(p, q) ==> 0.0 <= t <= 1.0
  {
    var m := t * (q - p);
    if p < q {
      Fraction(t, q - p, m);
    } else if p > q {
      Fraction(t, p - q, -m);
    } else {
      assert m == 0.0;
    }
  }

  lemma Fraction(t: real, d: real, m: real)
    requires d > 0.0 && m == t * d
    ensures (t < 0.0 <==> m < 0.0) && (t > 1.0 <==> m > d)
  {
    if t < 0.0 {
      PositiveProduct(-t, d, -m);
    } else if t > 1.0 {
      PositiveProduct(t - 1.0, d, m - d);
    } else {
      NonnegativeProduct(t, d, m);
      NonnegativeProduct(1.0 - t, d, d - m);
    }
  }

  lemma PositiveProduct(x: real, y: real, m: real)
    requires x > 0.0 && y > 0.0 && m == x * y
    ensures m > 0.0
  {
  }

  lemma NonnegativeProduct(x: real, y: real, m: real)
    requires x >= 0.0 && y >= 0.0 && m == x * y
    ensures m >= 0.0
  {
  }

  lemma SquareMono(x: real, y: real)
    requires 0.0 < x <= y
    ensures 0.0 < Square(x) <= Square(y)
  {
    PositiveProduct(x, x, Square(x));
    var m := (y - x) * (y + x);
    NonnegativeProduct(y - x, y + x, m);
    assert m == Square(y) - Square(x);
  }

  /** Comparing distances is comparing their squares. */
  lemma SquareLess(x: real, y: real)
    requires 0.0 <= x && 0.0 < y
    ensures Square(x) < Square(y) <==> x < y
  {
    if x < y {
      var m := (y - x) * (y + x);
      PositiveProduct(y - x, y + x, m);
      assert m == Square(y) - Square(x);
    } else {
      SquareMono(y, x);
    }
  }

  // ----- intersections

  datatype Found = Found(count: nat, int1: Point, int2: Point)

  predicate InBox(p: Point, q: Point, x: Point) {
    Min(p.px, q.px) <= x.px <= Max(p.px, q.px) && Min(p.py, q.py) <= x.py <= Max(p.py, q.py)
  }

  lemma BoxIsSegment(p: Point, q: Point, t: real)
    requires p != q
    ensures InBox(p, q, Along(p, q, t)) <==> 0.0 <= t <= 1.0
  {
    Between(p.px, q.px, t);
    Between(p.py, q.py, t);
  }

  /** The points where the segment meets the circle are exactly those found: the first is further along. */
  ghost predicate Intersections(c: Point, rad: real, p: Point, q: Point, r: Found) {
    match r.count
    case 0 => forall t: real :: !Hit(c, rad, p, q, t)
    case 1 => exists t: real :: Hit(c, rad, p, q, t) && r.int1 == Along(p, q, t) && forall t': real :: Hit(c, rad, p, q, t') ==> t' == t
    case _ =>
      r.count == 2 &&
      exists t: real, t': real :: t > t' && Hit(c, rad, p, q, t) && Hit(c, rad, p, q, t') && r.int1 == Along(p, q, t) && r.int2 == Along(p, q, t')
                      && forall u: real :: Hit(c, rad, p, q, u) ==> u == t || u == t'
  }

  /** The two roots, for either sign of the square root s of the determinant. */
  function Root(c: Point, p: Point, q: Point, s: real): real
    requires QuadA(p, q) > 0.0
  {
    (-QuadB(c, p, q) + s) / (2.0 * QuadA(p, q))
  }

  lemma HitsAre(c: Point, rad: real, p: Point, q: Point, s: real, t: real)
    requires QuadA(p, q) > 0.0 && s * s == Det(c, rad, p, q)
    ensures Hit(c, rad, p, q, t) <==> InBox(p, q, Along(p, q, t)) && (t == Root(c, p, q, s) || t == Root(c, p, q, -s))
  {
    hide QuadA, QuadB, QuadC, Along, InBox, OnCircle, Root, Det;
    DistinctEnds(p, q);
    CircleIsQuadratic(c, rad, p, q, t);
    RootsAre(c, rad, p, q, s, t);
    BoxIsSegment(p, q, t);
  }

  lemma RootsAre(c: Point, rad: real, p: Point, q: Point, s: real, t: real)
    requires QuadA(p, q) > 0.0 && s * s == Det(c, rad, p, q)
    ensures QuadA(p, q) * (t * t) + QuadB(c, p, q) * t + QuadC(c, rad, p) == 0.0 <==> t == Root(c, p, q, s) || t == Root(c, p, q, -s)
  {
    hide QuadA, QuadB, QuadC;
    Roots(QuadA(p, q), QuadB(c, p, q), QuadC(c, rad, p), s, t);
  }

  lemma DistinctEnds(p: Point, q: Point)
    requires QuadA(p, q) > 0.0
    ensures p != q
  {
  }

  lemma NoHits(c: Point, rad: real, p: Point, q: Point, t: real)
    requires QuadA(p, q) > 0.0 && Det(c, rad, p, q) < 0.0
    ensures !Hit(c, rad, p, q, t)
  {
    hide QuadA, QuadB, QuadC, Along, OnCircle;
    CircleIsQuadratic(c, rad, p, q, t);
    NoRoots(QuadA(p, q), QuadB(c, p, q), QuadC(c, rad, p), t);
  }

  lemma RootsOrdered(c: Point, p: Point, q: Point, s: real)
    requires QuadA(p, q) > 0.0 && s >= 0.0
    ensures Root(c, p, q, -s) <= Root(c, p, q, s) && (s > 0.0 ==> Root(c, p, q, -s) < Root(c, p, q, s))
  {
    hide QuadA, QuadB;
  }

  lemma SquareZero(s: real, det: real)
    requires s >= 0.0 && s * s == det
    ensures s == 0.0 <==> det == 0.0
  {
    if s > 0.0 {
      PositiveProduct(s, s, det);
    }
  }

  /** utils_circle_line_int; s is what the square root routine gives for the determinant. */
  method CircleLineInt(c: Point, rad: real, p: Point, q: Point, s: real, int1: Point, int2: Point) returns (r: Found)
    requires Det(c, rad, p, q) >= 0.0 ==> s >= 0.0 && s * s == Det(c, rad, p, q)
    ensures QuadA(p, q) > 0.000001 ==> Intersections(c, rad, p, q, r)
    ensures QuadA(p, q) <= 0.000001 ==> r.count == 0
  {
    hide QuadA, QuadB, QuadC, Det, Along, Hit, Root;
    var a, b, det := QuadA(p, q), QuadB(c, p, q), Det(c, rad, p, q);
    r := Found(0, int1, int2);
    if a <= 0.000001 || det < 0.0 {
      if a > 0.000001 {
        forall t: real ensures !Hit(c, rad, p, q, t) {
          NoHits(c, rad, p, q, t);
        }
      }
      return;
    }
    SquareZero(s, det);
    RootsOrdered(c, p, q, s);
    forall t: real
      ensures Hit(c, rad, p, q, t) <==> InBox(p, q, Along(p, q, t)) && (t == Root(c, p, q, s) || t == Root(c, p, q, -s))
    {
      HitsAre(c, rad, p, q, s, t);
    }
    if det == 0.0 {
      var t := Root(c, p, q, 0.0);
      var x := Along(p, q, t);
      if InBox(p, q, x) {
        r := r.(int1 := x, count := r.count + 1);
      }
    } else {
      var t := Root(c, p, q, s);
      var x := Along(p, q, t);
      if InBox(p, q, x) {
        r := r.(int1 := x, count := r.count + 1);
      }
      t := Root(c, p, q, -s);
      x := Along(p, q, t);
      if InBox(p, q, x) {
        if r.count > 0 {
          r := r.(int2 := x);
        } else {
          r := r.(int1 := x);
        }
        r := r.(count := r.count + 1);
      }
    }
  }

  // ----- which hit is further along

  lemma DistToEnd(p: Point, q: Point, t: real)
    ensures Dist2(Along(p, q, t), q) == (1.0 - t) * (1.0 - t) * QuadA(p, q)
  {
    hide Square, QuadA;
    var dx, dy, w, a := q.px - p.px, q.py - p.py, 1.0 - t, Along(p, q, t);
    CoefficientsAre(p, 0.0, p, q);
    Shrink(dx, dy, w, QuadA(p, q), q.px - a.px, q.py - a.py);
  }

  lemma Shrink(dx: real, dy: real, w: real, a: real, x: real, y: real)
    requires a == Square(dx) + Square(dy) && x == w * dx && y == w * dy
    ensures Square(x) + Square(y) == w * w * a
  {
  }

  lemma FurtherIsNearerEnd(p: Point, q: Point, t: real, t': real)
    requires QuadA(p, q) > 0.0 && t' < t <= 1.0
    ensures Dist2(Along(p, q, t), q) < Dist2(Along(p, q, t'), q)
  {
    hide Square, QuadA, Along, Dist2;
    DistToEnd(p, q, t);
    DistToEnd(p, q, t');
    Ordered(1.0 - t, 1.0 - t', QuadA(p, q));
  }

  lemma Ordered(v: real, w: real, a: real)
    requires a > 0.0 && 0.0 <= v < w
    ensures v * v * a < w * w * a
  {
    PositiveProduct(w - v, w + v, w * w - v * v);
    PositiveProduct(w * w - v * v, a, w * w * a - v * v * a);
  }

  /** Of two intersections the program follows the one nearer the segment's end: the first. */
  lemma FirstIsFollowed(c: Point, rad: real, p: Point, q: Point, r: Found)
    requires QuadA(p, q) > 0.0 && Intersections(c, rad, p, q, r) && r.count == 2
    ensures Dist2(r.int1, q) < Dist2(r.int2, q)
  {
    hide QuadA, Along, Dist2, OnCircle;
    var t: real, t': real :| t > t' && Hit(c, rad, p, q, t) && Hit(c, rad, p, q, t') && r.int1 == Along(p, q, t) && r.int2 == Along(p, q, t')
                             && forall u: real :: Hit(c, rad, p, q, u) ==> u == t || u == t';
    FurtherIsNearerEnd(p, q, t, t');
  }

  /** The first intersection reported is the one furthest along. */
  lemma FirstHit(c: Point, rad: real, p: Point, q: Point, r: Found) returns (t: real)
    requires Intersections(c, rad, p, q, r) && r.count > 0
    ensures Hit(c, rad, p, q, t) && r.int1 == Along(p, q, t) && forall u: real :: Hit(c, rad, p, q, u) ==> u <= t
  {
    hide Hit, Along;
    if r.count == 1 {
      t :| Hit(c, rad, p, q, t) && r.int1 == Along(p, q, t) && forall u: real :: Hit(c, rad, p, q, u) ==> u == t;
    } else {
      var t': real;
      t, t' :| t > t' && Hit(c, rad, p, q, t) && Hit(c, rad, p, q, t') && r.int1 == Along(p, q, t) && r.int2 == Along(p, q, t')
               && forall u: real :: Hit(c, rad, p, q, u) ==> u == t || u == t';
    }
  }

  // ----- the closest point

  function Dot(x: Point, p: Point, q: Point): real {
    (x.px - p.px) * (q.px - p.px) + (x.py - p.py) * (q.py - p.py)
  }

  lemma DistAlong(x: Point, p: Point, q: Point, t: real)
    ensures Dist2(x, Along(p, q, t)) == Dist2(x, p) + t * t * QuadA(p, q) - 2.0 * t * Dot(x, p, q)
  {
    hide Square, QuadA, QuadB, QuadC, Dot, Dist2, Along;
    var b := -2.0 * Dot(x, p, q);
    DotIs(x, p, q);
    AlongExpanded(x, p, q, t, b);
    Rearrange(QuadA(p, q), Dot(x, p, q), t, Dist2(x, Along(p, q, t)), Dist2(x, p), b);
  }

  lemma AlongExpanded(x: Point, p: Point, q: Point, t: real, b: real)
    requires b == 2.0 * ((q.px - p.px) * (p.px - x.px) + (q.py - p.py) * (p.py - x.py))
    ensures Dist2(x, Along(p, q, t)) == QuadA(p, q) * (t * t) + b * t + Dist2(x, p)
  {
    hide Square, QuadA, QuadB, QuadC;
    var ex, ey, dx, dy, a := p.px - x.px, p.py - x.py, q.px - p.px, q.py - p.py, Along(p, q, t);
    CoefficientsAre(x, 0.0, p, q);
    Expand(ex, ey, dx, dy, t, QuadA(p, q), b, a.px - x.px, a.py - x.py);
  }

  lemma DotIs(x: Point, p: Point, q: Point)
    ensures -2.0 * Dot(x, p, q) == 2.0 * ((q.px - p.px) * (p.px - x.px) + (q.py - p.py) * (p.py - x.py))
  {
  }

  lemma Rearrange(a: real, d: real, t: real, m: real, k: real, b: real)
    requires b == -2.0 * d && m == a * (t * t) + b * t + k
    ensures m == k + t * t * a - 2.0 * t * d
  {
  }

  /** The quadratic t*t*a - 2*t*d is least on the unit interval at d/a, cut to the interval. */
  lemma LeastAt(a: real, d: real, t: real, u: real)
    requires a > 0.0 && 0.0 <= u <= 1.0
    requires t == if d / a < 0.0 then 0.0 else if d / a > 1.0 then 1.0 else d / a
    ensures t * t * a - 2.0 * t * d <= u * u * a - 2.0 * u * d
  {
    var e := u - t;
    var g := a * (u + t) - 2.0 * d;
    assert e * g == u * u * a - 2.0 * u * d - (t * t * a - 2.0 * t * d);
    assert d / a * a == d;
    if d / a < 0.0 {
      NegativeQuotient(d, a);
      NonnegativeProduct(a, u, g + 2.0 * d);
      NonnegativeProduct(e, g, e * g);
    } else if d / a > 1.0 {
      LargeQuotient(d, a);
      NonnegativeProduct(a, 1.0 - u, 2.0 * a - a * (u + t));
      NonnegativeProduct(-e, -g, e * g);
    } else {
      assert g == a * e;
      NonnegativeProduct(a, e * e, e * g);
    }
  }

  lemma NegativeQuotient(d: real, a: real)
    requires a > 0.0 && d / a < 0.0
    ensures d < 0.0
  {
  }

  lemma LargeQuotient(d: real, a: real)
    requires a > 0.0 && d / a > 1.0
    ensures d > a
  {
  }

  /** utils_closest_point_line: no point of the segment is closer. */
  method ClosestPointLine(p: Point, q: Point, x: Point) returns (res: Point)
    ensures exists t: real :: 0.0 <= t <= 1.0 && res == Along(p, q, t)
    ensures QuadA(p, q) > 0.000001 ==> forall u: real :: 0.0 <= u <= 1.0 ==> Dist2(x, res) <= Dist2(x, Along(p, q, u))
    ensures QuadA(p, q) <= 0.000001 ==> res == p
    ensures res == Closest(p, q, x)
  {
    hide QuadA, Dot, Dist2, Square;
    var ab2, apab := QuadA(p, q), Dot(x, p, q);
    var t := if ab2 <= 0.000001 then 0.0 else apab / ab2;
    if t < 0.0 {
      t := 0.0;
    } else if t > 1.0 {
      t := 1.0;
    }
    res := Along(p, q, t);
    assert res == Closest(p, q, x);
    if ab2 > 0.000001 {
      forall u: real | 0.0 <= u <= 1.0 ensures Dist2(x, res) <= Dist2(x, Along(p, q, u)) {
        ClosestNearest(p, q, x, u);
      }
    }
  }

  lemma ClosestNearest(p: Point, q: Point, x: Point, u: real)
    requires QuadA(p, q) > 0.000001 && 0.0 <= u <= 1.0
    ensures Dist2(x, Closest(p, q, x)) <= Dist2(x, Along(p, q, u))
  {
    hide QuadA, Dot, Dist2, Square, Along;
    var a, d := QuadA(p, q), Dot(x, p, q);
    var t := if d / a < 0.0 then 0.0 else if d / a > 1.0 then 1.0 else d / a;
    DistAlong(x, p, q, t);
    DistAlong(x, p, q, u);
    LeastAt(a, d, t, u);
  }

  /** The same as a function. */
  function Closest(p: Point, q: Point, x: Point): Point {
    var a, d := QuadA(p, q), Dot(x, p, q);
    if a <= 0.000001 || d / a < 0.0 then Along(p, q, 0.0) else if d / a > 1.0 then Along(p, q, 1.0) else Along(p, q, d / a)
  }
}
