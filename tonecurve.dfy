/**
  The tone curve of the auto-histogram filter: a Catmull-Rom spline with
  uniform knots through control points (x, y), evaluated at a level x by
  finding the segment that holds x and bisecting the segment's parameter t
  until the curve's x is within 0.01 of the query.
 */
module CatmullRom {
  import opened Pixels

  datatype Point = Point(x: real, y: real)

  /** What `new CatmullRomCurve(pts)` holds: the points p and one tangent m[i] per point. */
  datatype Curve = Curve(p: seq<Point>, m: seq<Point>)

  /** What `getValue` yields: a level, undefined when no segment holds x, or no answer within the fuel. */
  datatype Lookup = Value(level: Byte) | NoSegment | OutOfFuel

  /** Half the difference from a to b, coordinate by coordinate. */
  function HalfStep(a: Point, b: Point): Point
  {
    Point(0.5 * (b.x - a.x), 0.5 * (b.y - a.y))
  }

  /**
    Tangent of control point i: a one-sided half-difference at the first and
    at the last point, the centred half-difference `(p[i+1] - p[i-1]) / 2` at
    every interior point.
   */
  function Tangent(pts: seq<Point>, i: nat): Point
    requires |pts| >= 2 && i < |pts|
  {
    if i == 0 then HalfStep(pts[0], pts[1])
    else if i == |pts| - 1 then HalfStep(pts[i - 1], pts[i])
    else HalfStep(pts[i - 1], pts[i + 1])
  }

  /**
    The constructor: pushes one tangent per point. With a single point the
    first step reads the missing second point and throws, which is None here;
    with no point at all the loop does nothing.
   */
  method NewCurve(pts: seq<Point>) returns (c: Option<Curve>)
    ensures c.None? <==> |pts| == 1
    ensures c.Some? ==> c.value.p == pts && |c.value.m| == |pts|
    ensures c.Some? ==> forall i :: 0 <= i < |pts| ==> c.value.m[i] == Tangent(pts, i)
  {
    var m: seq<Point> := [];
    var i := 0;
    while i < |pts|
      invariant 0 <= i <= |pts|
      invariant i > 0 ==> |pts| >= 2
      invariant |m| == i
      invariant forall k :: 0 <= k < i ==> m[k] == Tangent(pts, k)
    {
      if i == 0 {
        if |pts| < 2 {
          return None;
        }
        m := m + [HalfStep(pts[i], pts[i + 1])];
      } else if i == |pts| - 1 {
        m := m + [HalfStep(pts[i - 1], pts[i])];
      } else {
        m := m + [HalfStep(pts[i - 1], pts[i + 1])];
      }
      i := i + 1;
    }
    return Some(Curve(pts, m));
  }

  /** Control points whose x strictly increases from each point to the next. */
  predicate StrictlyIncreasing(pts: seq<Point>)
  {
    forall i :: 0 <= i < |pts| - 1 ==> pts[i].x < pts[i + 1].x
  }

  /** With strictly increasing x every tangent points to the right. */
  lemma TangentsPointRight(pts: seq<Point>, i: nat)
    requires |pts| >= 2 && i < |pts| && StrictlyIncreasing(pts)
    ensures Tangent(pts, i).x > 0.0
  {
    if 0 < i < |pts| - 1 {
      assert pts[i - 1].x < pts[i].x < pts[i + 1].x;
    }
  }

  /** The default control points (0, 0) and (255, 255). */
  function DefaultPoints(): seq<Point>
  {
    [Point(0.0, 0.0), Point(255.0, 255.0)]
  }

  /** Both default tangents are (127.5, 127.5). */
  lemma DefaultTangents()
    ensures Tangent(DefaultPoints(), 0) == Point(127.5, 127.5)
    ensures Tangent(DefaultPoints(), 1) == Point(127.5, 127.5)
  {
  }

  // ---------------------------------------------------------------------------
  // The cubic Hermite basis

  function H00(t: real): (v: real)
    ensures t == 0.0 ==> v == 1.0
    ensures t == 1.0 ==> v == 0.0
  {
    (1.0 + 2.0 * t) * (1.0 - t) * (1.0 - t)
  }

  function H10(t: real): (v: real)
    ensures t == 0.0 ==> v == 0.0
    ensures t == 1.0 ==> v == 0.0
  {
    t * (1.0 - t) * (1.0 - t)
  }

  function H01(t: real): (v: real)
    ensures t == 0.0 ==> v == 0.0
    ensures t == 1.0 ==> v == 1.0
  {
    t * t * (3.0 - 2.0 * t)
  }

  function H11(t: real): (v: real)
    ensures t == 0.0 ==> v == 0.0
    ensures t == 1.0 ==> v == 0.0
  {
    t * t * (t - 1.0)
  }

  /** The two position weights always add up to one. */
  lemma PositionWeightsSumToOne(t: real)
    ensures H00(t) + H01(t) == 1.0
  {
  }

  /** The point at parameter t of the segment from l (tangent ml) to r (tangent mr). */
  function SegmentPoint(l: Point, ml: Point, r: Point, mr: Point, t: real): (q: Point)
    ensures t == 0.0 ==> q == l
    ensures t == 1.0 ==> q == r
  {
    Point(H00(t) * l.x + H10(t) * ml.x + H01(t) * r.x + H11(t) * mr.x,
          H00(t) * l.y + H10(t) * ml.y + H01(t) * r.y + H11(t) * mr.y)
  }

  /** A segment whose ends and tangents lie on the diagonal stays on it. */
  lemma DiagonalSegment(l: Point, ml: Point, r: Point, mr: Point, t: real)
    requires l.x == l.y && ml.x == ml.y && r.x == r.y && mr.x == mr.y
    ensures SegmentPoint(l, ml, r, mr, t).x == SegmentPoint(l, ml, r, mr, t).y
  {
  }

  // ---------------------------------------------------------------------------
  // Segment search and evaluation

  /** Segment k, from point k to point k + 1, holds x. */
  predicate InSegment(p: seq<Point>, k: nat, x: real)
    requires k + 1 < |p|
  {
    p[k].x <= x <= p[k + 1].x
  }

  /** The loop of `getValue` over the segments: the first one that holds x, if any. */
  method FindSegment(p: seq<Point>, x: real) returns (s: Option<nat>)
    ensures s.Some? ==> s.value + 1 < |p| && InSegment(p, s.value, x)
    ensures s.Some? ==> forall k :: 0 <= k < s.value ==> !InSegment(p, k, x)
    ensures s.None? <==> forall k :: 0 <= k < |p| - 1 ==> !InSegment(p, k, x)
  {
    var i := 0;
    while i < |p| - 1
      invariant 0 <= i <= if |p| == 0 then 0 else |p| - 1
      invariant forall k :: 0 <= k < i ==> !InSegment(p, k, x)
    {
      if x >= p[i].x && x <= p[i + 1].x {
        assert InSegment(p, i, x);
        return Some(i);
      }
      i := i + 1;
    }
    return None;
  }

  /** Control points whose x never decreases. */
  predicate NonDecreasing(p: seq<Point>)
  {
    forall i :: 0 <= i < |p| - 1 ==> p[i].x <= p[i + 1].x
  }

  /** With non-decreasing x, every x between the first and the last point lies in some segment. */
  lemma {:induction false} RangeIsCovered(p: seq<Point>, x: real)
    requires |p| >= 2 && NonDecreasing(p)
    requires p[0].x <= x <= p[|p| - 1].x
    ensures exists k: nat :: k + 1 < |p| && InSegment(p, k, x)
  {
    if x <= p[1].x {
      assert InSegment(p, 0, x);
    } else {
      RangeIsCovered(p[1..], x);
      var k: nat :| k + 1 < |p[1..]| && InSegment(p[1..], k, x);
      assert InSegment(p, k + 1, x);
    }
  }

  /** JavaScript's Math.round: the nearest integer, halves rounded up. */
  function Round(v: real): (n: int)
    ensures v - 0.5 < n as real <= v + 0.5
  {
    (v + 0.5).Floor
  }

  /** `clamp(Math.round(y), 0, 255)`, the value `getValue` returns. */
  function Level(y: real): (l: Byte)
    ensures -0.5 <= y < 255.5 ==> y - 0.5 < l as real <= y + 0.5
    ensures y < -0.5 ==> l == 0
    ensures y >= 255.5 ==> l == 255
  {
    var n := Round(y);
    if n < 0 then 0 else if n > 255 then 255 else n
  }

  function Abs(v: real): real
  {
    if v < 0.0 then -v else v
  }

  /** The search tolerance of `getValue`. */
  const Threshold: real := 0.01

  /**
    `level` is what `getValue(x)` may return after accepting parameter t on
    segment i: i is the first segment that holds x, t lies in [0, 1], the
    curve's x at t is within the tolerance of x, and level is the clamped,
    rounded curve y at t.
   */
  predicate Accepts(c: Curve, i: nat, x: real, t: real, level: Byte)
    requires |c.m| == |c.p|
  {
    && i + 1 < |c.p|
    && InSegment(c.p, i, x)
    && (forall k :: 0 <= k < i ==> !InSegment(c.p, k, x))
    && 0.0 <= t <= 1.0
    && var q := SegmentPoint(c.p[i], c.m[i], c.p[i + 1], c.m[i + 1], t);
    && Abs(q.x - x) < Threshold
    && level == Level(q.y)
  }

  /**
    `getValue`: the segment search, then bisection on t starting at 0.5 with
    bounds 0 and 1. The source's loop runs until it accepts; here it runs at
    most `fuel` rounds.
   */
  method GetValue(c: Curve, x: real, fuel: nat) returns (r: Lookup)
    requires |c.m| == |c.p|
    ensures r.NoSegment? <==> forall k :: 0 <= k < |c.p| - 1 ==> !InSegment(c.p, k, x)
    ensures r.Value? ==> exists i: nat, t: real :: Accepts(c, i, x, t, r.level)
  {
    var s := FindSegment(c.p, x);
    if s.None? {
      return NoSegment;
    }
    var i := s.value;
    var t, lt, rt := 0.5, 0.0, 1.0;
    var n := fuel;
    while n > 0
      invariant 0.0 <= lt <= rt <= 1.0 && t == 0.5 * (lt + rt)
    {
      var q := SegmentPoint(c.p[i], c.m[i], c.p[i + 1], c.m[i + 1], t);
      if Abs(q.x - x) < Threshold {
        assert Accepts(c, i, x, t, Level(q.y));
        return Value(Level(q.y));
      }
      if x > q.x {
        lt := t;
        t := 0.5 * (lt + rt);
      } else {
        rt := t;
        t := 0.5 * (lt + rt);
      }
      n := n - 1;
    }
    return OutOfFuel;
  }

  /** The curve the default points build. */
  function DefaultCurve(): Curve
  {
    Curve(DefaultPoints(), [Point(127.5, 127.5), Point(127.5, 127.5)])
  }

  /** A value within the tolerance of an integer level rounds to that level. */
  lemma RoundNear(y: real, v: Byte)
    requires Abs(y - v as real) < Threshold
    ensures Level(y) == v
  {
    var f := y + 0.5;
    assert v as real <= f < v as real + 1.0;
    assert f.Floor == v;
  }

  /** The default curve is the identity on levels 0 .. 255. */
  lemma DefaultCurveIsIdentity(v: Byte, i: nat, t: real, level: Byte)
    requires Accepts(DefaultCurve(), i, v as real, t, level)
    ensures level == v
  {
    var c := DefaultCurve();
    assert i == 0;
    DiagonalSegment(c.p[0], c.m[0], c.p[1], c.m[1], t);
    RoundNear(SegmentPoint(c.p[0], c.m[0], c.p[1], c.m[1], t).y, v);
  }
}
