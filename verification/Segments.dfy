/** What the polygon check's integer segment test decides: whether two closed segments share a point of the plane. */
module Segments {
  import opened Digests
  import opened Geofence

  /** The coordinate reached after the fraction `t` of the way from `s` to `e`. */
  function Along(s: int, e: int, t: real): real
  {
    s as real + t * (e - s) as real
  }

  predicate Fraction(t: real)
  {
    0.0 <= t <= 1.0
  }

  /** `p` lies the fraction `t` of the way from `s` to `e`. */
  predicate Reaches(s: PointE6, e: PointE6, t: real, p: PointE6)
  {
    && Fraction(t)
    && Along(s.longitudeE6, e.longitudeE6, t) == p.longitudeE6 as real
    && Along(s.latitudeE6, e.latitudeE6, t) == p.latitudeE6 as real
  }

  /** The two segments meet after these fractions of their ways. */
  predicate MeetAt(a: PointE6, b: PointE6, c: PointE6, d: PointE6, t: real, u: real)
  {
    && Fraction(t) && Fraction(u)
    && Along(a.longitudeE6, b.longitudeE6, t) == Along(c.longitudeE6, d.longitudeE6, u)
    && Along(a.latitudeE6, b.latitudeE6, t) == Along(c.latitudeE6, d.latitudeE6, u)
  }

  ghost predicate SharePoint(a: PointE6, b: PointE6, c: PointE6, d: PointE6)
  {
    exists t: real, u: real :: MeetAt(a, b, c, d, t, u)
  }

  // ----- one segment

  /** With `s` at zero: `t` of the way to `e` stays between. */
  lemma {:induction false} Between(s: int, e: int, p: int, t: real)
    requires Fraction(t) && Along(s, e, t) == p as real
    ensures Min(s, e) <= p <= Max(s, e)
  {
    var w := (e - s) as real;
    if w >= 0.0 {
      assert 0.0 <= t * w <= w;
    } else {
      assert t * (-w) == -(t * w);
      assert 0.0 <= t * (-w) <= -w;
    }
  }

  lemma {:induction false} ProportionalCross(ex: real, ey: real, px: real, py: real, t: real)
    requires px == t * ex && py == t * ey
    ensures ex * py - ey * px == 0.0
  {
    assert ex * (t * ey) == t * (ex * ey) == ey * (t * ex);
  }

  lemma {:induction false} RealCross(ex: int, ey: int, px: int, py: int)
    ensures Cross(ex, ey, px, py) as real == ex as real * py as real - ey as real * px as real
  {
    RealProduct(ex, py);
    RealProduct(ey, px);
  }

  lemma {:induction false} ReachedIsOn(s: PointE6, e: PointE6, t: real, p: PointE6)
    requires Reaches(s, e, t, p)
    ensures OnSegment(s, e, p)
  {
    Between(s.longitudeE6, e.longitudeE6, p.longitudeE6, t);
    Between(s.latitudeE6, e.latitudeE6, p.latitudeE6, t);
    ReachedIsCollinear(s, e, t, p);
  }

  lemma {:induction false} ReachedIsCollinear(s: PointE6, e: PointE6, t: real, p: PointE6)
    requires Reaches(s, e, t, p)
    ensures Orientation(s, e, p) == 0
  {
    hide Reaches;
    ReachesOffset(s, e, t, p);
    ProportionalCross(EastOf(s, e), NorthOf(s, e), EastOf(s, p), NorthOf(s, p), t);
    RealCross(e.longitudeE6 - s.longitudeE6, e.latitudeE6 - s.latitudeE6,
              p.longitudeE6 - s.longitudeE6, p.latitudeE6 - s.latitudeE6);
  }

  predicate Parallel(ex: real, ey: real, px: real, py: real)
  {
    ex * py == ey * px
  }

  /** Between zero and `w`. */
  predicate Within(p: real, w: real)
  {
    0.0 <= p <= w || w <= p <= 0.0
  }

  lemma {:induction false} SignOfProduct(t: real, w: real, p: real)
    requires p == t * w && w != 0.0
    ensures p > 0.0 <==> (t > 0.0) == (w > 0.0) && t != 0.0
    ensures p == 0.0 <==> t == 0.0
  {
  }

  lemma {:induction false} FractionOf(t: real, w: real, p: real)
    requires w != 0.0 && t * w == p && Within(p, w)
    ensures Fraction(t)
  {
    SignOfProduct(t, w, p);
    SignOfProduct(t - 1.0, w, p - w);
  }

  lemma {:induction false} SameRatio(px: real, ex: real, py: real, ey: real, t: real)
    requires ex != 0.0 && t * ex == px && ex * py == ey * px
    ensures t * ey == py
  {
    assert ex * (t * ey) == ey * (t * ex) == ex * py;
  }

  lemma {:induction false} Quotient(p: real, w: real) returns (t: real)
    requires w != 0.0
    ensures t * w == p
  {
    t := p / w;
  }

  lemma {:induction false} RealProduct(a: int, b: int)
    ensures (a * b) as real == a as real * b as real
  {
  }

  /** A collinear step whose first coordinate stays between is a fraction of the whole. */
  lemma {:induction false} CollinearFraction(ex: real, ey: real, px: real, py: real) returns (t: real)
    requires ex != 0.0 && Within(px, ex) && Parallel(ex, ey, px, py)
    ensures Fraction(t) && t * ex == px && t * ey == py
  {
    hide Fraction;
    t := Quotient(px, ex);
    FractionOf(t, ex, px);
    SameRatio(px, ex, py, ey, t);
  }

  function EastOf(s: PointE6, p: PointE6): real
  {
    (p.longitudeE6 - s.longitudeE6) as real
  }

  function NorthOf(s: PointE6, p: PointE6): real
  {
    (p.latitudeE6 - s.latitudeE6) as real
  }

  lemma {:induction false} CollinearOffsets(s: PointE6, e: PointE6, p: PointE6)
    requires Orientation(s, e, p) == 0
    ensures Parallel(EastOf(s, e), NorthOf(s, e), EastOf(s, p), NorthOf(s, p))
  {
    hide Cross;
    RealCross(e.longitudeE6 - s.longitudeE6, e.latitudeE6 - s.latitudeE6,
              p.longitudeE6 - s.longitudeE6, p.latitudeE6 - s.latitudeE6);
  }

  lemma {:induction false} OnSegmentOffsets(s: PointE6, e: PointE6, p: PointE6)
    requires OnSegment(s, e, p)
    ensures var ex, ey, px, py := EastOf(s, e), NorthOf(s, e), EastOf(s, p), NorthOf(s, p);
      Parallel(ex, ey, px, py) && Within(px, ex) && Within(py, ey)
  {
    hide Orientation;
    hide Parallel;
    CollinearOffsets(s, e, p);
  }

  lemma {:induction false} ReachesOffset(s: PointE6, e: PointE6, t: real, p: PointE6)
    ensures Reaches(s, e, t, p)
       <==> Fraction(t) && t * EastOf(s, e) == EastOf(s, p) && t * NorthOf(s, e) == NorthOf(s, p)
  {
  }

  lemma {:induction false} OnIsReached(s: PointE6, e: PointE6, p: PointE6) returns (t: real)
    requires OnSegment(s, e, p)
    ensures Reaches(s, e, t, p)
  {
    hide *;
    OnSegmentOffsets(s, e, p);
    t := OffsetFraction(EastOf(s, e), NorthOf(s, e), EastOf(s, p), NorthOf(s, p));
    ReachesOffset(s, e, t, p);
  }

  lemma {:induction false} OffsetFraction(ex: real, ey: real, px: real, py: real) returns (t: real)
    requires Parallel(ex, ey, px, py) && Within(px, ex) && Within(py, ey)
    ensures Fraction(t) && t * ex == px && t * ey == py
  {
    if ex != 0.0 {
      t := CollinearFraction(ex, ey, px, py);
    } else if ey != 0.0 {
      t := CollinearFraction(ey, ex, py, px);
    } else {
      t := 0.0;
    }
  }

  /** A point is on a closed segment exactly when it is some fraction of the way along. */
  lemma {:induction false} OnSegmentExactly(s: PointE6, e: PointE6, p: PointE6)
    ensures OnSegment(s, e, p) <==> exists t: real :: Reaches(s, e, t, p)
  {
    if OnSegment(s, e, p) { var t := OnIsReached(s, e, p); }
    if t: real :| Reaches(s, e, t, p) { ReachedIsOn(s, e, t, p); }
  }

  // ----- two segments: `v` and `w` are their ways, `q` leads from the start of the first to that of the second

  datatype Vector = Vector(east: real, north: real)

  function Way(s: PointE6, p: PointE6): Vector
  {
    Vector(EastOf(s, p), NorthOf(s, p))
  }

  function Turn(v: Vector, w: Vector): real
  {
    v.east * w.north - v.north * w.east
  }

  predicate Scaled(v: Vector, t: real, w: Vector)
  {
    t * v.east == w.east && t * v.north == w.north
  }

  /** `t` of `v` is `q` and `u` of `w`. */
  predicate Balanced(v: Vector, w: Vector, q: Vector, t: real, u: real)
  {
    t * v.east == q.east + u * w.east && t * v.north == q.north + u * w.north
  }

  lemma {:induction false} MeetsWhenBalanced(a: PointE6, b: PointE6, c: PointE6, d: PointE6, t: real, u: real)
    ensures MeetAt(a, b, c, d, t, u)
       <==> Fraction(t) && Fraction(u) && Balanced(Way(a, b), Way(c, d), Way(a, c), t, u)
  {
  }

  lemma {:induction false} OrientationIsTurn(s: PointE6, e: PointE6, p: PointE6)
    ensures Orientation(s, e, p) as real == Turn(Way(s, e), Way(s, p))
  {
    RealCross(e.longitudeE6 - s.longitudeE6, e.latitudeE6 - s.latitudeE6,
              p.longitudeE6 - s.longitudeE6, p.latitudeE6 - s.latitudeE6);
  }

  lemma {:induction false} TurnAdds(v: Vector, p: Vector, w: Vector)
    ensures Turn(v, Vector(p.east + w.east, p.north + w.north)) == Turn(v, p) + Turn(v, w)
  {
  }

  lemma {:induction false} TurnFlips(v: Vector, w: Vector)
    ensures Turn(w, v) == -Turn(v, w) && Turn(w, Vector(-v.east, -v.north)) == Turn(v, w)
  {
  }

  /** The four orientations in terms of three turns. */
  lemma {:induction false} FourTurns(a: PointE6, b: PointE6, c: PointE6, d: PointE6)
    ensures var v, w, q := Way(a, b), Way(c, d), Way(a, c);
      && Orientation(a, b, c) as real == Turn(v, q)
      && Orientation(a, b, d) as real == Turn(v, q) + Turn(v, w)
      && Orientation(c, d, a) as real == Turn(q, w)
      && Orientation(c, d, b) as real == Turn(q, w) - Turn(v, w)
  {
    hide Turn;
    hide Orientation;
    var v, w, q := Way(a, b), Way(c, d), Way(a, c);
    OrientationIsTurn(a, b, c);
    OrientationIsTurn(a, b, d);
    OrientationIsTurn(c, d, a);
    OrientationIsTurn(c, d, b);
    TurnAdds(v, q, w);
    assert Way(a, d) == Vector(q.east + w.east, q.north + w.north);
    TurnFlips(q, w);
    assert Way(c, a) == Vector(-q.east, -q.north);
    TurnAdds(w, Way(c, a), v);
    assert Way(c, b) == Vector(Way(c, a).east + v.east, Way(c, a).north + v.north);
    TurnFlips(v, w);
  }

  lemma {:induction false} Cramer(v: Vector, w: Vector, q: Vector)
    ensures Turn(q, w) * v.east + Turn(v, q) * w.east == Turn(v, w) * q.east
    ensures Turn(q, w) * v.north + Turn(v, q) * w.north == Turn(v, w) * q.north
  {
  }

  lemma {:induction false} Cancel(k: real, x: real, y: real)
    requires k != 0.0 && k * x == k * y
    ensures x == y
  {
    SignOfProduct(x - y, k, 0.0);
  }

  /** One coordinate of Cramer's rule: `t` and `u` are the turns divided by `k`. */
  lemma {:induction false} Solves(k: real, t: real, u: real, g: real, f: real, v: real, w: real, q: real)
    requires k != 0.0 && t * k == g && u * k == -f && g * v + f * w == k * q
    ensures t * v == q + u * w
  {
    assert k * (t * v) == g * v by { assert k * (t * v) == (t * k) * v; }
    assert k * (u * w) == -(f * w) by { assert k * (u * w) == (u * k) * w; }
    assert k * (q + u * w) == k * q + k * (u * w);
    Cancel(k, t * v, q + u * w);
  }

  /** Ends on different sides of each other's lines: the lines cross within both segments. */
  lemma {:induction false} CrossingBalances(v: Vector, w: Vector, q: Vector) returns (t: real, u: real)
    requires (Turn(v, q) > 0.0) != (Turn(v, q) + Turn(v, w) > 0.0)
    requires (Turn(q, w) > 0.0) != (Turn(q, w) - Turn(v, w) > 0.0)
    ensures Fraction(t) && Fraction(u) && Balanced(v, w, q, t, u)
  {
    hide Turn;
    var f, g, k := Turn(v, q), Turn(q, w), Turn(v, w);
    t := Quotient(g, k);
    u := Quotient(-f, k);
    FractionOf(t, k, g);
    FractionOf(u, k, -f);
    Cramer(v, w, q);
    Solves(k, t, u, g, f, v.east, w.east, q.east);
    Solves(k, t, u, g, f, v.north, w.north, q.north);
  }

  lemma {:induction false} BalancedTurns(v: Vector, w: Vector, q: Vector, t: real, u: real)
    requires Balanced(v, w, q, t, u)
    ensures Turn(v, q) == -(u * Turn(v, w)) && Turn(q, w) == t * Turn(v, w)
  {
    var p := Vector(t * v.east, t * v.north);
    assert Turn(v, p) == 0.0;
    assert Turn(p, w) == t * Turn(v, w);
    assert q == Vector(p.east - u * w.east, p.north - u * w.north);
    assert Turn(v, q) == Turn(v, p) - u * Turn(v, w);
    assert Turn(q, w) == Turn(p, w) - u * Turn(w, w);
  }

  /** Lines that cross strictly inside both segments separate all four ends. */
  lemma {:induction false} InnerCrossing(k: real, t: real, u: real, f: real, g: real)
    requires k != 0.0 && 0.0 < t < 1.0 && 0.0 < u < 1.0 && u * k == -f && t * k == g
    ensures (f > 0.0) != (f + k > 0.0) && (g > 0.0) != (g - k > 0.0)
  {
    SignOfProduct(u, k, -f);
    SignOfProduct(t, k, g);
    SignOfProduct(1.0 - u, k, f + k);
    SignOfProduct(t - 1.0, k, g - k);
  }

  // ----- collinear segments

  /** On one line, measured by `v`: a point of both segments puts an end of one inside the other. */
  lemma {:induction false} EndInside(g: real, h: real, t: real, u: real)
    requires 0.0 < t < 1.0 && 0.0 < u < 1.0 && t == g + u * (h - g)
    requires !Fraction(g) && !Fraction(h)
    ensures h != g && Within(-g, h - g)
  {
    if g < 0.0 && h < 0.0 {
      assert t == (1.0 - u) * g + u * h;
      SignOfProduct(1.0 - u, g, (1.0 - u) * g);
      SignOfProduct(u, h, u * h);
      assert false;
    } else if g > 1.0 && h > 1.0 {
      var x, y := g - 1.0, h - 1.0;
      assert t - 1.0 == (1.0 - u) * x + u * y;
      SignOfProduct(1.0 - u, x, (1.0 - u) * x);
      SignOfProduct(u, y, u * y);
      assert false;
    }
  }

  /** A vector parallel to `v` is a multiple of it. */
  lemma {:induction false} Multiple(v: Vector, w: Vector) returns (t: real)
    requires (v.east != 0.0 || v.north != 0.0) && Turn(v, w) == 0.0
    ensures Scaled(v, t, w)
  {
    if v.east != 0.0 {
      t := Quotient(w.east, v.east);
      SameRatio(w.east, v.east, w.north, v.north, t);
    } else {
      t := Quotient(w.north, v.north);
      SameRatio(w.north, v.north, w.east, v.east, t);
    }
  }

  lemma {:induction false} ScaledOnce(v: Vector, x: real, y: real)
    requires (v.east != 0.0 || v.north != 0.0) && x * v.east == y * v.east && x * v.north == y * v.north
    ensures x == y
  {
    if v.east != 0.0 { Cancel(v.east, x, y); } else { Cancel(v.north, x, y); }
  }

  function Sum(v: Vector, w: Vector): Vector
  {
    Vector(v.east + w.east, v.north + w.north)
  }

  function Opposite(v: Vector): Vector
  {
    Vector(-v.east, -v.north)
  }

  datatype End = FirstOfSecond | LastOfSecond | FirstOfFirst

  lemma {:induction false} ScaledTwice(v: Vector, k: real, w: Vector, r: real, g: real, q: Vector)
    requires Scaled(v, k, w) && Scaled(v, g, q) && r * k == -g
    ensures Scaled(w, r, Opposite(q))
  {
    assert r * w.east == (r * k) * v.east && r * w.north == (r * k) * v.north;
  }

  lemma {:induction false} ScaledSum(v: Vector, g: real, q: Vector, k: real, w: Vector)
    requires Scaled(v, g, q) && Scaled(v, k, w)
    ensures Scaled(v, g + k, Sum(q, w))
  {
  }

  lemma {:induction false} MeetingPosition(v: Vector, w: Vector, q: Vector, t: real, u: real, g: real, k: real)
    requires Balanced(v, w, q, t, u) && Scaled(v, g, q) && Scaled(v, k, w) && (v.east != 0.0 || v.north != 0.0)
    ensures t == g + u * k
  {
    assert (u * k) * v.east == u * w.east && (u * k) * v.north == u * w.north;
    ScaledOnce(v, t, g + u * k);
  }

  /** Meeting inside on one line: an end of one segment is a fraction of the way along the other. */
  lemma {:induction false} MeetingOnOneLine(v: Vector, w: Vector, q: Vector, t: real, u: real)
      returns (r: real, end: End)
    requires Balanced(v, w, q, t, u) && 0.0 < t < 1.0 && 0.0 < u < 1.0
    requires (v.east != 0.0 || v.north != 0.0) && Turn(v, q) == 0.0 && Turn(v, w) == 0.0
    ensures Fraction(r)
    ensures match end
      case FirstOfSecond => Scaled(v, r, q)
      case LastOfSecond => Scaled(v, r, Sum(q, w))
      case FirstOfFirst => Scaled(w, r, Opposite(q))
  {
    hide *;
    var g := Multiple(v, q);
    var k := Multiple(v, w);
    MeetingPosition(v, w, q, t, u, g, k);
    ScaledSum(v, g, q, k, w);
    if Fraction(g) { return g, FirstOfSecond; }
    if Fraction(g + k) { return g + k, LastOfSecond; }
    EndInside(g, g + k, t, u);
    r := Quotient(-g, k);
    end := FirstOfFirst;
    FractionOf(r, k, -g);
    ScaledTwice(v, k, w, r, g, q);
  }

  // ----- the test

  /** A meeting strictly inside both segments satisfies the test. */
  lemma {:induction false} InnerMeetingIntersects(a: PointE6, b: PointE6, c: PointE6, d: PointE6, t: real, u: real)
    requires MeetAt(a, b, c, d, t, u) && 0.0 < t < 1.0 && 0.0 < u < 1.0
    ensures SegmentsIntersect(a, b, c, d)
  {
    hide OnSegment;
    hide Orientation;
    hide Turn;
    var v, w, q := Way(a, b), Way(c, d), Way(a, c);
    MeetsWhenBalanced(a, b, c, d, t, u);
    BalancedTurns(v, w, q, t, u);
    FourTurns(a, b, c, d);
    if Turn(v, w) != 0.0 {
      InnerCrossing(Turn(v, w), t, u, Turn(v, q), Turn(q, w));
    } else {
      CollinearMeetingIntersects(a, b, c, d, t, u);
    }
  }

  lemma {:induction false} CollinearMeetingIntersects(a: PointE6, b: PointE6, c: PointE6, d: PointE6, t: real, u: real)
    requires Balanced(Way(a, b), Way(c, d), Way(a, c), t, u) && 0.0 < t < 1.0 && 0.0 < u < 1.0
    requires Turn(Way(a, b), Way(c, d)) == 0.0 && Turn(Way(a, b), Way(a, c)) == 0.0
    ensures SegmentsIntersect(a, b, c, d)
  {
    hide OnSegment;
    hide Orientation;
    hide Turn;
    if Way(a, b) == Vector(0.0, 0.0) {
      ReachesOffset(c, d, u, a);
      ReachedIsOn(c, d, u, a);
    } else {
      var r, end := MeetingOnOneLine(Way(a, b), Way(c, d), Way(a, c), t, u);
      EndTouches(a, b, c, d, r, end);
    }
  }

  lemma {:induction false} EndTouches(a: PointE6, b: PointE6, c: PointE6, d: PointE6, r: real, end: End)
    requires Fraction(r)
    requires match end
      case FirstOfSecond => Scaled(Way(a, b), r, Way(a, c))
      case LastOfSecond => Scaled(Way(a, b), r, Sum(Way(a, c), Way(c, d)))
      case FirstOfFirst => Scaled(Way(c, d), r, Opposite(Way(a, c)))
    ensures SegmentsIntersect(a, b, c, d)
  {
    hide OnSegment;
    hide Orientation;
    match end
    case FirstOfSecond =>
      ReachesOffset(a, b, r, c);
      ReachedIsOn(a, b, r, c);
    case LastOfSecond =>
      ReachesOffset(a, b, r, d);
      ReachedIsOn(a, b, r, d);
    case FirstOfFirst =>
      ReachesOffset(c, d, r, a);
      ReachedIsOn(c, d, r, a);
  }

  lemma {:induction false} MeetingIntersects(a: PointE6, b: PointE6, c: PointE6, d: PointE6, t: real, u: real)
    requires MeetAt(a, b, c, d, t, u)
    ensures SegmentsIntersect(a, b, c, d)
  {
    hide OnSegment;
    hide Orientation;
    if u == 0.0 {
      ReachedIsOn(a, b, t, c);
    } else if u == 1.0 {
      ReachedIsOn(a, b, t, d);
    } else if t == 0.0 {
      ReachedIsOn(c, d, u, a);
    } else if t == 1.0 {
      ReachedIsOn(c, d, u, b);
    } else {
      InnerMeetingIntersects(a, b, c, d, t, u);
    }
  }

  lemma {:induction false} CrossingMeets(a: PointE6, b: PointE6, c: PointE6, d: PointE6) returns (t: real, u: real)
    requires (Orientation(a, b, c) > 0) != (Orientation(a, b, d) > 0)
    requires (Orientation(c, d, a) > 0) != (Orientation(c, d, b) > 0)
    ensures MeetAt(a, b, c, d, t, u)
  {
    hide Orientation;
    hide Turn;
    FourTurns(a, b, c, d);
    t, u := CrossingBalances(Way(a, b), Way(c, d), Way(a, c));
    MeetsWhenBalanced(a, b, c, d, t, u);
  }

  lemma {:induction false} TouchingMeets(a: PointE6, b: PointE6, c: PointE6, d: PointE6) returns (t: real, u: real)
    requires OnSegment(a, b, c) || OnSegment(a, b, d) || OnSegment(c, d, a) || OnSegment(c, d, b)
    ensures MeetAt(a, b, c, d, t, u)
  {
    hide OnSegment;
    if OnSegment(a, b, c) {
      u := 0.0;
      t := OnIsReached(a, b, c);
    } else if OnSegment(a, b, d) {
      u := 1.0;
      t := OnIsReached(a, b, d);
    } else if OnSegment(c, d, a) {
      t := 0.0;
      u := OnIsReached(c, d, a);
    } else {
      t := 1.0;
      u := OnIsReached(c, d, b);
    }
  }

  /** The integer test holds exactly when the two closed segments share a point, degenerate segments included. */
  lemma {:induction false} SegmentsIntersectExactly(a: PointE6, b: PointE6, c: PointE6, d: PointE6)
    ensures SegmentsIntersect(a, b, c, d) <==> SharePoint(a, b, c, d)
  {
    hide OnSegment;
    hide Orientation;
    hide MeetAt;
    if OnSegment(a, b, c) || OnSegment(a, b, d) || OnSegment(c, d, a) || OnSegment(c, d, b) {
      var t, u := TouchingMeets(a, b, c, d);
    } else if SegmentsIntersect(a, b, c, d) {
      var t, u := CrossingMeets(a, b, c, d);
    }
    if t: real, u: real :| MeetAt(a, b, c, d, t, u) { MeetingIntersects(a, b, c, d, t, u); }
  }

  ghost predicate EdgesMeet(v: seq<PointE6>, i: nat, j: nat)
    requires i < |v| && j < |v|
  {
    SharePoint(v[i], Next(v, i), v[j], Next(v, j))
  }

  /**
   * What an accepted polygon is: nonzero area, no edge of length zero, and edges that are not neighbours
   * never meet.
   */
  lemma {:induction false} SimplePolygonExactly(v: seq<PointE6>)
    requires |v| > 0
    ensures SimplePolygon(v) <==>
      && Area(v, |v|) != 0 && (forall i: nat :: i < |v| ==> v[i] != Next(v, i))
      && forall i: nat, j: nat :: i < j < |v| && !Adjacent(i, j, |v|) ==> !EdgesMeet(v, i, j)
  {
    hide SegmentsIntersect;
    hide SharePoint;
    forall i: nat, j: nat | i < j < |v|
      ensures Clash(v, i, j) <==> !Adjacent(i, j, |v|) && EdgesMeet(v, i, j)
    {
      SegmentsIntersectExactly(v[i], Next(v, i), v[j], Next(v, j));
    }
  }

  // ----- the crossing test

  /** A fraction `t` of the way the edge is level with the point and east of it. */
  predicate PassesEastAt(s: PointE6, e: PointE6, p: PointE6, t: real)
  {
    Fraction(t) && t * NorthOf(s, e) == NorthOf(s, p) && t * EastOf(s, e) > EastOf(s, p)
  }

  lemma {:induction false} EastExactly(ex: real, ey: real, px: real, py: real, t: real)
    requires ey != 0.0 && t * ey == py
    ensures t * ex > px <==> (if ey > 0.0 then ex * py - ey * px > 0.0 else ex * py - ey * px < 0.0)
  {
    assert ex * py - ey * px == (t * ex - px) * ey by { assert ex * (t * ey) == (t * ex) * ey; }
    SignOfProduct(t * ex - px, ey, ex * py - ey * px);
  }

  lemma {:induction false} LevelFraction(s: PointE6, e: PointE6, p: PointE6) returns (t: real)
    requires Straddles(s, e, p)
    ensures NorthOf(s, e) != 0.0 && (NorthOf(s, e) > 0.0 <==> e.latitudeE6 > s.latitudeE6)
    ensures Fraction(t) && t * NorthOf(s, e) == NorthOf(s, p)
  {
    t := Quotient(NorthOf(s, p), NorthOf(s, e));
    FractionOf(t, NorthOf(s, e), NorthOf(s, p));
  }

  lemma {:induction false} RightBySign(s: PointE6, e: PointE6, p: PointE6)
    requires Straddles(s, e, p)
    ensures var turn := Turn(Way(s, e), Way(s, p));
      CrossesRight(s, e, p) <==> if e.latitudeE6 > s.latitudeE6 then turn > 0.0 else turn < 0.0
  {
    hide Orientation;
    hide Turn;
    OrientationIsTurn(s, e, p);
  }

  /** An edge is crossed to the right exactly when it changes sides and, level with the point, is east of it. */
  lemma {:induction false} CrossesRightExactly(s: PointE6, e: PointE6, p: PointE6)
    ensures CrossesRight(s, e, p) <==> Straddles(s, e, p) && exists t: real :: PassesEastAt(s, e, p, t)
  {
    if Straddles(s, e, p) {
      var t := LevelFraction(s, e, p);
      RightBySign(s, e, p);
      hide CrossesRight;
      hide Straddles;
      EastExactly(EastOf(s, e), NorthOf(s, e), EastOf(s, p), NorthOf(s, p), t);
      OneLevel(s, e, p, t);
    }
  }

  lemma {:induction false} SameFactor(x: real, y: real, k: real, p: real)
    requires k != 0.0 && x * k == p && y * k == p
    ensures x == y
  {
    SignOfProduct(x - y, k, 0.0);
  }

  lemma {:induction false} OneLevel(s: PointE6, e: PointE6, p: PointE6, t: real)
    requires NorthOf(s, e) != 0.0 && Fraction(t) && t * NorthOf(s, e) == NorthOf(s, p)
    ensures (exists u: real :: PassesEastAt(s, e, p, u)) <==> t * EastOf(s, e) > EastOf(s, p)
  {
    if u: real :| PassesEastAt(s, e, p, u) { SameFactor(t, u, NorthOf(s, e), NorthOf(s, p)); }
    assert t * EastOf(s, e) > EastOf(s, p) ==> PassesEastAt(s, e, p, t);
  }
}
