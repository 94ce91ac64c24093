/** Integer point-in-polygon test on closed polygons of micro-degree points. */
module Geofence {
  import opened Primitives
  import opened Digests
  import opened PolicyTypes

  const MAX_LATITUDE_E6: int := 90_000_000
  const MAX_LONGITUDE_E6: int := 180_000_000

  datatype Edge = Edge(start: PointE6, end: PointE6)

  predicate ValidPoint(p: PointE6)
  {
    -MAX_LATITUDE_E6 <= p.latitudeE6 <= MAX_LATITUDE_E6 && -MAX_LONGITUDE_E6 <= p.longitudeE6 <= MAX_LONGITUDE_E6
  }

  /** WGS-84 bounds in micro-degrees, poles and antimeridian included. */
  lemma {:induction false} ValidPointExactly(p: PointE6)
    ensures ValidPoint(p)
       <==> -90_000_000 <= p.latitudeE6 <= 90_000_000 && -180_000_000 <= p.longitudeE6 <= 180_000_000
  {
  }

  function Cross(ex: int, ey: int, px: int, py: int): int
  {
    ex * py - ey * px
  }

  function Orientation(s: PointE6, e: PointE6, p: PointE6): int
  {
    Cross(e.longitudeE6 - s.longitudeE6, e.latitudeE6 - s.latitudeE6,
          p.longitudeE6 - s.longitudeE6, p.latitudeE6 - s.latitudeE6)
  }

  function Min(a: int, b: int): int { if a < b then a else b }

  function Max(a: int, b: int): int { if a < b then b else a }

  predicate InBox(s: PointE6, e: PointE6, p: PointE6)
  {
    && Min(s.longitudeE6, e.longitudeE6) <= p.longitudeE6 <= Max(s.longitudeE6, e.longitudeE6)
    && Min(s.latitudeE6, e.latitudeE6) <= p.latitudeE6 <= Max(s.latitudeE6, e.latitudeE6)
  }

  predicate OnSegment(s: PointE6, e: PointE6, p: PointE6)
  {
    Orientation(s, e, p) == 0 && InBox(s, e, p)
  }

  predicate Straddles(s: PointE6, e: PointE6, p: PointE6)
  {
    (s.latitudeE6 > p.latitudeE6) != (e.latitudeE6 > p.latitudeE6)
  }

  /** The crossing test of the policy evaluator. */
  predicate CrossesRight(s: PointE6, e: PointE6, p: PointE6)
  {
    Straddles(s, e, p) && if e.latitudeE6 > s.latitudeE6 then Orientation(s, e, p) > 0 else Orientation(s, e, p) < 0
  }

  /** The crossing test of the C1 circuit. */
  predicate CircuitCrossesRight(p: PointE6, s: PointE6, e: PointE6)
  {
    Straddles(s, e, p) && (Orientation(s, e, p) > 0) == (e.latitudeE6 > p.latitudeE6)
  }

  predicate SegmentsIntersect(a: PointE6, b: PointE6, c: PointE6, d: PointE6)
  {
    || OnSegment(a, b, c) || OnSegment(a, b, d) || OnSegment(c, d, a) || OnSegment(c, d, b)
    || ((Orientation(a, b, c) > 0) != (Orientation(a, b, d) > 0)
        && (Orientation(c, d, a) > 0) != (Orientation(c, d, b) > 0))
  }

  /** The vertex at index `(i + 1) % |v|`. */
  function Next(v: seq<PointE6>, i: nat): PointE6
    requires i < |v|
  {
    if i + 1 == |v| then v[0] else v[i + 1]
  }

  // ----- polygon validation

  function Area(v: seq<PointE6>, n: nat): int
    requires n <= |v|
  {
    if n == 0 then 0
    else
      var s, e := v[n - 1], Next(v, n - 1);
      Area(v, n - 1) + Cross(s.longitudeE6, s.latitudeE6, e.longitudeE6, e.latitudeE6)
  }

  predicate Adjacent(first: nat, second: nat, len: nat)
  {
    first + 1 == second || (first == 0 && second + 1 == len)
  }

  /** Two edges are neighbours when one starts where the other ends, around the polygon. */
  lemma {:induction false} AdjacentExactly(first: nat, second: nat, len: nat)
    requires first < second < len
    ensures Adjacent(first, second, len) <==> second == (first + 1) % len || first == (second + 1) % len
  {
  }

  predicate Clash(v: seq<PointE6>, first: nat, second: nat)
    requires first < |v| && second < |v|
  {
    !Adjacent(first, second, |v|) && SegmentsIntersect(v[first], Next(v, first), v[second], Next(v, second))
  }

  ghost predicate SimplePolygon(v: seq<PointE6>)
    requires |v| > 0
  {
    && Area(v, |v|) != 0
    && (forall i: nat :: i < |v| ==> v[i] != Next(v, i))
    && forall i: nat, j: nat :: i < j < |v| ==> !Clash(v, i, j)
  }

  ghost function PolygonVerdict(v: seq<PointE6>): Result<(), PolicyError>
  {
    if !(3 <= |v| <= MAX_POLYGON_VERTICES) then Err(InvalidPolygon)
    else if exists i: nat :: i < |v| && !ValidPoint(v[i]) then Err(InvalidCoordinate)
    else if SimplePolygon(v) then Ok(()) else Err(InvalidPolygon)
  }

  /** Which error a refused polygon gets. */
  lemma {:induction false} PolygonRefusals(v: seq<PointE6>)
    ensures PolygonVerdict(v) == Err(InvalidCoordinate)
       <==> 3 <= |v| <= 32 && exists i: nat :: i < |v| && !ValidPoint(v[i])
    ensures PolygonVerdict(v) == Err(InvalidPolygon)
       <==> |v| < 3 || |v| > 32 || ((forall i: nat :: i < |v| ==> ValidPoint(v[i])) && !SimplePolygon(v))
  {
  }

  method ValidatePolygon(v: seq<PointE6>) returns (r: Result<(), PolicyError>)
    ensures r == PolygonVerdict(v)
  {
    if !(3 <= |v| <= MAX_POLYGON_VERTICES) {
      return Err(InvalidPolygon);
    }
    for i := 0 to |v|
      invariant forall k: nat :: k < i ==> ValidPoint(v[k])
    {
      if !ValidPoint(v[i]) { return Err(InvalidCoordinate); }
    }
    var simple := IsSimplePolygon(v);
    return if simple then Ok(()) else Err(InvalidPolygon);
  }

  method IsSimplePolygon(v: seq<PointE6>) returns (simple: bool)
    requires |v| > 0
    ensures simple == SimplePolygon(v)
  {
    var area := 0;
    for i := 0 to |v|
      invariant area == Area(v, i)
    {
      area := area + Cross(v[i].longitudeE6, v[i].latitudeE6, Next(v, i).longitudeE6, Next(v, i).latitudeE6);
    }
    if area == 0 { return false; }
    for i := 0 to |v|
      invariant forall k: nat :: k < i ==> v[k] != Next(v, k)
    {
      if v[i] == Next(v, i) { return false; }
    }
    simple := HasNoClash(v);
  }

  method HasNoClash(v: seq<PointE6>) returns (ok: bool)
    ensures ok == forall i: nat, j: nat :: i < j < |v| ==> !Clash(v, i, j)
  {
    for first := 0 to |v|
      invariant forall i: nat, j: nat :: i < first && i < j < |v| ==> !Clash(v, i, j)
    {
      for second := first + 1 to |v|
        invariant forall j: nat :: first < j < second ==> !Clash(v, first, j)
      {
        if Clash(v, first, second) { return false; }
      }
    }
    return true;
  }

  // ----- the verdict as a property of the edges

  function Edges(v: seq<PointE6>): seq<Edge>
  {
    seq(|v|, i requires 0 <= i < |v| => Edge(v[i], Next(v, i)))
  }

  function TouchedBy(p: PointE6): Edge -> bool
  {
    (e: Edge) => OnSegment(e.start, e.end, p)
  }

  function CrossedBy(p: PointE6): Edge -> bool
  {
    (e: Edge) => CrossesRight(e.start, e.end, p)
  }

  function Count(edges: seq<Edge>, counted: Edge -> bool): nat
  {
    if edges == [] then 0
    else Count(edges[..|edges| - 1], counted) + if counted(edges[|edges| - 1]) then 1 else 0
  }

  predicate OutsideEdges(edges: seq<Edge>, touched: Edge -> bool, crossed: Edge -> bool)
  {
    (forall e | e in edges :: !touched(e)) && Count(edges, crossed) % 2 == 0
  }

  /** Strictly outside: on no edge, and an even number of edges crossed to the right. */
  predicate StrictlyOutside(v: seq<PointE6>, p: PointE6)
  {
    OutsideEdges(Edges(v), TouchedBy(p), CrossedBy(p))
  }

  method IsStrictlyOutside(v: seq<PointE6>, p: PointE6) returns (outside: bool)
    ensures outside == StrictlyOutside(v, p)
  {
    var touches := AnyEdge(Edges(v), TouchedBy(p));
    if touches {
      return false;
    }
    var inside := OddlyMany(Edges(v), CrossedBy(p));
    return !inside;
  }

  ghost predicate OnBoundary(v: seq<PointE6>, p: PointE6)
  {
    exists e :: e in Edges(v) && OnSegment(e.start, e.end, p)
  }

  /** `contains_strict`: with the policy's verdict it splits the plane into inside, boundary and outside. */
  method ContainsStrict(v: seq<PointE6>, p: PointE6) returns (inside: bool)
    ensures inside ==> !StrictlyOutside(v, p) && !OnBoundary(v, p)
    ensures !inside ==> StrictlyOutside(v, p) != OnBoundary(v, p)
  {
    var touches := AnyEdge(Edges(v), TouchedBy(p));
    if touches {
      return false;
    }
    inside := OddlyMany(Edges(v), CrossedBy(p));
  }

  method AnyEdge(edges: seq<Edge>, touched: Edge -> bool) returns (any: bool)
    ensures any == exists e :: e in edges && touched(e)
  {
    for i := 0 to |edges|
      invariant forall k: nat :: k < i ==> !touched(edges[k])
    {
      if touched(edges[i]) { return true; }
    }
    return false;
  }

  method OddlyMany(edges: seq<Edge>, crossed: Edge -> bool) returns (inside: bool)
    ensures inside == (Count(edges, crossed) % 2 == 1)
  {
    inside := false;
    for i := 0 to |edges|
      invariant inside == (Count(edges[..i], crossed) % 2 == 1)
    {
      assert edges[..i + 1][..i] == edges[..i];
      if crossed(edges[i]) { inside := !inside; }
    }
    assert edges[..|edges|] == edges;
  }

  lemma {:induction false} CountConcat(a: seq<Edge>, b: seq<Edge>, counted: Edge -> bool)
    ensures Count(a + b, counted) == Count(a, counted) + Count(b, counted)
    decreases |b|
  {
    if b == [] {
      assert a + b == a;
    } else {
      CountConcat(a, b[..|b| - 1], counted);
      assert (a + b)[..|a + b| - 1] == a + b[..|b| - 1];
    }
  }

  // ----- the verdict depends only on the closed curve

  lemma {:induction false} RotatedEdges(v: seq<PointE6>, k: nat)
    requires k <= |v|
    ensures Edges(v[k..] + v[..k]) == Edges(v)[k..] + Edges(v)[..k]
  {
    var rotated := v[k..] + v[..k];
    forall i: nat | i < |v|
      ensures Edges(rotated)[i] == (Edges(v)[k..] + Edges(v)[..k])[i]
    {
      var j := if i < |v| - k then i + k else i - (|v| - k);
      assert rotated[i] == v[j] && Next(rotated, i) == Next(v, j);
    }
  }

  lemma {:induction false} RotatedVerdict(a: seq<Edge>, b: seq<Edge>, touched: Edge -> bool, crossed: Edge -> bool)
    ensures OutsideEdges(a + b, touched, crossed) == OutsideEdges(b + a, touched, crossed)
  {
    CountConcat(a, b, crossed);
    CountConcat(b, a, crossed);
    assert forall e :: e in a + b <==> e in b + a;
  }

  /** Starting the polygon at another vertex does not change the verdict. */
  lemma {:induction false} RotationInvariant(v: seq<PointE6>, k: nat, p: PointE6)
    requires k <= |v|
    ensures StrictlyOutside(v[k..] + v[..k], p) == StrictlyOutside(v, p)
  {
    RotatedEdges(v, k);
    RotatedVerdict(Edges(v)[k..], Edges(v)[..k], TouchedBy(p), CrossedBy(p));
    assert Edges(v)[..k] + Edges(v)[k..] == Edges(v);
  }

  function Reversed(v: seq<PointE6>): seq<PointE6>
  {
    seq(|v|, i requires 0 <= i < |v| => v[|v| - 1 - i])
  }

  function Flip(e: Edge): Edge
  {
    Edge(e.end, e.start)
  }

  ghost predicate IgnoresDirection(property: Edge -> bool)
  {
    forall e: Edge :: property(Flip(e)) == property(e)
  }

  lemma {:induction false} CrossShift(ex: int, ey: int, px: int, py: int)
    ensures Cross(-ex, -ey, px - ex, py - ey) == -Cross(ex, ey, px, py)
  {
  }

  lemma {:induction false} OrientationFlips(e: Edge, p: PointE6)
    ensures Orientation(e.end, e.start, p) == -Orientation(e.start, e.end, p)
  {
    CrossShift(e.end.longitudeE6 - e.start.longitudeE6, e.end.latitudeE6 - e.start.latitudeE6,
               p.longitudeE6 - e.start.longitudeE6, p.latitudeE6 - e.start.latitudeE6);
  }

  /** Touching an edge and crossing it do not depend on its direction. */
  lemma {:induction false} EdgeTestsIgnoreDirection(p: PointE6)
    ensures IgnoresDirection(TouchedBy(p)) && IgnoresDirection(CrossedBy(p))
  {
    forall e: Edge
      ensures TouchedBy(p)(Flip(e)) == TouchedBy(p)(e) && CrossedBy(p)(Flip(e)) == CrossedBy(p)(e)
    {
      OrientationFlips(e, p);
    }
  }

  lemma {:induction false} CountFlipped(edges: seq<Edge>, flipped: seq<Edge>, counted: Edge -> bool)
    requires |edges| == |flipped| && IgnoresDirection(counted)
    requires forall i: nat :: i < |edges| ==> flipped[i] == Flip(edges[|edges| - 1 - i])
    ensures Count(flipped, counted) == Count(edges, counted)
  {
    if edges != [] {
      var last := edges[|edges| - 1];
      CountFlipped(edges[..|edges| - 1], flipped[1..], counted);
      assert flipped == [Flip(last)] + flipped[1..];
      CountConcat([Flip(last)], flipped[1..], counted);
      assert [Flip(last)][..0] == [];
    }
  }

  lemma {:induction false} FlippedVerdict(edges: seq<Edge>, flipped: seq<Edge>, touched: Edge -> bool,
                                          crossed: Edge -> bool)
    requires |edges| == |flipped| && IgnoresDirection(touched) && IgnoresDirection(crossed)
    requires forall i: nat :: i < |edges| ==> flipped[i] == Flip(edges[|edges| - 1 - i])
    ensures OutsideEdges(flipped, touched, crossed) == OutsideEdges(edges, touched, crossed)
  {
    CountFlipped(edges, flipped, crossed);
    forall e | e in edges
      ensures Flip(e) in flipped
    {
      var k :| 0 <= k < |edges| && edges[k] == e;
      assert flipped[|edges| - 1 - k] == Flip(e);
    }
    forall e | e in flipped
      ensures Flip(e) in edges
    {
      var k :| 0 <= k < |flipped| && flipped[k] == e;
      assert Flip(e) == edges[|edges| - 1 - k];
    }
    assert forall e: Edge :: touched(Flip(e)) == touched(e);
    if e :| e in edges && touched(e) { assert touched(Flip(e)) && Flip(e) in flipped; }
    if e :| e in flipped && touched(e) { assert touched(Flip(e)) && Flip(e) in edges; }
  }

  /** The reversed polygon walks the flipped edges, in reverse order, of the polygon started at its last vertex. */
  lemma {:induction false} ReversedEdges(v: seq<PointE6>, i: nat)
    requires i < |v|
    ensures Edges(Reversed(v))[i] == Flip(Edges(v[|v| - 1..] + v[..|v| - 1])[|v| - 1 - i])
  {
    var n := |v|;
    var r, w := v[n - 1..] + v[..n - 1], Reversed(v);
    var j := n - 1 - i;
    assert |r| == n && |w| == n && w[i] == v[j];
    assert Next(r, j) == v[j];
    assert Next(w, i) == r[j];
    assert Edges(r)[j] == Edge(r[j], Next(r, j)) && Edges(w)[i] == Edge(w[i], Next(w, i));
  }

  /** Walking the polygon the other way round does not change the verdict. */
  lemma {:induction false} ReversalInvariant(v: seq<PointE6>, p: PointE6)
    ensures StrictlyOutside(Reversed(v), p) == StrictlyOutside(v, p)
  {
    if v == [] {
      assert Reversed(v) == v;
    } else {
      var r := v[|v| - 1..] + v[..|v| - 1];
      EdgeTestsIgnoreDirection(p);
      forall i: nat | i < |v|
        ensures Edges(Reversed(v))[i] == Flip(Edges(r)[|v| - 1 - i])
      {
        ReversedEdges(v, i);
      }
      FlippedVerdict(Edges(r), Edges(Reversed(v)), TouchedBy(p), CrossedBy(p));
      RotationInvariant(v, |v| - 1, p);
    }
  }

  /** Repeating the last vertex, as the circuit's padding does, does not change the verdict. */
  lemma {:induction false} PaddingInvariant(v: seq<PointE6>, n: nat, p: PointE6)
    requires |v| > 0
    ensures StrictlyOutside(v + seq(n, _ => v[|v| - 1]), p) == StrictlyOutside(v, p)
  {
    var last := v[|v| - 1];
    if n == 0 {
      assert v + seq(0, _ => last) == v;
    } else {
      PaddingInvariant(v, n - 1, p);
      assert v + seq(n, _ => last) == (v + seq(n - 1, _ => last)) + [last];
      PadOnce(v + seq(n - 1, _ => last), p);
    }
  }

  lemma {:induction false} PaddedEdges(v: seq<PointE6>)
    requires |v| > 0
    ensures Edges(v) == Edges(v)[..|v| - 1] + [Edge(v[|v| - 1], v[0])]
    ensures Edges(v + [v[|v| - 1]]) == Edges(v)[..|v| - 1] + [Edge(v[|v| - 1], v[|v| - 1]), Edge(v[|v| - 1], v[0])]
  {
  }

  lemma {:induction false} PaddedVerdict(head: seq<Edge>, loop: Edge, closing: Edge, touched: Edge -> bool,
                                         crossed: Edge -> bool)
    requires !crossed(loop) && (touched(loop) ==> touched(closing))
    ensures OutsideEdges(head + [loop, closing], touched, crossed) == OutsideEdges(head + [closing], touched, crossed)
  {
    var a, b, c := head + [loop, closing], head + [closing], head + [loop];
    assert a[..|a| - 1] == c && c[..|c| - 1] == head && b[..|b| - 1] == head;
    assert Count(a, crossed) == Count(b, crossed);
    assert closing in b && loop in a;
    assert forall e :: e in b ==> e in a;
    assert forall e :: e in a ==> e == loop || e in b;
  }

  lemma {:induction false} PadOnce(v: seq<PointE6>, p: PointE6)
    requires |v| > 0
    ensures StrictlyOutside(v + [v[|v| - 1]], p) == StrictlyOutside(v, p)
  {
    var last := v[|v| - 1];
    PaddedEdges(v);
    LoopEdge(last, v[0], p);
    PaddedVerdict(Edges(v)[..|v| - 1], Edge(last, last), Edge(last, v[0]), TouchedBy(p), CrossedBy(p));
  }

  lemma {:induction false} LoopEdge(q: PointE6, next: PointE6, p: PointE6)
    ensures !CrossedBy(p)(Edge(q, q))
    ensures TouchedBy(p)(Edge(q, q)) ==> TouchedBy(p)(Edge(q, next))
  {
    assert OnSegment(q, q, p) ==> p == q;
  }

  // ----- bounding box

  lemma {:induction false} StraddleIdentity(sx: int, sy: int, ex: int, ey: int, px: int, py: int)
    ensures Cross(ex - sx, ey - sy, px - sx, py - sy) == (py - sy) * (ex - px) + (ey - py) * (sx - px)
  {
  }

  lemma {:induction false} WeightedSum(a: int, b: int, x: int, y: int)
    requires a >= 0 && b > 0
    ensures x > 0 && y > 0 ==> a * x + b * y > 0
    ensures x < 0 && y < 0 ==> a * x + b * y < 0
    ensures a * x + b * y == 0 ==> (x <= 0 <= y || y <= 0 <= x)
  {
  }

  /** Which way a straddling edge passes a point, by the sides its ends lie on. */
  lemma {:induction false} StraddlingEdge(s: PointE6, e: PointE6, p: PointE6)
    requires Straddles(s, e, p)
    ensures s.longitudeE6 > p.longitudeE6 && e.longitudeE6 > p.longitudeE6 ==> CrossesRight(s, e, p)
    ensures s.longitudeE6 < p.longitudeE6 && e.longitudeE6 < p.longitudeE6 ==> !CrossesRight(s, e, p)
    ensures Orientation(s, e, p) == 0 ==> OnSegment(s, e, p)
  {
    var x, y := e.longitudeE6 - p.longitudeE6, s.longitudeE6 - p.longitudeE6;
    var a, b := p.latitudeE6 - s.latitudeE6, e.latitudeE6 - p.latitudeE6;
    StraddleIdentity(s.longitudeE6, s.latitudeE6, e.longitudeE6, e.latitudeE6, p.longitudeE6, p.latitudeE6);
    assert Orientation(s, e, p) == a * x + b * y;
    if b > 0 {
      WeightedSum(a, b, x, y);
    } else {
      WeightedSum(-b, -a, y, x);
      assert (-b) * y + (-a) * x == -(a * x + b * y);
    }
  }

  ghost predicate LeftOfAll(v: seq<PointE6>, p: PointE6)
  {
    forall q :: q in v ==> q.longitudeE6 > p.longitudeE6
  }

  ghost predicate OutsideBox(v: seq<PointE6>, p: PointE6)
  {
    || LeftOfAll(v, p)
    || (forall q :: q in v ==> q.longitudeE6 < p.longitudeE6)
    || (forall q :: q in v ==> q.latitudeE6 < p.latitudeE6)
    || (forall q :: q in v ==> q.latitudeE6 > p.latitudeE6)
  }

  predicate Above(q: PointE6, p: PointE6)
  {
    q.latitudeE6 > p.latitudeE6
  }

  /** Left of every vertex an edge is crossed exactly when it changes sides. */
  lemma {:induction false} LeftCrossing(s: PointE6, e: PointE6, p: PointE6)
    requires s.longitudeE6 > p.longitudeE6 && e.longitudeE6 > p.longitudeE6
    ensures CrossedBy(p)(Edge(s, e)) == (Above(s, p) != Above(e, p))
  {
    if Straddles(s, e, p) { StraddlingEdge(s, e, p); }
  }

  /** The edges crossed so far tell on which side of the point's latitude the walk now is. */
  lemma {:induction false} SideParity(v: seq<PointE6>, p: PointE6, crossed: Edge -> bool, n: nat)
    requires n < |v|
    requires forall e :: e in Edges(v) ==> crossed(e) == (Above(e.start, p) != Above(e.end, p))
    ensures Count(Edges(v)[..n], crossed) % 2 == (if Above(v[0], p) == Above(v[n], p) then 0 else 1)
  {
    if n != 0 {
      SideParity(v, p, crossed, n - 1);
      assert Edges(v)[..n][..n - 1] == Edges(v)[..n - 1];
      assert Edges(v)[n - 1] == Edge(v[n - 1], v[n]);
      assert Edges(v)[n - 1] in Edges(v);
    }
  }

  lemma {:induction false} CountNone(edges: seq<Edge>, counted: Edge -> bool)
    requires forall e :: e in edges ==> !counted(e)
    ensures Count(edges, counted) == 0
  {
    if edges != [] { CountNone(edges[..|edges| - 1], counted); }
  }

  lemma {:induction false} EvenlyStraddled(v: seq<PointE6>, p: PointE6, crossed: Edge -> bool)
    requires |v| > 0
    requires forall e :: e in Edges(v) ==> crossed(e) == (Above(e.start, p) != Above(e.end, p))
    ensures Count(Edges(v), crossed) % 2 == 0
  {
    var n := |v| - 1;
    SideParity(v, p, crossed, n);
    assert Edges(v)[n] == Edge(v[n], v[0]);
    assert Edges(v)[n] in Edges(v);
  }

  /** A point outside the bounding box of the vertices is strictly outside the polygon. */
  lemma {:induction false} OutsideBoxIsOutside(v: seq<PointE6>, p: PointE6)
    requires |v| > 0 && OutsideBox(v, p)
    ensures StrictlyOutside(v, p)
  {
    forall e | e in Edges(v)
      ensures e.start in v && e.end in v && !TouchedBy(p)(e)
      ensures LeftOfAll(v, p) ==> CrossedBy(p)(e) == (Above(e.start, p) != Above(e.end, p))
      ensures !LeftOfAll(v, p) ==> !CrossedBy(p)(e)
    {
      assert !InBox(e.start, e.end, p);
      if LeftOfAll(v, p) {
        LeftCrossing(e.start, e.end, p);
      } else if Straddles(e.start, e.end, p) {
        StraddlingEdge(e.start, e.end, p);
      }
    }
    if LeftOfAll(v, p) {
      EvenlyStraddled(v, p, CrossedBy(p));
    } else {
      CountNone(Edges(v), CrossedBy(p));
    }
  }

  // ----- both rays

  /** The edge passes to the left of the point. */
  predicate CrossesLeft(s: PointE6, e: PointE6, p: PointE6)
  {
    Straddles(s, e, p) && if e.latitudeE6 > s.latitudeE6 then Orientation(s, e, p) < 0 else Orientation(s, e, p) > 0
  }

  function CrossedLeftBy(p: PointE6): Edge -> bool
  {
    (e: Edge) => CrossesLeft(e.start, e.end, p)
  }

  function StraddledBy(p: PointE6): Edge -> bool
  {
    (e: Edge) => Straddles(e.start, e.end, p)
  }

  /** Off the boundary an edge that changes sides passes either to the right or to the left. */
  lemma {:induction false} LeftAndRight(edges: seq<Edge>, p: PointE6)
    requires forall e :: e in edges ==> !OnSegment(e.start, e.end, p)
    ensures Count(edges, CrossedBy(p)) + Count(edges, CrossedLeftBy(p)) == Count(edges, StraddledBy(p))
  {
    if edges != [] {
      var last := edges[|edges| - 1];
      LeftAndRight(edges[..|edges| - 1], p);
      if Straddles(last.start, last.end, p) { StraddlingEdge(last.start, last.end, p); }
    }
  }

  /** Off the boundary the ray to the left gives the same verdict as the ray to the right. */
  lemma {:induction false} RaysAgree(v: seq<PointE6>, p: PointE6)
    requires |v| > 0 && !OnBoundary(v, p)
    ensures StrictlyOutside(v, p) <==> Count(Edges(v), CrossedLeftBy(p)) % 2 == 0
  {
    hide OnSegment;
    hide Edges;
    hide Straddles;
    LeftAndRight(Edges(v), p);
    StraddledEvenly(v, p);
  }

  lemma {:induction false} StraddledEvenly(v: seq<PointE6>, p: PointE6)
    requires |v| > 0
    ensures Count(Edges(v), StraddledBy(p)) % 2 == 0
  {
    hide Edges;
    EvenlyStraddled(v, p, StraddledBy(p));
  }

  // ----- circuit agreement and range

  /** The two crossing tests differ exactly on a downward straddling edge through the point. */
  lemma {:induction false} CircuitCrossingAgrees(s: PointE6, e: PointE6, p: PointE6)
    ensures CircuitCrossesRight(p, s, e) == CrossesRight(s, e, p)
       <==> !(Straddles(s, e, p) && e.latitudeE6 < s.latitudeE6 && Orientation(s, e, p) == 0)
    ensures !OnSegment(s, e, p) ==> CircuitCrossesRight(p, s, e) == CrossesRight(s, e, p)
  {
    if Straddles(s, e, p) { StraddlingEdge(s, e, p); }
  }

  function CircuitCrossedBy(p: PointE6): Edge -> bool
  {
    (e: Edge) => CircuitCrossesRight(p, e.start, e.end)
  }

  /** Off the boundary the circuit's crossing count decides the policy's verdict. */
  lemma {:induction false} CircuitVerdictAgrees(v: seq<PointE6>, p: PointE6)
    requires !OnBoundary(v, p)
    ensures StrictlyOutside(v, p) <==> Count(Edges(v), CircuitCrossedBy(p)) % 2 == 0
  {
    CircuitCountAgrees(Edges(v), p);
  }

  lemma {:induction false} CircuitCountAgrees(edges: seq<Edge>, p: PointE6)
    requires forall e :: e in edges ==> !OnSegment(e.start, e.end, p)
    ensures Count(edges, CircuitCrossedBy(p)) == Count(edges, CrossedBy(p))
  {
    if edges != [] {
      var last := edges[|edges| - 1];
      CircuitCountAgrees(edges[..|edges| - 1], p);
      CircuitCrossingAgrees(last.start, last.end, p);
    }
  }

  lemma {:induction false} ProductBound(u: int, c: int, w: int)
    requires 0 <= u <= w
    ensures u * c <= w * (if c > 0 then c else 0)
  {
  }

  /** Twice the area of a triangle inside a `w` by `h` box is at most `w * h`. */
  lemma {:induction false} TriangleBound(u1: int, v1: int, u2: int, v2: int, u3: int, v3: int, w: int, h: int)
    requires 0 <= u1 <= w && 0 <= u2 <= w && 0 <= u3 <= w
    requires 0 <= v1 <= h && 0 <= v2 <= h && 0 <= v3 <= h
    ensures Cross(u2 - u1, v2 - v1, u3 - u1, v3 - v1) <= w * h
  {
    var c1, c2, c3 := v2 - v3, v3 - v1, v1 - v2;
    assert Cross(u2 - u1, v2 - v1, u3 - u1, v3 - v1) == u1 * c1 + u2 * c2 + u3 * c3 by {
      assert (u2 - u1) * (v3 - v1) - (v2 - v1) * (u3 - u1) == u1 * (v2 - v3) + u2 * (v3 - v1) + u3 * (v1 - v2);
    }
    ProductBound(u1, c1, w);
    ProductBound(u2, c2, w);
    ProductBound(u3, c3, w);
    var positive := (if c1 > 0 then c1 else 0) + (if c2 > 0 then c2 else 0) + (if c3 > 0 then c3 else 0);
    assert w * (if c1 > 0 then c1 else 0) + w * (if c2 > 0 then c2 else 0) + w * (if c3 > 0 then c3 else 0)
        == w * positive;
    assert positive <= h;
    ProductBound(w, positive, w);
    assert w * positive <= w * h;
  }

  /** Every orientation of WGS-84 points fits the circuit's 56-bit magnitude. */
  lemma {:induction false} OrientationFits56Bits(s: PointE6, e: PointE6, p: PointE6)
    requires ValidPoint(s) && ValidPoint(e) && ValidPoint(p)
    ensures -0x100_0000_0000_0000 < Orientation(s, e, p) < 0x100_0000_0000_0000
  {
    var x, y := MAX_LONGITUDE_E6, MAX_LATITUDE_E6;
    TriangleBound(s.longitudeE6 + x, s.latitudeE6 + y, e.longitudeE6 + x, e.latitudeE6 + y,
                  p.longitudeE6 + x, p.latitudeE6 + y, 2 * x, 2 * y);
    TriangleBound(e.longitudeE6 + x, e.latitudeE6 + y, s.longitudeE6 + x, s.latitudeE6 + y,
                  p.longitudeE6 + x, p.latitudeE6 + y, 2 * x, 2 * y);
    OrientationFlips(Edge(s, e), p);
  }
}
