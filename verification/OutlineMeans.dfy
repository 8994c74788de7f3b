/** What the checks of scripts/blobs_probe.py on outlines mean, said of the vertices themselves. */
module OutlineMeans {
  import opened Text
  import opened BlobsProbe

  // ----- check_polygon -----------------------------------------------------------------------------

  /** Both coordinates are percentages, and not at a wall where the outline is to keep clear of it. */
  predicate InPercent(p: Point, clear: bool) {
    if clear then 1.0 <= p.x <= 99.0 && 1.0 <= p.y <= 99.0 else 0.0 <= p.x <= 100.0 && 0.0 <= p.y <= 100.0
  }

  predicate AllInPercent(pts: seq<Point>, clear: bool) {
    forall i :: 0 <= i < |pts| ==> InPercent(pts[i], clear)
  }

  lemma InPercentIs(pts: seq<Point>, clear: bool)
    ensures AllInPercent(pts, clear) <==>
              !AnyOutside(pts, if clear then 1.0 else 0.0, if clear then 99.0 else 100.0)
  {
  }

  /** The bounds hold every vertex, and each is some vertex's. */
  ghost predicate TightBounds(pts: seq<Point>, b: Bounds) {
    && (forall i :: 0 <= i < |pts| ==> b.minX <= pts[i].x <= b.maxX && b.minY <= pts[i].y <= b.maxY)
    && (exists i :: 0 <= i < |pts| && pts[i].x == b.minX) && (exists i :: 0 <= i < |pts| && pts[i].x == b.maxX)
    && (exists i :: 0 <= i < |pts| && pts[i].y == b.minY) && (exists i :: 0 <= i < |pts| && pts[i].y == b.maxY)
  }

  lemma AtIs(pts: seq<Point>, i: nat)
    requires i < |pts|
    ensures At(pts, i) == pts[i]
    ensures At(pts, i + 1) == if i + 1 < |pts| then pts[i + 1] else pts[0]
  {
    ModSmall(i, |pts|);
    if i + 1 < |pts| {
      ModSmall(i + 1, |pts|);
    } else {
      ModUnique(|pts|, |pts|, 1, 0);
    }
  }

  lemma LeastIs(pts: seq<Point>, axis: Point -> real)
    requires pts != []
    ensures forall i :: 0 <= i < |pts| ==> LeastTo(Along(pts, axis), |pts|) <= axis(pts[i])
    ensures exists i :: 0 <= i < |pts| && axis(pts[i]) == LeastTo(Along(pts, axis), |pts|)
  {
    var f := Along(pts, axis);
    forall i | 0 <= i < |pts|
      ensures f(i) == axis(pts[i])
    {
      AtIs(pts, i);
    }
    hide At;
    var i :| 0 <= i < |pts| && LeastTo(f, |pts|) == f(i);
    assert axis(pts[i]) == LeastTo(f, |pts|);
  }

  lemma BoundsAreTight(pts: seq<Point>)
    requires pts != []
    ensures TightBounds(pts, BoundsOf(pts))
  {
    hide LeastTo, Along;
    AxesAre(pts);
    LeastIs(pts, X);
    LeastIs(pts, Y);
    LeastIs(pts, MinusX);
    LeastIs(pts, MinusY);
  }

  lemma AxesAre(pts: seq<Point>)
    ensures forall i :: 0 <= i < |pts| ==> MinusX(pts[i]) == -pts[i].x && MinusY(pts[i]) == -pts[i].y
    ensures forall i :: 0 <= i < |pts| ==> X(pts[i]) == pts[i].x && Y(pts[i]) == pts[i].y
  {
  }

  /** An outline passes exactly when it has 48 vertices, all in percent, and winds the negative way; and what comes
      back are its bounds. */
  lemma CheckExactly(pts: seq<Point>, clear: bool)
    ensures CheckPolygon(pts, clear).Some? <==> |pts| == 48 && AllInPercent(pts, clear) && Winding(pts) < 0.0
    ensures CheckPolygon(pts, clear).Some? ==> TightBounds(pts, CheckPolygon(pts, clear).value)
  {
    hide Winding, BoundsOf, AllInPercent, AnyOutside, TightBounds;
    InPercentIs(pts, clear);
    if CheckPolygon(pts, clear).Some? {
      BoundsAreTight(pts);
    }
  }

  // ----- the way round ------------------------------------------------------------------------------

  /** Seen from `c`, the way from `p` to `q` goes round in the negative sense. */
  predicate TurnsBack(c: Point, p: Point, q: Point) {
    (p.x - c.x) * (q.y - c.y) < (q.x - c.x) * (p.y - c.y)
  }

  /** Each vertex and the next one, the last and the first included. */
  ghost predicate AllTurnBack(c: Point, pts: seq<Point>) {
    && pts != [] && (forall i :: 0 < i < |pts| ==> TurnsBack(c, pts[i - 1], pts[i]))
    && TurnsBack(c, pts[|pts| - 1], pts[0])
  }

  ghost predicate AllTurnOn(c: Point, pts: seq<Point>) {
    && pts != [] && (forall i :: 0 < i < |pts| ==> TurnsBack(c, pts[i], pts[i - 1]))
    && TurnsBack(c, pts[0], pts[|pts| - 1])
  }

  lemma {:induction false} SumNegative(f: int -> real, k: nat)
    requires k > 0 && forall i :: 0 <= i < k ==> f(i) < 0.0
    ensures SumTo(f, k) < 0.0
  {
    if k > 1 {
      SumNegative(f, k - 1);
    }
  }

  lemma {:induction false} SumPositive(f: int -> real, k: nat)
    requires k > 0 && forall i :: 0 <= i < k ==> f(i) > 0.0
    ensures SumTo(f, k) > 0.0
  {
    if k > 1 {
      SumPositive(f, k - 1);
    }
  }

  function From(c: Point, p: Point): Point {
    Point(p.x - c.x, p.y - c.y)
  }

  lemma EdgeFrom(c: Point, pts: seq<Point>, f: int -> real, i: nat)
    requires i < |pts| && f == Edge(Moved(pts, Point(-c.x, -c.y)))
    ensures f(i) == Cross(From(c, pts[i]), From(c, if i + 1 < |pts| then pts[i + 1] else pts[0]))
  {
    hide *;
    var d := Point(-c.x, -c.y);
    EdgeIs(Moved(pts, d), i);
    AtIs(pts, i);
    AtMoved(pts, d, i);
    AtMoved(pts, d, i + 1);
    MovedFrom(c, At(pts, i));
    MovedFrom(c, At(pts, i + 1));
  }

  lemma EdgeIs(pts: seq<Point>, i: int)
    requires pts != []
    ensures Edge(pts)(i) == Cross(At(pts, i), At(pts, i + 1))
  {
  }

  lemma MovedFrom(c: Point, p: Point)
    ensures Point(p.x + -c.x, p.y + -c.y) == From(c, p)
  {
  }

  lemma CrossTurns(c: Point, p: Point, q: Point)
    ensures Cross(From(c, p), From(c, q)) < 0.0 <==> TurnsBack(c, p, q)
    ensures Cross(From(c, p), From(c, q)) > 0.0 <==> TurnsBack(c, q, p)
  {
    assert (p.x - c.x) * (q.y - c.y) == (q.y - c.y) * (p.x - c.x);
    assert (q.x - c.x) * (p.y - c.y) == (p.y - c.y) * (q.x - c.x);
  }

  /** An outline that goes round some point the negative way throughout winds the negative way; one that goes round
      it the other way throughout does not, and is refused. */
  lemma StarWinds(c: Point, pts: seq<Point>)
    ensures AllTurnBack(c, pts) ==> Winding(pts) < 0.0
    ensures AllTurnOn(c, pts) ==> Winding(pts) > 0.0
  {
    hide AllTurnBack, AllTurnOn, Winding;
    if AllTurnBack(c, pts) {
      BackWinds(c, pts);
    }
    if AllTurnOn(c, pts) {
      OnWinds(c, pts);
    }
  }

  lemma WindingFrom(c: Point, pts: seq<Point>, f: int -> real)
    requires pts != [] && f == Edge(Moved(pts, Point(-c.x, -c.y)))
    ensures SumTo(f, |pts|) == Winding(pts)
  {
    WindingMoved(pts, Point(-c.x, -c.y));
    hide SumTo, Edge;
  }

  lemma BackWinds(c: Point, pts: seq<Point>)
    requires AllTurnBack(c, pts)
    ensures pts != [] && Winding(pts) < 0.0
  {
    assert pts != [];
    hide *;
    var f := Edge(Moved(pts, Point(-c.x, -c.y)));
    EdgesNegative(c, pts, f);
    SumNegative(f, |pts|);
    WindingFrom(c, pts, f);
  }

  lemma OnWinds(c: Point, pts: seq<Point>)
    requires AllTurnOn(c, pts)
    ensures pts != [] && Winding(pts) > 0.0
  {
    assert pts != [];
    hide *;
    var f := Edge(Moved(pts, Point(-c.x, -c.y)));
    EdgesPositive(c, pts, f);
    SumPositive(f, |pts|);
    WindingFrom(c, pts, f);
  }

  lemma EdgesNegative(c: Point, pts: seq<Point>, f: int -> real)
    requires AllTurnBack(c, pts) && f == Edge(Moved(pts, Point(-c.x, -c.y)))
    ensures forall i :: 0 <= i < |pts| ==> f(i) < 0.0
  {
    hide TurnsBack, Cross, Edge, Moved;
    forall i | 0 <= i < |pts|
      ensures f(i) < 0.0
    {
      EdgeFrom(c, pts, f, i);
      var q := if i + 1 < |pts| then pts[i + 1] else pts[0];
      assert i + 1 < |pts| ==> TurnsBack(c, pts[i + 1 - 1], pts[i + 1]);
      CrossTurns(c, pts[i], q);
    }
  }

  lemma EdgesPositive(c: Point, pts: seq<Point>, f: int -> real)
    requires AllTurnOn(c, pts) && f == Edge(Moved(pts, Point(-c.x, -c.y)))
    ensures forall i :: 0 <= i < |pts| ==> f(i) > 0.0
  {
    hide TurnsBack, Cross, Edge, Moved;
    forall i | 0 <= i < |pts|
      ensures f(i) > 0.0
    {
      EdgeFrom(c, pts, f, i);
      var q := if i + 1 < |pts| then pts[i + 1] else pts[0];
      assert i + 1 < |pts| ==> TurnsBack(c, pts[i + 1], pts[i + 1 - 1]);
      CrossTurns(c, pts[i], q);
    }
  }

  // ----- the vertex move ----------------------------------------------------------------------------

  lemma NoDistance(p: Point, q: Point)
    ensures SquaredDistance(p, q) == 0.0 <==> p == q
  {
    var x, y := p.x - q.x, p.y - q.y;
    assert SquaredDistance(p, q) == Product(x, x) + Product(y, y);
    hide *;
    ProductSign(x, x);
    ProductSign(y, y);
  }

  function Product(x: real, y: real): real {
    x * y
  }

  lemma ProductSign(x: real, y: real)
    ensures (x > 0.0 && y > 0.0) || (x < 0.0 && y < 0.0) ==> Product(x, y) > 0.0
    ensures x == 0.0 ==> Product(x, y) == 0.0
  {
    if x < 0.0 && y < 0.0 {
      BothPositive(-x, -y);
      BothTurned(x, y);
    } else if x > 0.0 && y > 0.0 {
      BothPositive(x, y);
    }
  }

  lemma BothPositive(x: real, y: real)
    requires x > 0.0 && y > 0.0
    ensures Product(x, y) > 0.0
  {
  }

  lemma BothTurned(x: real, y: real)
    ensures Product(-x, -y) == Product(x, y)
  {
  }

  lemma {:induction false} SumZero(f: int -> real, k: nat)
    requires forall i :: 0 <= i < k ==> f(i) >= 0.0
    ensures SumTo(f, k) == 0.0 <==> forall i :: 0 <= i < k ==> f(i) == 0.0
  {
    if k > 0 {
      SumZero(f, k - 1);
      SumNotNegative(f, k - 1);
    }
  }

  /** A rotation moves nothing exactly when it lays each vertex on its own. */
  lemma NoMoveExactly(a: seq<Point>, b: seq<Point>, shift: int)
    requires a != [] && |a| == |b|
    ensures Squares(a, b, shift) == 0.0 <==> forall i :: 0 <= i < |a| ==> b[(i + shift) % |a|] == a[i]
  {
    var f, n := Move(a, b, shift), |a|;
    forall i | 0 <= i < n
      ensures f(i) >= 0.0 && (f(i) == 0.0 <==> b[(i + shift) % n] == a[i])
    {
      MoveAt(a, b, shift, i);
    }
    hide Move;
    SumZero(f, n);
  }

  lemma MoveAt(a: seq<Point>, b: seq<Point>, shift: int, i: nat)
    requires i < |a| && |a| == |b|
    ensures Move(a, b, shift)(i) >= 0.0
    ensures Move(a, b, shift)(i) == 0.0 <==> b[(i + shift) % |a|] == a[i]
  {
    AtIs(a, i);
    NoDistance(At(b, i + shift), At(a, i));
    hide SquaredDistance;
  }

  lemma {:induction false} SumConstant(f: int -> real, k: nat, c: real)
    requires forall i :: 0 <= i < k ==> f(i) == c
    ensures SumTo(f, k) == k as real * c
  {
    if k == 0 {
      NoTimes(c);
    } else {
      SumConstant(f, k - 1, c);
      OnceMore(k, c);
    }
  }

  lemma NoTimes(c: real)
    ensures 0 as real * c == 0.0
  {
  }

  lemma OnceMore(k: nat, c: real)
    requires k > 0
    ensures (k - 1) as real * c + c == k as real * c
  {
    assert (k - 1) as real == k as real - 1.0;
  }

  /** The square of a way. */
  function WaySquared(d: Point): real {
    d.x * d.x + d.y * d.y
  }

  /** An outline moved as a whole is moved, under the root, by the square of the way it went. */
  lemma MovedWhole(a: seq<Point>, d: Point)
    requires a != []
    ensures Squares(a, Moved(a, d), 0) / |a| as real == WaySquared(d)
  {
    hide *;
    var f, n := Move(a, Moved(a, d), 0), |a|;
    forall i | 0 <= i < n
      ensures f(i) == WaySquared(d)
    {
      WholeAt(a, d, i);
    }
    SumConstant(f, n, WaySquared(d));
    SquaresAre(a, Moved(a, d));
    Divided(n as real, WaySquared(d));
  }

  lemma SquaresAre(a: seq<Point>, b: seq<Point>)
    requires a != [] && |a| == |b|
    ensures Squares(a, b, 0) == SumTo(Move(a, b, 0), |a|)
  {
  }

  lemma WholeAt(a: seq<Point>, d: Point, i: nat)
    requires i < |a|
    ensures Move(a, Moved(a, d), 0)(i) == WaySquared(d)
  {
    AtMoved(a, d, i);
    WentBy(At(a, i), d);
    hide SquaredDistance, At, Moved;
  }

  lemma WentBy(p: Point, d: Point)
    ensures SquaredDistance(Point(p.x + d.x, p.y + d.y), p) == WaySquared(d)
  {
    assert p.x + d.x - p.x == d.x && p.y + d.y - p.y == d.y;
  }

  lemma Divided(n: real, c: real)
    requires n > 0.0
    ensures n * c / n == c
  {
  }

  /** A step is called twisted exactly when some rotation would have moved the vertices less, by more than five
      parts in a hundred and the rounding. */
  lemma TwistedExactly(root: real -> real, a: seq<Point>, b: seq<Point>)
    requires a != [] && |a| == |b|
    ensures Twisted(root, a, b) <==>
              exists s :: 0 <= s < |a| && RmsMove(root, a, b, 0) > 1.05 * RmsMove(root, a, b, s) + 0.15
  {
    hide RmsMove;
    var f := s => RmsMove(root, a, b, s);
    var best := LeastTo(f, |a|);
    assert best == Best(root, a, b);
    var s :| 0 <= s < |a| && best == f(s);
    assert f(s) == RmsMove(root, a, b, s);
    forall t | 0 <= t < |a|
      ensures best <= RmsMove(root, a, b, t)
    {
      assert best <= f(t);
    }
  }
}
