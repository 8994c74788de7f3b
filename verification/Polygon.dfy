/** The cyclic sums of scripts/blobs_probe.py: the winding of an outline and the distance between two
    outlines under every rotation of their vertices. Coordinates are reals. */
module BlobsProbe {
  import opened Text

  const NVERT := 48

  datatype Point = Point(x: real, y: real)

  // ----- sums and minima over a cycle --------------------------------------------------------------

  function SumTo(f: int -> real, k: nat): real {
    if k == 0 then 0.0 else SumTo(f, k - 1) + f(k - 1)
  }

  /** The least of `f(0)`, ..., `f(k - 1)`. */
  function LeastTo(f: int -> real, k: nat): (r: real)
    requires k > 0
    ensures (forall i :: 0 <= i < k ==> r <= f(i)) && (exists i :: 0 <= i < k && r == f(i))
  {
    var last := f(k - 1);
    if k == 1 then last
    else
      var r := LeastTo(f, k - 1);
      if last < r then last else r
  }

  /** `f` read from `s` on, around the cycle. */
  function Shifted(f: int -> real, s: int, n: nat): int -> real
    requires n > 0
  {
    i => f((i + s) % n)
  }

  function Backwards(f: int -> real, n: nat): int -> real {
    i => f(n - 1 - i)
  }

  lemma ModUnique(x: int, n: int, q: int, r: int)
    requires n > 0 && x == q * n + r && 0 <= r < n
    ensures x % n == r
  {
    var d := q - x / n;
    assert d * n == x % n - r;
    assert d >= 1 ==> d * n >= n;
    assert d <= -1 ==> d * n <= -n;
  }

  lemma ModAdd(a: int, b: int, n: int)
    requires n > 0
    ensures (a % n + b) % n == (a + b) % n
  {
    var x := a % n + b;
    ModUnique(a + b, n, a / n + x / n, x % n);
  }

  lemma ModSmall(a: int, n: int)
    requires 0 <= a < n
    ensures a % n == a
  {
  }

  lemma {:induction false} SumSame(f: int -> real, g: int -> real, k: nat)
    requires forall i :: 0 <= i < k ==> f(i) == g(i)
    ensures SumTo(f, k) == SumTo(g, k)
  {
    if k > 0 {
      SumSame(f, g, k - 1);
    }
  }

  lemma {:induction false} SumFromFirst(f: int -> real, g: int -> real, k: nat)
    requires forall i :: 0 <= i < k ==> g(i) == f(i + 1)
    ensures SumTo(f, k + 1) == f(0) + SumTo(g, k)
  {
    if k > 0 {
      SumFromFirst(f, g, k - 1);
    }
  }

  lemma SumShiftOne(f: int -> real, n: nat)
    requires n > 0
    ensures SumTo(Shifted(f, 1, n), n) == SumTo(f, n)
  {
    var g := Shifted(f, 1, n);
    forall i | 0 <= i < n - 1
      ensures g(i) == f(i + 1)
    {
      ModSmall(i + 1, n);
    }
    SumFromFirst(f, g, n - 1);
    ModUnique(n, n, 1, 0);
  }

  /** A sum around the cycle may start anywhere. */
  lemma {:induction false} SumShift(f: int -> real, s: nat, n: nat)
    requires n > 0
    ensures SumTo(Shifted(f, s, n), n) == SumTo(f, n)
    decreases s
  {
    if s == 0 {
      forall i | 0 <= i < n
        ensures Shifted(f, 0, n)(i) == f(i)
      {
        ModSmall(i, n);
      }
      SumSame(Shifted(f, 0, n), f, n);
    } else {
      var g := Shifted(f, s - 1, n);
      SumShift(f, s - 1, n);
      SumShiftOne(g, n);
      forall i | 0 <= i < n
        ensures Shifted(f, s, n)(i) == Shifted(g, 1, n)(i)
      {
        ModAdd(i + 1, s - 1, n);
      }
      SumSame(Shifted(f, s, n), Shifted(g, 1, n), n);
    }
  }

  lemma SumShiftAny(f: int -> real, s: int, n: nat)
    requires n > 0
    ensures SumTo(Shifted(f, s, n), n) == SumTo(f, n)
  {
    SumShift(f, s % n, n);
    forall i | 0 <= i < n
      ensures Shifted(f, s, n)(i) == Shifted(f, s % n, n)(i)
    {
      ModAdd(s, i, n);
    }
    SumSame(Shifted(f, s, n), Shifted(f, s % n, n), n);
  }

  lemma {:induction false} SumBackwards(f: int -> real, n: nat)
    ensures SumTo(Backwards(f, n), n) == SumTo(f, n)
  {
    if n > 0 {
      SumBackwards(f, n - 1);
      SumFromFirst(Backwards(f, n), Backwards(f, n - 1), n - 1);
    }
  }

  lemma {:induction false} SumNegated(f: int -> real, g: int -> real, k: nat)
    requires forall i :: 0 <= i < k ==> g(i) == -f(i)
    ensures SumTo(g, k) == -SumTo(f, k)
  {
    if k > 0 {
      SumNegated(f, g, k - 1);
    }
  }

  lemma {:induction false} SumAdded(f: int -> real, g: int -> real, h: int -> real, k: nat)
    requires forall i :: 0 <= i < k ==> h(i) == f(i) + g(i)
    ensures SumTo(h, k) == SumTo(f, k) + SumTo(g, k)
  {
    if k > 0 {
      SumAdded(f, g, h, k - 1);
    }
  }

  /** Going round from elsewhere does not change what is least. */
  lemma LeastShift(f: int -> real, g: int -> real, s: int, n: nat)
    requires n > 0 && forall i :: 0 <= i < n ==> g(i) == f((i + s) % n)
    ensures LeastTo(g, n) == LeastTo(f, n)
  {
    var j :| 0 <= j < n && LeastTo(f, n) == f(j);
    ModAdd(j - s, s, n);
    ModSmall(j, n);
    var k := (j - s) % n;
    assert g(k) == f(j);
    var i :| 0 <= i < n && LeastTo(g, n) == g(i);
    assert 0 <= (i + s) % n < n;
  }

  // ----- outlines ----------------------------------------------------------------------------------

  function Rotated(pts: seq<Point>, s: int): (r: seq<Point>)
    requires pts != []
    ensures |r| == |pts|
  {
    seq(|pts|, i => pts[(i + s) % |pts|])
  }

  function Reversed(pts: seq<Point>): (r: seq<Point>)
    ensures |r| == |pts|
  {
    seq(|pts|, i requires 0 <= i < |pts| => pts[|pts| - 1 - i])
  }

  function Cross(p: Point, q: Point): real {
    p.x * q.y - q.x * p.y
  }

  /** The vertex `i` of the cycle. */
  function At(pts: seq<Point>, i: int): Point
    requires pts != []
  {
    pts[i % |pts|]
  }

  function Edge(pts: seq<Point>): int -> real
    requires pts != []
  {
    i => Cross(At(pts, i), At(pts, i + 1))
  }

  /** The winding sum of `check_polygon`: twice the signed area. */
  function Winding(pts: seq<Point>): real
    requires pts != []
  {
    SumTo(Edge(pts), |pts|)
  }

  lemma AtRotated(pts: seq<Point>, s: int, i: int)
    requires pts != []
    ensures At(Rotated(pts, s), i) == At(pts, i + s)
  {
    ModAdd(i, s, |pts|);
  }

  lemma AtReversed(pts: seq<Point>, i: int)
    requires pts != []
    ensures At(Reversed(pts), i) == At(pts, -1 - i)
  {
    var n := |pts|;
    ModUnique(-1 - i, n, -1 - i / n, n - 1 - i % n);
  }

  lemma AtWraps(pts: seq<Point>, i: int)
    requires pts != []
    ensures At(pts, i % |pts|) == At(pts, i) && At(pts, i % |pts| + 1) == At(pts, i + 1)
  {
    ModAdd(i, 0, |pts|);
    ModAdd(i, 1, |pts|);
  }

  /** The winding is the same whichever vertex comes first. */
  lemma WindingRotated(pts: seq<Point>, s: int)
    requires pts != []
    ensures Winding(Rotated(pts, s)) == Winding(pts)
  {
    hide At;
    var n := |pts|;
    forall i | 0 <= i < n
      ensures Edge(Rotated(pts, s))(i) == Shifted(Edge(pts), s, n)(i)
    {
      AtRotated(pts, s, i);
      AtRotated(pts, s, i + 1);
      AtWraps(pts, i + s);
    }
    SumSame(Edge(Rotated(pts, s)), Shifted(Edge(pts), s, n), n);
    SumShiftAny(Edge(pts), s, n);
  }

  /** Going round the other way negates it. */
  lemma WindingReversed(pts: seq<Point>)
    requires pts != []
    ensures Winding(Reversed(pts)) == -Winding(pts)
  {
    hide At;
    var n := |pts|;
    var back := Backwards(Shifted(Edge(pts), -1, n), n);
    forall i | 0 <= i < n
      ensures Edge(Reversed(pts))(i) == -back(i)
    {
      AtReversed(pts, i);
      AtReversed(pts, i + 1);
      AtWraps(pts, n - 2 - i);
      AtPeriod(pts, -2 - i);
      AtPeriod(pts, -1 - i);
    }
    SumNegated(back, Edge(Reversed(pts)), n);
    SumBackwards(Shifted(Edge(pts), -1, n), n);
    SumShiftAny(Edge(pts), -1, n);
  }

  lemma AtPeriod(pts: seq<Point>, i: int)
    requires pts != []
    ensures At(pts, i + |pts|) == At(pts, i)
  {
    var n := |pts|;
    ModUnique(i + n, n, i / n + 1, i % n);
  }

  // ----- check_polygon -----------------------------------------------------------------------------

  datatype Bounds = Bounds(minX: real, minY: real, maxX: real, maxY: real)

  predicate Inside(p: Point, lo: real, hi: real) {
    lo <= p.x <= hi && lo <= p.y <= hi
  }

  predicate AnyOutside(pts: seq<Point>, lo: real, hi: real) {
    exists i :: 0 <= i < |pts| && !Inside(pts[i], lo, hi)
  }

  /** `check_polygon`: the outline's bounds, or None where the probe fails. */
  function CheckPolygon(pts: seq<Point>, clear: bool): Option<Bounds> {
    var lo, hi := if clear then 1.0 else 0.0, if clear then 99.0 else 100.0;
    if |pts| != NVERT || AnyOutside(pts, lo, hi) || !(Winding(pts) < 0.0) then None
    else Some(BoundsOf(pts))
  }

  function X(p: Point): real { p.x }
  function Y(p: Point): real { p.y }
  function MinusX(p: Point): real { -p.x }
  function MinusY(p: Point): real { -p.y }

  /** One coordinate of the vertices, in order. */
  function Along(pts: seq<Point>, axis: Point -> real): int -> real
    requires pts != []
  {
    i => axis(At(pts, i))
  }

  /** The least and the greatest coordinates; a greatest one is what is least with the sign turned. */
  function BoundsOf(pts: seq<Point>): Bounds
    requires pts != []
  {
    var n := |pts|;
    Bounds(LeastTo(Along(pts, X), n), LeastTo(Along(pts, Y), n),
           -LeastTo(Along(pts, MinusX), n), -LeastTo(Along(pts, MinusY), n))
  }

  lemma AlongRotated(pts: seq<Point>, s: int, axis: Point -> real)
    requires pts != []
    ensures LeastTo(Along(Rotated(pts, s), axis), |pts|) == LeastTo(Along(pts, axis), |pts|)
  {
    hide At;
    var n, turned := |pts|, Rotated(pts, s);
    forall i | 0 <= i < n
      ensures Along(turned, axis)(i) == Along(pts, axis)((i + s) % n)
    {
      AtRotated(pts, s, i);
      AtWraps(pts, i + s);
    }
    LeastShift(Along(pts, axis), Along(turned, axis), s, n);
  }

  lemma BoundsRotated(pts: seq<Point>, s: int)
    requires pts != []
    ensures BoundsOf(Rotated(pts, s)) == BoundsOf(pts)
  {
    hide At, LeastTo, Along, Rotated;
    AlongRotated(pts, s, X);
    AlongRotated(pts, s, Y);
    AlongRotated(pts, s, MinusX);
    AlongRotated(pts, s, MinusY);
  }

  /** The check does not depend on which vertex comes first. */
  lemma CheckRotated(pts: seq<Point>, s: int, clear: bool)
    requires pts != []
    ensures CheckPolygon(Rotated(pts, s), clear) == CheckPolygon(pts, clear)
  {
    hide Winding, BoundsOf, Inside, Rotated;
    WindingRotated(pts, s);
    BoundsRotated(pts, s);
    var lo, hi := if clear then 1.0 else 0.0, if clear then 99.0 else 100.0;
    OutsideRotated(pts, s, lo, hi);
  }

  lemma OutsideRotated(pts: seq<Point>, s: int, lo: real, hi: real)
    requires pts != []
    ensures AnyOutside(Rotated(pts, s), lo, hi) <==> AnyOutside(pts, lo, hi)
  {
    hide Inside;
    var turned, n := Rotated(pts, s), |pts|;
    if j :| 0 <= j < n && !Inside(pts[j], lo, hi) {
      ModAdd(j - s, s, n);
      ModSmall(j, n);
      var i := (j - s) % n;
      assert turned[i] == pts[j];
    }
    if i :| 0 <= i < n && !Inside(turned[i], lo, hi) {
      assert turned[i] == pts[(i + s) % n];
    }
  }

  /** It does pin the way round: an outline that passes fails when its vertices are reversed. */
  lemma CheckReversed(pts: seq<Point>, clear: bool)
    requires CheckPolygon(pts, clear).Some?
    ensures CheckPolygon(Reversed(pts), clear).None?
  {
    hide Winding;
    WindingReversed(pts);
  }

  function Moved(pts: seq<Point>, d: Point): (r: seq<Point>)
    ensures |r| == |pts|
  {
    seq(|pts|, i requires 0 <= i < |pts| => Point(pts[i].x + d.x, pts[i].y + d.y))
  }

  /** The winding is that of the shape, wherever it stands. */
  lemma WindingMoved(pts: seq<Point>, d: Point)
    requires pts != []
    ensures Winding(Moved(pts, d)) == Winding(pts)
  {
    hide At;
    var n := |pts|;
    var f := i => Cross(d, At(pts, i));
    var g := i => -f(i);
    var drift := i => Shifted(f, 1, n)(i) + g(i);
    forall i | 0 <= i < n
      ensures Edge(Moved(pts, d))(i) == Edge(pts)(i) + drift(i)
    {
      AtMoved(pts, d, i);
      AtMoved(pts, d, i + 1);
      AtWraps(pts, i + 1);
      assert Shifted(f, 1, n)(i) == Cross(d, At(pts, i + 1));
      CrossMoved(At(pts, i), At(pts, i + 1), d);
    }
    SumAdded(Edge(pts), drift, Edge(Moved(pts, d)), n);
    SumAdded(Shifted(f, 1, n), g, drift, n);
    SumNegated(f, g, n);
    SumShiftAny(f, 1, n);
  }

  lemma AtMoved(pts: seq<Point>, d: Point, i: int)
    requires pts != []
    ensures At(Moved(pts, d), i) == Point(At(pts, i).x + d.x, At(pts, i).y + d.y)
  {
  }

  lemma CrossMoved(p: Point, q: Point, d: Point)
    ensures Cross(Point(p.x + d.x, p.y + d.y), Point(q.x + d.x, q.y + d.y)) == Cross(p, q) + (Cross(d, q) - Cross(d, p))
  {
  }

  // ----- the vertex move ---------------------------------------------------------------------------

  function SquaredDistance(p: Point, q: Point): (d: real)
    ensures d >= 0.0
  {
    var x, y := p.x - q.x, p.y - q.y;
    SquareNotNegative(x);
    SquareNotNegative(y);
    x * x + y * y
  }

  lemma SquareNotNegative(x: real)
    ensures x * x >= 0.0
  {
  }

  lemma DistanceSymmetric(p: Point, q: Point)
    ensures SquaredDistance(p, q) == SquaredDistance(q, p)
  {
    var x, y := p.x - q.x, p.y - q.y;
    assert (-x) * (-x) == x * x && (-y) * (-y) == y * y;
  }

  function Move(a: seq<Point>, b: seq<Point>, shift: int): int -> real
    requires a != [] && |a| == |b|
  {
    i => SquaredDistance(At(b, i + shift), At(a, i))
  }

  /** The sum of squares under the root in `_rms_move`. */
  function Squares(a: seq<Point>, b: seq<Point>, shift: int): real
    requires a != [] && |a| == |b|
  {
    SumTo(Move(a, b, shift), |a|)
  }

  /** A rotation of either outline is a change of shift. */
  lemma SquaresRotated(a: seq<Point>, b: seq<Point>, s: int, t: int, shift: int)
    requires a != [] && |a| == |b|
    ensures Squares(Rotated(a, s), Rotated(b, t), shift) == Squares(a, b, (shift + t - s) % |a|)
  {
    hide Move, Shifted, SumTo;
    var n, c := |a|, (shift + t - s) % |a|;
    var f, g := Move(Rotated(a, s), Rotated(b, t), shift), Shifted(Move(a, b, c), s, n);
    forall i | 0 <= i < n
      ensures f(i) == g(i)
    {
      RotatedAt(a, b, s, t, shift, i);
    }
    SumSame(f, g, n);
    SumShiftAny(Move(a, b, c), s, n);
  }

  lemma RotatedAt(a: seq<Point>, b: seq<Point>, s: int, t: int, shift: int, i: int)
    requires a != [] && |a| == |b|
    ensures Move(Rotated(a, s), Rotated(b, t), shift)(i) == Shifted(Move(a, b, (shift + t - s) % |a|), s, |a|)(i)
  {
    hide At, SquaredDistance;
    AtRotated(a, s, i);
    AtRotated(b, t, i + shift);
    AtWraps(a, i + s);
    AtSum(b, i + s, shift + t - s);
  }

  lemma AtSum(pts: seq<Point>, i: int, s: int)
    requires pts != []
    ensures At(pts, i % |pts| + s % |pts|) == At(pts, i + s)
  {
    ModAdd(i, s % |pts|, |pts|);
    ModAdd(s, i, |pts|);
  }

  /** Matching `b` to `a` is matching `a` to `b` the other way. */
  lemma SquaresSwapped(a: seq<Point>, b: seq<Point>, shift: int)
    requires a != [] && |a| == |b|
    ensures Squares(b, a, shift) == Squares(a, b, (-shift) % |a|)
  {
    hide Move, Shifted, SumTo;
    var n, c := |a|, (-shift) % |a|;
    var f, g := Move(b, a, shift), Shifted(Move(a, b, c), shift, n);
    forall i | 0 <= i < n
      ensures f(i) == g(i)
    {
      SwappedAt(a, b, shift, i);
    }
    SumSame(f, g, n);
    SumShiftAny(Move(a, b, c), shift, n);
  }

  lemma SwappedAt(a: seq<Point>, b: seq<Point>, shift: int, i: int)
    requires a != [] && |a| == |b|
    ensures Move(b, a, shift)(i) == Shifted(Move(a, b, (-shift) % |a|), shift, |a|)(i)
  {
    hide At, SquaredDistance;
    AtWraps(a, i + shift);
    AtSum(b, i + shift, -shift);
    DistanceSymmetric(At(a, i + shift), At(b, i));
  }

  /** A square root, as far as the probe depends on it. */
  ghost predicate RootLike(root: real -> real) {
    (forall x, y :: 0.0 <= x < y ==> root(x) < root(y)) && forall x :: 0.0 <= x ==> 0.0 <= root(x)
  }

  /** `_rms_move`, with the root a parameter. */
  function RmsMove(root: real -> real, a: seq<Point>, b: seq<Point>, shift: int): real
    requires a != [] && |a| == |b|
  {
    root(Squares(a, b, shift) / |a| as real)
  }

  function Best(root: real -> real, a: seq<Point>, b: seq<Point>): real
    requires a != [] && |a| == |b|
  {
    LeastTo(s => RmsMove(root, a, b, s), |a|)
  }

  /** The twist test of `check_motion`. */
  predicate Twisted(root: real -> real, a: seq<Point>, b: seq<Point>)
    requires a != [] && |a| == |b|
  {
    RmsMove(root, a, b, 0) > 1.05 * Best(root, a, b) + 0.15
  }

  /** The nearest rotation is as near whichever vertex either outline begins with, and whichever of the
      two is matched to the other. */
  lemma BestRotated(root: real -> real, a: seq<Point>, b: seq<Point>, s: int, t: int)
    requires a != [] && |a| == |b|
    ensures Best(root, Rotated(a, s), Rotated(b, t)) == Best(root, a, b)
  {
    hide Squares;
    var n := |a|;
    var f, g := i => RmsMove(root, a, b, i), i => RmsMove(root, Rotated(a, s), Rotated(b, t), i);
    forall i | 0 <= i < n
      ensures g(i) == f((i + (t - s)) % n)
    {
      SquaresRotated(a, b, s, t, i);
    }
    LeastShift(f, g, t - s, n);
  }

  /** Nor does it matter which of the two is matched to the other. */
  lemma BestSwapped(root: real -> real, a: seq<Point>, b: seq<Point>)
    requires a != [] && |a| == |b|
    ensures Best(root, b, a) == Best(root, a, b)
  {
    hide Squares;
    var n := |a|;
    var f, g := i => RmsMove(root, a, b, i), i => RmsMove(root, b, a, i);
    forall i | 0 <= i < n
      ensures g(i) == f((-i) % n) && f(i) == g((-i) % n)
    {
      SquaresSwapped(a, b, i);
      SquaresSwapped(b, a, i);
    }
    LeastMirror(f, g, n);
    LeastMirror(g, f, n);
  }

  lemma LeastMirror(f: int -> real, g: int -> real, n: nat)
    requires n > 0 && forall i :: 0 <= i < n ==> f(i) == g((-i) % n)
    ensures LeastTo(g, n) <= LeastTo(f, n)
  {
    var j :| 0 <= j < n && LeastTo(f, n) == f(j);
    var k := (-j) % n;
    assert f(j) == g(k);
  }

  /** The twist verdict depends on how the two outlines are matched and not on where the numbering starts:
      beginning both at another vertex changes nothing. */
  lemma TwistedRotated(root: real -> real, a: seq<Point>, b: seq<Point>, s: int)
    requires a != [] && |a| == |b|
    ensures Twisted(root, Rotated(a, s), Rotated(b, s)) <==> Twisted(root, a, b)
  {
    hide Squares, Best;
    BestRotated(root, a, b, s, s);
    SquaresRotated(a, b, s, s, 0);
    ModSmall(0, |a|);
  }

  /** The root orders rotations as the sum of squares does. */
  lemma RootOrdersSquares(root: real -> real, a: seq<Point>, b: seq<Point>, s: int, t: int)
    requires a != [] && |a| == |b| && RootLike(root)
    ensures RmsMove(root, a, b, s) < RmsMove(root, a, b, t) <==> Squares(a, b, s) < Squares(a, b, t)
  {
    hide Squares;
    var n := |a| as real;
    SquaresNotNegative(a, b, s);
    SquaresNotNegative(a, b, t);
    var x, y := Squares(a, b, s), Squares(a, b, t);
    QuotientOrder(x, y, n);
    QuotientOrder(y, x, n);
  }

  lemma QuotientOrder(x: real, y: real, n: real)
    requires n > 0.0 && 0.0 <= x
    ensures x / n < y / n <==> x < y
    ensures 0.0 <= x / n
  {
    assert x == x / n * n && y == y / n * n;
  }

  lemma {:induction false} SumNotNegative(f: int -> real, k: nat)
    requires forall i :: 0 <= i < k ==> f(i) >= 0.0
    ensures SumTo(f, k) >= 0.0
  {
    if k > 0 {
      SumNotNegative(f, k - 1);
    }
  }

  lemma SquaresNotNegative(a: seq<Point>, b: seq<Point>, shift: int)
    requires a != [] && |a| == |b|
    ensures Squares(a, b, shift) >= 0.0
  {
    SumNotNegative(Move(a, b, shift), |a|);
  }

  /** The outlines the kernel sends are never called twisted: where no rotation has a smaller sum of
      squares than the one given, the test passes; a twist means some rotation does. */
  lemma TwistMeansNearer(root: real -> real, a: seq<Point>, b: seq<Point>)
    requires a != [] && |a| == |b| && RootLike(root)
    ensures Twisted(root, a, b) ==> exists s :: 0 <= s < |a| && Squares(a, b, s) < Squares(a, b, 0)
  {
    hide Squares;
    var f := s => RmsMove(root, a, b, s);
    var best := LeastTo(f, |a|);
    var s :| 0 <= s < |a| && best == f(s);
    RootOrdersSquares(root, a, b, s, 0);
    RmsNotNegative(root, a, b, s);
  }

  lemma RmsNotNegative(root: real -> real, a: seq<Point>, b: seq<Point>, s: int)
    requires a != [] && |a| == |b| && RootLike(root)
    ensures RmsMove(root, a, b, s) >= 0.0
  {
    hide Squares;
    SquaresNotNegative(a, b, s);
    QuotientOrder(Squares(a, b, s), Squares(a, b, s), |a| as real);
  }
}
