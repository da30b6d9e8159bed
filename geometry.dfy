/** The geometry helpers behind the obstacle hit test (sketch.js:243-273): a
    point-in-triangle test, the distance from a point to a segment and the
    circle-versus-triangle test built from them.

    p5's `dist` is a square root. The model keeps squared distances and compares
    them with `Within`, which is exact: for a distance d >= 0, `d <= r` holds
    precisely when `Within(d * d, r)` does (lemma `WithinIsRootComparison`). */
module Geometry {

  /** Squared Euclidean distance between (px, py) and (qx, qy). */
  function SqDist(px: real, py: real, qx: real, qy: real): (d: real)
    ensures d >= 0.0
  {
    (px - qx) * (px - qx) + (py - qy) * (py - qy)
  }

  /** `dist(...) <= r`, for the square `dsq` of that distance. */
  predicate Within(dsq: real, r: real)
  {
    r >= 0.0 && dsq <= r * r
  }

  /** `Within` is the source's comparison of a (non-negative) root with r. */
  lemma WithinIsRootComparison(d: real, r: real)
    requires d >= 0.0
    ensures d <= r <==> Within(d * d, r)
  {
    if d <= r {
      assert d * d <= d * r <= r * r;
    } else if r >= 0.0 {
      assert r * r <= r * d < d * d;
    }
  }

  /** A larger radius keeps every comparison that held. */
  lemma WithinMonotone(dsq: real, r: real, r2: real)
    requires r <= r2
    ensures Within(dsq, r) ==> Within(dsq, r2)
  {
    if r >= 0.0 {
      assert r * r <= r * r2 <= r2 * r2;
    }
  }

  // ---------------------------------------------------------------- pointInTri

  /** `D` of `pointInTri`: twice the signed area of the triangle. Its sign is the
      triangle's winding. */
  function Det(x1: real, y1: real, x2: real, y2: real, x3: real, y3: real): real
  {
    (y2 - y3) * (x1 - x3) + (x3 - x2) * (y1 - y3)
  }

  /** `s` of `pointInTri`: D times the barycentric weight of vertex 1. */
  function WeightS(px: real, py: real, x1: real, y1: real, x2: real, y2: real, x3: real, y3: real): real
  {
    (y2 - y3) * (px - x3) + (x3 - x2) * (py - y3)
  }

  /** `t` of `pointInTri`: D times the barycentric weight of vertex 2. */
  function WeightT(px: real, py: real, x1: real, y1: real, x2: real, y2: real, x3: real, y3: real): real
  {
    (y3 - y1) * (px - x3) + (x1 - x3) * (py - y3)
  }

  /** `pointInTri` (sketch.js:255-263): containment by the signs of s, t and D,
      one inequality branch per winding. */
  predicate PointInTri(px: real, py: real, x1: real, y1: real, x2: real, y2: real, x3: real, y3: real)
  {
    var D := Det(x1, y1, x2, y2, x3, y3);
    var s := WeightS(px, py, x1, y1, x2, y2, x3, y3);
    var t := WeightT(px, py, x1, y1, x2, y2, x3, y3);
    if D < 0.0 then s <= 0.0 && t <= 0.0 && s + t >= D
    else s >= 0.0 && t >= 0.0 && s + t <= D
  }

  /** The point x3 + l1*(x1 - x3) + l2*(x2 - x3) (one coordinate of it). */
  function Affine(l1: real, l2: real, c1: real, c2: real, c3: real): real
  {
    c3 + l1 * (c1 - c3) + l2 * (c2 - c3)
  }

  /** The weights of a point given by barycentric coordinates (l1, l2) are
      l1 * D and l2 * D. */
  lemma WeightsOfAffinePoint(l1: real, l2: real, x1: real, y1: real, x2: real, y2: real, x3: real, y3: real)
    ensures var px, py := Affine(l1, l2, x1, x2, x3), Affine(l1, l2, y1, y2, y3);
      && WeightS(px, py, x1, y1, x2, y2, x3, y3) == l1 * Det(x1, y1, x2, y2, x3, y3)
      && WeightT(px, py, x1, y1, x2, y2, x3, y3) == l2 * Det(x1, y1, x2, y2, x3, y3)
  {
    var ax, ay, ex, ey := x1 - x3, y1 - y3, x2 - x3, y2 - y3;
    var dX, dY := l1 * ax + l2 * ex, l1 * ay + l2 * ey;
    assert Affine(l1, l2, x1, x2, x3) - x3 == dX;
    assert Affine(l1, l2, y1, y2, y3) - y3 == dY;
    assert Det(x1, y1, x2, y2, x3, y3) == ey * ax - ex * ay;
    calc {
      ey * dX - ex * dY;
      ey * (l1 * ax) + ey * (l2 * ex) - ex * (l1 * ay) - ex * (l2 * ey);
      l1 * (ey * ax - ex * ay);
    }
    calc {
      -ay * dX + ax * dY;
      -ay * (l1 * ax) - ay * (l2 * ex) + ax * (l1 * ay) + ax * (l2 * ey);
      l2 * (ey * ax - ex * ay);
    }
  }

  /** Every point of the closed triangle — every convex combination of its
      vertices — passes `pointInTri`, whichever the winding. */
  lemma {:induction false} PointInTriOfConvexCombination(l1: real, l2: real, x1: real, y1: real, x2: real, y2: real, x3: real, y3: real)
    requires 0.0 <= l1 && 0.0 <= l2 && l1 + l2 <= 1.0
    ensures PointInTri(Affine(l1, l2, x1, x2, x3), Affine(l1, l2, y1, y2, y3), x1, y1, x2, y2, x3, y3)
  {
    WeightsOfAffinePoint(l1, l2, x1, y1, x2, y2, x3, y3);
    var D := Det(x1, y1, x2, y2, x3, y3);
    if D < 0.0 {
      assert l1 * D <= 0.0 && l2 * D <= 0.0;
      assert (1.0 - (l1 + l2)) * D <= 0.0;
    } else {
      assert l1 * D >= 0.0 && l2 * D >= 0.0;
      assert (1.0 - (l1 + l2)) * D >= 0.0;
    }
  }

  /** s * (x1 - x3) + t * (x2 - x3) == D * (px - x3), and likewise for y. */
  lemma WeightsReconstruct(px: real, py: real, x1: real, y1: real, x2: real, y2: real, x3: real, y3: real)
    ensures var D := Det(x1, y1, x2, y2, x3, y3);
      var s, t := WeightS(px, py, x1, y1, x2, y2, x3, y3), WeightT(px, py, x1, y1, x2, y2, x3, y3);
      && s * (x1 - x3) + t * (x2 - x3) == D * (px - x3)
      && s * (y1 - y3) + t * (y2 - y3) == D * (py - y3)
  {
    var ax, ay, ex, ey := x1 - x3, y1 - y3, x2 - x3, y2 - y3;
    var dX, dY := px - x3, py - y3;
    var D := Det(x1, y1, x2, y2, x3, y3);
    var s, t := WeightS(px, py, x1, y1, x2, y2, x3, y3), WeightT(px, py, x1, y1, x2, y2, x3, y3);
    assert D == ey * ax - ex * ay;
    assert s == ey * dX - ex * dY;
    assert t == -ay * dX + ax * dY;
    calc {
      s * ax + t * ex;
      (ey * dX) * ax - (ex * dY) * ax - (ay * dX) * ex + (ax * dY) * ex;
      dX * (ey * ax - ex * ay);
    }
    calc {
      s * ay + t * ey;
      (ey * dX) * ay - (ex * dY) * ay - (ay * dX) * ey + (ax * dY) * ey;
      dY * (ey * ax - ex * ay);
    }
  }

  /** Dividing the signs of s, t and D through by D. */
  lemma SignsToWeights(s: real, t: real, D: real)
    requires D != 0.0
    requires if D < 0.0 then s <= 0.0 && t <= 0.0 && s + t >= D else s >= 0.0 && t >= 0.0 && s + t <= D
    ensures 0.0 <= s / D && 0.0 <= t / D && s / D + t / D <= 1.0
  {
    var l1, l2 := s / D, t / D;
    assert l1 * D == s && l2 * D == t;
    assert (l1 + l2 - 1.0) * D == s + t - D;
  }

  /** Conversely, for a non-degenerate triangle a point that passes `pointInTri`
      is the convex combination with weights s/D, t/D and 1 - s/D - t/D. */
  lemma PointInTriIsConvexCombination(px: real, py: real, x1: real, y1: real, x2: real, y2: real, x3: real, y3: real)
    requires Det(x1, y1, x2, y2, x3, y3) != 0.0
    requires PointInTri(px, py, x1, y1, x2, y2, x3, y3)
    ensures var D := Det(x1, y1, x2, y2, x3, y3);
      var l1, l2 := WeightS(px, py, x1, y1, x2, y2, x3, y3) / D, WeightT(px, py, x1, y1, x2, y2, x3, y3) / D;
      && 0.0 <= l1 && 0.0 <= l2 && l1 + l2 <= 1.0
      && px == Affine(l1, l2, x1, x2, x3) && py == Affine(l1, l2, y1, y2, y3)
  {
    var D := Det(x1, y1, x2, y2, x3, y3);
    var s, t := WeightS(px, py, x1, y1, x2, y2, x3, y3), WeightT(px, py, x1, y1, x2, y2, x3, y3);
    SignsToWeights(s, t, D);
    WeightsReconstruct(px, py, x1, y1, x2, y2, x3, y3);
    ReconstructDivided(s, t, D, x1, x2, x3, px);
    ReconstructDivided(s, t, D, y1, y2, y3, py);
  }

  /** From s*(c1 - c3) + t*(c2 - c3) == D*(p - c3) to p == Affine(s/D, t/D, ...). */
  lemma ReconstructDivided(s: real, t: real, D: real, c1: real, c2: real, c3: real, p: real)
    requires D != 0.0
    requires s * (c1 - c3) + t * (c2 - c3) == D * (p - c3)
    ensures p == Affine(s / D, t / D, c1, c2, c3)
  {
    var l1, l2 := s / D, t / D;
    assert l1 * D == s && l2 * D == t;
    assert (l1 * (c1 - c3) + l2 * (c2 - c3)) * D == (p - c3) * D;
  }

  /** The test does not depend on the winding: listing the first two vertices
      the other way round (which flips the sign of D) gives the same answer. */
  lemma PointInTriWindingIndependent(px: real, py: real, x1: real, y1: real, x2: real, y2: real, x3: real, y3: real)
    ensures PointInTri(px, py, x1, y1, x2, y2, x3, y3) == PointInTri(px, py, x2, y2, x1, y1, x3, y3)
  {
    var D := Det(x1, y1, x2, y2, x3, y3);
    var s, t := WeightS(px, py, x1, y1, x2, y2, x3, y3), WeightT(px, py, x1, y1, x2, y2, x3, y3);
    assert Det(x2, y2, x1, y1, x3, y3) == -D;
    assert WeightS(px, py, x2, y2, x1, y1, x3, y3) == -t;
    assert WeightT(px, py, x2, y2, x1, y1, x3, y3) == -s;
  }

  /** The three vertices are inside, on either winding. */
  lemma PointInTriVertices(x1: real, y1: real, x2: real, y2: real, x3: real, y3: real)
    ensures PointInTri(x1, y1, x1, y1, x2, y2, x3, y3)
    ensures PointInTri(x2, y2, x1, y1, x2, y2, x3, y3)
    ensures PointInTri(x3, y3, x1, y1, x2, y2, x3, y3)
  {
    PointInTriOfConvexCombination(1.0, 0.0, x1, y1, x2, y2, x3, y3);
    PointInTriOfConvexCombination(0.0, 1.0, x1, y1, x2, y2, x3, y3);
    PointInTriOfConvexCombination(0.0, 0.0, x1, y1, x2, y2, x3, y3);
  }

  /** The centroid is inside. */
  lemma PointInTriCentroid(x1: real, y1: real, x2: real, y2: real, x3: real, y3: real)
    ensures PointInTri((x1 + x2 + x3) / 3.0, (y1 + y2 + y3) / 3.0, x1, y1, x2, y2, x3, y3)
  {
    var third := 1.0 / 3.0;
    PointInTriOfConvexCombination(third, third, x1, y1, x2, y2, x3, y3);
    assert Affine(third, third, x1, x2, x3) == (x1 + x2 + x3) / 3.0;
    assert Affine(third, third, y1, y2, y3) == (y1 + y2 + y3) / 3.0;
  }

  // ------------------------------------------------------------- distToSegment

  /** p5's `constrain(n, low, high)`, that is `max(min(n, high), low)`. */
  function Constrain(n: real, low: real, high: real): (c: real)
    requires low <= high
    ensures low <= c <= high
    ensures low <= n <= high ==> c == n
  {
    var m := if n < high then n else high;
    if m > low then m else low
  }

  /** The parameter `t` of `distToSegment` (sketch.js:266-270): the projection of
      p onto the line through the segment, as a fraction of the segment, clamped
      to [0, 1]; 0 when the segment has length zero. */
  function ProjParam(px: real, py: real, x1: real, y1: real, x2: real, y2: real): (t: real)
    ensures 0.0 <= t <= 1.0
    ensures x1 == x2 && y1 == y2 ==> t == 0.0
  {
    var vx, vy := x2 - x1, y2 - y1;
    var wx, wy := px - x1, py - y1;
    var vv := vx * vx + vy * vy;
    var tt := if vv == 0.0 then 0.0 else (wx * vx + wy * vy) / vv;
    Constrain(tt, 0.0, 1.0)
  }

  /** The point of the segment (x1,y1)-(x2,y2) at parameter u (one coordinate). */
  function Lerp(c1: real, c2: real, u: real): real
  {
    c1 + u * (c2 - c1)
  }

  /** The point of the segment at parameter u, u in [0, 1], is within r of p. */
  predicate OnSegmentWithin(u: real, px: real, py: real, r: real, x1: real, y1: real, x2: real, y2: real)
  {
    0.0 <= u <= 1.0 && Within(SqDist(px, py, Lerp(x1, x2, u), Lerp(y1, y2, u)), r)
  }

  /** Some point of the segment is within r of p. */
  ghost predicate SegmentWithin(px: real, py: real, r: real, x1: real, y1: real, x2: real, y2: real)
  {
    exists u :: OnSegmentWithin(u, px, py, r, x1, y1, x2, y2)
  }

  /** `distToSegment` (sketch.js:265-273), squared: the squared distance from p
      to the point of the segment at the clamped parameter. */
  function DistToSegmentSq(px: real, py: real, x1: real, y1: real, x2: real, y2: real): (d: real)
    ensures d >= 0.0
    ensures x1 == x2 && y1 == y2 ==> d == SqDist(px, py, x1, y1)
  {
    var t := ProjParam(px, py, x1, y1, x2, y2);
    SqDist(px, py, Lerp(x1, x2, t), Lerp(y1, y2, t))
  }

  /** The two ends of the segment are its points at parameters 0 and 1. */
  lemma LerpEnds(c1: real, c2: real)
    ensures Lerp(c1, c2, 0.0) == c1 && Lerp(c1, c2, 1.0) == c2
  {
  }

  /** `distToSegment(p, a, b) <= r` is only reported when some point of the
      segment really is within r of p: the clamped projection is that point. */
  lemma {:induction false} DistToSegmentWithinSound(px: real, py: real, r: real, x1: real, y1: real, x2: real, y2: real)
    requires Within(DistToSegmentSq(px, py, x1, y1, x2, y2), r)
    ensures SegmentWithin(px, py, r, x1, y1, x2, y2)
  {
    var t := ProjParam(px, py, x1, y1, x2, y2);
    assert OnSegmentWithin(t, px, py, r, x1, y1, x2, y2);
  }

  // --------------------------------------------------------- circleTriangleHit

  /** `circleTriangleHit` (sketch.js:244-253): the centre is inside the triangle,
      or an edge or a vertex is within r of it, tested in the source's order. */
  predicate CircleTriangleHit(cx: real, cy: real, r: real, x1: real, y1: real, x2: real, y2: real, x3: real, y3: real)
  {
    || PointInTri(cx, cy, x1, y1, x2, y2, x3, y3)
    || Within(DistToSegmentSq(cx, cy, x1, y1, x2, y2), r)
    || Within(DistToSegmentSq(cx, cy, x2, y2, x3, y3), r)
    || Within(DistToSegmentSq(cx, cy, x3, y3, x1, y1), r)
    || Within(SqDist(cx, cy, x1, y1), r)
    || Within(SqDist(cx, cy, x2, y2), r)
    || Within(SqDist(cx, cy, x3, y3), r)
  }

  /** The test is sound: a hit means the centre is inside the triangle or some
      point of its boundary is within r of the centre. */
  lemma CircleTriangleHitSound(cx: real, cy: real, r: real, x1: real, y1: real, x2: real, y2: real, x3: real, y3: real)
    requires CircleTriangleHit(cx, cy, r, x1, y1, x2, y2, x3, y3)
    ensures || PointInTri(cx, cy, x1, y1, x2, y2, x3, y3)
            || SegmentWithin(cx, cy, r, x1, y1, x2, y2)
            || SegmentWithin(cx, cy, r, x2, y2, x3, y3)
            || SegmentWithin(cx, cy, r, x3, y3, x1, y1)
  {
    if Within(DistToSegmentSq(cx, cy, x1, y1, x2, y2), r) {
      DistToSegmentWithinSound(cx, cy, r, x1, y1, x2, y2);
    } else if Within(DistToSegmentSq(cx, cy, x2, y2, x3, y3), r) {
      DistToSegmentWithinSound(cx, cy, r, x2, y2, x3, y3);
    } else if Within(DistToSegmentSq(cx, cy, x3, y3, x1, y1), r) {
      DistToSegmentWithinSound(cx, cy, r, x3, y3, x1, y1);
    } else if !PointInTri(cx, cy, x1, y1, x2, y2, x3, y3) {
      // each vertex is the point at parameter 0 of the edge that starts there
      LerpEnds(x1, x2);
      LerpEnds(y1, y2);
      LerpEnds(x2, x3);
      LerpEnds(y2, y3);
      LerpEnds(x3, x1);
      LerpEnds(y3, y1);
      if Within(SqDist(cx, cy, x1, y1), r) {
        assert OnSegmentWithin(0.0, cx, cy, r, x1, y1, x2, y2);
      } else if Within(SqDist(cx, cy, x2, y2), r) {
        assert OnSegmentWithin(0.0, cx, cy, r, x2, y2, x3, y3);
      } else {
        assert OnSegmentWithin(0.0, cx, cy, r, x3, y3, x1, y1);
      }
    }
  }

  /** A hit at radius r stays a hit at any larger radius. */
  lemma CircleTriangleHitMonotone(cx: real, cy: real, r: real, r2: real, x1: real, y1: real, x2: real, y2: real, x3: real, y3: real)
    requires r <= r2
    ensures CircleTriangleHit(cx, cy, r, x1, y1, x2, y2, x3, y3) ==> CircleTriangleHit(cx, cy, r2, x1, y1, x2, y2, x3, y3)
  {
    WithinMonotone(DistToSegmentSq(cx, cy, x1, y1, x2, y2), r, r2);
    WithinMonotone(DistToSegmentSq(cx, cy, x2, y2, x3, y3), r, r2);
    WithinMonotone(DistToSegmentSq(cx, cy, x3, y3, x1, y1), r, r2);
    WithinMonotone(SqDist(cx, cy, x1, y1), r, r2);
    WithinMonotone(SqDist(cx, cy, x2, y2), r, r2);
    WithinMonotone(SqDist(cx, cy, x3, y3), r, r2);
  }

  /** A centre inside the triangle, or a vertex within r, is a hit. */
  lemma CircleTriangleHitInsideOrNearVertex(cx: real, cy: real, r: real, x1: real, y1: real, x2: real, y2: real, x3: real, y3: real)
    requires || PointInTri(cx, cy, x1, y1, x2, y2, x3, y3)
             || Within(SqDist(cx, cy, x1, y1), r)
             || Within(SqDist(cx, cy, x2, y2), r)
             || Within(SqDist(cx, cy, x3, y3), r)
    ensures CircleTriangleHit(cx, cy, r, x1, y1, x2, y2, x3, y3)
  {
  }

  /** With radius 0 on the triangle (0,0)-(10,0)-(5,10): (5,3) is a hit and
      (5,-1), one unit below the base, is not. */
  lemma CircleTriangleHitExample()
    ensures CircleTriangleHit(5.0, 3.0, 0.0, 0.0, 0.0, 10.0, 0.0, 5.0, 10.0)
    ensures !CircleTriangleHit(5.0, -1.0, 0.0, 0.0, 0.0, 10.0, 0.0, 5.0, 10.0)
  {
    assert ProjParam(5.0, -1.0, 0.0, 0.0, 10.0, 0.0) == 0.5;
    assert ProjParam(5.0, -1.0, 10.0, 0.0, 5.0, 10.0) == 0.12;
    assert ProjParam(5.0, -1.0, 5.0, 10.0, 0.0, 0.0) == 0.88;
  }
}
