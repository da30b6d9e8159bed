/** The obstacle column `TeethCol` (sketch.js:180-241): a column of width COL_W
    whose gap has a random height and a random top, lined with triangular teeth.

    The two calls to p5's `random` become the uniform draws `u1` and `u2`, each
    in [0, 1), passed in by the caller. A column is a value: the source's
    in-place `update` and the `scored` flag are record updates here, applied by
    the game to its sequence of columns. Tooth coordinates are local to the
    column horizontally (the column's `x` is added when testing a hit) and
    absolute vertically, as in the source. */
module Obstacle {
  import opened Tuning
  import opened Geometry

  /** `Tri` (sketch.js:181-183): three vertices. */
  datatype Tri = Tri(x1: real, y1: real, x2: real, y2: real, x3: real, y3: real)

  /** A column: its left edge, gap height and gap top, whether the bird has been
      credited for passing it, and its two rows of teeth. */
  datatype TeethCol = TeethCol(x: real, gapHLocal: int, gapY: real, scored: bool,
                               topTeeth: seq<Tri>, botTeeth: seq<Tri>)

  // ------------------------------------------------------------ random draws

  /** p5's `random(lo, hi)` for the uniform draw `u` in [0, 1): the bounds are
      swapped first when lo > hi, then the draw is scaled into [low, high). */
  function Random(lo: real, hi: real, u: real): (r: real)
    requires 0.0 <= u < 1.0
    ensures lo <= hi ==> lo <= r <= hi && (lo < hi ==> r < hi)
    ensures hi < lo ==> hi <= r < lo
  {
    if lo > hi then Scaled(hi, lo, u) else Scaled(lo, hi, u)
  }

  /** `rand * (max - min) + min` once min <= max. */
  function Scaled(low: real, high: real, u: real): (r: real)
    requires 0.0 <= u < 1.0 && low <= high
    ensures low <= r <= high
    ensures low < high ==> r < high
  {
    var d := high - low;
    DrawScale(u, d);
    var p := u * d;
    assert 0.0 <= p <= d && (d > 0.0 ==> p < d);
    p + low
  }

  /** A draw u in [0, 1) scales a non-negative width d into [0, d), or to 0. */
  lemma DrawScale(u: real, d: real)
    requires 0.0 <= u < 1.0 && d >= 0.0
    ensures 0.0 <= u * d <= d
    ensures d > 0.0 ==> u * d < d
  {
    NonNegProduct(u, d);
    NonNegProduct(1.0 - u, d);
    assert (1.0 - u) * d == d - u * d;
    if d > 0.0 {
      PosProduct(1.0 - u, d);
    }
  }

  lemma NonNegProduct(a: real, b: real)
    requires a >= 0.0 && b >= 0.0
    ensures a * b >= 0.0
  {
  }

  lemma PosProduct(a: real, b: real)
    requires a > 0.0 && b > 0.0
    ensures a * b > 0.0
  {
  }

  /** p5's `int(n)` on a number: truncation toward zero. */
  function Trunc(n: real): (k: int)
    ensures n >= 0.0 ==> 0 <= k && k as real <= n < k as real + 1.0
    ensures n < 0.0 ==> k <= 0 && n <= k as real < n + 1.0
  {
    if n >= 0.0 then n.Floor else -((-n).Floor)
  }

  /** `gapHLocal` of the constructor (sketch.js:189): the truncated draw in
      [MIN_GAP_H, MAX_GAP_H), an integer from 140 to 209. */
  function GapHeight(u1: real): (h: int)
    requires 0.0 <= u1 < 1.0
    ensures MIN_GAP_H <= h < MAX_GAP_H
  {
    Trunc(Random(MIN_GAP_H as real, MAX_GAP_H as real, u1))
  }

  /** `gapY` of the constructor (sketch.js:188-190): a draw between
      margin + 40 and the lowest top that leaves the gap and the margin above
      the ground. For every height the constructor can draw the interval is
      non-empty, so the top lies inside it. */
  function GapTop(h: int, u2: real): (y: real)
    requires 0.0 <= u2 < 1.0
    ensures h < MAX_GAP_H ==> MARGIN + GAP_OFFSET <= y <= H - GROUND_H - MARGIN - h as real
  {
    Random(MARGIN + GAP_OFFSET, H - GROUND_H - MARGIN - h as real, u2)
  }

  // ------------------------------------------------------------------ teeth

  /** Left and right base corners of tooth `i` (sketch.js:223-224). */
  function ToothLeft(i: int): real
  {
    i as real * CELL_W + BASE_INSET
  }

  function ToothRight(i: int): real
  {
    (i + 1) as real * CELL_W - BASE_INSET
  }

  /** Top tooth `i`: base on the gap top, tip pointing down (sketch.js:227). */
  function TopTooth(gapY: real, i: int): Tri
  {
    var l, r := ToothLeft(i), ToothRight(i);
    Tri(l, gapY, r, gapY, 0.5 * (l + r), gapY + TOOTH_LEN)
  }

  /** Bottom tooth `i`: base on the gap bottom, tip pointing up (sketch.js:229-230). */
  function BotTooth(gapY: real, gapHLocal: int, i: int): Tri
  {
    var l, r := ToothLeft(i), ToothRight(i);
    var byL := gapY + gapHLocal as real;
    Tri(l, byL, r, byL, 0.5 * (l + r), byL - TOOTH_LEN)
  }

  /** The rows `buildTeeth` produces. */
  function TopRow(gapY: real): seq<Tri>
  {
    seq(TEETH_COUNT, i => TopTooth(gapY, i))
  }

  function BotRow(gapY: real, gapHLocal: int): seq<Tri>
  {
    seq(TEETH_COUNT, i => BotTooth(gapY, gapHLocal, i))
  }

  /** `buildTeeth` (sketch.js:218-232): both rows filled in one counted loop,
      tooth by tooth. */
  method BuildTeeth(gapY: real, gapHLocal: int) returns (top: seq<Tri>, bot: seq<Tri>)
    ensures top == TopRow(gapY) && bot == BotRow(gapY, gapHLocal)
  {
    top, bot := [], [];
    var i := 0;
    while i < TEETH_COUNT
      invariant 0 <= i <= TEETH_COUNT
      invariant top == seq(i, k => TopTooth(gapY, k))
      invariant bot == seq(i, k => BotTooth(gapY, gapHLocal, k))
    {
      var bxL := i as real * CELL_W + BASE_INSET;
      var bxR := (i + 1) as real * CELL_W - BASE_INSET;
      var mid := 0.5 * (bxL + bxR);
      top := top + [Tri(bxL, gapY, bxR, gapY, mid, gapY + TOOTH_LEN)];
      var byL := gapY + gapHLocal as real;
      bot := bot + [Tri(bxL, byL, bxR, byL, mid, byL - TOOTH_LEN)];
      RowsGrow(gapY, gapHLocal, i);
      i := i + 1;
    }
  }

  /** The first i + 1 teeth of a row are its first i teeth and tooth i. */
  lemma RowsGrow(gapY: real, gapHLocal: int, i: nat)
    ensures seq(i + 1, k => TopTooth(gapY, k)) == seq(i, k => TopTooth(gapY, k)) + [TopTooth(gapY, i)]
    ensures seq(i + 1, k => BotTooth(gapY, gapHLocal, k)) == seq(i, k => BotTooth(gapY, gapHLocal, k)) + [BotTooth(gapY, gapHLocal, i)]
  {
  }

  // ----------------------------------------------------------------- column

  /** What the constructor guarantees of every column, whatever its `x`: the gap
      height and top in their ranges, and the teeth `buildTeeth` makes for them. */
  predicate WellFormed(c: TeethCol)
  {
    && MIN_GAP_H <= c.gapHLocal < MAX_GAP_H
    && MARGIN + GAP_OFFSET <= c.gapY <= H - GROUND_H - MARGIN - c.gapHLocal as real
    && c.topTeeth == TopRow(c.gapY)
    && c.botTeeth == BotRow(c.gapY, c.gapHLocal)
  }

  /** The column the constructor builds from the draws u1, u2 (sketch.js:186-195). */
  function MakeColumn(u1: real, u2: real): (c: TeethCol)
    requires 0.0 <= u1 < 1.0 && 0.0 <= u2 < 1.0
    ensures WellFormed(c) && c.x == W && !c.scored
  {
    var h := GapHeight(u1);
    var y := GapTop(h, u2);
    TeethCol(W, h, y, false, TopRow(y), BotRow(y, h))
  }

  /** The constructor itself, running `buildTeeth`. */
  method NewColumn(u1: real, u2: real) returns (c: TeethCol)
    requires 0.0 <= u1 < 1.0 && 0.0 <= u2 < 1.0
    ensures c == MakeColumn(u1, u2)
  {
    var margin := MARGIN;
    var h := Trunc(Random(MIN_GAP_H as real, MAX_GAP_H as real, u1));
    var y := Random(margin + GAP_OFFSET, H - GROUND_H - margin - h as real, u2);
    var top, bot := BuildTeeth(y, h);
    c := TeethCol(W, h, y, false, top, bot);
  }

  /** The teeth geometry follows from the constants: TEETH_COUNT teeth per row;
      top teeth have their base on y = gapY and their tip TOOTH_LEN below it,
      bottom teeth their base on the gap bottom and their tip TOOTH_LEN above
      it; every local x coordinate lies within [0, COL_W]. */
  lemma TeethGeometry(c: TeethCol)
    requires WellFormed(c)
    ensures |c.topTeeth| == TEETH_COUNT && |c.botTeeth| == TEETH_COUNT
    ensures forall t :: t in c.topTeeth ==>
      t.y1 == c.gapY && t.y2 == c.gapY && t.y3 == c.gapY + TOOTH_LEN
    ensures forall t :: t in c.botTeeth ==>
      var bottom := c.gapY + c.gapHLocal as real;
      t.y1 == bottom && t.y2 == bottom && t.y3 == bottom - TOOTH_LEN
    ensures forall t :: t in c.topTeeth + c.botTeeth ==> InColumn(t)
  {
    forall t | t in c.topTeeth + c.botTeeth
      ensures InColumn(t)
    {
      var i :| 0 <= i < TEETH_COUNT && (t == TopTooth(c.gapY, i) || t == BotTooth(c.gapY, c.gapHLocal, i));
      ToothInColumn(i);
    }
  }

  /** All three local x coordinates of a tooth lie within [0, COL_W]. */
  predicate InColumn(t: Tri)
  {
    && 0.0 <= t.x1 <= COL_W && 0.0 <= t.x2 <= COL_W && 0.0 <= t.x3 <= COL_W
  }

  /** Tooth `i` of a row spans [8 + 30*i, 22 + 30*i], inside the column. */
  lemma ToothInColumn(i: int)
    requires 0 <= i < TEETH_COUNT
    ensures 0.0 < ToothLeft(i) < ToothRight(i) < COL_W
    ensures ToothLeft(i) == 30.0 * i as real + 8.0 && ToothRight(i) == 30.0 * i as real + 22.0
  {
  }

  /** The opening between the tips of the two rows is at least 100, wider than
      the bird's diameter, for every column the constructor can build. */
  lemma GapOpening(c: TeethCol)
    requires WellFormed(c)
    ensures (c.gapY + c.gapHLocal as real - TOOTH_LEN) - (c.gapY + TOOTH_LEN) >= 100.0 > 2.0 * BR
  {
  }

  /** `update` (sketch.js:196): scroll the column left; nothing else changes. */
  function Update(c: TeethCol): (d: TeethCol)
    ensures d.x == c.x - SCROLL && d.x < c.x
    ensures d.(x := c.x) == c
    ensures WellFormed(c) ==> WellFormed(d)
  {
    c.(x := c.x - SCROLL)
  }

  /** `offscreen` (sketch.js:197): the column's right edge is left of the canvas. */
  predicate Offscreen(c: TeethCol)
  {
    c.x + COL_W < 0.0
  }

  /** `overlapsX` (sketch.js:198): the circle's horizontal extent meets the column's. */
  predicate OverlapsX(c: TeethCol, bx: real, br: real)
  {
    (bx + br > c.x) && (bx - br < c.x + COL_W)
  }

  // ------------------------------------------------------------- hit test

  /** `circleTriangleHit` on tooth `t` placed at the column's `x` (sketch.js:236, 238). */
  predicate ToothHit(t: Tri, dx: real, cx: real, cy: real, r: real)
  {
    CircleTriangleHit(cx, cy, r, dx + t.x1, t.y1, dx + t.x2, t.y2, dx + t.x3, t.y3)
  }

  /** One of the source's two loops over a row: true at the first tooth hit. */
  function AnyToothHit(teeth: seq<Tri>, dx: real, cx: real, cy: real, r: real): (hit: bool)
    ensures hit <==> exists i :: 0 <= i < |teeth| && ToothHit(teeth[i], dx, cx, cy, r)
  {
    if teeth == [] then false
    else if ToothHit(teeth[0], dx, cx, cy, r) then true
    else
      var rest := AnyToothHit(teeth[1..], dx, cx, cy, r);
      assert forall i :: 1 <= i < |teeth| ==> teeth[i] == teeth[1..][i - 1];
      rest
  }

  /** `collidesWithCircle` (sketch.js:234-240): the top row, then the bottom row. */
  function CollidesWithCircle(c: TeethCol, cx: real, cy: real, r: real): (hit: bool)
    ensures hit <==> exists t :: t in c.topTeeth + c.botTeeth && ToothHit(t, c.x, cx, cy, r)
  {
    AnyToothHit(c.topTeeth, c.x, cx, cy, r) || AnyToothHit(c.botTeeth, c.x, cx, cy, r)
  }

  // ----------------------------------------------------------- broad phase

  /** `overlapsX` is a sound first filter before `collidesWithCircle`
      (sketch.js:101): a circle that hits a tooth of a well-formed column always
      overlaps the column horizontally, so the filter never hides a collision. */
  lemma {:induction false} OverlapsXIsSound(c: TeethCol, cx: real, cy: real, r: real)
    requires WellFormed(c) && r >= 0.0
    requires CollidesWithCircle(c, cx, cy, r)
    ensures OverlapsX(c, cx, r)
  {
    var t :| t in c.topTeeth + c.botTeeth && ToothHit(t, c.x, cx, cy, r);
    var i :| 0 <= i < TEETH_COUNT && (t == TopTooth(c.gapY, i) || t == BotTooth(c.gapY, c.gapHLocal, i));
    ToothInColumn(i);
    ToothHitNear(t, c.x, cx, cy, r);
  }

  /** A tooth with its base between the insets of its cell: a hit puts the
      centre within r of the tooth's horizontal extent. */
  lemma ToothHitNear(t: Tri, dx: real, cx: real, cy: real, r: real)
    requires BASE_INSET <= t.x1 <= COL_W - BASE_INSET
    requires BASE_INSET <= t.x2 <= COL_W - BASE_INSET
    requires BASE_INSET <= t.x3 <= COL_W - BASE_INSET
    requires t.y3 - t.y1 == TOOTH_LEN || t.y3 - t.y1 == -TOOTH_LEN
    requires t.y2 == t.y1 && t.x1 < t.x2
    requires r >= 0.0 && ToothHit(t, dx, cx, cy, r)
    ensures dx + BASE_INSET - r <= cx <= dx + COL_W - BASE_INSET + r
  {
    var a, b := dx + BASE_INSET, dx + COL_W - BASE_INSET;
    var x1, x2, x3 := dx + t.x1, dx + t.x2, dx + t.x3;
    var y1, y2, y3 := t.y1, t.y2, t.y3;
    CircleTriangleHitSound(cx, cy, r, x1, y1, x2, y2, x3, y3);
    if PointInTri(cx, cy, x1, y1, x2, y2, x3, y3) {
      InsideBetween(cx, cy, x1, y1, x2, y2, x3, y3, a, b);
    } else if SegmentWithin(cx, cy, r, x1, y1, x2, y2) {
      EdgeBetween(cx, cy, r, x1, y1, x2, y2, a, b);
    } else if SegmentWithin(cx, cy, r, x2, y2, x3, y3) {
      EdgeBetween(cx, cy, r, x2, y2, x3, y3, a, b);
    } else {
      EdgeBetween(cx, cy, r, x3, y3, x1, y1, a, b);
    }
  }

  /** A point inside a tooth-shaped triangle (a horizontal base and a third
      vertex off it) lies between the smallest and largest x of its vertices. */
  lemma InsideBetween(cx: real, cy: real, x1: real, y1: real, x2: real, y2: real, x3: real, y3: real, a: real, b: real)
    requires y2 == y1 && y3 != y1 && x1 < x2
    requires a <= x1 <= b && a <= x2 <= b && a <= x3 <= b
    requires PointInTri(cx, cy, x1, y1, x2, y2, x3, y3)
    ensures a <= cx <= b
  {
    ToothDet(x1, y1, x2, y2, x3, y3);
    PointInTriIsConvexCombination(cx, cy, x1, y1, x2, y2, x3, y3);
    var D := Det(x1, y1, x2, y2, x3, y3);
    AffineBetween(WeightS(cx, cy, x1, y1, x2, y2, x3, y3) / D, WeightT(cx, cy, x1, y1, x2, y2, x3, y3) / D, x1, x2, x3, a, b);
  }

  /** A triangle with a horizontal base and a third vertex off the base's line
      is not degenerate. */
  lemma ToothDet(x1: real, y1: real, x2: real, y2: real, x3: real, y3: real)
    requires y2 == y1 && y3 != y1 && x1 < x2
    ensures Det(x1, y1, x2, y2, x3, y3) != 0.0
  {
    var h := y3 - y1;
    assert Det(x1, y1, x2, y2, x3, y3) == h * (x2 - x1);
    if h > 0.0 { PosProduct(h, x2 - x1); } else { PosProduct(-h, x2 - x1); }
  }

  /** A centre within r of some point of a segment whose ends have x in [a, b]
      has its x in [a - r, b + r]. */
  lemma EdgeBetween(cx: real, cy: real, r: real, x1: real, y1: real, x2: real, y2: real, a: real, b: real)
    requires a <= x1 <= b && a <= x2 <= b
    requires SegmentWithin(cx, cy, r, x1, y1, x2, y2)
    ensures a - r <= cx <= b + r
  {
    var u :| OnSegmentWithin(u, cx, cy, r, x1, y1, x2, y2);
    LerpBetween(x1, x2, u, a, b);
    CoordinateWithin(cx, cy, Lerp(x1, x2, u), Lerp(y1, y2, u), r);
  }

  /** A convex combination of three values in [a, b] stays in [a, b]. */
  lemma AffineBetween(l1: real, l2: real, c1: real, c2: real, c3: real, a: real, b: real)
    requires 0.0 <= l1 && 0.0 <= l2 && l1 + l2 <= 1.0
    requires a <= c1 <= b && a <= c2 <= b && a <= c3 <= b
    ensures a <= Affine(l1, l2, c1, c2, c3) <= b
  {
    var l3 := 1.0 - l1 - l2;
    NonNegProduct(l1, c1 - a);
    NonNegProduct(l2, c2 - a);
    NonNegProduct(l3, c3 - a);
    NonNegProduct(l1, b - c1);
    NonNegProduct(l2, b - c2);
    NonNegProduct(l3, b - c3);
    assert Affine(l1, l2, c1, c2, c3) - a == l1 * (c1 - a) + l2 * (c2 - a) + l3 * (c3 - a);
    assert b - Affine(l1, l2, c1, c2, c3) == l1 * (b - c1) + l2 * (b - c2) + l3 * (b - c3);
  }

  /** A point of a segment between two values in [a, b] stays in [a, b]. */
  lemma LerpBetween(c1: real, c2: real, u: real, a: real, b: real)
    requires 0.0 <= u <= 1.0
    requires a <= c1 <= b && a <= c2 <= b
    ensures a <= Lerp(c1, c2, u) <= b
  {
    NonNegProduct(1.0 - u, c1 - a);
    NonNegProduct(u, c2 - a);
    NonNegProduct(1.0 - u, b - c1);
    NonNegProduct(u, b - c2);
    assert Lerp(c1, c2, u) - a == (1.0 - u) * (c1 - a) + u * (c2 - a);
    assert b - Lerp(c1, c2, u) == (1.0 - u) * (b - c1) + u * (b - c2);
  }

  /** Within r of a point means within r of it along the x axis. */
  lemma CoordinateWithin(cx: real, cy: real, px: real, py: real, r: real)
    requires Within(SqDist(cx, cy, px, py), r)
    ensures px - r <= cx <= px + r
  {
    var d := if cx >= px then cx - px else px - cx;
    assert d * d == (cx - px) * (cx - px);
    WithinIsRootComparison(d, r);
  }
}
