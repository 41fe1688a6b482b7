/**
  The integer rasteriser of scripts/generate_platform_art.py: a max-composited canvas, Bresenham
  segments with square pens, and fixed-point quadratic curves.
*/
module LineGeometry {
  import opened NumberTheory

  datatype Point = Point(x: int, y: int)

  function Abs(a: int): nat { if a < 0 then -a else a }

  function Step(from: int, to: int): int { if from < to then 1 else -1 }

  /** Number of steps along the longer axis. */
  function Span(from: Point, to: Point): nat { Max(Abs(to.x - from.x), Abs(to.y - from.y)) }

  /** i * minor / major rounded to the nearest integer, halves upward. */
  function Rounded(major: nat, minor: nat, i: nat): int {
    if major == 0 then 0 else (2 * (i * minor) + major) / (2 * major)
  }

  /** Steps taken along x and along y when i steps have been taken along the longer axis. */
  function StepsX(from: Point, to: Point, i: nat): int {
    if Abs(to.y - from.y) <= Abs(to.x - from.x) then i else Rounded(Abs(to.y - from.y), Abs(to.x - from.x), i)
  }

  function StepsY(from: Point, to: Point, i: nat): int {
    if Abs(to.y - from.y) <= Abs(to.x - from.x) then Rounded(Abs(to.x - from.x), Abs(to.y - from.y), i) else i
  }

  /** Reference: the i-th point of the segment, as the ideal line rounded across the longer axis. */
  function LinePoint(from: Point, to: Point, i: nat): Point {
    Point(from.x + Step(from.x, to.x) * StepsX(from, to, i), from.y + Step(from.y, to.y) * StepsY(from, to, i))
  }

  /** The first n points of the segment. */
  ghost function LinePoints(from: Point, to: Point, n: nat): (points: seq<Point>)
    ensures |points| == n
  {
    if n == 0 then [] else LinePoints(from, to, n - 1) + [LinePoint(from, to, n - 1)]
  }

  /** Twice the deviation of k minor steps after i major steps is in (-major, major] exactly for the rounded value. */
  lemma RoundedIffNear(major: nat, minor: nat, i: nat, k: int)
    requires 0 < major
    ensures k == Rounded(major, minor, i) <==> 0 - major < 2 * (k * major - i * minor) <= major
  {
    var n := 2 * (i * minor) + major;
    DivModEquation(n, 2 * major);
    assert 2 * (k * major) == (2 * major) * k;
    if 0 - major < 2 * (k * major - i * minor) <= major {
      DivModUnique(n, 2 * major, k, n - (2 * major) * k);
    }
  }

  lemma RoundedEnds(major: nat, minor: nat)
    requires minor <= major
    ensures Rounded(major, minor, 0) == 0 && Rounded(major, minor, major) == minor
  {
    if major > 0 {
      RoundedIffNear(major, minor, 0, 0);
      RoundedIffNear(major, minor, major, minor);
    }
  }

  lemma RoundedStep(major: nat, minor: nat, i: nat)
    requires minor <= major
    ensures 0 <= Rounded(major, minor, i + 1) - Rounded(major, minor, i) <= 1
  {
    if major > 0 {
      MulDistribute(minor, i, 1);
      var n := 2 * (i * minor) + major;
      assert 2 * ((i + 1) * minor) + major == n + 2 * minor;
      DivModEquation(n, 2 * major);
      DivAtLeast(n + 2 * minor, 2 * major, n / (2 * major));
      MulDistribute(2 * major, n / (2 * major), 2);
      DivAtLeast(n + 2 * minor, 2 * major, n / (2 * major) + 2);
    }
  }

  /** The segment starts and ends exactly on its endpoints. */
  lemma LineEndpoints(from: Point, to: Point)
    ensures LinePoint(from, to, 0) == from && LinePoint(from, to, Span(from, to)) == to
  {
    var spanX, spanY := Abs(to.x - from.x), Abs(to.y - from.y);
    if spanY <= spanX { RoundedEnds(spanX, spanY); } else { RoundedEnds(spanY, spanX); }
  }

  /** Consecutive points are neighbours, and every step moves by one along the longer axis. */
  lemma LineConnected(from: Point, to: Point, i: nat)
    requires i < Span(from, to)
    ensures StepsX(from, to, i) <= StepsX(from, to, i + 1) <= StepsX(from, to, i) + 1
    ensures StepsY(from, to, i) <= StepsY(from, to, i + 1) <= StepsY(from, to, i) + 1
    ensures LinePoint(from, to, i) != LinePoint(from, to, i + 1)
  {
    var spanX, spanY := Abs(to.x - from.x), Abs(to.y - from.y);
    if spanY <= spanX { RoundedStep(spanX, spanY, i); } else { RoundedStep(spanY, spanX, i); }
  }

  /** Every point stays within half a pixel of the ideal line, measured across the longer axis. */
  lemma LineDeviation(from: Point, to: Point, i: nat)
    ensures var spanX, spanY := Abs(to.x - from.x), Abs(to.y - from.y);
            Abs(2 * (StepsY(from, to, i) * spanX - StepsX(from, to, i) * spanY)) <= Span(from, to)
  {
    var spanX, spanY := Abs(to.x - from.x), Abs(to.y - from.y);
    if spanY <= spanX {
      if spanX > 0 { RoundedIffNear(spanX, spanY, i, StepsY(from, to, i)); }
    } else {
      RoundedIffNear(spanY, spanX, i, StepsX(from, to, i));
    }
  }

  /** A square pen at c covers p. */
  predicate Covers(c: Point, before: int, after: int, p: Point) {
    c.x - before <= p.x <= c.x + after && c.y - before <= p.y <= c.y + after
  }

  /** A pen of thickness 1 covers its point; one of thickness 2 the neighbours to the right and below as well. */
  lemma PenCovers(c: Point, p: Point)
    ensures Covers(c, (1 - 1) / 2, 1 / 2, p) <==> p == c
    ensures Covers(c, (2 - 1) / 2, 2 / 2, p) <==>
      p in {c, Point(c.x + 1, c.y), Point(c.x, c.y + 1), Point(c.x + 1, c.y + 1)}
  {}

  /** p is covered by the pen at one of the first n points of the segment. */
  ghost predicate InStroke(from: Point, to: Point, before: int, after: int, n: nat, p: Point) {
    exists i: nat :: i < n && Covers(LinePoint(from, to, i), before, after, p)
  }

  lemma InStrokeStep(from: Point, to: Point, before: int, after: int, n: nat, p: Point)
    ensures InStroke(from, to, before, after, n + 1, p) <==>
            InStroke(from, to, before, after, n, p) || Covers(LinePoint(from, to, n), before, after, p)
  {
    if InStroke(from, to, before, after, n, p) {
      var i: nat :| i < n && Covers(LinePoint(from, to, i), before, after, p);
      assert i < n + 1 && Covers(LinePoint(from, to, i), before, after, p);
    }
  }

  /** p is covered by the whole segment. */
  ghost predicate InLine(from: Point, to: Point, before: int, after: int, p: Point) {
    InStroke(from, to, before, after, Span(from, to) + 1, p)
  }

  // ------------------------------------------------------------------------------------------
  // The error accumulator
  // ------------------------------------------------------------------------------------------

  /** The script's error term after a x-steps and b y-steps. */
  function ErrorTerm(spanX: nat, spanY: nat, a: int, b: int): int { spanX - spanY + (b * spanX - a * spanY) }

  lemma ErrorSteps(spanX: nat, spanY: nat, a: int, b: int)
    ensures ErrorTerm(spanX, spanY, a + 1, b) == ErrorTerm(spanX, spanY, a, b) - spanY
    ensures ErrorTerm(spanX, spanY, a, b + 1) == ErrorTerm(spanX, spanY, a, b) + spanX
    ensures ErrorTerm(spanX, spanY, a + 1, b + 1) == ErrorTerm(spanX, spanY, a, b) - spanY + spanX
  {
    MulDistribute(spanX, b, 1);
    MulDistribute(spanY, a, 1);
  }

  /** The two comparisons of the loop move to the next reference point. */
  lemma LoopStep(from: Point, to: Point, i: nat)
    requires 0 < Span(from, to)
    ensures var spanX, spanY, a, b := Abs(to.x - from.x), Abs(to.y - from.y), StepsX(from, to, i), StepsY(from, to, i);
            var twice := 2 * ErrorTerm(spanX, spanY, a, b);
            && StepsX(from, to, i + 1) == (if twice >= 0 - spanY then a + 1 else a)
            && StepsY(from, to, i + 1) == (if twice <= spanX then b + 1 else b)
  {
    var spanX, spanY, a, b := Abs(to.x - from.x), Abs(to.y - from.y), StepsX(from, to, i), StepsY(from, to, i);
    ErrorSteps(spanX, spanY, a, b);
    if spanY <= spanX {
      RoundedIffNear(spanX, spanY, i, b);
      RoundedIffNear(spanX, spanY, i + 1, b);
      RoundedIffNear(spanX, spanY, i + 1, b + 1);
    } else {
      RoundedIffNear(spanY, spanX, i, a);
      RoundedIffNear(spanY, spanX, i + 1, a);
      RoundedIffNear(spanY, spanX, i + 1, a + 1);
    }
  }

  /** The script's error term at the i-th point. */
  function ErrorAt(from: Point, to: Point, i: nat): int {
    ErrorTerm(Abs(to.x - from.x), Abs(to.y - from.y), StepsX(from, to, i), StepsY(from, to, i))
  }

  /** One pass through the loop body moves the point and the error term from i to i + 1. */
  lemma LoopBody(from: Point, to: Point, i: nat)
    requires 0 < Span(from, to)
    ensures var dx, dy := Abs(to.x - from.x), 0 - Abs(to.y - from.y);
            var twice, p := 2 * ErrorAt(from, to, i), LinePoint(from, to, i);
            && ErrorAt(from, to, i + 1) ==
               ErrorAt(from, to, i) + (if twice >= dy then dy else 0) + (if twice <= dx then dx else 0)
            && LinePoint(from, to, i + 1) ==
               Point(if twice >= dy then p.x + Step(from.x, to.x) else p.x,
                     if twice <= dx then p.y + Step(from.y, to.y) else p.y)
  {
    LoopStep(from, to, i);
    ErrorSteps(Abs(to.x - from.x), Abs(to.y - from.y), StepsX(from, to, i), StepsY(from, to, i));
  }

  lemma LineStart(from: Point, to: Point)
    ensures LinePoint(from, to, 0) == from
    ensures ErrorAt(from, to, 0) == Abs(to.x - from.x) - Abs(to.y - from.y)
  {
    LineEndpoints(from, to);
    var spanX, spanY := Abs(to.x - from.x), Abs(to.y - from.y);
    if spanY <= spanX { RoundedEnds(spanX, spanY); } else { RoundedEnds(spanY, spanX); }
  }

  /** Only the last point of the segment is its end. */
  lemma EndOnlyAtSpan(from: Point, to: Point, i: nat)
    requires i <= Span(from, to)
    ensures LinePoint(from, to, i) == to <==> i == Span(from, to)
  {
    LineEndpoints(from, to);
  }

  // ------------------------------------------------------------------------------------------
  // Quadratic curves
  // ------------------------------------------------------------------------------------------

  function BezierNumerator(steps: nat, index: nat, start: int, control: int, end: int): int
    requires index <= steps
  {
    var inverse := steps - index;
    inverse * inverse * start + 2 * inverse * index * control + index * index * end
  }

  function BezierCoordinate(steps: nat, index: nat, start: int, control: int, end: int): int
    requires 0 < steps && index <= steps
  {
    MulPositive(steps, steps);
    (BezierNumerator(steps, index, start, control, end) + steps * steps / 2) / (steps * steps)
  }

  function BezierPoint(steps: nat, index: nat, start: Point, control: Point, end: Point): Point
    requires 0 < steps && index <= steps
  {
    Point(BezierCoordinate(steps, index, start.x, control.x, end.x),
          BezierCoordinate(steps, index, start.y, control.y, end.y))
  }

  /** The curve bends evenly: the second difference of its numerators is the same everywhere. */
  lemma SecondDifference(steps: nat, i: nat, start: int, control: int, end: int)
    requires i + 2 <= steps
    ensures BezierNumerator(steps, i + 2, start, control, end) - 2 * BezierNumerator(steps, i + 1, start, control, end)
            + BezierNumerator(steps, i, start, control, end) == 2 * (start - 2 * control + end)
  {
    SquareBend(steps - i - 2, start);
    ProductBend(steps - i - 2, i, control);
    SquareBend(i, end);
  }

  lemma SquareBend(k: int, w: int)
    ensures k * k * w - 2 * ((k + 1) * (k + 1) * w) + (k + 2) * (k + 2) * w == 2 * w
  {
    Bend(k * k, (k + 1) * (k + 1), (k + 2) * (k + 2), 2, w);
  }

  lemma ProductBend(k: int, i: int, w: int)
    ensures 2 * k * (i + 2) * w - 2 * (2 * (k + 1) * (i + 1) * w) + 2 * (k + 2) * i * w == 0 - 4 * w
  {
    assert k * (i + 2) == k * i + 2 * k && (k + 1) * (i + 1) == k * i + k + i + 1 && (k + 2) * i == k * i + 2 * i;
    assert 2 * k * (i + 2) == 2 * (k * (i + 2)) && 2 * (k + 1) * (i + 1) == 2 * ((k + 1) * (i + 1));
    assert 2 * (k + 2) * i == 2 * ((k + 2) * i);
    Bend(2 * k * (i + 2), 2 * (k + 1) * (i + 1), 2 * (k + 2) * i, 0 - 4, w);
  }

  lemma Bend(a: int, b: int, c: int, d: int, w: int)
    requires a - 2 * b + c == d
    ensures a * w - 2 * (b * w) + c * w == d * w
  {
    MulDistribute(w, a, c);
    MulDistribute(w, d, b);
    MulDistribute(w, d + b, b);
  }

  /** Together with its ends that determines the curve: no other numbers bend that way between them. */
  lemma CurveUnique(steps: nat, f: seq<int>, start: int, control: int, end: int, i: nat)
    requires |f| == steps + 1 && i <= steps
    requires f[0] == steps * steps * start && f[steps] == steps * steps * end
    requires forall k :: 0 <= k <= steps - 2 ==> f[k + 2] - 2 * f[k + 1] + f[k] == 2 * (start - 2 * control + end)
    ensures f[i] == BezierNumerator(steps, i, start, control, end)
  {
    if steps > 0 {
      DeviationIsLinear(steps, f, start, control, end, steps);
      DeviationIsLinear(steps, f, start, control, end, i);
      NumeratorAtEnds(steps, start, control, end);
      OnlyZero(steps, i, f[1] - BezierNumerator(steps, 1, start, control, end));
    }
  }

  lemma NumeratorAtEnds(steps: nat, start: int, control: int, end: int)
    ensures BezierNumerator(steps, 0, start, control, end) == steps * steps * start
    ensures BezierNumerator(steps, steps, start, control, end) == steps * steps * end
  {}

  lemma OnlyZero(steps: nat, i: nat, slope: int)
    requires 0 < steps
    ensures steps * slope == 0 ==> i * slope == 0
  {
    if slope > 0 { MulPositive(steps, slope); } else if slope < 0 { MulPositive(steps, 0 - slope); }
  }

  lemma {:induction false} DeviationIsLinear(steps: nat, f: seq<int>, start: int, control: int, end: int, i: nat)
    requires 0 < steps && |f| == steps + 1 && i <= steps && f[0] == steps * steps * start
    requires forall k :: 0 <= k <= steps - 2 ==> f[k + 2] - 2 * f[k + 1] + f[k] == 2 * (start - 2 * control + end)
    ensures f[i] - BezierNumerator(steps, i, start, control, end)
            == i * (f[1] - BezierNumerator(steps, 1, start, control, end))
  {
    if i >= 2 {
      DeviationIsLinear(steps, f, start, control, end, i - 1);
      DeviationIsLinear(steps, f, start, control, end, i - 2);
      SecondDifference(steps, i - 2, start, control, end);
      assert f[i - 2 + 2] - 2 * f[i - 2 + 1] + f[i - 2] == 2 * (start - 2 * control + end);
      var slope := f[1] - BezierNumerator(steps, 1, start, control, end);
      MulDistribute(slope, i - 2, 1);
      MulDistribute(slope, i - 1, 1);
    } else {
      NumeratorAtEnds(steps, start, control, end);
    }
  }

  /** A coordinate is the integer nearest the exact point, the upper one of two. */
  lemma NearestToCurve(steps: nat, index: nat, start: int, control: int, end: int, v: int)
    requires 0 < steps && index <= steps
    ensures var d, n := steps * steps, BezierNumerator(steps, index, start, control, end);
            v == BezierCoordinate(steps, index, start, control, end) <==> 0 - d < 2 * (d * v - n) <= d
  {
    var d, n := steps * steps, BezierNumerator(steps, index, start, control, end);
    MulPositive(steps, steps);
    DivAtLeast(n + d / 2, d, v);
    DivAtLeast(n + d / 2, d, v + 1);
    MulDistribute(d, v, 1);
  }

  /** Half way, the control point counts as much as the two ends together. */
  lemma CurveMiddle(half: nat, start: int, control: int, end: int)
    requires 0 < half
    ensures BezierCoordinate(2 * half, half, start, control, end) == (start + 2 * control + end + 2) / 4
  {
    var d, v := half * half, (start + 2 * control + end + 2) / 4;
    MulPositive(half, half);
    assert (2 * half) * (2 * half) == 4 * d;
    assert half * half * start + 2 * half * half * control + half * half * end == d * (start + 2 * control + end);
    MulAtMost(d, 4 * v - 2, start + 2 * control + end);
    MulAtMost(d, start + 2 * control + end, 4 * v + 1);
    NearestToCurve(2 * half, half, start, control, end, v);
  }

  lemma RoundExact(d: int, v: int)
    requires 0 < d
    ensures (d * v + d / 2) / d == v
  {
    DivModUnique(d * v + d / 2, d, v, d / 2);
  }

  /** The curve starts and ends exactly on its end points. */
  lemma BezierEndpoints(steps: nat, start: Point, control: Point, end: Point)
    requires 0 < steps
    ensures BezierPoint(steps, 0, start, control, end) == start
    ensures BezierPoint(steps, steps, start, control, end) == end
  {
    MulPositive(steps, steps);
    RoundExact(steps * steps, start.x);
    RoundExact(steps * steps, start.y);
    RoundExact(steps * steps, end.x);
    RoundExact(steps * steps, end.y);
  }

  lemma WeightsSum(steps: nat, index: nat, v: int)
    requires index <= steps
    ensures BezierNumerator(steps, index, v, v, v) == steps * steps * v
  {
    var inverse := steps - index;
    assert (inverse + index) * (inverse + index) == inverse * inverse + 2 * inverse * index + index * index;
    MulDistribute(v, inverse * inverse, 2 * inverse * index);
    MulDistribute(v, inverse * inverse + 2 * inverse * index, index * index);
  }

  lemma NumeratorMonotone(steps: nat, index: nat, s: int, c: int, e: int, s': int, c': int, e': int)
    requires index <= steps && s <= s' && c <= c' && e <= e'
    ensures BezierNumerator(steps, index, s, c, e) <= BezierNumerator(steps, index, s', c', e')
  {
    var inverse := steps - index;
    MulAtMost(inverse * inverse, s, s');
    MulAtMost(2 * inverse * index, c, c');
    MulAtMost(index * index, e, e');
  }

  lemma DivMonotone(x: int, y: int, d: int)
    requires 0 < d && x <= y
    ensures x / d <= y / d
  {
    DivModEquation(x, d);
    DivAtLeast(y, d, x / d);
  }

  /** No point of the curve leaves the bounding box of the three given points. */
  lemma BezierInHull(steps: nat, index: nat, s: int, c: int, e: int, low: int, high: int)
    requires 0 < steps && index <= steps && low <= s <= high && low <= c <= high && low <= e <= high
    ensures low <= BezierCoordinate(steps, index, s, c, e) <= high
  {
    var d := steps * steps;
    MulPositive(steps, steps);
    NumeratorMonotone(steps, index, low, low, low, s, c, e);
    NumeratorMonotone(steps, index, s, c, e, high, high, high);
    WeightsSum(steps, index, low);
    WeightsSum(steps, index, high);
    RoundExact(d, low);
    RoundExact(d, high);
    DivMonotone(d * low + d / 2, BezierNumerator(steps, index, s, c, e) + d / 2, d);
    DivMonotone(BezierNumerator(steps, index, s, c, e) + d / 2, d * high + d / 2, d);
  }
}

module Raster {
  import opened NumberTheory
  import opened Outcomes
  import opened LineGeometry

  type Byte = x: int | 0 <= x <= 0xFF

  datatype RasterError =
    | DimensionsNotPositive
    | BrightnessNotAByte
    | RectangleReversed
    | ThicknessNotPositive
    | StepsNotPositive

  class Canvas {
    const width: nat
    const height: nat
    var rows: array2<Byte>   // rows[y, x]

    ghost predicate Valid()
      reads this
    {
      rows.Length0 == height && rows.Length1 == width
    }

    constructor (width: nat, height: nat)
      ensures this.width == width && this.height == height && Valid() && fresh(rows)
      ensures forall x, y :: 0 <= x < width && 0 <= y < height ==> rows[y, x] == 0
    {
      this.width, this.height := width, height;
      rows := new Byte[height, width]((i, j) => 0);
    }

    predicate Inside(p: Point) { 0 <= p.x < width && 0 <= p.y < height }

    function At(p: Point): Byte
      requires Valid() && Inside(p)
      reads this, rows
    {
      rows[p.y, p.x]
    }

    /** plot: max-composite one pixel; pixels outside the canvas are ignored. */
    method Plot(x: int, y: int, brightness: int) returns (r: Result<(), RasterError>)
      requires Valid()
      modifies rows
      ensures r.Err? <==> !(0 <= brightness <= 0xFF)
      ensures r.Err? ==> r.error == BrightnessNotAByte
      ensures forall p :: Inside(p) ==>
        At(p) == if r.Ok? && p == Point(x, y) then Max(old(At(p)), brightness) else old(At(p))
    {
      if !(0 <= brightness <= 0xFF) { return Err(BrightnessNotAByte); }
      if 0 <= x < width && 0 <= y < height {
        rows[y, x] := Max(rows[y, x], brightness);
      }
      return Ok(());
    }

    /** rectangle: max-composite an inclusive rectangle, clipped to the canvas. */
    method Rectangle(left: int, top: int, right: int, bottom: int, brightness: int)
      returns (r: Result<(), RasterError>)
      requires Valid()
      modifies rows
      ensures r == if !(0 <= brightness <= 0xFF) then Err(BrightnessNotAByte)
                   else if right < left || bottom < top then Err(RectangleReversed) else Ok(())
      ensures forall p :: Inside(p) ==>
        At(p) == if r.Ok? && left <= p.x <= right && top <= p.y <= bottom
                 then Max(old(At(p)), brightness) else old(At(p))
    {
      if !(0 <= brightness <= 0xFF) { return Err(BrightnessNotAByte); }
      if right < left || bottom < top { return Err(RectangleReversed); }
      var firstRow, firstColumn := Max(0, top), Max(0, left);
      var lastRow := if height - 1 < bottom then height - 1 else bottom;
      var lastColumn := if width - 1 < right then width - 1 else right;
      var y := firstRow;
      while y <= lastRow
        invariant firstRow <= y
        invariant forall i, j :: 0 <= i < height && 0 <= j < width ==>
          rows[i, j] == if firstRow <= i < y && i <= lastRow && firstColumn <= j <= lastColumn
                        then Max(old(rows[i, j]), brightness) else old(rows[i, j])
      {
        var x := firstColumn;
        while x <= lastColumn
          invariant firstColumn <= x
          invariant forall i, j :: 0 <= i < height && 0 <= j < width ==>
            rows[i, j] == if (firstRow <= i < y && firstColumn <= j <= lastColumn)
                             || (i == y && firstColumn <= j < x && j <= lastColumn)
                          then Max(old(rows[i, j]), brightness) else old(rows[i, j])
        {
          rows[y, x] := Max(rows[y, x], brightness);
          x := x + 1;
        }
        y := y + 1;
      }
      return Ok(());
    }

    /**
      line: the loop visits exactly the reference points of the segment, in order, and stops on
      its end; the pixels under the pen are brightened and no others change.  `visited` are the
      points it stood on.
    */
    method Line(x0: int, y0: int, x1: int, y1: int, brightness: int, thickness: int)
      returns (r: Result<(), RasterError>, ghost visited: seq<Point>)
      requires Valid()
      modifies rows
      ensures r == if thickness <= 0 then Err(ThicknessNotPositive)
                   else if !(0 <= brightness <= 0xFF) then Err(BrightnessNotAByte) else Ok(())
      ensures r.Ok? ==> visited == LinePoints(Point(x0, y0), Point(x1, y1), Span(Point(x0, y0), Point(x1, y1)) + 1)
      ensures forall p :: Inside(p) ==>
        At(p) == if r.Ok? && InLine(Point(x0, y0), Point(x1, y1), (thickness - 1) / 2, thickness / 2, p)
                 then Max(old(At(p)), brightness) else old(At(p))
    {
      visited := [];
      if thickness <= 0 { return Err(ThicknessNotPositive), visited; }
      r, visited := Trace(x0, y0, x1, y1, brightness, (thickness - 1) / 2, thickness / 2);
    }

    /** Draw the i-th point of the segment: brighten what the pen at c covers. */
    method DrawPoint(ghost from: Point, ghost to: Point, ghost i: nat, c: Point,
                     brightness: int, before: nat, after: nat)
      returns (r: Result<(), RasterError>)
      requires Valid() && c == LinePoint(from, to, i)
      modifies rows
      ensures r == if !(0 <= brightness <= 0xFF) then Err(BrightnessNotAByte) else Ok(())
      ensures forall p :: Inside(p) ==>
        At(p) == if r.Ok? && Covers(c, before, after, p) then Max(old(At(p)), brightness) else old(At(p))
      ensures forall p :: InStroke(from, to, before, after, i + 1, p) <==>
                          InStroke(from, to, before, after, i, p) || Covers(c, before, after, p)
    {
      r := Rectangle(c.x - before, c.y - before, c.x + after, c.y + after, brightness);
      forall p ensures InStroke(from, to, before, after, i + 1, p) <==>
                       InStroke(from, to, before, after, i, p) || Covers(c, before, after, p) {
        InStrokeStep(from, to, before, after, i, p);
      }
    }

    /** The loop of line. */
    method Trace(x0: int, y0: int, x1: int, y1: int, brightness: int, before: nat, after: nat)
      returns (r: Result<(), RasterError>, ghost visited: seq<Point>)
      requires Valid()
      modifies rows
      ensures r == if !(0 <= brightness <= 0xFF) then Err(BrightnessNotAByte) else Ok(())
      ensures r.Ok? ==> visited == LinePoints(Point(x0, y0), Point(x1, y1), Span(Point(x0, y0), Point(x1, y1)) + 1)
      ensures forall p :: Inside(p) ==>
        At(p) == if r.Ok? && InLine(Point(x0, y0), Point(x1, y1), before, after, p)
                 then Max(old(At(p)), brightness) else old(At(p))
    {
      ghost var from, to := Point(x0, y0), Point(x1, y1);
      LineStart(from, to);
      var dx: int, dy: int := Abs(x1 - x0), 0 - Abs(y1 - y0);
      var stepX, stepY := Step(x0, x1), Step(y0, y1);
      var x, y, error := x0, y0, dx + dy;
      ghost var i: nat := 0;
      visited := [];
      while true
        invariant i <= Span(from, to) && Point(x, y) == LinePoint(from, to, i)
        invariant error == ErrorAt(from, to, i)
        invariant visited == LinePoints(from, to, i)
        invariant i > 0 ==> 0 <= brightness <= 0xFF
        invariant forall p :: Inside(p) ==>
          At(p) == if InStroke(from, to, before, after, i, p) then Max(old(At(p)), brightness) else old(At(p))
        decreases Span(from, to) - i
      {
        r := DrawPoint(from, to, i, Point(x, y), brightness, before, after);
        visited := visited + [Point(x, y)];
        if r.Err? { return; }
        EndOnlyAtSpan(from, to, i);
        if x == x1 && y == y1 { return; }
        x, y, error := Advance(from, to, i, x, y, error, dx, dy, stepX, stepY);
        i := i + 1;
      }
    }

    /** quadratic: the polyline through the rounded curve points, segment by segment. */
    method Quadratic(start: Point, control: Point, end: Point, brightness: int, thickness: int, steps: int)
      returns (r: Result<(), RasterError>)
      requires Valid()
      modifies rows
      ensures r == if steps <= 0 then Err(StepsNotPositive)
                   else if thickness <= 0 then Err(ThicknessNotPositive)
                   else if !(0 <= brightness <= 0xFF) then Err(BrightnessNotAByte) else Ok(())
      ensures forall p :: Inside(p) ==>
        At(p) == if r.Ok? && InCurve(steps, steps, start, control, end, (thickness - 1) / 2, thickness / 2, p)
                 then Max(old(At(p)), brightness) else old(At(p))
    {
      if steps <= 0 { return Err(StepsNotPositive); }
      var before, after := (thickness - 1) / 2, thickness / 2;
      var previous := start;
      BezierEndpoints(steps, start, control, end);
      for index: nat := 1 to steps + 1
        invariant previous == BezierPoint(steps, index - 1, start, control, end)
        invariant index > 1 ==> thickness > 0 && 0 <= brightness <= 0xFF
        invariant forall p :: Inside(p) ==>
          At(p) == if InCurve(steps, index - 1, start, control, end, before, after, p)
                   then Max(old(At(p)), brightness) else old(At(p))
      {
        var current := BezierPoint(steps, index, start, control, end);
        var drawn, _ := Line(previous.x, previous.y, current.x, current.y, brightness, thickness);
        if drawn.Err? { return Err(drawn.error); }
        forall p | Inside(p)
          ensures At(p) == if InCurve(steps, index, start, control, end, before, after, p)
                           then Max(old(At(p)), brightness) else old(At(p))
        {
          InCurveStep(steps, index - 1, start, control, end, before, after, p);
        }
        previous := current;
      }
      return Ok(());
    }
  }

  /** The two comparisons at the end of the loop body of line. */
  method Advance(ghost from: Point, ghost to: Point, ghost i: nat, x: int, y: int, error: int,
                 dx: int, dy: int, stepX: int, stepY: int)
    returns (x': int, y': int, error': int)
    requires 0 < Span(from, to) && Point(x, y) == LinePoint(from, to, i) && error == ErrorAt(from, to, i)
    requires dx == Abs(to.x - from.x) && dy == 0 - Abs(to.y - from.y)
    requires stepX == Step(from.x, to.x) && stepY == Step(from.y, to.y)
    ensures Point(x', y') == LinePoint(from, to, i + 1) && error' == ErrorAt(from, to, i + 1)
  {
    LoopBody(from, to, i);
    var twice := 2 * error;
    x', y', error' := x, y, error;
    if twice >= dy {
      error' := error' + dy;
      x' := x' + stepX;
    }
    if twice <= dx {
      error' := error' + dx;
      y' := y' + stepY;
    }
  }

  /** p is covered by one of the first n segments of the curve. */
  ghost predicate InCurve(steps: nat, n: nat, start: Point, control: Point, end: Point,
                          before: int, after: int, p: Point)
    requires 0 < steps && n <= steps
  {
    exists i: nat ::
      i < n && InLine(BezierPoint(steps, i, start, control, end), BezierPoint(steps, i + 1, start, control, end),
                      before, after, p)
  }

  lemma InCurveStep(steps: nat, n: nat, start: Point, control: Point, end: Point, before: int, after: int, p: Point)
    requires 0 < steps && n < steps
    ensures InCurve(steps, n + 1, start, control, end, before, after, p) <==>
            InCurve(steps, n, start, control, end, before, after, p)
            || InLine(BezierPoint(steps, n, start, control, end), BezierPoint(steps, n + 1, start, control, end),
                      before, after, p)
  {}

  /** The constructor with its dimension check. */
  method NewCanvas(width: int, height: int) returns (r: Result<Canvas, RasterError>)
    ensures r.Err? <==> width <= 0 || height <= 0
    ensures r.Err? ==> r.error == DimensionsNotPositive
    ensures r.Ok? ==>
      && fresh(r.value) && fresh(r.value.rows) && r.value.Valid()
      && r.value.width == width && r.value.height == height
      && forall p :: r.value.Inside(p) ==> r.value.At(p) == 0
  {
    if width <= 0 || height <= 0 { return Err(DimensionsNotPositive); }
    var canvas := new Canvas(width, height);
    return Ok(canvas);
  }
}
