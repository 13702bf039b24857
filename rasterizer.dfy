/** The z-buffer rasterizer of hw2/rasterizer.cpp: a colour buffer and a
    depth buffer of `width * height` cells addressed row-flipped, clearing by
    bit flags, the edge-sign point-in-triangle test, and the scan of a
    triangle's pixel box with its strict depth test. Coordinates are reals;
    the interpolated depth of a pixel comes in as a parameter. */
module Rasterizer {
  import opened Common

  /** A depth-buffer value: a float that is either finite or `+infinity`. */
  datatype Depth = Finite(value: real) | Infinity

  /** `depth_buf[index] > z_interpolated`. */
  predicate Farther(d: Depth, z: real) {
    d.Infinity? || z < d.value
  }

  /** The `rst::Buffers` flags `Color = 1` and `Depth = 2`. */
  const ColorFlag: bv8 := 1
  const DepthFlag: bv8 := 2

  /** `get_index`: `(height - 1 - y) * width + x`, the image's row 0 being
      the bottom one. On screen the index is a cell of the buffers. */
  function Index(width: nat, height: nat, x: int, y: int): (r: int)
    ensures 0 <= x < width && 0 <= y < height ==> 0 <= r < width * height
  {
    if 0 <= x < width && 0 <= y < height then
      RowBound(height - 1 - y, width, height, x);
      (height - 1 - y) * width + x
    else
      (height - 1 - y) * width + x
  }

  lemma RowBound(k: nat, width: nat, height: nat, x: nat)
    requires k < height && x < width
    ensures 0 <= k * width + x < width * height
  {
    MulMono(k + 1, height, width);
    assert (k + 1) * width == k * width + width;
  }

  predicate OnScreen(width: nat, height: nat, x: int, y: int) {
    0 <= x < width && 0 <= y < height
  }

  lemma MulMono(a: nat, b: nat, s: nat)
    requires a <= b
    ensures a * s <= b * s
  {
  }

  /** Distinct pixels on screen have distinct cells. */
  lemma IndexInjective(width: nat, height: nat, x: int, y: int, x2: int, y2: int)
    requires OnScreen(width, height, x, y) && OnScreen(width, height, x2, y2)
    ensures Index(width, height, x, y) == Index(width, height, x2, y2) ==> x == x2 && y == y2
  {
    if Index(width, height, x, y) == Index(width, height, x2, y2) {
      if y < y2 {
        MulMono(height - y2, height - 1 - y, width);
      } else if y2 < y {
        MulMono(height - y, height - 1 - y2, width);
      }
    }
  }

  /** Every cell is the index of a pixel on screen: column `m % width` of
      row `height - 1 - m / width`. */
  lemma IndexCovers(width: nat, height: nat, m: int)
    requires 0 <= m < width * height
    ensures width > 0 && OnScreen(width, height, m % width, height - 1 - m / width)
    ensures Index(width, height, m % width, height - 1 - m / width) == m
  {
    if m / width >= height {
      MulMono(height, m / width, width);
    }
  }

  /** `vecP[0] * side[1] - vecP[1] * side[0]` for edge `i`, from vertex `i`
      to vertex `(i + 1) % 3`: the cross product of `p - v[i]` with
      `v[i] - v[(i + 1) % 3]`. Only the `x` and `y` of the vertices are read. */
  function EdgeValue(px: real, py: real, v: seq<Vec3>, i: nat): real
    requires |v| == 3 && i < 3
  {
    var a, b := v[i], v[(i + 1) % 3];
    (px - a.x) * (a.y - b.y) - (py - a.y) * (a.x - b.x)
  }

  /** `insideTriangle`: the three edge tests `EdgeValue < 0` all agree. */
  predicate Inside(px: real, py: real, v: seq<Vec3>)
    requires |v| == 3
  {
    (EdgeValue(px, py, v, 0) < 0.0) == (EdgeValue(px, py, v, 1) < 0.0) &&
    (EdgeValue(px, py, v, 1) < 0.0) == (EdgeValue(px, py, v, 2) < 0.0)
  }

  /** Twice the signed area of the triangle: positive when its vertices run
      counter-clockwise, negative when clockwise, zero when degenerate. */
  function Orientation(v: seq<Vec3>): real
    requires |v| == 3
  {
    (v[1].x - v[0].x) * (v[2].y - v[0].y) - (v[1].y - v[0].y) * (v[2].x - v[0].x)
  }

  /** The point with affine coordinates `(a, b, c)` over the vertices. */
  function Affine(v: seq<Vec3>, a: real, b: real, c: real): Vec3
    requires |v| == 3
  {
    Vec3(Combine(Xs(v), a, b, c), Combine(Ys(v), a, b, c), 1.0)
  }

  function Combine(xs: seq<real>, a: real, b: real, c: real): real
    requires |xs| == 3
  {
    a * xs[0] + b * xs[1] + c * xs[2]
  }

  /** The `res[i]` loop of `insideTriangle`. */
  method InsideTriangle(px: real, py: real, v: seq<Vec3>) returns (inside: bool)
    requires |v| == 3
    ensures inside == Inside(px, py, v)
  {
    var res := new bool[3];
    for i := 0 to 3
      invariant forall k :: 0 <= k < i ==> res[k] == (EdgeValue(px, py, v, k) < 0.0)
    {
      var side := v[i].Minus(v[(i + 1) % 3]);
      var vecX, vecY := px - v[i].x, py - v[i].y;
      res[i] := vecX * side.y - vecY * side.x < 0.0;
      assert res[i] == (EdgeValue(px, py, v, i) < 0.0);
    }
    inside := res[0] == res[1] && res[1] == res[2];
  }

  /** Each edge value is the orientation scaled by the affine coordinate of
      the opposite vertex. */
  lemma EdgeValues(v: seq<Vec3>, a: real, b: real, c: real)
    requires |v| == 3 && a + b + c == 1.0
    ensures EdgeValue(Affine(v, a, b, c).x, Affine(v, a, b, c).y, v, 0) == c * Orientation(v)
    ensures EdgeValue(Affine(v, a, b, c).x, Affine(v, a, b, c).y, v, 1) == a * Orientation(v)
    ensures EdgeValue(Affine(v, a, b, c).x, Affine(v, a, b, c).y, v, 2) == b * Orientation(v)
  {
    var p := Affine(v, a, b, c);
    var ux, uy, wx, wy := v[1].x - v[0].x, v[1].y - v[0].y, v[2].x - v[0].x, v[2].y - v[0].y;
    assert p.x - v[0].x == b * ux + c * wx;
    assert p.y - v[0].y == b * uy + c * wy;
    assert p.x - v[1].x == (b - 1.0) * ux + c * wx;
    assert p.y - v[1].y == (b - 1.0) * uy + c * wy;
    assert p.x - v[2].x == b * ux + (c - 1.0) * wx;
    assert p.y - v[2].y == b * uy + (c - 1.0) * wy;
  }

  /** What `insideTriangle` accepts, by affine coordinates: for a clockwise
      triangle the points strictly inside, for a counter-clockwise one the
      points inside or on an edge, and for a degenerate one every point on
      the line through its vertices (the only points with affine coordinates
      there). In particular a point strictly inside is accepted under either
      winding. */
  lemma InsideByCoordinates(v: seq<Vec3>, a: real, b: real, c: real)
    requires |v| == 3 && a + b + c == 1.0
    ensures Inside(Affine(v, a, b, c).x, Affine(v, a, b, c).y, v) <==>
              (Orientation(v) < 0.0 && a > 0.0 && b > 0.0 && c > 0.0) ||
              (Orientation(v) > 0.0 && a >= 0.0 && b >= 0.0 && c >= 0.0) ||
              Orientation(v) == 0.0
  {
    EdgeValues(v, a, b, c);
    var d := Orientation(v);
    if d < 0.0 {
      SignOfProduct(a, d);
      SignOfProduct(b, d);
      SignOfProduct(c, d);
    } else if d > 0.0 {
      SignOfProduct(a, d);
      SignOfProduct(b, d);
      SignOfProduct(c, d);
    }
  }

  lemma SignOfProduct(a: real, d: real)
    requires d != 0.0
    ensures d < 0.0 ==> (a * d < 0.0 <==> a > 0.0)
    ensures d > 0.0 ==> (a * d < 0.0 <==> a < 0.0)
  {
  }

  /** The pixel box scanned by `rasterize_triangle`. */
  datatype Box = Box(minX: int, maxX: int, minY: int, maxY: int)

  predicate InBox(b: Box, x: int, y: int) {
    b.minX <= x <= b.maxX && b.minY <= y <= b.maxY
  }

  /** The running minimum and maximum of a list of coordinates from a start value. */
  function Lowest(xs: seq<real>, start: real): (r: real)
    ensures r <= start && forall k :: 0 <= k < |xs| ==> r <= xs[k]
  {
    if |xs| == 0 then start else Min(Lowest(xs[..|xs| - 1], start), xs[|xs| - 1])
  }

  function Highest(xs: seq<real>, start: real): (r: real)
    ensures r >= start && forall k :: 0 <= k < |xs| ==> r >= xs[k]
  {
    if |xs| == 0 then start else Max(Highest(xs[..|xs| - 1], start), xs[|xs| - 1])
  }

  function Xs(v: seq<Vec3>): seq<real>
    requires |v| == 3
  {
    [v[0].x, v[1].x, v[2].x]
  }

  function Ys(v: seq<Vec3>): seq<real>
    requires |v| == 3
  {
    [v[0].y, v[1].y, v[2].y]
  }

  /** The box the loop over the vertices computes: `min_x` starts at
      `INT_MAX` and `max_x` at `0`, and both keep truncated values. */
  function BoxOf(v: seq<Vec3>): Box
    requires |v| == 3
  {
    Box(Trunc(Lowest(Xs(v), IntMax as real)), Trunc(Highest(Xs(v), 0.0)),
        Trunc(Lowest(Ys(v), IntMax as real)), Trunc(Highest(Ys(v), 0.0)))
  }

  lemma TruncMono(r: real, s: real)
    requires r <= s
    ensures Trunc(r) <= Trunc(s)
  {
  }

  lemma TruncOfInt(n: int)
    ensures Trunc(n as real) == n
  {
  }

  /** Comparing with the truncated running minimum and storing the
      truncated coordinate yields the truncation of the true minimum (and
      alike for the maximum). */
  lemma TruncMin(m: real, x: real)
    ensures (if x < Trunc(m) as real then Trunc(x) else Trunc(m)) == Trunc(Min(m, x))
  {
  }

  lemma TruncMax(m: real, x: real)
    ensures (if x > Trunc(m) as real then Trunc(x) else Trunc(m)) == Trunc(Max(m, x))
  {
  }

  /** One more coordinate in the loop over the vertices. */
  lemma LowestStep(xs: seq<real>, start: real, i: nat)
    requires i < |xs|
    ensures Trunc(Lowest(xs[..i + 1], start)) ==
              if xs[i] < Trunc(Lowest(xs[..i], start)) as real then Trunc(xs[i]) else Trunc(Lowest(xs[..i], start))
  {
    assert xs[..i + 1][..i] == xs[..i];
    TruncMin(Lowest(xs[..i], start), xs[i]);
  }

  lemma HighestStep(xs: seq<real>, start: real, i: nat)
    requires i < |xs|
    ensures Trunc(Highest(xs[..i + 1], start)) ==
              if xs[i] > Trunc(Highest(xs[..i], start)) as real then Trunc(xs[i]) else Trunc(Highest(xs[..i], start))
  {
    assert xs[..i + 1][..i] == xs[..i];
    TruncMax(Highest(xs[..i], start), xs[i]);
  }

  /** The bounding-box loop `for (int i = 0; i < 3; i++)` of `rasterize_triangle`. */
  method BoundingBox(v: seq<Vec3>) returns (box: Box)
    requires |v| == 3
    ensures box == BoxOf(v)
    ensures box.maxX >= 0 && box.maxY >= 0
  {
    var minX, maxX, minY, maxY := IntMax, 0, IntMax, 0;
    ghost var xs, ys := Xs(v), Ys(v);
    TruncOfInt(IntMax);
    TruncOfInt(0);
    for i := 0 to 3
      invariant minX == Trunc(Lowest(xs[..i], IntMax as real)) && maxX == Trunc(Highest(xs[..i], 0.0))
      invariant minY == Trunc(Lowest(ys[..i], IntMax as real)) && maxY == Trunc(Highest(ys[..i], 0.0))
    {
      LowestStep(xs, IntMax as real, i);
      HighestStep(xs, 0.0, i);
      LowestStep(ys, IntMax as real, i);
      HighestStep(ys, 0.0, i);
      if v[i].x < minX as real {
        minX := Trunc(v[i].x);
      }
      if v[i].x > maxX as real {
        maxX := Trunc(v[i].x);
      }
      if v[i].y < minY as real {
        minY := Trunc(v[i].y);
      }
      if v[i].y > maxY as real {
        maxY := Trunc(v[i].y);
      }
    }
    assert xs[..3] == xs && ys[..3] == ys;
    box := Box(minX, maxX, minY, maxY);
    TruncMono(0.0, Highest(xs, 0.0));
    TruncMono(0.0, Highest(ys, 0.0));
  }

  /** The box holds every integer pixel with non-negative affine
      coordinates over the vertices. */
  lemma BoxHoldsTriangle(v: seq<Vec3>, a: real, b: real, c: real, x: int, y: int)
    requires |v| == 3 && a >= 0.0 && b >= 0.0 && c >= 0.0 && a + b + c == 1.0
    requires x as real == Affine(v, a, b, c).x && y as real == Affine(v, a, b, c).y
    ensures InBox(BoxOf(v), x, y)
  {
    AffineInExtent(v, a, b, c);
    ExtentInBox(v, x, y);
  }

  /** Every integer pixel within the extent of the vertices is scanned. */
  lemma ExtentInBox(v: seq<Vec3>, x: int, y: int)
    requires |v| == 3
    requires Lowest(Xs(v), IntMax as real) <= x as real <= Highest(Xs(v), 0.0)
    requires Lowest(Ys(v), IntMax as real) <= y as real <= Highest(Ys(v), 0.0)
    ensures InBox(BoxOf(v), x, y)
  {
    TruncBetween(Lowest(Xs(v), IntMax as real), Highest(Xs(v), 0.0), x);
    TruncBetween(Lowest(Ys(v), IntMax as real), Highest(Ys(v), 0.0), y);
  }

  /** A point with non-negative affine coordinates lies within the extent of
      the vertices. */
  lemma AffineInExtent(v: seq<Vec3>, a: real, b: real, c: real)
    requires |v| == 3 && a >= 0.0 && b >= 0.0 && c >= 0.0 && a + b + c == 1.0
    ensures Lowest(Xs(v), IntMax as real) <= Affine(v, a, b, c).x <= Highest(Xs(v), 0.0)
    ensures Lowest(Ys(v), IntMax as real) <= Affine(v, a, b, c).y <= Highest(Ys(v), 0.0)
  {
    var xs, ys := Xs(v), Ys(v);
    CombineBetween(xs, a, b, c, Lowest(xs, IntMax as real), Highest(xs, 0.0));
    CombineBetween(ys, a, b, c, Lowest(ys, IntMax as real), Highest(ys, 0.0));
  }

  lemma CombineBetween(xs: seq<real>, a: real, b: real, c: real, lo: real, hi: real)
    requires |xs| == 3 && a >= 0.0 && b >= 0.0 && c >= 0.0 && a + b + c == 1.0
    requires forall k :: 0 <= k < 3 ==> lo <= xs[k] <= hi
    ensures lo <= Combine(xs, a, b, c) <= hi
  {
    assert lo <= xs[0] <= hi && lo <= xs[1] <= hi && lo <= xs[2] <= hi;
    ConvexAbove(xs[0], xs[1], xs[2], a, b, c, lo);
    ConvexBelow(xs[0], xs[1], xs[2], a, b, c, hi);
  }

  /** An integer between two reals is between their truncations. */
  lemma TruncBetween(lo: real, hi: real, x: int)
    requires lo <= x as real <= hi
    ensures Trunc(lo) <= x <= Trunc(hi)
  {
    TruncOfInt(x);
    TruncMono(lo, x as real);
    TruncMono(x as real, hi);
  }

  lemma ConvexAbove(p: real, q: real, r: real, a: real, b: real, c: real, lo: real)
    requires a >= 0.0 && b >= 0.0 && c >= 0.0 && a + b + c == 1.0
    requires lo <= p && lo <= q && lo <= r
    ensures lo <= a * p + b * q + c * r
  {
    assert a * p + b * q + c * r - lo == a * (p - lo) + b * (q - lo) + c * (r - lo);
    NonNegProduct(a, p - lo);
    NonNegProduct(b, q - lo);
    NonNegProduct(c, r - lo);
  }

  lemma ConvexBelow(p: real, q: real, r: real, a: real, b: real, c: real, hi: real)
    requires a >= 0.0 && b >= 0.0 && c >= 0.0 && a + b + c == 1.0
    requires p <= hi && q <= hi && r <= hi
    ensures a * p + b * q + c * r <= hi
  {
    assert hi - (a * p + b * q + c * r) == a * (hi - p) + b * (hi - q) + c * (hi - r);
    NonNegProduct(a, hi - p);
    NonNegProduct(b, hi - q);
    NonNegProduct(c, hi - r);
  }

  lemma NonNegProduct(a: real, b: real)
    requires a >= 0.0 && b >= 0.0
    ensures a * b >= 0.0
  {
  }

  /** A scanned pixel that passes the inside test. */
  predicate Covered(v: seq<Vec3>, x: int, y: int)
    requires |v| == 3
  {
    InBox(BoxOf(v), x, y) && Inside(x as real, y as real, v)
  }

  /** Every integer pixel strictly inside a non-degenerate triangle, under
      either winding, is scanned and passes the inside test. */
  lemma InsidePixelCovered(v: seq<Vec3>, a: real, b: real, c: real, x: int, y: int)
    requires |v| == 3 && Orientation(v) != 0.0
    requires a > 0.0 && b > 0.0 && c > 0.0 && a + b + c == 1.0
    requires x as real == Affine(v, a, b, c).x && y as real == Affine(v, a, b, c).y
    ensures Covered(v, x, y)
  {
    InsideByCoordinates(v, a, b, c);
    BoxHoldsTriangle(v, a, b, c, x, y);
  }

  /** One depth test of the scan: when the cell is farther than the
      fragment, the fragment's depth and colour replace the cell's. */
  function Tested(d: Depth, c: Vec3, z: real, color: Vec3): (Depth, Vec3) {
    if Farther(d, z) then (Finite(z), color) else (d, c)
  }

  /** Pixel `(x, y)` of the screen after the scan has or has not yet
      reached it: a tested pixel holds the outcome of its depth test, an
      untested one its old contents. */
  ghost predicate PixelState(d: seq<Depth>, f: seq<Vec3>, d0: seq<Depth>, f0: seq<Vec3>, width: nat, height: nat,
                             v: seq<Vec3>, depthAt: (int, int) -> real, color: Vec3, x: int, y: int, done: bool)
    requires |v| == 3 && OnScreen(width, height, x, y)
    requires |d| == |f| == |d0| == |f0| == width * height
  {
    var m := Index(width, height, x, y);
    (d[m], f[m]) == (if done && Covered(v, x, y) then Tested(d0[m], f0[m], depthAt(x, y), color) else (d0[m], f0[m]))
  }

  /** The scan is before pixel `(cx, cy)` in row-major order. */
  predicate Before(cx: int, cy: int, x: int, y: int) {
    y < cy || (y == cy && x < cx)
  }

  ghost predicate ScanProgress(d: seq<Depth>, f: seq<Vec3>, d0: seq<Depth>, f0: seq<Vec3>, width: nat, height: nat,
                               v: seq<Vec3>, depthAt: (int, int) -> real, color: Vec3, cx: int, cy: int)
    requires |v| == 3
  {
    && |d| == |f| == |d0| == |f0| == width * height
    && forall x, y :: OnScreen(width, height, x, y) ==>
         PixelState(d, f, d0, f0, width, height, v, depthAt, color, x, y, Before(cx, cy, x, y))
  }

  lemma ScanStart(d0: seq<Depth>, f0: seq<Vec3>, width: nat, height: nat, v: seq<Vec3>, depthAt: (int, int) -> real, color: Vec3)
    requires |v| == 3 && |d0| == |f0| == width * height
    ensures ScanProgress(d0, f0, d0, f0, width, height, v, depthAt, color, BoxOf(v).minX, BoxOf(v).minY)
  {
  }

  lemma PixelStep(d: seq<Depth>, f: seq<Vec3>, d0: seq<Depth>, f0: seq<Vec3>, width: nat, height: nat,
                  v: seq<Vec3>, depthAt: (int, int) -> real, color: Vec3, cx: int, cy: int, d1: seq<Depth>, f1: seq<Vec3>)
    requires |v| == 3
    requires ScanProgress(d, f, d0, f0, width, height, v, depthAt, color, cx, cy)
    requires Covered(v, cx, cy) ==> OnScreen(width, height, cx, cy)
    requires Covered(v, cx, cy) && Farther(d[Index(width, height, cx, cy)], depthAt(cx, cy)) ==>
               d1 == d[Index(width, height, cx, cy) := Finite(depthAt(cx, cy))] &&
               f1 == f[Index(width, height, cx, cy) := color]
    requires !(Covered(v, cx, cy) && Farther(d[Index(width, height, cx, cy)], depthAt(cx, cy))) ==> d1 == d && f1 == f
    ensures ScanProgress(d1, f1, d0, f0, width, height, v, depthAt, color, cx + 1, cy)
  {
    forall x, y | OnScreen(width, height, x, y)
      ensures PixelState(d1, f1, d0, f0, width, height, v, depthAt, color, x, y, Before(cx + 1, cy, x, y))
    {
      assert PixelState(d, f, d0, f0, width, height, v, depthAt, color, x, y, Before(cx, cy, x, y));
      if Covered(v, cx, cy) {
        IndexInjective(width, height, x, y, cx, cy);
      }
    }
  }

  lemma RowStep(d: seq<Depth>, f: seq<Vec3>, d0: seq<Depth>, f0: seq<Vec3>, width: nat, height: nat,
                v: seq<Vec3>, depthAt: (int, int) -> real, color: Vec3, cx: int, cy: int)
    requires |v| == 3 && cx > BoxOf(v).maxX
    requires ScanProgress(d, f, d0, f0, width, height, v, depthAt, color, cx, cy)
    ensures ScanProgress(d, f, d0, f0, width, height, v, depthAt, color, BoxOf(v).minX, cy + 1)
  {
    forall x, y | OnScreen(width, height, x, y)
      ensures PixelState(d, f, d0, f0, width, height, v, depthAt, color, x, y, Before(BoxOf(v).minX, cy + 1, x, y))
    {
      assert PixelState(d, f, d0, f0, width, height, v, depthAt, color, x, y, Before(cx, cy, x, y));
    }
  }

  /** The whole box is scanned: every covered pixel holds the outcome of
      its depth test and every other cell its old contents. */
  ghost predicate Scanned(d: seq<Depth>, f: seq<Vec3>, d0: seq<Depth>, f0: seq<Vec3>, width: nat, height: nat,
                          v: seq<Vec3>, depthAt: (int, int) -> real, color: Vec3)
    requires |v| == 3
  {
    && |d| == |f| == |d0| == |f0| == width * height
    && forall x, y :: OnScreen(width, height, x, y) ==>
         PixelState(d, f, d0, f0, width, height, v, depthAt, color, x, y, true)
  }

  lemma ScanDone(d: seq<Depth>, f: seq<Vec3>, d0: seq<Depth>, f0: seq<Vec3>, width: nat, height: nat,
                 v: seq<Vec3>, depthAt: (int, int) -> real, color: Vec3, cx: int, cy: int)
    requires |v| == 3 && cy > BoxOf(v).maxY
    requires ScanProgress(d, f, d0, f0, width, height, v, depthAt, color, cx, cy)
    ensures Scanned(d, f, d0, f0, width, height, v, depthAt, color)
  {
    forall x, y | OnScreen(width, height, x, y)
      ensures PixelState(d, f, d0, f0, width, height, v, depthAt, color, x, y, true)
    {
      assert PixelState(d, f, d0, f0, width, height, v, depthAt, color, x, y, Before(cx, cy, x, y));
    }
  }

  /** A sequence of fragments landing on one cell, as successive triangles
      of `draw` produce them. */
  function DepthTests(d: Depth, c: Vec3, zs: seq<(real, Vec3)>): (Depth, Vec3)
  {
    if |zs| == 0 then (d, c)
    else
      var (d1, c1) := DepthTests(d, c, zs[..|zs| - 1]);
      Tested(d1, c1, zs[|zs| - 1].0, zs[|zs| - 1].1)
  }

  /** The least depth among the cell's own and the fragments'. */
  function Nearest(d: Depth, zs: seq<(real, Vec3)>): Depth
  {
    if |zs| == 0 then d
    else
      var n := Nearest(d, zs[..|zs| - 1]);
      if Farther(n, zs[|zs| - 1].0) then Finite(zs[|zs| - 1].0) else n
  }

  /** After a run of depth tests the cell holds the nearest depth seen. It
      changes only if some fragment is strictly nearer than the cell, and its
      colour is then that of the FIRST fragment reaching the nearest depth: a
      later fragment at an equal depth does not replace it. */
  lemma {:induction false} DepthTestsKeepNearest(d: Depth, c: Vec3, zs: seq<(real, Vec3)>)
    ensures DepthTests(d, c, zs).0 == Nearest(d, zs)
    ensures Nearest(d, zs) == d || (Nearest(d, zs).Finite? && Farther(d, Nearest(d, zs).value))
    ensures forall k :: 0 <= k < |zs| ==> !Farther(Nearest(d, zs), zs[k].0)
    ensures Nearest(d, zs) == d ==> DepthTests(d, c, zs).1 == c
    ensures Nearest(d, zs) != d ==>
              exists k :: 0 <= k < |zs| && Farther(d, zs[k].0) && Nearest(d, zs) == Finite(zs[k].0) &&
                DepthTests(d, c, zs).1 == zs[k].1 && forall j :: 0 <= j < k ==> zs[j].0 > zs[k].0
  {
    if |zs| > 0 {
      var init := zs[..|zs| - 1];
      DepthTestsKeepNearest(d, c, init);
      assert forall k :: 0 <= k < |init| ==> init[k] == zs[k];
    }
  }

  /** The rasterizer's state: `frame_buf` and `depth_buf`. */
  class Rasterizer {
    const width: nat
    const height: nat
    const frameBuf: array<Vec3>
    const depthBuf: array<Depth>

    ghost predicate Valid() {
      frameBuf.Length == width * height && depthBuf.Length == width * height
    }

    /** `rasterizer(w, h)`: both buffers get `w * h` cells. `resize`
        zero-initialises the depths; the colours are left as they come. */
    constructor(w: nat, h: nat)
      ensures width == w && height == h && Valid()
      ensures forall m :: 0 <= m < depthBuf.Length ==> depthBuf[m] == Finite(0.0)
      ensures fresh(frameBuf) && fresh(depthBuf)
    {
      width, height := w, h;
      frameBuf := new Vec3[w * h];
      depthBuf := new Depth[w * h](_ => Finite(0.0));
    }

    /** `set_pixel`: the colour goes to the cell `get_index` names. */
    method SetPixel(x: int, y: int, color: Vec3)
      requires Valid() && 0 <= Index(width, height, x, y) < frameBuf.Length
      modifies frameBuf
      ensures frameBuf[..] == old(frameBuf[..])[Index(width, height, x, y) := color]
    {
      var ind := (height - 1 - y) * width + x;
      frameBuf[ind] := color;
    }

    /** `clear`: each flag present in `buff` resets its own buffer, the
        colours to black and the depths to `+infinity`; a buffer whose flag
        is absent is left as it was. */
    method Clear(buff: bv8)
      requires Valid()
      modifies frameBuf, depthBuf
      ensures buff & ColorFlag == ColorFlag ==> forall m :: 0 <= m < frameBuf.Length ==> frameBuf[m] == Zero
      ensures buff & ColorFlag != ColorFlag ==> frameBuf[..] == old(frameBuf[..])
      ensures buff & DepthFlag == DepthFlag ==> forall m :: 0 <= m < depthBuf.Length ==> depthBuf[m] == Infinity
      ensures buff & DepthFlag != DepthFlag ==> depthBuf[..] == old(depthBuf[..])
    {
      if buff & ColorFlag == ColorFlag {
        Fill(frameBuf, Zero);
      }
      if buff & DepthFlag == DepthFlag {
        Fill(depthBuf, Infinity);
      }
    }

    /** `rasterize_triangle` for the screen-space vertices `v`: every pixel
        of the box that passes the inside test is depth-tested at its cell
        with depth `depthAt(x, y)` and the triangle's colour. Every covered
        pixel must lie on screen, since `get_index` is not range-checked. */
    method RasterizeTriangle(v: seq<Vec3>, depthAt: (int, int) -> real, color: Vec3)
      requires Valid() && |v| == 3
      requires forall x, y :: Covered(v, x, y) ==> OnScreen(width, height, x, y)
      modifies frameBuf, depthBuf
      ensures Scanned(depthBuf[..], frameBuf[..], old(depthBuf[..]), old(frameBuf[..]), width, height, v, depthAt, color)
    {
      var box := BoundingBox(v);
      ghost var d0, f0 := depthBuf[..], frameBuf[..];
      ScanStart(d0, f0, width, height, v, depthAt, color);
      var y := box.minY;
      while y <= box.maxY
        invariant box.minY <= y && (y == box.minY || y <= box.maxY + 1)
        invariant ScanProgress(depthBuf[..], frameBuf[..], d0, f0, width, height, v, depthAt, color, box.minX, y)
        decreases box.maxY - y
      {
        var x := box.minX;
        while x <= box.maxX
          invariant box.minX <= x && (x == box.minX || x <= box.maxX + 1)
          invariant ScanProgress(depthBuf[..], frameBuf[..], d0, f0, width, height, v, depthAt, color, x, y)
          decreases box.maxX - x
        {
          ghost var d, f := depthBuf[..], frameBuf[..];
          var inside := InsideTriangle(x as real, y as real, v);
          if inside {
            assert Covered(v, x, y);
            var z := depthAt(x, y);
            var index := Index(width, height, x, y);
            if Farther(depthBuf[index], z) {
              depthBuf[index] := Finite(z);
              SetPixel(x, y, color);
            }
          }
          PixelStep(d, f, d0, f0, width, height, v, depthAt, color, x, y, depthBuf[..], frameBuf[..]);
          x := x + 1;
        }
        RowStep(depthBuf[..], frameBuf[..], d0, f0, width, height, v, depthAt, color, x, y);
        y := y + 1;
      }
      ScanDone(depthBuf[..], frameBuf[..], d0, f0, width, height, v, depthAt, color, box.minX, y);
    }
  }

  /** `std::fill` over a whole buffer. */
  method Fill<T>(a: array<T>, value: T)
    modifies a
    ensures forall m :: 0 <= m < a.Length ==> a[m] == value
  {
    for m := 0 to a.Length
      invariant forall k :: 0 <= k < m ==> a[k] == value
    {
      a[m] := value;
    }
  }
}
