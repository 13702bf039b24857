/** The Bezier tool of hw4/main.cpp: control points picked by mouse clicks
    into a list bounded by `count`, de Casteljau evaluation, and the
    anti-aliased plot that raises the red channel of the four pixels around
    each curve point. Coordinates are reals; the window is a grid of BGR
    byte triples. */
module Bezier {
  import opened Common

  /** `cv::Point2f`. */
  datatype Point2 = Point2(x: real, y: real)

  /** `(1 - t) * p + t * q`. */
  function Lerp(p: Point2, q: Point2, t: real): Point2 {
    Point2((1.0 - t) * p.x + t * q.x, (1.0 - t) * p.y + t * q.y)
  }

  /** `next_level_points`: the lerps of each point with its successor. */
  function NextLevel(points: seq<Point2>, t: real): seq<Point2>
    requires |points| >= 1
  {
    seq(|points| - 1, i requires 0 <= i < |points| - 1 => Lerp(points[i], points[i + 1], t))
  }

  /** `recursive_bezier`: one level fewer per call down to two points,
      which are lerped. Fewer than two points is outside what the code
      handles (`size() - 1` wraps around). */
  function RecursiveBezier(points: seq<Point2>, t: real): Point2
    requires |points| >= 2
    decreases |points|
  {
    if |points| == 2 then Lerp(points[0], points[1], t)
    else RecursiveBezier(NextLevel(points, t), t)
  }

  /** The curve starts at the first control point and ends at the last. */
  lemma {:induction false} BezierEndpoints(points: seq<Point2>)
    requires |points| >= 2
    ensures RecursiveBezier(points, 0.0) == points[0]
    ensures RecursiveBezier(points, 1.0) == points[|points| - 1]
    decreases |points|
  {
    if |points| > 2 {
      BezierEndpoints(NextLevel(points, 0.0));
      BezierEndpoints(NextLevel(points, 1.0));
    }
  }

  /** The control points in the opposite order. */
  function Reverse(points: seq<Point2>): seq<Point2> {
    seq(|points|, i requires 0 <= i < |points| => points[|points| - 1 - i])
  }

  lemma LerpSwap(p: Point2, q: Point2, t: real)
    ensures Lerp(q, p, 1.0 - t) == Lerp(p, q, t)
  {
  }

  lemma NextLevelReversed(points: seq<Point2>, t: real)
    requires |points| >= 1
    ensures NextLevel(Reverse(points), 1.0 - t) == Reverse(NextLevel(points, t))
  {
    var a, b := NextLevel(Reverse(points), 1.0 - t), Reverse(NextLevel(points, t));
    forall i | 0 <= i < |points| - 1
      ensures a[i] == b[i]
    {
      NextLevelReversedAt(points, t, i);
    }
  }

  lemma NextLevelReversedAt(points: seq<Point2>, t: real, i: int)
    requires 0 <= i < |points| - 1
    ensures NextLevel(Reverse(points), 1.0 - t)[i] == Reverse(NextLevel(points, t))[i]
  {
    var rp, next := Reverse(points), NextLevel(points, t);
    var j := |points| - 2 - i;
    assert rp[i] == points[j + 1] && rp[i + 1] == points[j];
    assert Reverse(next)[i] == next[j] == Lerp(points[j], points[j + 1], t);
    LerpSwap(points[j], points[j + 1], t);
  }

  /** The curve of the reversed control polygon is the same curve run
      backwards. */
  lemma {:induction false} BezierReversed(points: seq<Point2>, t: real)
    requires |points| >= 2
    ensures RecursiveBezier(Reverse(points), 1.0 - t) == RecursiveBezier(points, t)
    decreases |points|
  {
    if |points| == 2 {
      LerpSwap(points[0], points[1], t);
    } else {
      NextLevelReversed(points, t);
      BezierReversed(NextLevel(points, t), t);
    }
  }

  /** `p` lies in the half-open box from `lo` up to `hi`. */
  predicate InBox(p: Point2, lo: Point2, hi: Point2) {
    lo.x <= p.x < hi.x && lo.y <= p.y < hi.y
  }

  lemma BetweenLerp(a: real, b: real, t: real, lo: real, hi: real)
    requires 0.0 <= t <= 1.0 && lo <= a < hi && lo <= b < hi
    ensures lo <= (1.0 - t) * a + t * b < hi
  {
    assert (1.0 - t) * a + t * b - lo == (1.0 - t) * (a - lo) + t * (b - lo);
    assert hi - ((1.0 - t) * a + t * b) == (1.0 - t) * (hi - a) + t * (hi - b);
    NonNegProduct(1.0 - t, a - lo);
    NonNegProduct(t, b - lo);
    NonNegProduct(1.0 - t, hi - a);
    NonNegProduct(t, hi - b);
    if t < 1.0 {
      PosProduct(1.0 - t, hi - a);
    } else {
      PosProduct(t, hi - b);
    }
  }

  lemma PosProduct(a: real, b: real)
    requires a > 0.0 && b > 0.0
    ensures a * b > 0.0
  {
  }

  lemma NonNegProduct(a: real, b: real)
    requires a >= 0.0 && b >= 0.0
    ensures a * b >= 0.0
  {
  }

  lemma LerpInBox(p: Point2, q: Point2, t: real, lo: Point2, hi: Point2)
    requires 0.0 <= t <= 1.0 && InBox(p, lo, hi) && InBox(q, lo, hi)
    ensures InBox(Lerp(p, q, t), lo, hi)
  {
    BetweenLerp(p.x, q.x, t, lo.x, hi.x);
    BetweenLerp(p.y, q.y, t, lo.y, hi.y);
  }

  /** For `t` in `[0, 1]` the curve point lies in every box holding all the
      control points. */
  lemma {:induction false} BezierInBox(points: seq<Point2>, t: real, lo: Point2, hi: Point2)
    requires |points| >= 2 && 0.0 <= t <= 1.0
    requires forall i :: 0 <= i < |points| ==> InBox(points[i], lo, hi)
    ensures InBox(RecursiveBezier(points, t), lo, hi)
    decreases |points|
  {
    if |points| == 2 {
      LerpInBox(points[0], points[1], t, lo, hi);
    } else {
      var next := NextLevel(points, t);
      forall i | 0 <= i < |next|
        ensures InBox(next[i], lo, hi)
      {
        LerpInBox(points[i], points[i + 1], t, lo, hi);
      }
      BezierInBox(next, t, lo, hi);
    }
  }

  /** `cv::EVENT_LBUTTONDOWN`. */
  const LeftButtonDown: int := 1

  /** `control_points.size() < count` compares against `count` converted
      to the unsigned `size_t`. */
  function SizeLimit(count: int): nat {
    count % 0x1_0000_0000_0000_0000
  }

  /** The list after one mouse event: a left click appends its position
      while the list is shorter than `count`, anything else leaves it. */
  function Clicked(points: seq<Point2>, count: int, event: int, x: int, y: int): (r: seq<Point2>)
    ensures count >= 0 && |points| <= count ==> |r| <= count
    ensures r == points || (event == LeftButtonDown && |points| < SizeLimit(count) && r == points + [Point2(x as real, y as real)])
    ensures event == LeftButtonDown && |points| < SizeLimit(count) ==> r != points
  {
    if event == LeftButtonDown && |points| < SizeLimit(count) then points + [Point2(x as real, y as real)] else points
  }

  /** The global `control_points` with its bound `count`. */
  class ControlPoints {
    var points: seq<Point2>
    const count: int

    constructor(count: int)
      ensures this.count == count && points == []
    {
      this.count := count;
      points := [];
    }

    /** `mouse_handler`: the list keeps to `count` once it does. */
    method MouseHandler(event: int, x: int, y: int)
      modifies this
      ensures points == Clicked(old(points), count, event, x, y)
      ensures count >= 0 && |old(points)| <= count ==> |points| <= count
    {
      if event == LeftButtonDown && |points| < SizeLimit(count) {
        points := points + [Point2(x as real, y as real)];
      }
    }
  }

  type Byte = b: int | 0 <= b < 256

  /** `cv::Vec3b`: channels 0, 1 and 2, the last one red. */
  datatype Bgr = Bgr(c0: Byte, c1: Byte, c2: Byte)

  /** `if (ch < w) ch = w;` with `w` in `[0, 255]`, the store truncating `w`. */
  function Raise(ch: Byte, w: real): (r: Byte)
    requires 0.0 <= w <= 255.0
    ensures r >= ch
    ensures r == (if ch >= w.Floor then ch else w.Floor)
  {
    if (ch as real) < w then w.Floor else ch
  }

  /** The weight `255 * wx * wy` of the pixel at offset `(dx, dy)` from the
      truncated curve point: `wx` is `1 - x_ratio` for the left column and
      `x_ratio` for the right one, `wy` alike for the rows. */
  function Weight(p: Point2, dx: int, dy: int): real
    requires p.x >= 0.0 && p.y >= 0.0
  {
    var xr, yr := p.x - p.x.Floor as real, p.y - p.y.Floor as real;
    255.0 * (if dx == 0 then 1.0 - xr else xr) * (if dy == 0 then 1.0 - yr else yr)
  }

  lemma WeightRange(p: Point2, dx: int, dy: int)
    requires p.x >= 0.0 && p.y >= 0.0
    ensures 0.0 <= Weight(p, dx, dy) <= 255.0
  {
    var xr, yr := p.x - p.x.Floor as real, p.y - p.y.Floor as real;
    var wx, wy := (if dx == 0 then 1.0 - xr else xr), (if dy == 0 then 1.0 - yr else yr);
    UnitProduct(255.0 * wx, wy, 255.0);
    UnitProduct(255.0, wx, 255.0);
  }

  /** The four weights as `bezier` writes them out, with their range. */
  lemma CornerWeights(p: Point2, xRatio: real, yRatio: real)
    requires p.x >= 0.0 && p.y >= 0.0
    requires xRatio == p.x - p.x.Floor as real && yRatio == p.y - p.y.Floor as real
    ensures 255.0 * (1.0 - xRatio) * (1.0 - yRatio) == Weight(p, 0, 0) && 0.0 <= Weight(p, 0, 0) <= 255.0
    ensures 255.0 * xRatio * (1.0 - yRatio) == Weight(p, 1, 0) && 0.0 <= Weight(p, 1, 0) <= 255.0
    ensures 255.0 * (1.0 - xRatio) * yRatio == Weight(p, 0, 1) && 0.0 <= Weight(p, 0, 1) <= 255.0
    ensures 255.0 * xRatio * yRatio == Weight(p, 1, 1) && 0.0 <= Weight(p, 1, 1) <= 255.0
  {
    WeightRange(p, 0, 0);
    WeightRange(p, 1, 0);
    WeightRange(p, 0, 1);
    WeightRange(p, 1, 1);
  }

  lemma UnitProduct(a: real, w: real, bound: real)
    requires 0.0 <= a <= bound && 0.0 <= w <= 1.0
    ensures 0.0 <= a * w <= bound
  {
    NonNegProduct(a, w);
    NonNegProduct(a, 1.0 - w);
  }

  /** The pixel `(row, col)` is one of the four around `p`, offset `(dx, dy)`. */
  predicate Around(p: Point2, row: int, col: int)
    requires p.x >= 0.0 && p.y >= 0.0
  {
    p.y.Floor <= row <= p.y.Floor + 1 && p.x.Floor <= col <= p.x.Floor + 1
  }

  /** The window after one curve point is plotted, cell by cell. */
  function Plotted(c: Bgr, p: Point2, row: int, col: int): Bgr
    requires p.x >= 0.0 && p.y >= 0.0
  {
    if Around(p, row, col) then
      WeightRange(p, col - p.x.Floor, row - p.y.Floor);
      c.(c2 := Raise(c.c2, Weight(p, col - p.x.Floor, row - p.y.Floor)))
    else c
  }

  /** The four `if (window.at<cv::Vec3b>(..)[2] < w) ... = w;` updates for
      one curve point `p`. `int x_int = point.x` truncates, which is the
      floor for the non-negative coordinates of the window. */
  method PlotPoint(window: array2<Bgr>, p: Point2)
    requires p.x >= 0.0 && p.y >= 0.0
    requires p.y.Floor + 1 < window.Length0 && p.x.Floor + 1 < window.Length1
    modifies window
    ensures forall row, col :: 0 <= row < window.Length0 && 0 <= col < window.Length1 ==>
              window[row, col] == Plotted(old(window[row, col]), p, row, col)
    ensures forall row, col :: 0 <= row < window.Length0 && 0 <= col < window.Length1 ==>
              window[row, col].c0 == old(window[row, col]).c0 && window[row, col].c1 == old(window[row, col]).c1 &&
              window[row, col].c2 >= old(window[row, col]).c2
    ensures window[p.y.Floor, p.x.Floor].c2 >= Weight(p, 0, 0).Floor
  {
    var xInt, yInt := Trunc(p.x), Trunc(p.y);
    assert xInt == p.x.Floor && yInt == p.y.Floor;
    var xRatio, yRatio := p.x - xInt as real, p.y - yInt as real;
    var w00 := 255.0 * (1.0 - xRatio) * (1.0 - yRatio);
    var w10 := 255.0 * xRatio * (1.0 - yRatio);
    var w01 := 255.0 * (1.0 - xRatio) * yRatio;
    var w11 := 255.0 * xRatio * yRatio;
    CornerWeights(p, xRatio, yRatio);
    RaiseAt(window, yInt, xInt, w00);
    RaiseAt(window, yInt, xInt + 1, w10);
    RaiseAt(window, yInt + 1, xInt, w01);
    RaiseAt(window, yInt + 1, xInt + 1, w11);
    forall row, col | 0 <= row < window.Length0 && 0 <= col < window.Length1 {
      PlottedRaisesRed(old(window[row, col]), p, row, col);
    }
  }

  /** One `if (window.at<cv::Vec3b>(row, col)[2] < w) ... = w;`. */
  method RaiseAt(window: array2<Bgr>, row: int, col: int, w: real)
    requires 0 <= row < window.Length0 && 0 <= col < window.Length1 && 0.0 <= w <= 255.0
    modifies window
    ensures window[row, col] == old(window[row, col]).(c2 := Raise(old(window[row, col]).c2, w))
    ensures forall r, c :: 0 <= r < window.Length0 && 0 <= c < window.Length1 && (r != row || c != col) ==>
              window[r, c] == old(window[r, c])
  {
    if (window[row, col].c2 as real) < w {
      window[row, col] := window[row, col].(c2 := w.Floor);
    }
  }

  /** Plotting only ever raises the red channel and never touches the
      other two; the pixel a curve point truncates to is at least as red as
      that point's own weight. */
  lemma PlottedRaisesRed(c: Bgr, p: Point2, row: int, col: int)
    requires p.x >= 0.0 && p.y >= 0.0
    ensures Plotted(c, p, row, col).c0 == c.c0 && Plotted(c, p, row, col).c1 == c.c1
    ensures Plotted(c, p, row, col).c2 >= c.c2
    ensures row == p.y.Floor && col == p.x.Floor ==> Plotted(c, p, row, col).c2 >= Weight(p, 0, 0).Floor
  {
  }

  /** The curve points of the parameters `ts`. With the control points in a
      box and every parameter in `[0, 1]`, every curve point is in that box. */
  function CurvePoints(controlPoints: seq<Point2>, ts: seq<real>, lo: Point2, hi: Point2): (r: seq<Point2>)
    requires |controlPoints| >= 2
    requires forall i :: 0 <= i < |controlPoints| ==> InBox(controlPoints[i], lo, hi)
    requires forall k :: 0 <= k < |ts| ==> 0.0 <= ts[k] <= 1.0
    ensures |r| == |ts|
    ensures forall k :: 0 <= k < |ts| ==> r[k] == RecursiveBezier(controlPoints, ts[k]) && InBox(r[k], lo, hi)
  {
    forall k | 0 <= k < |ts|
      ensures InBox(RecursiveBezier(controlPoints, ts[k]), lo, hi)
    {
      BezierInBox(controlPoints, ts[k], lo, hi);
    }
    seq(|ts|, k requires 0 <= k < |ts| => RecursiveBezier(controlPoints, ts[k]))
  }

  /** A cell after the points `pts` are plotted one after another. */
  function PlottedAll(c: Bgr, pts: seq<Point2>, row: int, col: int): Bgr
    requires forall k :: 0 <= k < |pts| ==> pts[k].x >= 0.0 && pts[k].y >= 0.0
    decreases |pts|
  {
    if |pts| == 0 then c
    else Plotted(PlottedAll(c, pts[..|pts| - 1], row, col), pts[|pts| - 1], row, col)
  }

  /** Plotting a sequence of points only raises red and keeps the other two
      channels; a cell around none of the points keeps its colour; and the
      cell each point truncates to ends at least as red as that point's
      weight, later points never lowering it. */
  lemma {:induction false} PlottedAllRaisesRed(c: Bgr, pts: seq<Point2>, row: int, col: int)
    requires forall k :: 0 <= k < |pts| ==> pts[k].x >= 0.0 && pts[k].y >= 0.0
    ensures PlottedAll(c, pts, row, col).c0 == c.c0 && PlottedAll(c, pts, row, col).c1 == c.c1
    ensures PlottedAll(c, pts, row, col).c2 >= c.c2
    ensures (forall k :: 0 <= k < |pts| ==> !Around(pts[k], row, col)) ==> PlottedAll(c, pts, row, col) == c
    ensures forall k :: 0 <= k < |pts| && row == pts[k].y.Floor && col == pts[k].x.Floor ==>
              PlottedAll(c, pts, row, col).c2 >= Weight(pts[k], 0, 0).Floor
    decreases |pts|
  {
    if |pts| != 0 {
      var init := pts[..|pts| - 1];
      var last := pts[|pts| - 1];
      assert forall k :: 0 <= k < |init| ==> init[k] == pts[k];
      PlottedAllRaisesRed(c, init, row, col);
      PlottedRaisesRed(PlottedAll(c, init, row, col), last, row, col);
    }
  }

  /** `bezier`: the curve points for the parameters `ts` (the values the
      `t += 0.001` loop takes) are plotted one after another. With all
      control points inside the window short of its last row and column,
      every plotted pixel is in the window, and each cell ends as the
      plots of all curve points in turn leave it: red never decreases, the
      other channels stay, a cell away from every curve point keeps its
      colour, and each curve point's own pixel ends at least as red as its
      weight. */
  method Plot(controlPoints: seq<Point2>, window: array2<Bgr>, ts: seq<real>)
    requires |controlPoints| >= 2
    requires forall i :: 0 <= i < |controlPoints| ==>
               InBox(controlPoints[i], Point2(0.0, 0.0), Point2((window.Length1 - 1) as real, (window.Length0 - 1) as real))
    requires forall k :: 0 <= k < |ts| ==> 0.0 <= ts[k] <= 1.0
    modifies window
    ensures forall row, col :: 0 <= row < window.Length0 && 0 <= col < window.Length1 ==>
              window[row, col] == PlottedAll(old(window[row, col]),
                CurvePoints(controlPoints, ts, Point2(0.0, 0.0), Point2((window.Length1 - 1) as real, (window.Length0 - 1) as real)), row, col)
    ensures forall row, col :: 0 <= row < window.Length0 && 0 <= col < window.Length1 ==>
              window[row, col].c0 == old(window[row, col]).c0 && window[row, col].c1 == old(window[row, col]).c1 &&
              window[row, col].c2 >= old(window[row, col]).c2
    ensures forall k :: 0 <= k < |ts| ==> Drawn(window, RecursiveBezier(controlPoints, ts[k]))
  {
    var lo, hi := Point2(0.0, 0.0), Point2((window.Length1 - 1) as real, (window.Length0 - 1) as real);
    ghost var pts := CurvePoints(controlPoints, ts, lo, hi);
    for k := 0 to |ts|
      invariant forall row, col :: 0 <= row < window.Length0 && 0 <= col < window.Length1 ==>
                  window[row, col] == PlottedAll(old(window[row, col]), pts[..k], row, col)
    {
      var point := RecursiveBezier(controlPoints, ts[k]);
      BezierInBox(controlPoints, ts[k], lo, hi);
      assert pts[..k + 1][..k] == pts[..k];
      PlotPoint(window, point);
    }
    assert pts[..|ts|] == pts;
    forall row, col | 0 <= row < window.Length0 && 0 <= col < window.Length1
      ensures window[row, col].c0 == old(window[row, col]).c0 && window[row, col].c1 == old(window[row, col]).c1
      ensures window[row, col].c2 >= old(window[row, col]).c2
      ensures forall k :: 0 <= k < |pts| && row == pts[k].y.Floor && col == pts[k].x.Floor ==>
                window[row, col].c2 >= Weight(pts[k], 0, 0).Floor
    {
      PlottedAllRaisesRed(old(window[row, col]), pts, row, col);
    }
  }

  /** The pixel a curve point truncates to is at least as red as its weight. */
  ghost predicate Drawn(window: array2<Bgr>, p: Point2)
    reads window
  {
    p.x >= 0.0 && p.y >= 0.0 && 0 <= p.y.Floor < window.Length0 && 0 <= p.x.Floor < window.Length1 &&
    window[p.y.Floor, p.x.Floor].c2 >= Weight(p, 0, 0).Floor
  }
}
