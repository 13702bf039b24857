/** `Renderer::Render` (hw7/Renderer.cpp): the framebuffer is cut into a
    5 x 5 grid of tiles, each tile accumulates `spp` path-traced samples per
    pixel, a shared counter reports progress once per pixel, and the result
    is written as a binary PPM. The 25 threads are modelled as a sequential
    loop over the tiles in the order they are started; the radiance of
    sample `k` of pixel `(x, y)` (`castRay` on that pixel's primary ray) is a
    parameter. */
module Renderer {
  import opened Common
  import Ppm

  /** `spp`, the samples per pixel. */
  const Spp: nat := 16

  /** `X_BLOCK` and `Y_BLOCK`, the tiles per row and per column. */
  const XBlock: nat := 5
  const YBlock: nat := 5

  /** `x_step = width / X_BLOCK + 1` (and `y_step` alike). */
  function TileStep(extent: nat, blocks: nat): (r: nat)
    requires blocks >= 1
    ensures r >= 1
  {
    extent / blocks + 1
  }

  /** `std::min(v, extent)` for a non-negative `v`. */
  function Clip(extent: nat, v: nat): (r: nat)
    ensures r <= extent && r <= v
    ensures r == v || r == extent
  {
    if v < extent then v else extent
  }

  /** `sx = i * x_step`, reached one step per tile. */
  function TileStart(extent: nat, blocks: nat, i: nat): nat
    requires blocks >= 1
  {
    if i == 0 then 0 else TileStart(extent, blocks, i - 1) + TileStep(extent, blocks)
  }

  lemma {:induction false} TileStartIsProduct(extent: nat, blocks: nat, i: nat)
    requires blocks >= 1
    ensures TileStart(extent, blocks, i) == i * TileStep(extent, blocks)
  {
    if i > 0 {
      TileStartIsProduct(extent, blocks, i - 1);
      assert (i - 1) * TileStep(extent, blocks) + TileStep(extent, blocks) == i * TileStep(extent, blocks);
    }
  }

  /** `ex = std::min(sx + x_step, width)`. */
  function TileEnd(extent: nat, blocks: nat, i: nat): nat
    requires blocks >= 1
  {
    Clip(extent, TileStart(extent, blocks, i) + TileStep(extent, blocks))
  }

  /** The coordinates `for (j = sy; j < ey; ++j)` visits. */
  predicate InRange(lo: nat, hi: nat, v: nat) {
    lo <= v < hi
  }

  /** The number of coordinates a half-open range visits (none when `lo >= hi`). */
  function Span(lo: nat, hi: nat): nat {
    if lo < hi then hi - lo else 0
  }

  /** The tile a coordinate falls in: its quotient by the tile step. */
  function TileOf(extent: nat, blocks: nat, v: nat): nat
    requires blocks >= 1
  {
    v / TileStep(extent, blocks)
  }

  lemma DivIff(v: nat, s: nat, i: nat)
    requires s >= 1
    ensures i * s <= v < i * s + s <==> v / s == i
  {
    var q := v / s;
    assert q * s <= v < q * s + s;
    if i < q {
      MulMono(i + 1, q, s);
    } else if q < i {
      MulMono(q + 1, i, s);
    }
  }

  lemma MulMono(a: nat, b: nat, s: nat)
    requires a <= b
    ensures a * s <= b * s
  {
  }

  /** The tiles of one axis cover it without overlap: a coordinate inside the
      extent lies in exactly one of the `blocks` tiles, namely tile
      `TileOf`, and a coordinate outside it lies in none (some tiles may be
      empty). */
  lemma TilesPartition(extent: nat, blocks: nat, i: nat, v: nat)
    requires blocks >= 1
    ensures InRange(TileStart(extent, blocks, i), TileEnd(extent, blocks, i), v) <==>
              v < extent && TileOf(extent, blocks, v) == i
    ensures v < extent ==> TileOf(extent, blocks, v) < blocks
  {
    var s := TileStep(extent, blocks);
    TileStartIsProduct(extent, blocks, i);
    DivIff(v, s, i);
    assert (i + 1) * s == i * s + s;
    if v < extent {
      LastTileReachesEnd(extent, blocks);
      DivIff(v, s, v / s);
      if v / s >= blocks {
        MulMono(blocks, v / s, s);
      }
    }
  }

  /** `blocks` tiles of step `extent / blocks + 1` reach past the extent. */
  lemma LastTileReachesEnd(extent: nat, blocks: nat)
    requires blocks >= 1
    ensures blocks * TileStep(extent, blocks) > extent
  {
    var q := extent / blocks;
    assert extent == blocks * q + extent % blocks;
    assert blocks * TileStep(extent, blocks) == blocks * q + blocks;
  }

  /** The size of tile `i` is the difference of the clipped starts of tiles
      `i + 1` and `i`. */
  lemma TileSpan(extent: nat, blocks: nat, i: nat)
    requires blocks >= 1
    ensures Span(TileStart(extent, blocks, i), TileEnd(extent, blocks, i)) ==
              Clip(extent, TileStart(extent, blocks, i + 1)) - Clip(extent, TileStart(extent, blocks, i))
  {
  }

  /** Thread slot `i * X_BLOCK + j` of tile `(i, j)`: in `[0, 25)` and distinct
      for distinct tiles. */
  lemma ThreadSlots(i1: nat, j1: nat, i2: nat, j2: nat)
    requires i1 < XBlock && j1 < YBlock && i2 < XBlock && j2 < YBlock
    ensures i1 * XBlock + j1 < XBlock * YBlock
    ensures i1 * XBlock + j1 == i2 * XBlock + j2 <==> i1 == i2 && j1 == j2
  {
  }

  /** `m = j * width + i`, the framebuffer cell of pixel `(i, j)`. */
  function Cell(width: nat, height: nat, x: nat, y: nat): (m: nat)
    requires x < width && y < height
    ensures m < width * height
  {
    MulMono(y + 1, height, width);
    y * width + x
  }

  /** Inside the image the cell index is in range and determines the pixel,
      and every index in range is the cell of a pixel. */
  lemma CellLayout(width: nat, height: nat, x: nat, y: nat, x2: nat, y2: nat)
    requires x < width && y < height && x2 < width && y2 < height
    ensures Cell(width, height, x, y) == Cell(width, height, x2, y2) ==> x == x2 && y == y2
  {
    if Cell(width, height, x, y) == Cell(width, height, x2, y2) {
      if y < y2 {
        MulMono(y + 1, y2, width);
      } else if y2 < y {
        MulMono(y2 + 1, y, width);
      }
    }
  }

  lemma CellCovers(width: nat, height: nat, m: nat)
    requires m < width * height
    ensures width > 0 && m % width < width && m / width < height && Cell(width, height, m % width, m / width) == m
  {
    if m / width >= height {
      MulMono(height, m / width, width);
    }
  }

  /** `castRay(...) / spp`, one sample's share of the pixel. */
  function Share(c: Vec3): Vec3 {
    Vec3(c.x / Spp as real, c.y / Spp as real, c.z / Spp as real)
  }

  /** `framebuffer[m]` after `k` passes of `framebuffer[m] += castRay(...) / spp`
      over the samples of pixel `(x, y)`. */
  function Accumulate(v: Vec3, radiance: (nat, nat, nat) -> Vec3, x: nat, y: nat, k: nat): Vec3 {
    if k == 0 then v else Accumulate(v, radiance, x, y, k - 1).Plus(Share(radiance(x, y, k - 1)))
  }

  /** The sum of the first `k` samples of pixel `(x, y)`. */
  function SampleSum(radiance: (nat, nat, nat) -> Vec3, x: nat, y: nat, k: nat): Vec3 {
    if k == 0 then Zero else SampleSum(radiance, x, y, k - 1).Plus(radiance(x, y, k - 1))
  }

  /** A rendered pixel: `spp` contributions added to the zero vector. */
  function Pixel(radiance: (nat, nat, nat) -> Vec3, x: nat, y: nat): Vec3 {
    Accumulate(Zero, radiance, x, y, Spp)
  }

  /** Accumulating `k` shares into `v` adds the sum of the samples divided by
      `spp`. */
  lemma {:induction false} AccumulateAddsShares(v: Vec3, radiance: (nat, nat, nat) -> Vec3, x: nat, y: nat, k: nat)
    ensures Accumulate(v, radiance, x, y, k) == v.Plus(Share(SampleSum(radiance, x, y, k)))
  {
    if k > 0 {
      AccumulateAddsShares(v, radiance, x, y, k - 1);
    }
  }

  /** A rendered pixel is the mean of its `spp` samples; in particular a
      pixel whose samples all agree gets that value. */
  lemma PixelIsMean(radiance: (nat, nat, nat) -> Vec3, x: nat, y: nat)
    ensures Pixel(radiance, x, y) == Share(SampleSum(radiance, x, y, Spp))
    ensures (forall k :: 0 <= k < Spp ==> radiance(x, y, k) == radiance(x, y, 0)) ==> Pixel(radiance, x, y) == radiance(x, y, 0)
  {
    AccumulateAddsShares(Zero, radiance, x, y, Spp);
    if forall k :: 0 <= k < Spp ==> radiance(x, y, k) == radiance(x, y, 0) {
      ConstantSum(radiance, x, y, Spp);
    }
  }

  lemma {:induction false} ConstantSum(radiance: (nat, nat, nat) -> Vec3, x: nat, y: nat, n: nat)
    requires forall k :: 0 <= k < n ==> radiance(x, y, k) == radiance(x, y, 0)
    ensures SampleSum(radiance, x, y, n) == radiance(x, y, 0).Times(n as real)
  {
    if n > 0 {
      ConstantSum(radiance, x, y, n - 1);
    }
  }

  /** `1.0 * process / scene.width / scene.height`. */
  function Progress(process: nat, width: nat, height: nat): real
    requires width > 0 && height > 0
  {
    process as real / width as real / height as real
  }

  /** The values reported for counter values `start + 1 .. start + n`. */
  function ProgressRun(start: nat, n: nat, width: nat, height: nat): (r: seq<real>)
    requires n == 0 || (width > 0 && height > 0)
    ensures |r| == n
  {
    seq(n, k requires 0 <= k < n => Progress(start + k + 1, width, height))
  }

  lemma ProgressRunsJoin(a: nat, b: nat, width: nat, height: nat)
    requires width > 0 && height > 0
    ensures ProgressRun(0, a, width, height) + ProgressRun(a, b, width, height) == ProgressRun(0, a + b, width, height)
  {
  }

  lemma ProgressRunStep(start: nat, n: nat, width: nat, height: nat)
    requires width > 0 && height > 0
    ensures ProgressRun(start, n + 1, width, height) == ProgressRun(start, n, width, height) + [Progress(start + n + 1, width, height)]
  {
  }

  /** Pixel `(x, y)` of the tile `[sx, ex) x [sy, ey)` has been rendered by
      the time the loops of `render_block` reach row `j`, column `i`. */
  predicate Visited(sx: nat, ex: nat, sy: nat, j: nat, i: nat, x: nat, y: nat) {
    InRange(sx, ex, x) && (InRange(sy, j, y) || (y == j && InRange(sx, i, x)))
  }

  /** The framebuffer `cur` holds the visited pixels of the tile accumulated
      onto `orig`, and every other cell as in `orig`. */
  ghost predicate BlockProgress(cur: seq<Vec3>, orig: seq<Vec3>, width: nat, height: nat,
                                sx: nat, ex: nat, sy: nat, j: nat, i: nat, radiance: (nat, nat, nat) -> Vec3)
  {
    && |cur| == width * height && |orig| == width * height
    && forall x, y :: 0 <= x < width && 0 <= y < height ==>
         cur[Cell(width, height, x, y)] ==
           (if Visited(sx, ex, sy, j, i, x, y) then Accumulate(orig[Cell(width, height, x, y)], radiance, x, y, Spp)
            else orig[Cell(width, height, x, y)])
  }

  /** The whole tile `[sx, ex) x [sy, ey)` is rendered onto `orig`: each of its
      pixels gets its `spp` contributions, every other cell is unchanged. */
  ghost predicate BlockRendered(cur: seq<Vec3>, orig: seq<Vec3>, width: nat, height: nat,
                                sx: nat, sy: nat, ex: nat, ey: nat, radiance: (nat, nat, nat) -> Vec3)
  {
    && |cur| == width * height && |orig| == width * height
    && forall x, y :: 0 <= x < width && 0 <= y < height ==>
         cur[Cell(width, height, x, y)] ==
           (if InRange(sx, ex, x) && InRange(sy, ey, y) then Accumulate(orig[Cell(width, height, x, y)], radiance, x, y, Spp)
            else orig[Cell(width, height, x, y)])
  }

  lemma PixelStep(cur: seq<Vec3>, orig: seq<Vec3>, width: nat, height: nat,
                  sx: nat, ex: nat, sy: nat, j: nat, i: nat, radiance: (nat, nat, nat) -> Vec3)
    requires BlockProgress(cur, orig, width, height, sx, ex, sy, j, i, radiance)
    requires sx <= i < ex <= width && sy <= j < height
    ensures BlockProgress(cur[Cell(width, height, i, j) := Accumulate(cur[Cell(width, height, i, j)], radiance, i, j, Spp)],
                          orig, width, height, sx, ex, sy, j, i + 1, radiance)
  {
    var m := Cell(width, height, i, j);
    var next := cur[m := Accumulate(cur[m], radiance, i, j, Spp)];
    forall x, y | 0 <= x < width && 0 <= y < height
      ensures next[Cell(width, height, x, y)] ==
                (if Visited(sx, ex, sy, j, i + 1, x, y) then Accumulate(orig[Cell(width, height, x, y)], radiance, x, y, Spp)
                 else orig[Cell(width, height, x, y)])
    {
      CellLayout(width, height, x, y, i, j);
    }
  }

  lemma RowStep(cur: seq<Vec3>, orig: seq<Vec3>, width: nat, height: nat,
                sx: nat, ex: nat, sy: nat, j: nat, i: nat, radiance: (nat, nat, nat) -> Vec3)
    requires BlockProgress(cur, orig, width, height, sx, ex, sy, j, i, radiance)
    requires sy <= j && (i == ex || (i == sx && ex <= sx))
    ensures BlockProgress(cur, orig, width, height, sx, ex, sy, j + 1, sx, radiance)
  {
  }

  lemma BlockDone(cur: seq<Vec3>, orig: seq<Vec3>, width: nat, height: nat,
                  sx: nat, sy: nat, ex: nat, ey: nat, j: nat, radiance: (nat, nat, nat) -> Vec3)
    requires BlockProgress(cur, orig, width, height, sx, ex, sy, j, sx, radiance)
    requires j == ey || (j == sy && ey <= sy)
    ensures BlockRendered(cur, orig, width, height, sx, sy, ex, ey, radiance)
  {
  }

  /** `render_block(sx, sy, ex, ey)`: every pixel of the tile, row by row,
      gets its `spp` contributions at cell `j * width + i`, the counter goes
      up once per pixel and each increment is reported. Cells outside the
      tile are left alone. */
  method RenderBlock(fb: array<Vec3>, width: nat, height: nat, sx: nat, sy: nat, ex: nat, ey: nat,
                     radiance: (nat, nat, nat) -> Vec3, process0: nat, reports0: seq<real>)
    returns (process: nat, reports: seq<real>)
    requires fb.Length == width * height && ex <= width && ey <= height
    modifies fb
    ensures BlockRendered(fb[..], old(fb[..]), width, height, sx, sy, ex, ey, radiance)
    ensures process == process0 + Span(sx, ex) * Span(sy, ey)
    ensures reports == reports0 + ProgressRun(process0, Span(sx, ex) * Span(sy, ey), width, height)
  {
    process := process0;
    reports := reports0;
    ghost var orig := fb[..];
    var j := sy;
    while j < ey
      invariant j == sy || sy < j <= ey
      invariant BlockProgress(fb[..], orig, width, height, sx, ex, sy, j, sx, radiance)
      invariant process == process0 + Span(sx, ex) * Span(sy, j)
      invariant reports == reports0 + ProgressRun(process0, process - process0, width, height)
    {
      var m := j * width + sx;
      var i := sx;
      while i < ex
        invariant i == sx || sx < i <= ex
        invariant m == j * width + i
        invariant BlockProgress(fb[..], orig, width, height, sx, ex, sy, j, i, radiance)
        invariant process == process0 + Span(sx, ex) * Span(sy, j) + Span(sx, i)
        invariant reports == reports0 + ProgressRun(process0, process - process0, width, height)
      {
        assert m == Cell(width, height, i, j);
        ghost var before := fb[..];
        for k := 0 to Spp
          invariant fb[..] == before[m := Accumulate(before[m], radiance, i, j, k)]
        {
          fb[m] := fb[m].Plus(Share(radiance(i, j, k)));
        }
        PixelStep(before, orig, width, height, sx, ex, sy, j, i, radiance);
        m := m + 1;
        ProgressRunStep(process0, process - process0, width, height);
        process := process + 1;
        reports := reports + [Progress(process, width, height)];
        i := i + 1;
      }
      RowStep(fb[..], orig, width, height, sx, ex, sy, j, i, radiance);
      Distribute(Span(sx, ex), Span(sy, j), 1, Span(sy, j + 1));
      j := j + 1;
    }
    BlockDone(fb[..], orig, width, height, sx, sy, ex, ey, j, radiance);
  }

  /** Tile `(i, j)` comes before tile `(ti, tj)` in the order the tiles are
      started: column of tiles first, then row. */
  predicate TileBefore(i: nat, j: nat, ti: nat, tj: nat) {
    i < ti || (i == ti && j < tj)
  }

  /** The framebuffer once the tiles before `(ti, tj)` are rendered: their
      pixels are rendered, every other cell is still zero. */
  ghost predicate RenderedBefore(s: seq<Vec3>, width: nat, height: nat, radiance: (nat, nat, nat) -> Vec3, ti: nat, tj: nat) {
    && |s| == width * height
    && forall x, y :: 0 <= x < width && 0 <= y < height ==>
         s[Cell(width, height, x, y)] ==
           (if TileBefore(TileOf(width, XBlock, x), TileOf(height, YBlock, y), ti, tj) then Pixel(radiance, x, y) else Zero)
  }

  lemma NextTile(before: seq<Vec3>, after: seq<Vec3>, width: nat, height: nat, radiance: (nat, nat, nat) -> Vec3, i: nat, j: nat)
    requires RenderedBefore(before, width, height, radiance, i, j)
    requires BlockRendered(after, before, width, height,
                           TileStart(width, XBlock, i), TileStart(height, YBlock, j),
                           TileEnd(width, XBlock, i), TileEnd(height, YBlock, j), radiance)
    ensures RenderedBefore(after, width, height, radiance, i, j + 1)
  {
    TileOfBlock(width, height, i, j);
  }

  lemma ColumnStep(s: seq<Vec3>, width: nat, height: nat, radiance: (nat, nat, nat) -> Vec3, i: nat)
    requires RenderedBefore(s, width, height, radiance, i, YBlock)
    ensures RenderedBefore(s, width, height, radiance, i + 1, 0)
  {
    forall y | 0 <= y < height
      ensures TileOf(height, YBlock, y) < YBlock
    {
      TilesPartition(height, YBlock, 0, y);
    }
  }

  lemma AllRendered(s: seq<Vec3>, width: nat, height: nat, radiance: (nat, nat, nat) -> Vec3)
    requires RenderedBefore(s, width, height, radiance, XBlock, 0)
    ensures forall x, y :: 0 <= x < width && 0 <= y < height ==> s[Cell(width, height, x, y)] == Pixel(radiance, x, y)
  {
    forall x, y | 0 <= x < width && 0 <= y < height
      ensures s[Cell(width, height, x, y)] == Pixel(radiance, x, y)
    {
      TilesPartition(width, XBlock, 0, x);
    }
  }

  /** The number of pixels of tile `(i, j)`. */
  function TileArea(width: nat, height: nat, i: nat, j: nat): nat {
    Span(TileStart(width, XBlock, i), TileEnd(width, XBlock, i)) *
      Span(TileStart(height, YBlock, j), TileEnd(height, YBlock, j))
  }

  /** The value of the counter once the tiles before `(i, j)`, in the order
      the loops start them, are rendered. */
  function PixelsBefore(width: nat, height: nat, i: nat, j: nat): nat
    decreases i, j
  {
    if j > 0 then PixelsBefore(width, height, i, j - 1) + TileArea(width, height, i, j - 1)
    else if i > 0 then PixelsBefore(width, height, i - 1, YBlock)
    else 0
  }

  /** The tiles before `(i, j)` cover the columns left of tile column `i`
      and, within it, the rows above tile row `j`. */
  lemma {:induction false} PixelsBeforeClosed(width: nat, height: nat, i: nat, j: nat)
    requires j <= YBlock
    ensures PixelsBefore(width, height, i, j) ==
              Clip(width, TileStart(width, XBlock, i)) * height +
              Span(TileStart(width, XBlock, i), TileEnd(width, XBlock, i)) * Clip(height, TileStart(height, YBlock, j))
    decreases i, j
  {
    var cols, s := Clip(width, TileStart(width, XBlock, i)), Span(TileStart(width, XBlock, i), TileEnd(width, XBlock, i));
    if j > 0 {
      PixelsBeforeClosed(width, height, i, j - 1);
      TileSpan(height, YBlock, j - 1);
      AddRows(PixelsBefore(width, height, i, j - 1), PixelsBefore(width, height, i, j), cols, height, s,
              Span(TileStart(height, YBlock, j - 1), TileEnd(height, YBlock, j - 1)),
              Clip(height, TileStart(height, YBlock, j - 1)), Clip(height, TileStart(height, YBlock, j)));
    } else if i > 0 {
      var before := Clip(width, TileStart(width, XBlock, i - 1));
      var span := Span(TileStart(width, XBlock, i - 1), TileEnd(width, XBlock, i - 1));
      PixelsBeforeClosed(width, height, i - 1, YBlock);
      FullExtent(height, YBlock);
      TileSpan(width, XBlock, i - 1);
      assert PixelsBefore(width, height, i, 0) == before * height + span * height;
      Distribute(height, before, span, cols);
      assert Clip(height, TileStart(height, YBlock, j)) == 0;
      ProductsVanish(0, 0, s, 0);
    }
  }

  /** Adding the rows of one more tile to a count of whole columns and rows. */
  lemma AddRows(p0: nat, p1: nat, cols: nat, height: nat, s: nat, span: nat, rows: nat, next: nat)
    requires p0 == cols * height + s * rows
    requires p1 == p0 + s * span
    requires span == next - rows
    ensures p1 == cols * height + s * next
  {
    Distribute(s, span, rows, next);
  }

  /** The start of tile `blocks` is clipped to the whole extent. */
  lemma FullExtent(extent: nat, blocks: nat)
    requires blocks >= 1
    ensures Clip(extent, TileStart(extent, blocks, blocks)) == extent
  {
    TileStartIsProduct(extent, blocks, blocks);
    LastTileReachesEnd(extent, blocks);
  }

  /** After all tiles the count is the number of pixels. */
  lemma PixelsBeforeAll(width: nat, height: nat)
    ensures PixelsBefore(width, height, XBlock, 0) == width * height
  {
    PixelsBeforeClosed(width, height, XBlock, 0);
    FullExtent(width, XBlock);
  }

  /** An empty image counts nothing. */
  lemma PixelsBeforeEmpty(width: nat, height: nat, i: nat, j: nat)
    requires j <= YBlock
    requires width == 0 || height == 0
    ensures PixelsBefore(width, height, i, j) == 0
  {
    var cols, s := Clip(width, TileStart(width, XBlock, i)), Span(TileStart(width, XBlock, i), TileEnd(width, XBlock, i));
    var rows := Clip(height, TileStart(height, YBlock, j));
    PixelsBeforeClosed(width, height, i, j);
    assert (cols == 0 && s == 0) || (height == 0 && rows == 0);
    ProductsVanish(cols, height, s, rows);
  }

  lemma ProductsVanish(a: nat, b: nat, c: nat, d: nat)
    requires (a == 0 && c == 0) || (b == 0 && d == 0)
    ensures a * b + c * d == 0
  {
  }

  /** The counter and the reports after tile `(i, j)` are those the
      tiles up to and including it give. */
  lemma CounterStep(width: nat, height: nat, i: nat, j: nat, p0: nat, p1: nat, r0: seq<real>, r1: seq<real>)
    requires j < YBlock
    requires p0 == PixelsBefore(width, height, i, j) && (p0 == 0 || (width > 0 && height > 0))
    requires r0 == ProgressRun(0, p0, width, height)
    requires p1 == p0 + TileArea(width, height, i, j)
    requires r1 == r0 + ProgressRun(p0, p1 - p0, width, height)
    ensures p1 == PixelsBefore(width, height, i, j + 1) && (p1 == 0 || (width > 0 && height > 0))
    ensures r1 == ProgressRun(0, p1, width, height)
  {
    if width == 0 || height == 0 {
      PixelsBeforeEmpty(width, height, i, j + 1);
    }
    if p1 > p0 {
      ProgressRunsJoin(p0, p1 - p0, width, height);
    }
  }

  /** One column of tiles, `for (int j = 0; j < Y_BLOCK; j++)`, each started
      on thread slot `i * X_BLOCK + j`. */
  method RenderColumn(fb: array<Vec3>, width: nat, height: nat, i: nat, radiance: (nat, nat, nat) -> Vec3,
                      process0: nat, reports0: seq<real>)
    returns (process: nat, reports: seq<real>)
    requires fb.Length == width * height
    requires RenderedBefore(fb[..], width, height, radiance, i, 0)
    requires process0 == PixelsBefore(width, height, i, 0) && (process0 == 0 || (width > 0 && height > 0))
    requires reports0 == ProgressRun(0, process0, width, height)
    modifies fb
    ensures RenderedBefore(fb[..], width, height, radiance, i + 1, 0)
    ensures process == PixelsBefore(width, height, i + 1, 0) && (process == 0 || (width > 0 && height > 0))
    ensures reports == ProgressRun(0, process, width, height)
  {
    process, reports := process0, reports0;
    var sx, ex := TileStart(width, XBlock, i), TileEnd(width, XBlock, i);
    for j := 0 to YBlock
      invariant RenderedBefore(fb[..], width, height, radiance, i, j)
      invariant process == PixelsBefore(width, height, i, j)
      invariant process == 0 || (width > 0 && height > 0)
      invariant reports == ProgressRun(0, process, width, height)
    {
      var sy, ey := TileStart(height, YBlock, j), TileEnd(height, YBlock, j);
      ghost var before, beforeReports := process, reports;
      ghost var cells := fb[..];
      process, reports := RenderBlock(fb, width, height, sx, sy, ex, ey, radiance, process, reports);
      NextTile(cells, fb[..], width, height, radiance, i, j);
      CounterStep(width, height, i, j, before, process, beforeReports, reports);
    }
    ColumnStep(fb[..], width, height, radiance, i);
  }

  /** The tile loops of `Render` followed by the final `UpdateProgress(1.f)`
      and the PPM output. Every pixel ends up rendered exactly once, the
      counter ends at `width * height`, the reports are the successive
      counter values scaled to `[0, 1]` and then `1.0`, and the image is the
      PPM of the framebuffer. */
  method Render(width: nat, height: nat, radiance: (nat, nat, nat) -> Vec3, gamma: real -> real)
    returns (fb: array<Vec3>, process: nat, reports: seq<real>, image: seq<Ppm.Byte>)
    requires Ppm.GammaInRange(gamma)
    ensures fb.Length == width * height
    ensures forall x, y :: 0 <= x < width && 0 <= y < height ==> fb[Cell(width, height, x, y)] == Pixel(radiance, x, y)
    ensures process == width * height
    ensures reports == ProgressRun(0, width * height, width, height) + [1.0]
    ensures image == Ppm.Image(width, height, fb[..], gamma)
  {
    fb := new Vec3[width * height](_ => Zero);
    process := 0;
    reports := [];
    for i := 0 to XBlock
      invariant fb.Length == width * height
      invariant RenderedBefore(fb[..], width, height, radiance, i, 0)
      invariant process == PixelsBefore(width, height, i, 0)
      invariant process == 0 || (width > 0 && height > 0)
      invariant reports == ProgressRun(0, process, width, height)
    {
      process, reports := RenderColumn(fb, width, height, i, radiance, process, reports);
      if width == 0 || height == 0 {
        PixelsBeforeEmpty(width, height, i + 1, 0);
      }
    }
    PixelsBeforeAll(width, height);
    AllRendered(fb[..], width, height, radiance);
    reports := reports + [1.0];
    image := Ppm.WriteImage(width, height, fb, gamma);
  }

  /** Inside the image, the pixels of tile `(i, j)` are those whose tile
      numbers are `i` and `j`. */
  lemma TileOfBlock(width: nat, height: nat, i: nat, j: nat)
    ensures forall x, y :: 0 <= x < width && 0 <= y < height ==>
              (InRange(TileStart(width, XBlock, i), TileEnd(width, XBlock, i), x) &&
               InRange(TileStart(height, YBlock, j), TileEnd(height, YBlock, j), y)
               <==> TileOf(width, XBlock, x) == i && TileOf(height, YBlock, y) == j)
  {
    forall x, y | 0 <= x < width && 0 <= y < height
      ensures InRange(TileStart(width, XBlock, i), TileEnd(width, XBlock, i), x) &&
              InRange(TileStart(height, YBlock, j), TileEnd(height, YBlock, j), y)
              <==> TileOf(width, XBlock, x) == i && TileOf(height, YBlock, y) == j
    {
      TilesPartition(width, XBlock, i, x);
      TilesPartition(height, YBlock, j, y);
    }
  }

  /** The reports never decrease and end at `1.0`; with at least one pixel
      the last per-pixel report is `1.0` already. */
  lemma ReportsRiseToOne(width: nat, height: nat)
    ensures var r := ProgressRun(0, width * height, width, height) + [1.0];
            && (forall a, b :: 0 <= a < b < |r| ==> r[a] <= r[b])
            && r[|r| - 1] == 1.0
            && (width * height > 0 ==> r[width * height - 1] == 1.0)
  {
    var n := width * height;
    var r := ProgressRun(0, n, width, height) + [1.0];
    if n > 0 {
      assert width > 0 && height > 0;
      forall a, b | 0 <= a < b < |r|
        ensures r[a] <= r[b]
      {
        ProgressBounds(a + 1, width, height);
        if b < n {
          ProgressMono(a + 1, b + 1, width, height);
        }
      }
      ProgressFull(width, height);
    }
  }

  lemma ProgressMono(p: nat, q: nat, width: nat, height: nat)
    requires width > 0 && height > 0 && p <= q
    ensures Progress(p, width, height) <= Progress(q, width, height)
  {
    var w, h := width as real, height as real;
    assert p as real / w <= q as real / w;
  }

  lemma ProgressBounds(p: nat, width: nat, height: nat)
    requires width > 0 && height > 0 && p <= width * height
    ensures Progress(p, width, height) <= 1.0
  {
    ProgressMono(p, width * height, width, height);
    ProgressFull(width, height);
  }

  lemma ProgressFull(width: nat, height: nat)
    requires width > 0 && height > 0
    ensures Progress(width * height, width, height) == 1.0
  {
    var w, h := width as real, height as real;
    assert (width * height) as real == w * h;
    calc {
      Progress(width * height, width, height);
      (w * h) / w / h;
      { assert (w * h) / w == h; }
      h / h;
      1.0;
    }
  }

  lemma Distribute(a: nat, b: nat, c: nat, d: nat)
    requires b + c == d
    ensures a * b + a * c == a * d
    ensures b * a + c * a == d * a
  {
  }
}
