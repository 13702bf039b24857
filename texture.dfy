/** The texture lookups of hw3/Texture.hpp: the nearest-texel mapping of
    `getColor` and the clamp, tap and weight logic of `getColorBilinear`.
    Texel colours are real 3-vectors; the image is a total function of
    (row, column), and `InImage` says which indices lie inside it. */
module Textures {
  import opened Common

  datatype Texture = Texture(width: int, height: int, image: (int, int) -> Vec3)

  predicate InImage(width: int, height: int, row: int, col: int) {
    0 <= row < height && 0 <= col < width
  }

  /** `u * n` for `u` in the unit interval stays in `[0, n]`, and below `n`
      while `u` is below 1. */
  lemma ScaleUnit(u: real, n: real)
    ensures 0.0 <= u <= 1.0 && n >= 0.0 ==> 0.0 <= u * n <= n
    ensures 0.0 <= u < 1.0 && n > 0.0 ==> u * n < n
  {
    if 0.0 <= u <= 1.0 && n >= 0.0 {
      assert n - u * n == (1.0 - u) * n;
      assert (1.0 - u) * n >= 0.0;
    }
  }

  /** The column `getColor` reads: `u * width`, truncated. */
  function TexelColumn(width: int, u: real): (c: int)
    ensures 0 < width && 0.0 <= u < 1.0 ==> 0 <= c < width
  {
    ScaleUnit(u, width as real);
    Trunc(u * width as real)
  }

  /** The row `getColor` reads: `(1 - v) * height`, truncated, so `v` runs
      from the bottom row up. */
  function TexelRow(height: int, v: real): (r: int)
    ensures 0 < height && 0.0 < v <= 1.0 ==> 0 <= r < height
  {
    ScaleUnit(1.0 - v, height as real);
    Trunc((1.0 - v) * height as real)
  }

  /** `getColor`. */
  function GetColor(t: Texture, u: real, v: real): Vec3 {
    t.image(TexelRow(t.height, v), TexelColumn(t.width, u))
  }

  lemma FloorMono(a: real, b: real)
    requires 0.0 <= a <= b
    ensures Trunc(a) <= Trunc(b)
  {
  }

  lemma ScaledTruncMono(a: real, b: real, n: real)
    requires 0.0 <= a <= b && n >= 0.0
    ensures Trunc(a * n) <= Trunc(b * n)
  {
    ScaleMono(a, b, n);
    NonNegProduct(a, n);
    FloorMono(a * n, b * n);
  }

  lemma ScaleMono(a: real, b: real, n: real)
    requires a <= b && n >= 0.0
    ensures a * n <= b * n
  {
    assert b * n - a * n == (b - a) * n;
  }

  /** Moving `u` right never moves the column left. */
  lemma ColumnMono(width: nat, u1: real, u2: real)
    requires 0.0 <= u1 <= u2 <= 1.0
    ensures TexelColumn(width, u1) <= TexelColumn(width, u2)
  {
    ScaledTruncMono(u1, u2, width as real);
    assert TexelColumn(width, u1) == Trunc(u1 * width as real);
    assert TexelColumn(width, u2) == Trunc(u2 * width as real);
  }

  /** `u = 0` reads column 0. */
  lemma LeftColumn(width: nat)
    ensures TexelColumn(width, 0.0) == 0
  {
    var col := 0.0 * width as real;
    assert col == 0.0;
    assert Trunc(col) == 0;
  }

  /** Moving `v` up never moves the row down: rows run against `v`. */
  lemma RowFlipped(height: nat, v1: real, v2: real)
    requires 0.0 <= v1 <= v2 <= 1.0
    ensures TexelRow(height, v2) <= TexelRow(height, v1)
  {
    RowIsFlippedColumn(height, v1);
    RowIsFlippedColumn(height, v2);
    ColumnMono(height, 1.0 - v2, 1.0 - v1);
  }

  /** The row for `v` is the column for `1 - v`. */
  lemma RowIsFlippedColumn(height: nat, v: real)
    ensures TexelRow(height, v) == TexelColumn(height, 1.0 - v)
  {
  }

  /** `v = 1` reads row 0, the first row of the image. */
  lemma TopRow(height: nat)
    ensures TexelRow(height, 1.0) == 0
  {
    var row := (1.0 - 1.0) * height as real;
    assert row == 0.0;
    assert Trunc(row) == 0;
  }

  /** At `u = 1` the column `getColor` reads is one past the last, and at
      `v = 0` so is the row. */
  lemma TexelPastTheEdge(width: nat, height: nat)
    ensures TexelColumn(width, 1.0) == width
    ensures TexelRow(height, 0.0) == height
  {
    assert 1.0 * width as real == width as real;
    assert (1.0 - 0.0) * height as real == height as real;
  }

  /** The column with the closed edge `u = 1` folded onto the last column. */
  function ClampedColumn(width: int, u: real): (c: int)
    requires 0 < width
    ensures 0.0 <= u <= 1.0 ==> 0 <= c < width
    ensures 0 <= TexelColumn(width, u) < width ==> c == TexelColumn(width, u)
  {
    ScaleUnit(u, width as real);
    var col := TexelColumn(width, u);
    if col >= width then width - 1 else col
  }

  /** The row with the closed edge `v = 0` folded onto the last row. */
  function ClampedRow(height: int, v: real): (r: int)
    requires 0 < height
    ensures 0.0 <= v <= 1.0 ==> 0 <= r < height
    ensures 0 <= TexelRow(height, v) < height ==> r == TexelRow(height, v)
  {
    ScaleUnit(1.0 - v, height as real);
    var row := TexelRow(height, v);
    if row >= height then height - 1 else row
  }

  /** `getColor` reading only texels of the image for `u` and `v` in `[0, 1]`. */
  function GetColorClamped(t: Texture, u: real, v: real): Vec3
    requires t.width > 0 && t.height > 0
  {
    t.image(ClampedRow(t.height, v), ClampedColumn(t.width, u))
  }

  /** The four clamps of `getColorBilinear` as written: the third tests
      `v < 0` but resets `u`, so a negative `v` survives and overrides `u`. */
  function ClampAsWritten(u: real, v: real): (r: (real, real))
    ensures 0.0 <= r.0 <= 1.0 && r.1 <= 1.0
    ensures v < 0.0 ==> r == (0.0, v)
    ensures 0.0 <= v <= 1.0 ==> r.1 == v
    ensures v > 1.0 ==> r.1 == 1.0
    ensures v >= 0.0 && 0.0 <= u <= 1.0 ==> r.0 == u
    ensures v >= 0.0 && u < 0.0 ==> r.0 == 0.0
    ensures v >= 0.0 && u > 1.0 ==> r.0 == 1.0
  {
    var u1 := if u < 0.0 then 0.0 else u;
    var u2 := if u1 > 1.0 then 1.0 else u1;
    var u3 := if v < 0.0 then 0.0 else u2;
    var v1 := if v > 1.0 then 1.0 else v;
    (u3, v1)
  }

  /** The clamps as evidently meant: each parameter into the unit interval,
      leaving the other one alone. */
  function Clamp(u: real, v: real): (r: (real, real))
    ensures 0.0 <= r.0 <= 1.0 && 0.0 <= r.1 <= 1.0
    ensures 0.0 <= u <= 1.0 ==> r.0 == u
    ensures 0.0 <= v <= 1.0 ==> r.1 == v
    ensures (u < 0.0 ==> r.0 == 0.0) && (u > 1.0 ==> r.0 == 1.0)
    ensures (v < 0.0 ==> r.1 == 0.0) && (v > 1.0 ==> r.1 == 1.0)
  {
    var u1 := if u < 0.0 then 0.0 else u;
    var u2 := if u1 > 1.0 then 1.0 else u1;
    var v1 := if v < 0.0 then 0.0 else v;
    var v2 := if v1 > 1.0 then 1.0 else v1;
    (u2, v2)
  }

  /** C `round`: to the nearest integer, halves away from zero. */
  function Round(x: real): (n: int)
    ensures -0.5 <= x - n as real <= 0.5
    ensures x >= 0.0 ==> n >= 0
  {
    if x >= 0.0 then (x + 0.5).Floor else -((-x + 0.5).Floor)
  }

  /** Rounding keeps a value of `[0, n]` in `[0, n]`. */
  lemma RoundRange(x: real, n: int)
    requires 0.0 <= x <= n as real
    ensures 0 <= Round(x) <= n
  {
  }

  /** C++ `%` on a non-negative divisor: the remainder takes the sign of
      the dividend. */
  function CRem(a: int, n: int): (r: int)
    requires n > 0
    ensures a >= 0 ==> 0 <= r < n
    ensures -n < r < n
  {
    if a >= 0 then a % n else -((-a) % n)
  }

  /** `(i - 1 + n) % n`: the index before `i`, wrapping from 0 to `n - 1`. */
  function WrapPrev(i: int, n: int): (r: int)
    requires n > 0
    ensures 0 <= i <= n ==> 0 <= r < n && r == (if i == 0 then n - 1 else i - 1)
  {
    CRem(i - 1 + n, n)
  }

  /** The rows and columns of the four texels `getColorBilinear` reads:
      `top`/`left` for the `lefttop`, `righttop` and `leftbottom` taps,
      `bottom`/`right` for the others. */
  datatype Taps = Taps(top: int, bottom: int, left: int, right: int)

  /** The taps as written: the previous row and column wrap around, the
      rounded row and column themselves are used unchecked. */
  function TapsAsWritten(width: int, height: int, u: real, v: real): (r: Taps)
    requires width > 0 && height > 0
    ensures 0.0 <= u <= 1.0 && 0.0 <= v <= 1.0 ==>
              0 <= r.top < height && 0 <= r.left < width && 0 <= r.bottom <= height && 0 <= r.right <= width &&
              r.top == (if r.bottom == 0 then height - 1 else r.bottom - 1) &&
              r.left == (if r.right == 0 then width - 1 else r.right - 1)
  {
    var intU, intV := Rounded(u, width), Rounded(1.0 - v, height);
    Taps(WrapPrev(intV, height), intV, WrapPrev(intU, width), intU)
  }

  /** `int_u = round(u_img)` with `u_img = s * n`: in `[0, n]` for `s` in
      the unit interval. */
  function Rounded(s: real, n: int): (r: int)
    requires n > 0
    ensures 0.0 <= s <= 1.0 ==> 0 <= r <= n
  {
    RoundedRange(s, n);
    Round(s * n as real)
  }

  lemma RoundedRange(s: real, n: int)
    requires n > 0
    ensures 0.0 <= s <= 1.0 ==> 0 <= Round(s * n as real) <= n
  {
    if 0.0 <= s <= 1.0 {
      var x := s * n as real;
      ScaleUnit(s, n as real);
      assert 0.0 <= x <= n as real;
      RoundRange(x, n);
    }
  }

  /** At `u = 1` the right column is one past the last, and at `v = 0` the
      bottom row is one past the last. */
  lemma TapsPastTheEdge(width: int, height: int)
    requires width > 0 && height > 0
    ensures TapsAsWritten(width, height, 1.0, 0.5).right == width
    ensures TapsAsWritten(width, height, 0.5, 0.0).bottom == height
  {
    assert Round(1.0 * width as real) == width;
    assert Round((1.0 - 0.0) * height as real) == height;
  }

  /** The taps with the rounded row and column wrapped like their
      neighbours, so all four lie in the image. */
  function TapsWrapped(width: int, height: int, u: real, v: real): (r: Taps)
    requires width > 0 && height > 0
    ensures 0.0 <= u <= 1.0 && 0.0 <= v <= 1.0 ==>
              0 <= r.top < height && 0 <= r.left < width && 0 <= r.bottom < height && 0 <= r.right < width &&
              r.top == (if r.bottom == 0 then height - 1 else r.bottom - 1) &&
              r.left == (if r.right == 0 then width - 1 else r.right - 1)
    ensures 0.0 <= u <= 1.0 && 0.0 <= v <= 1.0 && TapsAsWritten(width, height, u, v).right < width ==>
              r.right == TapsAsWritten(width, height, u, v).right
    ensures 0.0 <= u <= 1.0 && 0.0 <= v <= 1.0 && TapsAsWritten(width, height, u, v).bottom < height ==>
              r.bottom == TapsAsWritten(width, height, u, v).bottom
  {
    var taps := TapsAsWritten(width, height, u, v);
    WrapAround(taps.bottom, height);
    WrapAround(taps.right, width);
    taps.(bottom := CRem(taps.bottom, height), right := CRem(taps.right, width))
  }

  /** An index of `[0, n]` wrapped by `% n`: `n` itself becomes 0. */
  lemma WrapAround(i: int, n: int)
    requires n > 0
    ensures 0 <= i <= n ==> CRem(i, n) == (if i == n then 0 else i)
  {
    if i == n {
      assert (i - n) % n == 0;
    }
  }

  /** `dU = 0.5 + (u_img - int_u)` (and `dV` alike): where the sample falls
      between the two taps, in `[0, 1]`. */
  function Offset(x: real): (d: real)
    ensures 0.0 <= d <= 1.0
  {
    0.5 + (x - Round(x) as real)
  }

  /** `a * (1 - w) + b * w`, one channel. */
  function Mix(a: real, b: real, w: real): real {
    a * (1.0 - w) + b * w
  }

  lemma MixBetween(a: real, b: real, w: real)
    requires 0.0 <= w <= 1.0
    ensures Min(a, b) <= Mix(a, b, w) <= Max(a, b)
  {
    assert Mix(a, b, w) - a == (b - a) * w;
    assert b - Mix(a, b, w) == (b - a) * (1.0 - w);
    if a <= b {
      NonNegProduct(b - a, w);
      NonNegProduct(b - a, 1.0 - w);
    } else {
      NonNegProduct(a - b, w);
      NonNegProduct(a - b, 1.0 - w);
      assert (b - a) * w == -((a - b) * w);
      assert (b - a) * (1.0 - w) == -((a - b) * (1.0 - w));
    }
  }

  lemma NonNegProduct(a: real, b: real)
    requires a >= 0.0 && b >= 0.0
    ensures a * b >= 0.0
  {
  }

  /** One channel of the blend: `bottom * dV + top * (1 - dV)` with the
      bottom and top rows each mixed by `dU`. */
  function Blend(lt: real, lb: real, rt: real, rb: real, dU: real, dV: real): real {
    Mix(lb, rb, dU) * dV + Mix(lt, rt, dU) * (1.0 - dV)
  }

  /** With weights in `[0, 1]` the blend stays between the least and the
      greatest of the four corners. */
  lemma BlendBetween(lt: real, lb: real, rt: real, rb: real, dU: real, dV: real)
    requires 0.0 <= dU <= 1.0 && 0.0 <= dV <= 1.0
    ensures Min(Min(lt, lb), Min(rt, rb)) <= Blend(lt, lb, rt, rb, dU, dV) <= Max(Max(lt, lb), Max(rt, rb))
  {
    var bottom, top := Mix(lb, rb, dU), Mix(lt, rt, dU);
    MixBetween(lb, rb, dU);
    MixBetween(lt, rt, dU);
    MixBetween(top, bottom, dV);
    assert Blend(lt, lb, rt, rb, dU, dV) == Mix(top, bottom, dV);
  }

  /** `getColorBilinear` as written, channel by channel. */
  function BilinearAsWritten(t: Texture, u: real, v: real): Vec3
    requires t.width > 0 && t.height > 0
  {
    LookupAsWritten(t, ClampAsWritten(u, v))
  }

  /** The lookup after the clamps, which leave `c`. */
  function LookupAsWritten(t: Texture, c: (real, real)): Vec3
    requires t.width > 0 && t.height > 0
  {
    BlendTaps(t, TapsAsWritten(t.width, t.height, c.0, c.1), Offset(c.0 * t.width as real), Offset((1.0 - c.1) * t.height as real))
  }

  /** `getColorBilinear` with the clamps and the taps corrected: every
      texel it reads is in the image, and each channel of its colour lies
      between the least and the greatest of the four texels read. */
  function Bilinear(t: Texture, u: real, v: real): (r: Vec3)
    requires t.width > 0 && t.height > 0
    ensures TapsInImage(t.width, t.height, TapsWrapped(t.width, t.height, Clamp(u, v).0, Clamp(u, v).1))
    ensures forall ax: Axis :: Between(t, TapsWrapped(t.width, t.height, Clamp(u, v).0, Clamp(u, v).1), r.Coord(ax), ax)
  {
    Lookup(t, Clamp(u, v))
  }

  /** The lookup after the clamps, which leave `c`: for `c` in the unit
      square every texel read is in the image, and each channel of the
      colour lies between the least and the greatest of the four. */
  function Lookup(t: Texture, c: (real, real)): (r: Vec3)
    requires t.width > 0 && t.height > 0
    ensures 0.0 <= c.0 <= 1.0 && 0.0 <= c.1 <= 1.0 ==>
              TapsInImage(t.width, t.height, TapsWrapped(t.width, t.height, c.0, c.1)) &&
              forall ax: Axis :: Between(t, TapsWrapped(t.width, t.height, c.0, c.1), r.Coord(ax), ax)
  {
    BlendTapsBetween(t, TapsWrapped(t.width, t.height, c.0, c.1), Offset(c.0 * t.width as real), Offset((1.0 - c.1) * t.height as real));
    BlendTaps(t, TapsWrapped(t.width, t.height, c.0, c.1), Offset(c.0 * t.width as real), Offset((1.0 - c.1) * t.height as real))
  }

  function BlendTaps(t: Texture, taps: Taps, dU: real, dV: real): Vec3 {
    var lt, lb := t.image(taps.top, taps.left), t.image(taps.bottom, taps.left);
    var rt, rb := t.image(taps.top, taps.right), t.image(taps.bottom, taps.right);
    Vec3(Blend(lt.x, lb.x, rt.x, rb.x, dU, dV), Blend(lt.y, lb.y, rt.y, rb.y, dU, dV), Blend(lt.z, lb.z, rt.z, rb.z, dU, dV))
  }

  /** All four texels of `taps` are in the image. */
  predicate TapsInImage(width: int, height: int, taps: Taps) {
    InImage(width, height, taps.top, taps.left) && InImage(width, height, taps.bottom, taps.right)
  }

  /** `x` lies between the least and the greatest channel `ax` of the four
      texels of `taps`. */
  predicate Between(t: Texture, taps: Taps, x: real, ax: Axis) {
    Min(Min(t.image(taps.top, taps.left).Coord(ax), t.image(taps.bottom, taps.left).Coord(ax)),
        Min(t.image(taps.top, taps.right).Coord(ax), t.image(taps.bottom, taps.right).Coord(ax))) <= x <=
    Max(Max(t.image(taps.top, taps.left).Coord(ax), t.image(taps.bottom, taps.left).Coord(ax)),
        Max(t.image(taps.top, taps.right).Coord(ax), t.image(taps.bottom, taps.right).Coord(ax)))
  }

  /** Each channel of a blend with weights in `[0, 1]` lies between the
      least and the greatest of the four texels read. */
  lemma BlendTapsBetween(t: Texture, taps: Taps, dU: real, dV: real)
    ensures 0.0 <= dU <= 1.0 && 0.0 <= dV <= 1.0 ==> forall ax: Axis :: Between(t, taps, BlendTaps(t, taps, dU, dV).Coord(ax), ax)
  {
    if 0.0 <= dU <= 1.0 && 0.0 <= dV <= 1.0 {
      forall ax: Axis
        ensures Between(t, taps, BlendTaps(t, taps, dU, dV).Coord(ax), ax)
      {
        var lt, lb := t.image(taps.top, taps.left), t.image(taps.bottom, taps.left);
        var rt, rb := t.image(taps.top, taps.right), t.image(taps.bottom, taps.right);
        BlendBetween(lt.Coord(ax), lb.Coord(ax), rt.Coord(ax), rb.Coord(ax), dU, dV);
      }
    }
  }

}
