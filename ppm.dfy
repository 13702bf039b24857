/** The binary PPM file `Renderer::Render` writes (hw7/Renderer.cpp): the
    header `P6\n<width> <height>\n255\n` followed by three bytes per pixel,
    each the gamma-corrected, clamped channel scaled to 255 and truncated.
    The file is modelled as the sequence of bytes written to it. */
module Ppm {
  import opened Common

  type Byte = b: int | 0 <= b < 256

  const Newline: Byte := 10
  const Space: Byte := 32
  const DigitZero: Byte := 48

  /** The magic line `P6\n` and the maximum-value line `255\n`. */
  const Magic: seq<Byte> := [80, 54, 10]
  const MaxValueLine: seq<Byte> := [50, 53, 53, 10]

  predicate IsDigit(b: Byte) {
    DigitZero <= b < DigitZero + 10
  }

  /** `%d` of a non-negative value: its decimal digits, without leading zeros. */
  function Digits(n: nat): (r: seq<Byte>)
    ensures |r| >= 1
    decreases n
  {
    if n < 10 then [DigitZero + n] else Digits(n / 10) + [DigitZero + n % 10]
  }

  /** `%d` writes digit characters only. */
  lemma {:induction false} DigitsAreDigits(n: nat)
    ensures forall i :: 0 <= i < |Digits(n)| ==> IsDigit(Digits(n)[i])
    decreases n
  {
    if n >= 10 {
      DigitsAreDigits(n / 10);
    }
  }

  /** The header line of the file. */
  function Header(width: nat, height: nat): seq<Byte> {
    Magic + Digits(width) + [Space] + Digits(height) + [Newline] + MaxValueLine
  }

  /** `clamp(0, 1, v)`. */
  function Clamp01(v: real): (r: real)
    ensures 0.0 <= r <= 1.0
    ensures 0.0 <= v <= 1.0 ==> r == v
  {
    if v < 0.0 then 0.0 else if v > 1.0 then 1.0 else v
  }

  /** `std::pow(x, 0.6f)` is a parameter of the model; what the cast needs of
      it is that it maps `[0, 1]` into `[0, 1]`. */
  ghost predicate GammaInRange(gamma: real -> real) {
    forall x :: 0.0 <= x <= 1.0 ==> 0.0 <= gamma(x) <= 1.0
  }

  /** `(unsigned char)(255 * std::pow(clamp(0, 1, v), 0.6f))`. */
  function ChannelByte(v: real, gamma: real -> real): Byte
    requires GammaInRange(gamma)
  {
    var g := gamma(Clamp01(v));
    assert 0.0 <= 255.0 * g <= 255.0;
    Trunc(255.0 * g)
  }

  /** A byte reaches 255 exactly when the corrected channel is full. */
  lemma FullChannelIsFullByte(v: real, gamma: real -> real)
    requires GammaInRange(gamma)
    ensures ChannelByte(v, gamma) == 255 <==> gamma(Clamp01(v)) == 1.0
  {
    var g := gamma(Clamp01(v));
    if ChannelByte(v, gamma) == 255 {
      assert 255.0 <= 255.0 * g;
    }
  }

  /** The three bytes of one pixel: `color[0..2]`. */
  function ColorBytes(c: Vec3, gamma: real -> real): seq<Byte>
    requires GammaInRange(gamma)
  {
    [ChannelByte(c.x, gamma), ChannelByte(c.y, gamma), ChannelByte(c.z, gamma)]
  }

  /** The pixel bytes of the framebuffer, in framebuffer order. */
  function PixelBytes(fb: seq<Vec3>, gamma: real -> real): seq<Byte>
    requires GammaInRange(gamma)
  {
    if |fb| == 0 then [] else PixelBytes(fb[..|fb| - 1], gamma) + ColorBytes(fb[|fb| - 1], gamma)
  }

  /** The whole file. */
  function Image(width: nat, height: nat, fb: seq<Vec3>, gamma: real -> real): seq<Byte>
    requires GammaInRange(gamma)
  {
    Header(width, height) + PixelBytes(fb, gamma)
  }

  /** The header and the loop that writes `color` once per pixel. */
  method WriteImage(width: nat, height: nat, fb: array<Vec3>, gamma: real -> real) returns (out: seq<Byte>)
    requires fb.Length == height * width && GammaInRange(gamma)
    ensures out == Image(width, height, fb[..], gamma)
  {
    out := Header(width, height);
    for i := 0 to height * width
      invariant out == Header(width, height) + PixelBytes(fb[..i], gamma)
    {
      assert fb[..i + 1][..i] == fb[..i];
      var color := ColorBytes(fb[i], gamma);
      out := out + color;
    }
    assert fb[..height * width] == fb[..];
  }

  /** Pixel `k` occupies bytes `3k .. 3k+2` of the body. */
  lemma {:induction false} PixelBytesLayout(fb: seq<Vec3>, gamma: real -> real)
    requires GammaInRange(gamma)
    ensures |PixelBytes(fb, gamma)| == 3 * |fb|
    ensures forall k :: 0 <= k < |fb| ==> PixelBytes(fb, gamma)[3 * k .. 3 * k + 3] == ColorBytes(fb[k], gamma)
  {
    if |fb| > 0 {
      var init := fb[..|fb| - 1];
      PixelBytesLayout(init, gamma);
      forall k | 0 <= k < |fb|
        ensures PixelBytes(fb, gamma)[3 * k .. 3 * k + 3] == ColorBytes(fb[k], gamma)
      {
        if k < |fb| - 1 {
          assert init[k] == fb[k];
          assert PixelBytes(fb, gamma)[3 * k .. 3 * k + 3] == PixelBytes(init, gamma)[3 * k .. 3 * k + 3];
        }
      }
    }
  }

  /** The number of leading digit bytes of `s`. */
  function LeadingDigits(s: seq<Byte>): (n: nat)
    ensures n <= |s|
  {
    if |s| == 0 || !IsDigit(s[0]) then 0 else 1 + LeadingDigits(s[1..])
  }

  /** The value of a digit byte. */
  function DigitValue(b: Byte): nat {
    if IsDigit(b) then b - DigitZero else 0
  }

  /** The value of a sequence of digit bytes. */
  function DecimalValue(ds: seq<Byte>): nat {
    if |ds| == 0 then 0 else DecimalValue(ds[..|ds| - 1]) * 10 + DigitValue(ds[|ds| - 1])
  }

  lemma {:induction false} DigitsValue(n: nat)
    ensures DecimalValue(Digits(n)) == n
    decreases n
  {
    if n >= 10 {
      DigitsValue(n / 10);
      assert Digits(n)[..|Digits(n)| - 1] == Digits(n / 10);
    }
  }

  lemma {:induction false} LeadingDigitsOf(ds: seq<Byte>, rest: seq<Byte>)
    requires forall i :: 0 <= i < |ds| ==> IsDigit(ds[i])
    requires |rest| == 0 || !IsDigit(rest[0])
    ensures LeadingDigits(ds + rest) == |ds|
  {
    if |ds| > 0 {
      assert (ds + rest)[1..] == ds[1..] + rest;
      LeadingDigitsOf(ds[1..], rest);
    } else {
      assert ds + rest == rest;
    }
  }

  /** Reading a number: its value and the count of its digit bytes, or
      `None` when `s` does not start with a digit. */
  function ParseNumber(s: seq<Byte>): Option<(nat, nat)> {
    var n := LeadingDigits(s);
    if n == 0 then None else Some((DecimalValue(s[..n]), n))
  }

  /** `%d` reads back as the number printed, up to the first non-digit. */
  lemma ParseNumberRoundTrip(n: nat, rest: seq<Byte>)
    requires |rest| == 0 || !IsDigit(rest[0])
    ensures ParseNumber(Digits(n) + rest) == Some((n, |Digits(n)|))
  {
    DigitsAreDigits(n);
    LeadingDigitsOf(Digits(n), rest);
    assert (Digits(n) + rest)[..|Digits(n)|] == Digits(n);
    DigitsValue(n);
  }

  /** Reading a header back: the magic line, a width, a space, a height, a
      newline and the maximum-value line; the result is the two dimensions
      and the offset of the first pixel byte. */
  function ParseHeader(s: seq<Byte>): Option<(nat, nat, nat)> {
    if |s| < 3 || s[..3] != Magic then None
    else
      match ParseDimensions(s[3..])
      case None => None
      case Some((w, h, n)) => Some((w, h, 3 + n))
  }

  /** The rest of the header after the magic line. */
  function ParseDimensions(a: seq<Byte>): Option<(nat, nat, nat)> {
    match ParseNumber(a)
    case None => None
    case Some((w, wn)) =>
      if wn >= |a| || a[wn] != Space then None
      else
        match ParseHeight(a[wn + 1..])
        case None => None
        case Some((h, hn)) => Some((w, h, wn + 1 + hn))
  }

  /** The height and the lines after it. */
  function ParseHeight(b: seq<Byte>): Option<(nat, nat)> {
    match ParseNumber(b)
    case None => None
    case Some((h, hn)) =>
      if hn + 5 > |b| || b[hn] != Newline || b[hn + 1..hn + 5] != MaxValueLine then None
      else Some((h, hn + 5))
  }

  /** The header laid out as the parser reads it: magic, width field, space,
      height field and the rest. */
  lemma HeaderShape(width: nat, height: nat, body: seq<Byte>)
    ensures Header(width, height) + body
            == Magic + (Digits(width) + ([Space] + (Digits(height) + ([Newline] + MaxValueLine + body))))
    ensures |Header(width, height)| == 3 + |Digits(width)| + 1 + |Digits(height)| + 5
  {
    var dw, dh := Digits(width), Digits(height);
    assert Header(width, height) == Magic + dw + [Space] + dh + [Newline] + MaxValueLine;
    ConcatShape(dw, dh, body);
  }

  lemma ConcatShape(dw: seq<Byte>, dh: seq<Byte>, body: seq<Byte>)
    ensures Magic + dw + [Space] + dh + [Newline] + MaxValueLine + body
            == Magic + (dw + ([Space] + (dh + ([Newline] + MaxValueLine + body))))
  {
  }

  /** Any two numbers read back from that layout give the header's fields. */
  lemma Assemble(s: seq<Byte>, a: seq<Byte>, b: seq<Byte>, dw: seq<Byte>, dh: seq<Byte>, body: seq<Byte>,
                 width: nat, height: nat, total: nat)
    requires s == Magic + a && a == dw + ([Space] + b) && b == dh + ([Newline] + MaxValueLine + body)
    requires ParseNumber(a) == Some((width, |dw|)) && ParseNumber(b) == Some((height, |dh|))
    requires total == 3 + |dw| + 1 + |dh| + 5
    ensures ParseHeader(s) == Some((width, height, total))
  {
    assert b[|dh|..] == [Newline] + MaxValueLine + body;
    assert b[|dh|] == Newline && b[|dh| + 1..|dh| + 5] == MaxValueLine;
    assert ParseHeight(b) == Some((height, |dh| + 5));
    assert a[|dw|] == Space && a[|dw| + 1..] == b;
    assert ParseDimensions(a) == Some((width, height, |dw| + 1 + |dh| + 5));
    assert s[..3] == Magic && s[3..] == a;
  }

  /** The header the renderer writes reads back as its own dimensions, with
      the pixel bytes starting right after it. */
  lemma HeaderRoundTrip(width: nat, height: nat, body: seq<Byte>)
    ensures ParseHeader(Header(width, height) + body) == Some((width, height, |Header(width, height)|))
  {
    var b := Digits(height) + ([Newline] + MaxValueLine + body);
    var a := Digits(width) + ([Space] + b);
    ParseNumberRoundTrip(height, [Newline] + MaxValueLine + body);
    ParseNumberRoundTrip(width, [Space] + b);
    HeaderShape(width, height, body);
    Assemble(Header(width, height) + body, a, b, Digits(width), Digits(height), body, width, height, |Header(width, height)|);
  }

  /** A file written for a framebuffer reads back as the dimensions it was
      written with, and pixel `k`'s three bytes sit at offset
      `|header| + 3k`. */
  lemma ImageRoundTrip(width: nat, height: nat, fb: seq<Vec3>, gamma: real -> real)
    requires GammaInRange(gamma)
    ensures ParseHeader(Image(width, height, fb, gamma)) == Some((width, height, |Header(width, height)|))
    ensures |Image(width, height, fb, gamma)| == |Header(width, height)| + 3 * |fb|
    ensures forall k :: 0 <= k < |fb| ==>
              Image(width, height, fb, gamma)[|Header(width, height)| + 3 * k .. |Header(width, height)| + 3 * k + 3]
                == ColorBytes(fb[k], gamma)
  {
    var body := PixelBytes(fb, gamma);
    HeaderRoundTrip(width, height, body);
    PixelBytesLayout(fb, gamma);
    BodySlices(Header(width, height), body);
  }

  /** Slices of the body keep their place behind the header. */
  lemma BodySlices(hd: seq<Byte>, body: seq<Byte>)
    ensures forall i, j :: 0 <= i <= j <= |body| ==> (hd + body)[|hd| + i .. |hd| + j] == body[i..j]
  {
    forall i, j | 0 <= i <= j <= |body|
      ensures (hd + body)[|hd| + i .. |hd| + j] == body[i..j]
    {
      assert (hd + body)[|hd|..] == body;
    }
  }
}
