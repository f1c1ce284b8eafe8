/**
  What the pencil-sketch filter computes, pixel by pixel: luma from the
  source's red, green and blue channels; a 3x3 Sobel gradient at each interior
  pixel; an edge magnitude scaled by 0.9, clamped to [0, 255] and inverted; and
  the conversion of that value to a byte done by the output pixel buffer.
  The outermost one-pixel frame is not computed and stays opaque white.

  `Math.sqrt` is a parameter, `sqrt`. Arithmetic is exact on reals: the luma
  is not rounded to single precision and the gradient sums are not rounded to
  double precision.
 */
module SketchSpec {

  /** The horizontal and vertical Sobel kernels, row by row (ky = -1, 0, 1; within a row kx = -1, 0, 1). */
  const SobelX: seq<int> := [-1, 0, 1, -2, 0, 2, -1, 0, 1]
  const SobelY: seq<int> := [-1, -2, -1, 0, 0, 0, 1, 2, 1]

  /** The contrast-softening factor applied to the gradient magnitude. */
  const EdgeScale: real := 0.9

  const White: int := 255

  /** Perceptual luma of one pixel. The weights sum to 1, so a gray pixel keeps its level. */
  function Luma(r: int, g: int, b: int): (l: real)
    ensures r == g == b ==> l == r as real
  {
    r as real * 0.299 + g as real * 0.587 + b as real * 0.114
  }

  /** The grayscale buffer of an RGBA buffer holding `n` pixels: one luma sample per pixel. */
  function GraySeq(data: seq<int>, n: nat): (gray: seq<real>)
    requires |data| == 4 * n
    ensures |gray| == n
    ensures forall i :: 0 <= i < n ==> gray[i] == Luma(data[4 * i], data[4 * i + 1], data[4 * i + 2])
  {
    seq(n, i requires 0 <= i < n => Luma(data[4 * i], data[4 * i + 1], data[4 * i + 2]))
  }

  /** Pixel `p` lies off the outermost frame of a `width` x `height` image (row and column both in 1..size-2). */
  predicate Interior(width: nat, height: nat, p: nat) {
    width > 0 && 1 <= p / width <= height - 2 && 1 <= p % width <= width - 2
  }

  /** The offset of tap `k`'s row, `ky * width` with `ky = k / 3 - 1`. */
  function RowOffset(width: nat, k: nat): int {
    if k < 3 then -(width as int) else if k < 6 then 0 else width
  }

  /** The index of tap `k` (0..8, row by row) of the 3x3 neighbourhood centred on pixel `p`. */
  function Tap(width: nat, p: nat, k: nat): int {
    p + RowOffset(width, k) + (k % 3 - 1)
  }

  /** The sum of the positive weights among the first `n` of `kernel`. */
  function PosWeight(kernel: seq<int>, n: nat): nat
    requires n <= |kernel|
  {
    if n == 0 then 0 else PosWeight(kernel, n - 1) + (if kernel[n - 1] > 0 then kernel[n - 1] else 0)
  }

  /** The sum of the magnitudes of the negative weights among the first `n` of `kernel`. */
  function NegWeight(kernel: seq<int>, n: nat): nat
    requires n <= |kernel|
  {
    if n == 0 then 0 else NegWeight(kernel, n - 1) + (if kernel[n - 1] < 0 then -kernel[n - 1] else 0)
  }

  /** The first `n` taps of `kernel` applied to the neighbourhood of `p`, summed in the order the filter sums them. */
  function Conv(gray: seq<real>, width: nat, p: nat, kernel: seq<int>, n: nat): real
    requires n <= 9 && |kernel| == 9
    requires width + 1 <= p && p + width + 1 < |gray|
  {
    if n == 0 then 0.0
    else Conv(gray, width, p, kernel, n - 1) + gray[Tap(width, p, n - 1)] * kernel[n - 1] as real
  }

  /**
    Over samples in [0, 255] the response of the first `n` taps lies between
    -255 times the kernel's negative weight and 255 times its positive weight.
   */
  lemma {:induction false} ConvBounds(gray: seq<real>, width: nat, p: nat, kernel: seq<int>, n: nat)
    requires n <= 9 && |kernel| == 9
    requires width + 1 <= p && p + width + 1 < |gray|
    requires forall k :: 0 <= k < n ==> 0.0 <= gray[Tap(width, p, k)] <= 255.0
    ensures -255.0 * NegWeight(kernel, n) as real <= Conv(gray, width, p, kernel, n)
    ensures Conv(gray, width, p, kernel, n) <= 255.0 * PosWeight(kernel, n) as real
  {
    if n > 0 {
      ConvBounds(gray, width, p, kernel, n - 1);
      WeightedSampleBounds(gray[Tap(width, p, n - 1)], kernel[n - 1]);
    }
  }

  /** Each Sobel kernel weighs 4 on its positive side and 4 on its negative side. */
  lemma SobelWeights()
    ensures PosWeight(SobelX, 9) == 4 && NegWeight(SobelX, 9) == 4
    ensures PosWeight(SobelY, 9) == 4 && NegWeight(SobelY, 9) == 4
  {
  }

  /** Luma of three bytes is a sample in [0, 255]. */
  lemma LumaInRange(r: int, g: int, b: int)
    requires 0 <= r <= 255 && 0 <= g <= 255 && 0 <= b <= 255
    ensures 0.0 <= Luma(r, g, b) <= 255.0
  {
  }

  /** Over samples in [0, 255] each Sobel response lies in [-1020, 1020]. */
  lemma SobelResponsesBounded(gray: seq<real>, width: nat, p: nat)
    requires width + 1 <= p && p + width + 1 < |gray|
    requires forall k :: 0 <= k < 9 ==> 0.0 <= gray[Tap(width, p, k)] <= 255.0
    ensures -1020.0 <= Conv(gray, width, p, SobelX, 9) <= 1020.0
    ensures -1020.0 <= Conv(gray, width, p, SobelY, 9) <= 1020.0
  {
    SobelWeights();
    ConvBounds(gray, width, p, SobelX, 9);
    ConvBounds(gray, width, p, SobelY, 9);
  }

  /**
    The gray buffer built from an RGBA buffer of bytes meets the bound above:
    both responses at any interior pixel lie in [-1020, 1020].
   */
  lemma SketchResponsesBounded(data: seq<int>, width: nat, height: nat, p: nat)
    requires |data| == 4 * (width * height) && forall i :: 0 <= i < |data| ==> 0 <= data[i] <= 255
    requires p < width * height && Interior(width, height, p)
    ensures width + 1 <= p && p + width + 1 < width * height
    ensures -1020.0 <= Conv(GraySeq(data, width * height), width, p, SobelX, 9) <= 1020.0
    ensures -1020.0 <= Conv(GraySeq(data, width * height), width, p, SobelY, 9) <= 1020.0
  {
    InteriorTaps(width, height, p);
    var gray := GraySeq(data, width * height);
    forall k | 0 <= k < 9 ensures 0.0 <= gray[Tap(width, p, k)] <= 255.0 {
      var q := Tap(width, p, k);
      assert 0 <= q < width * height;
      LumaInRange(data[4 * q], data[4 * q + 1], data[4 * q + 2]);
    }
    SobelResponsesBounded(gray, width, p);
  }

  lemma MulNonneg(a: real, b: real)
    requires 0.0 <= a && 0.0 <= b
    ensures 0.0 <= a * b
  {
  }

  /** One sample in [0, 255] times one weight. */
  lemma WeightedSampleBounds(g: real, w: int)
    ensures 0.0 <= g <= 255.0 ==>
      -255.0 * (if w < 0 then -w else 0) as real <= g * w as real <= 255.0 * (if w > 0 then w else 0) as real
  {
    if 0.0 <= g <= 255.0 {
      var x := w as real;
      if w >= 0 {
        assert 0.0 <= g * x by { MulNonneg(g, x); }
        assert 0.0 <= (255.0 - g) * x by { MulNonneg(255.0 - g, x); }
      } else {
        assert 0.0 <= g * -x by { MulNonneg(g, -x); }
        assert 0.0 <= (255.0 - g) * -x by { MulNonneg(255.0 - g, -x); }
      }
    }
  }

  function Min(a: real, b: real): real { if a <= b then a else b }
  function Max(a: real, b: real): real { if a >= b then a else b }

  /**
    How a number is stored into a byte of the output buffer (a clamped byte
    array): clamped to [0, 255], then rounded to the nearest integer, ties to even.
   */
  function ToUint8Clamp(v: real): (b: int)
    ensures 0 <= b <= 255
    ensures v <= 0.0 ==> b == 0
    ensures v >= 255.0 ==> b == 255
    ensures 0.0 <= v <= 255.0 ==> -0.5 <= b as real - v <= 0.5
    ensures 0.0 <= v <= 255.0 && (b as real - v == 0.5 || v - b as real == 0.5) ==> b % 2 == 0
  {
    if v <= 0.0 then 0
    else if v >= 255.0 then 255
    else
      var f := v.Floor;
      var d := v - f as real;
      if d < 0.5 then f
      else if d > 0.5 then f + 1
      else if f % 2 == 0 then f else f + 1
  }

  /**
    The byte written for gradients `gx`, `gy`: the scaled magnitude clamped to
    [0, 255], subtracted from 255. No edge gives white, a saturated edge black.
   */
  function Shade(gx: real, gy: real, sqrt: real -> real): (b: int)
    ensures 0 <= b <= 255
    ensures sqrt(gx * gx + gy * gy) <= 0.0 ==> b == White
    ensures sqrt(gx * gx + gy * gy) * EdgeScale >= 255.0 ==> b == 0
  {
    var magnitude := Max(0.0, Min(255.0, sqrt(gx * gx + gy * gy) * EdgeScale));
    ToUint8Clamp(255.0 - magnitude)
  }

  /** The three taps of an interior pixel stay inside the image. */
  lemma InteriorTaps(width: nat, height: nat, p: nat)
    requires p < width * height && Interior(width, height, p)
    ensures width + 1 <= p && p + width + 1 < width * height
  {
    var y, x := p / width, p % width;
    assert p == y * width + x;
    assert y * width >= width by { MulMono(1, y, width); }
    assert y * width <= (height - 2) * width by { MulMono(y, height - 2, width); }
    assert (height - 2) * width == height * width - 2 * width;
  }

  lemma MulMono(a: int, b: int, c: nat)
    requires a <= b
    ensures a * c <= b * c
  {
    assert b * c - a * c == (b - a) * c;
  }

  /** The red, green and blue value of pixel `p` in the sketch. */
  function PixelShade(gray: seq<real>, width: nat, height: nat, sqrt: real -> real, p: nat): (v: int)
    requires |gray| == width * height && p < width * height
    ensures 0 <= v <= 255
    ensures !Interior(width, height, p) ==> v == White
  {
    if Interior(width, height, p) then
      InteriorTaps(width, height, p);
      Shade(Conv(gray, width, p, SobelX, 9), Conv(gray, width, p, SobelY, 9), sqrt)
    else White
  }

  /** Byte `i` of the sketch's RGBA buffer. */
  function Channel(gray: seq<real>, width: nat, height: nat, sqrt: real -> real, i: nat): (c: int)
    requires |gray| == width * height && i < 4 * (width * height)
    ensures 0 <= c <= 255
    ensures i % 4 == 3 || !Interior(width, height, i / 4) ==> c == White
  {
    if i % 4 == 3 then White else PixelShade(gray, width, height, sqrt, i / 4)
  }

  /** The sketch's RGBA buffer, same dimensions as the source. */
  function SketchImage(gray: seq<real>, width: nat, height: nat, sqrt: real -> real): (out: seq<int>)
    requires |gray| == width * height
    ensures |out| == 4 * (width * height)
  {
    seq(4 * (width * height), i requires 0 <= i < 4 * (width * height) => Channel(gray, width, height, sqrt, i))
  }

  // ---------------------------------------------------------------------------
  // Properties of the sketch.

  /** Pixel (x, y) is byte range 4 * (y * width + x) .. + 3, and its row and column are y and x. */
  lemma PixelIndex(width: nat, height: nat, x: nat, y: nat)
    requires x < width && y < height
    ensures y * width + x < width * height
    ensures (y * width + x) / width == y && (y * width + x) % width == x
  {
    var p := y * width + x;
    MulMono(y, height - 1, width);
    assert (height - 1) * width == height * width - width;
    DivModUnique(width, p / width, p % width, y, x);
  }

  /** Quotient and remainder by `width` are unique. */
  lemma DivModUnique(width: nat, q: int, r: int, y: int, x: int)
    requires 0 <= r < width && 0 <= x < width && q * width + r == y * width + x
    ensures q == y && r == x
  {
    if q < y {
      MulMono(q + 1, y, width);
      assert false;
    } else if q > y {
      MulMono(y + 1, q, width);
      assert false;
    }
  }

  /** A pixel index below `width * height` lies in a row above `height`. */
  lemma RowInRange(width: nat, height: nat, p: nat)
    requires p < width * height
    ensures width > 0 && p / width < height
  {
    if p / width >= height {
      MulMono(height, p / width, width);
    }
  }

  /** Every pixel of the frame (row 0, row height-1, column 0, column width-1) is opaque white. */
  lemma BorderIsWhite(gray: seq<real>, width: nat, height: nat, sqrt: real -> real, x: nat, y: nat, c: nat)
    requires |gray| == width * height
    requires x < width && y < height && c < 4
    requires x == 0 || y == 0 || x == width - 1 || y == height - 1
    ensures 4 * (y * width + x) + c < 4 * (width * height)
    ensures SketchImage(gray, width, height, sqrt)[4 * (y * width + x) + c] == White
  {
    PixelIndex(width, height, x, y);
    var p := y * width + x;
    assert (4 * p + c) / 4 == p && (4 * p + c) % 4 == c;
    assert !Interior(width, height, p);
  }

  /** An image narrower or lower than three pixels has no interior and comes out entirely white. */
  lemma SmallImageIsWhite(gray: seq<real>, width: nat, height: nat, sqrt: real -> real)
    requires |gray| == width * height
    requires width < 3 || height < 3
    ensures forall i :: 0 <= i < 4 * (width * height) ==> SketchImage(gray, width, height, sqrt)[i] == White
  {
    forall i | 0 <= i < 4 * (width * height) ensures SketchImage(gray, width, height, sqrt)[i] == White {
      RowInRange(width, height, i / 4);
    }
  }

  /** Each pixel is an opaque gray: equal red, green and blue within [0, 255], alpha 255. */
  lemma PixelIsOpaqueGray(gray: seq<real>, width: nat, height: nat, sqrt: real -> real, p: nat)
    requires |gray| == width * height && p < width * height
    ensures var out := SketchImage(gray, width, height, sqrt);
      && 4 * p + 3 < |out|
      && out[4 * p] == out[4 * p + 1] == out[4 * p + 2]
      && 0 <= out[4 * p] <= 255
      && out[4 * p + 3] == White
  {
    var out := SketchImage(gray, width, height, sqrt);
    assert (4 * p) / 4 == p && (4 * p + 1) / 4 == p && (4 * p + 2) / 4 == p;
    assert (4 * p + 3) % 4 == 3;
  }

  /** Every read the filter makes for an interior pixel, and every byte it writes for it, is inside its buffer. */
  lemma InteriorAccessesInBounds(width: nat, height: nat, p: nat)
    requires p < width * height && Interior(width, height, p)
    ensures forall k :: 0 <= k < 9 ==> 0 <= Tap(width, p, k) < width * height
    ensures 4 * p + 3 < 4 * (width * height)
  {
    InteriorTaps(width, height, p);
  }

  /** The sum of the first `n` weights of a kernel. */
  function KernelSum(kernel: seq<int>, n: nat): int
    requires n <= |kernel|
  {
    if n == 0 then 0 else KernelSum(kernel, n - 1) + kernel[n - 1]
  }

  /** Both Sobel kernels weigh to zero. */
  lemma KernelsSumToZero()
    ensures KernelSum(SobelX, 9) == 0 && KernelSum(SobelY, 9) == 0
  {
  }

  /** Over a neighbourhood of equal values the kernel response is that value times the kernel's weight. */
  lemma {:induction false} ConvUniform(gray: seq<real>, width: nat, p: nat, kernel: seq<int>, n: nat, v: real)
    requires n <= 9 && |kernel| == 9
    requires width + 1 <= p && p + width + 1 < |gray|
    requires forall k :: 0 <= k < n ==> gray[Tap(width, p, k)] == v
    ensures Conv(gray, width, p, kernel, n) == v * KernelSum(kernel, n) as real
  {
    if n > 0 {
      ConvUniform(gray, width, p, kernel, n - 1, v);
    }
  }

  /** The 3x3 neighbourhood of `p` lies inside `gray` and holds one gray level. */
  predicate FlatAround(gray: seq<real>, width: nat, p: nat) {
    width + 1 <= p && p + width + 1 < |gray|
    && forall k :: 0 <= k < 9 ==> gray[Tap(width, p, k)] == gray[p]
  }

  /** A neighbourhood of one gray level has no gradient, so its pixel comes out white. */
  lemma UniformNeighbourhoodIsWhite(gray: seq<real>, width: nat, height: nat, sqrt: real -> real, p: nat)
    requires sqrt(0.0) == 0.0
    requires |gray| == width * height && p < width * height && Interior(width, height, p)
    requires FlatAround(gray, width, p)
    ensures PixelShade(gray, width, height, sqrt, p) == White
  {
    KernelsSumToZero();
    ConvUniform(gray, width, p, SobelX, 9, gray[p]);
    ConvUniform(gray, width, p, SobelY, 9, gray[p]);
  }

  /** An interior pixel is shaded from its two Sobel responses. */
  lemma InteriorShade(gray: seq<real>, width: nat, height: nat, sqrt: real -> real, p: nat)
    requires |gray| == width * height && p < width * height && Interior(width, height, p)
    requires width + 1 <= p && p + width + 1 < |gray|
    ensures PixelShade(gray, width, height, sqrt, p)
      == Shade(Conv(gray, width, p, SobelX, 9), Conv(gray, width, p, SobelY, 9), sqrt)
  {
  }

  /** An interior pixel with no gradient in either direction comes out white. */
  lemma NoGradientIsWhite(gray: seq<real>, width: nat, height: nat, sqrt: real -> real, p: nat)
    requires sqrt(0.0) == 0.0
    requires |gray| == width * height && p < width * height && Interior(width, height, p)
    requires width + 1 <= p && p + width + 1 < |gray|
    requires Conv(gray, width, p, SobelX, 9) == 0.0 && Conv(gray, width, p, SobelY, 9) == 0.0
    ensures PixelShade(gray, width, height, sqrt, p) == White
  {
    InteriorShade(gray, width, height, sqrt, p);
    assert 0.0 * 0.0 + 0.0 * 0.0 == 0.0;
  }

  /** An interior pixel whose scaled gradient magnitude reaches full brightness comes out black. */
  lemma StrongEdgeIsBlack(gray: seq<real>, width: nat, height: nat, sqrt: real -> real, p: nat, gx: real, gy: real)
    requires |gray| == width * height && p < width * height && Interior(width, height, p)
    requires width + 1 <= p && p + width + 1 < |gray|
    requires Conv(gray, width, p, SobelX, 9) == gx && Conv(gray, width, p, SobelY, 9) == gy
    requires sqrt(gx * gx + gy * gy) * EdgeScale >= 255.0
    ensures PixelShade(gray, width, height, sqrt, p) == 0
  {
    InteriorShade(gray, width, height, sqrt, p);
  }

  /** A uniform image (every pixel the same gray) comes out entirely opaque white. */
  lemma UniformImageIsWhite(gray: seq<real>, width: nat, height: nat, sqrt: real -> real)
    requires sqrt(0.0) == 0.0
    requires |gray| == width * height
    requires forall i, j :: 0 <= i < j < |gray| ==> gray[i] == gray[j]
    ensures forall i :: 0 <= i < 4 * (width * height) ==> SketchImage(gray, width, height, sqrt)[i] == White
  {
    forall i | 0 <= i < 4 * (width * height) ensures SketchImage(gray, width, height, sqrt)[i] == White {
      var p := i / 4;
      if Interior(width, height, p) {
        UniformIsFlat(gray, width, height, p);
        UniformNeighbourhoodIsWhite(gray, width, height, sqrt, p);
      }
    }
  }

  lemma UniformIsFlat(gray: seq<real>, width: nat, height: nat, p: nat)
    requires |gray| == width * height && p < width * height && Interior(width, height, p)
    requires forall i, j :: 0 <= i < j < |gray| ==> gray[i] == gray[j]
    ensures FlatAround(gray, width, p)
  {
    InteriorTaps(width, height, p);
    forall k | 0 <= k < 9 ensures gray[Tap(width, p, k)] == gray[p] {
      var t := Tap(width, p, k);
      if t < p { assert gray[t] == gray[p]; } else if t > p { assert gray[p] == gray[t]; }
    }
  }

  /** Storing a larger number never gives a smaller byte. */
  lemma ToUint8ClampMonotone(a: real, b: real)
    requires a <= b
    ensures ToUint8Clamp(a) <= ToUint8Clamp(b)
  {
    if 0.0 < a && b < 255.0 && a.Floor < b.Floor {
      assert ToUint8Clamp(a) <= a.Floor + 1 <= b.Floor <= ToUint8Clamp(b);
    }
  }

  /** For any non-decreasing square root, a pixel with the larger gradient comes out no lighter. */
  lemma StrongerEdgeIsDarker(gx1: real, gy1: real, gx2: real, gy2: real, sqrt: real -> real)
    requires forall x: real, y: real :: 0.0 <= x <= y ==> sqrt(x) <= sqrt(y)
    requires gx1 * gx1 + gy1 * gy1 <= gx2 * gx2 + gy2 * gy2
    ensures Shade(gx2, gy2, sqrt) <= Shade(gx1, gy1, sqrt)
  {
    var m1, m2 := gx1 * gx1 + gy1 * gy1, gx2 * gx2 + gy2 * gy2;
    assert 0.0 <= gx1 * gx1 && 0.0 <= gy1 * gy1;
    assert sqrt(m1) <= sqrt(m2);
    var c1 := Max(0.0, Min(255.0, sqrt(m1) * EdgeScale));
    var c2 := Max(0.0, Min(255.0, sqrt(m2) * EdgeScale));
    ToUint8ClampMonotone(255.0 - c2, 255.0 - c1);
  }

  /** A 4x4 all-black opaque image gives a 4x4 sketch that is opaque white at all 16 pixels. */
  lemma BlackFourByFourIsWhite(sqrt: real -> real)
    requires sqrt(0.0) == 0.0
    ensures var data := seq(64, i requires 0 <= i < 64 => if i % 4 == 3 then 255 else 0);
      forall i :: 0 <= i < 64 ==> SketchImage(GraySeq(data, 16), 4, 4, sqrt)[i] == White
  {
    var data := seq(64, i requires 0 <= i < 64 => if i % 4 == 3 then 255 else 0);
    var gray := GraySeq(data, 16);
    assert forall i :: 0 <= i < 16 ==> gray[i] == 0.0;
    UniformImageIsWhite(gray, 4, 4, sqrt);
  }
}
