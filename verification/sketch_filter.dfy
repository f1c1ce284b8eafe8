/**
  The pencil-sketch generator as the page runs it: loops over a grayscale
  buffer and an output RGBA buffer, each proved to produce the buffers that
  SketchSpec describes.
 */
module SketchFilter {
  import opened SketchSpec
  import opened Optional

  /** The pixels read back from the canvas after drawing the loaded image: RGBA bytes, row by row. */
  datatype Bitmap = Bitmap(data: array<int>, width: nat, height: nat)

  /** Why the returned promise rejects: the image failed to load, or no 2D canvas context was available. */
  datatype SketchError = SourceUnavailable | CanvasUnavailable

  datatype Result<T> = Success(value: T) | Failure(error: SketchError)

  /** The first loop: one luma sample per pixel of the RGBA buffer `data`. */
  method Grayscale(data: array<int>, pixelCount: nat) returns (gray: array<real>)
    requires data.Length == 4 * pixelCount
    ensures gray.Length == pixelCount
    ensures gray[..] == GraySeq(data[..], pixelCount)
  {
    gray := new real[pixelCount];
    for i := 0 to pixelCount
      invariant forall j :: 0 <= j < i ==> gray[j] == Luma(data[4 * j], data[4 * j + 1], data[4 * j + 2])
    {
      var idx := i * 4;
      gray[i] := Luma(data[idx], data[idx + 1], data[idx + 2]);
    }
  }

  /** The second loop: every byte of the fresh output buffer becomes 255, four at a time. */
  method FillWhite(out: array<int>)
    requires out.Length % 4 == 0
    modifies out
    ensures forall i :: 0 <= i < out.Length ==> out[i] == White
  {
    var i := 0;
    while i < out.Length
      invariant 0 <= i <= out.Length && i % 4 == 0
      invariant forall j :: 0 <= j < i ==> out[j] == White
    {
      out[i] := 255;
      out[i + 1] := 255;
      out[i + 2] := 255;
      out[i + 3] := 255;
      i := i + 4;
    }
  }

  /** The kernel loops: both Sobel responses at pixel `idx`, tap by tap (`ky` outer, `kx` inner). */
  method Gradients(gray: array<real>, width: nat, idx: nat) returns (gx: real, gy: real)
    requires width + 1 <= idx && idx + width + 1 < gray.Length
    ensures gx == Conv(gray[..], width, idx, SobelX, 9)
    ensures gy == Conv(gray[..], width, idx, SobelY, 9)
  {
    ghost var g := gray[..];
    gx, gy := 0.0, 0.0;
    var k := 0;
    for ky := -1 to 2
      invariant k == 3 * (ky + 1)
      invariant gx == Conv(g, width, idx, SobelX, k) && gy == Conv(g, width, idx, SobelY, k)
    {
      for kx := -1 to 2
        invariant k == 3 * (ky + 1) + (kx + 1)
        invariant gx == Conv(g, width, idx, SobelX, k) && gy == Conv(g, width, idx, SobelY, k)
      {
        TapIsOffset(width, idx, ky, kx, k);
        var pixel := gray[idx + ky * width + kx];
        KernelStep(g, width, idx, k, gx, gy, pixel);
        gx := gx + pixel * SobelX[k] as real;
        gy := gy + pixel * SobelY[k] as real;
        k := k + 1;
      }
    }
  }

  /** Adding tap `k`'s weighted sample extends both partial responses by one tap. */
  lemma KernelStep(g: seq<real>, width: nat, p: nat, k: nat, gx: real, gy: real, pixel: real)
    requires k < 9 && width + 1 <= p && p + width + 1 < |g|
    requires gx == Conv(g, width, p, SobelX, k) && gy == Conv(g, width, p, SobelY, k)
    requires pixel == g[Tap(width, p, k)]
    ensures gx + pixel * SobelX[k] as real == Conv(g, width, p, SobelX, k + 1)
    ensures gy + pixel * SobelY[k] as real == Conv(g, width, p, SobelY, k + 1)
  {
  }

  /** Tap `k` is the neighbour at row offset `ky` and column offset `kx`, within one row and column of `idx`. */
  lemma TapIsOffset(width: nat, idx: nat, ky: int, kx: int, k: nat)
    requires -1 <= ky <= 1 && -1 <= kx <= 1 && k == 3 * (ky + 1) + (kx + 1)
    ensures Tap(width, idx, k) == idx + ky * width + kx
    ensures idx - width - 1 <= Tap(width, idx, k) <= idx + width + 1
  {
    if ky == -1 {
      assert ky * width == -(width as int);
    } else if ky == 1 {
      assert ky * width == width;
    } else {
      assert ky * width == 0;
    }
  }

  /** Pixel `p` has been written once the row loop is at row `y` and the column loop at column `x`. */
  predicate Processed(width: nat, y: int, x: int, p: nat) {
    width > 0 && (p / width < y || (p / width == y && p % width < x))
  }

  /** Byte `i` of the output buffer once the loops have reached row `y`, column `x`. */
  function Partial(g: seq<real>, width: nat, height: nat, sqrt: real -> real, y: int, x: int, i: nat): int
    requires |g| == width * height && i < 4 * (width * height)
  {
    if Processed(width, y, x, i / 4) then Channel(g, width, height, sqrt, i) else White
  }

  /** Writing pixel `idx` = (x, y) advances the column loop by one. */
  lemma ColumnStep(g: seq<real>, width: nat, height: nat, sqrt: real -> real, y: nat, x: nat, idx: nat,
                   before: seq<int>, after: seq<int>, v: int)
    requires |g| == width * height && x < width && idx == y * width + x && idx < width * height
    requires |before| == 4 * (width * height) && v == PixelShade(g, width, height, sqrt, idx)
    requires forall i :: 0 <= i < |before| ==> before[i] == Partial(g, width, height, sqrt, y, x, i)
    requires after == before[4 * idx := v][4 * idx + 1 := v][4 * idx + 2 := v][4 * idx + 3 := White]
    ensures forall i :: 0 <= i < |after| ==> after[i] == Partial(g, width, height, sqrt, y, x + 1, i)
  {
    forall i | 0 <= i < |after| ensures after[i] == Partial(g, width, height, sqrt, y, x + 1, i) {
      ProcessedStep(width, y, x, idx, i / 4);
    }
  }

  /** The value the loop body stores for pixel `idx` is that pixel's shade. */
  lemma StoredShade(g: seq<real>, width: nat, height: nat, sqrt: real -> real, x: nat, y: nat, gx: real, gy: real)
    requires |g| == width * height && 1 <= x <= width - 2 && 1 <= y <= height - 2
    requires var idx := y * width + x;
      width + 1 <= idx && idx + width + 1 < |g|
      && gx == Conv(g, width, idx, SobelX, 9) && gy == Conv(g, width, idx, SobelY, 9)
    ensures y * width + x < width * height
    ensures ToUint8Clamp(255.0 - Max(0.0, Min(255.0, sqrt(gx * gx + gy * gy) * EdgeScale)))
      == PixelShade(g, width, height, sqrt, y * width + x)
  {
    var idx := y * width + x;
    PixelIndex(width, height, x, y);
    assert Interior(width, height, idx);
    assert PixelShade(g, width, height, sqrt, idx) == Shade(gx, gy, sqrt);
    ShadeSteps(gx, gy, sqrt);
  }

  /** `Shade` is the magnitude, clamp and inversion the loop body performs, in that order. */
  lemma ShadeSteps(gx: real, gy: real, sqrt: real -> real)
    ensures Shade(gx, gy, sqrt) == ToUint8Clamp(255.0 - Max(0.0, Min(255.0, sqrt(gx * gx + gy * gy) * EdgeScale)))
  {
  }

  /** Advancing the column loop past pixel `idx` adds exactly that pixel to the processed ones. */
  lemma ProcessedStep(width: nat, y: nat, x: nat, idx: nat, p: nat)
    requires x < width && idx == y * width + x
    ensures Processed(width, y, x + 1, p) <==> Processed(width, y, x, p) || p == idx
  {
    DivModUnique(width, idx / width, idx % width, y, x);
    if p / width == y && p % width == x {
      assert p == y * width + x;
    }
  }

  /** Column 0 is frame: starting the column loop at 1 skips only white pixels. */
  lemma RowStart(g: seq<real>, width: nat, height: nat, sqrt: real -> real, y: int, i: nat)
    requires |g| == width * height && i < 4 * (width * height)
    ensures Partial(g, width, height, sqrt, y, 0, i) == Partial(g, width, height, sqrt, y, 1, i)
  {
  }

  /** Columns from width-1 on are frame: the row is finished once the column loop stops. */
  lemma RowEnd(g: seq<real>, width: nat, height: nat, sqrt: real -> real, y: int, x: int, i: nat)
    requires |g| == width * height && i < 4 * (width * height)
    requires x >= width - 1
    ensures Partial(g, width, height, sqrt, y, x, i) == Partial(g, width, height, sqrt, y + 1, 0, i)
  {
  }

  /** Rows from height-1 on are frame: the image is finished once the row loop stops. */
  lemma ImageEnd(g: seq<real>, width: nat, height: nat, sqrt: real -> real, y: int, i: nat)
    requires |g| == width * height && i < 4 * (width * height)
    requires 1 <= y && y >= height - 1
    ensures Partial(g, width, height, sqrt, y, 0, i) == Channel(g, width, height, sqrt, i)
  {
    RowInRange(width, height, i / 4);
  }

  /** The pixel loops: every interior pixel of `out` receives its shade and alpha 255. */
  method SobelPass(gray: array<real>, width: nat, height: nat, sqrt: real -> real, out: array<int>)
    requires gray.Length == width * height && out.Length == 4 * (width * height)
    requires forall i :: 0 <= i < out.Length ==> out[i] == White
    modifies out
    ensures out[..] == SketchImage(gray[..], width, height, sqrt)
  {
    ghost var g := gray[..];
    var y := 1;
    while y < height - 1
      invariant 1 <= y
      invariant forall i :: 0 <= i < out.Length ==> out[i] == Partial(g, width, height, sqrt, y, 0, i)
    {
      forall i | 0 <= i < out.Length
        ensures Partial(g, width, height, sqrt, y, 0, i) == Partial(g, width, height, sqrt, y, 1, i)
      {
        RowStart(g, width, height, sqrt, y, i);
      }
      var x := 1;
      while x < width - 1
        invariant 1 <= x
        invariant forall i :: 0 <= i < out.Length ==> out[i] == Partial(g, width, height, sqrt, y, x, i)
      {
        var idx := y * width + x;
        PixelIndex(width, height, x, y);
        InteriorTaps(width, height, idx);
        var gx, gy := Gradients(gray, width, idx);
        var magnitude := sqrt(gx * gx + gy * gy) * EdgeScale;
        magnitude := Max(0.0, Min(255.0, magnitude));
        var val := 255.0 - magnitude;
        StoredShade(g, width, height, sqrt, x, y, gx, gy);
        var outIdx := idx * 4;
        ghost var before := out[..];
        out[outIdx] := ToUint8Clamp(val);
        out[outIdx + 1] := ToUint8Clamp(val);
        out[outIdx + 2] := ToUint8Clamp(val);
        out[outIdx + 3] := 255;
        assert out[..] == before[outIdx := ToUint8Clamp(val)][outIdx + 1 := ToUint8Clamp(val)]
                                [outIdx + 2 := ToUint8Clamp(val)][outIdx + 3 := White];
        ColumnStep(g, width, height, sqrt, y, x, idx, before, out[..], ToUint8Clamp(val));
        forall i | 0 <= i < out.Length ensures out[i] == Partial(g, width, height, sqrt, y, x + 1, i) {
          assert out[i] == out[..][i];
        }
        x := x + 1;
      }
      forall i | 0 <= i < out.Length
        ensures Partial(g, width, height, sqrt, y, x, i) == Partial(g, width, height, sqrt, y + 1, 0, i)
      {
        RowEnd(g, width, height, sqrt, y, x, i);
      }
      y := y + 1;
    }
    forall i | 0 <= i < out.Length
      ensures out[i] == Channel(g, width, height, sqrt, i)
    {
      ImageEnd(g, width, height, sqrt, y, i);
    }
  }

  /**
    The whole generator: load the image, get a 2D context, compute the sketch.
    `source` is the bitmap read back once the image has loaded, or None when
    it failed to load; `hasContext` is whether `getContext('2d')` returned one.
   */
  method GenerateSketch(source: Option<Bitmap>, hasContext: bool, sqrt: real -> real) returns (r: Result<array<int>>)
    requires source.Some? ==> source.value.data.Length == 4 * (source.value.width * source.value.height)
    ensures source.None? ==> r == Failure(SourceUnavailable)
    ensures source.Some? && !hasContext ==> r == Failure(CanvasUnavailable)
    ensures source.Some? && hasContext ==>
              && r.Success? && fresh(r.value)
              && r.value[..] == SketchImage(GraySeq(old(source.value.data[..]), source.value.width * source.value.height),
                                            source.value.width, source.value.height, sqrt)
  {
    if source.None? {
      return Failure(SourceUnavailable);
    }
    if !hasContext {
      return Failure(CanvasUnavailable);
    }
    var Bitmap(data, width, height) := source.value;
    var pixelCount := width * height;
    var gray := Grayscale(data, pixelCount);
    var out := new int[4 * pixelCount](_ => 0);
    FillWhite(out);
    SobelPass(gray, width, height, sqrt, out);
    return Success(out);
  }
}
