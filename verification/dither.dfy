/**
 The dithered display component: the luma of each pixel plus an offset taken
 from a 2x2 ordered-dither matrix tiled over the image by position parity.
 */
module Dither {
  import opened ByteStores
  import opened Frames
  import opened Luminance

  /** The matrix, indexed `[y % 2][x % 2]`. */
  const DitherMatrix: seq<seq<int>> := [[0, 2], [3, 1]]

  /** `(DitherMatrix[y % 2][x % 2] / 4) * 255`. */
  function DitherOffset(x: nat, y: nat): (d: real)
    ensures d == 0.0 || d == 63.75 || d == 127.5 || d == 191.25
  {
    (DitherMatrix[y % 2][x % 2] as real / 4.0) * 255.0
  }

  /** The matrix holds each of 0..3 once. */
  lemma DitherMatrixEntries()
    ensures forall r, c | 0 <= r < 2 && 0 <= c < 2 :: 0 <= DitherMatrix[r][c] <= 3
    ensures multiset{DitherMatrix[0][0], DitherMatrix[0][1], DitherMatrix[1][0], DitherMatrix[1][1]}
         == multiset{0, 1, 2, 3}
  {
  }

  /** The pattern tiles the image: the offset depends on the parity of the
      coordinates only. */
  lemma DitherOffsetTiles(x: nat, y: nat, x': nat, y': nat)
    requires x % 2 == x' % 2 && y % 2 == y' % 2
    ensures DitherOffset(x, y) == DitherOffset(x', y')
  {
  }

  /** The dithered grey value at `(x, y)`, as stored into a
      `Uint8ClampedArray`: never darker than the plain grey value, equal to it
      where both coordinates are even, and clamped at 255 on overflow. */
  function DitheredValue(r: int, g: int, b: int, x: nat, y: nat): (v: int)
    ensures IsByte(v)
    ensures GreyValue(r, g, b) <= v
    ensures x % 2 == 0 && y % 2 == 0 ==> v == GreyValue(r, g, b)
    ensures Luma(r, g, b) + DitherOffset(x, y) >= 255.0 ==> v == 255
  {
    ToUint8ClampMonotone(Luma(r, g, b), Luma(r, g, b) + DitherOffset(x, y));
    ToUint8Clamp(Luma(r, g, b) + DitherOffset(x, y))
  }

  /** Row-major pixel number of `(x, y)` in an image `w` pixels wide. */
  function PixelIndex(w: nat, x: nat, y: nat): nat {
    y * w + x
  }

  /** The column of pixel number `p`, counted by whole rows (`p mod w`). */
  function Column(w: nat, p: nat): (x: nat)
    requires w > 0
    ensures x < w
    decreases p
  {
    if p < w then p else Column(w, p - w)
  }

  /** The row of pixel number `p` (`p div w`). */
  function Row(w: nat, p: nat): nat
    requires w > 0
    decreases p
  {
    if p < w then 0 else Row(w, p - w) + 1
  }

  lemma MulMonotone(a: nat, b: nat, c: nat)
    requires a <= b
    ensures a * c <= b * c
  {
  }

  lemma PixelInBounds(w: nat, h: nat, x: nat, y: nat)
    requires x < w && y < h
    ensures PixelIndex(w, x, y) < w * h
  {
    assert y * w + w == (y + 1) * w;
    MulMonotone(y + 1, h, w);
  }

  /** Row and column recover the coordinates a pixel number was made from. */
  lemma {:induction false} CoordinatesOfPixel(w: nat, x: nat, y: nat)
    requires x < w
    ensures Column(w, PixelIndex(w, x, y)) == x && Row(w, PixelIndex(w, x, y)) == y
    decreases y
  {
    if y > 0 {
      assert PixelIndex(w, x, y) - w == PixelIndex(w, x, y - 1);
      CoordinatesOfPixel(w, x, y - 1);
    }
  }

  /** Every pixel number is made from its row and column. */
  lemma {:induction false} PixelOfCoordinates(w: nat, p: nat)
    requires w > 0
    ensures PixelIndex(w, Column(w, p), Row(w, p)) == p
    decreases p
  {
    if p >= w {
      PixelOfCoordinates(w, p - w);
      assert (Row(w, p - w) + 1) * w == Row(w, p - w) * w + w;
    }
  }

  lemma RowInBounds(w: nat, h: nat, p: nat)
    requires w > 0 && p < w * h
    ensures Row(w, p) < h
  {
    PixelOfCoordinates(w, p);
    if Row(w, p) >= h {
      MulMonotone(h, Row(w, p), w);
    }
  }

  /** The nested loops visit every pixel exactly once: `(x, y) -> y * w + x`
      maps the `w` by `h` grid one-to-one onto `0 .. w * h - 1`. */
  lemma PixelIndexBijection(w: nat, h: nat)
    ensures forall x: nat, y: nat | x < w && y < h :: PixelIndex(w, x, y) < w * h
    ensures forall x: nat, y: nat, x': nat, y': nat | x < w && y < h && x' < w && y' < h
              && PixelIndex(w, x, y) == PixelIndex(w, x', y') :: x == x' && y == y'
    ensures w > 0 ==> forall p: nat | p < w * h ::
              Row(w, p) < h && PixelIndex(w, Column(w, p), Row(w, p)) == p
  {
    forall x: nat, y: nat | x < w && y < h
      ensures PixelIndex(w, x, y) < w * h
    {
      PixelInBounds(w, h, x, y);
    }
    forall x: nat, y: nat, x': nat, y': nat | x < w && y < h && x' < w && y' < h
      && PixelIndex(w, x, y) == PixelIndex(w, x', y')
      ensures x == x' && y == y'
    {
      CoordinatesOfPixel(w, x, y);
      CoordinatesOfPixel(w, x', y');
    }
    if w > 0 {
      forall p: nat | p < w * h
        ensures Row(w, p) < h && PixelIndex(w, Column(w, p), Row(w, p)) == p
      {
        RowInBounds(w, h, p);
        PixelOfCoordinates(w, p);
      }
    }
  }

  /** The dithered value of pixel number `p` of an image `w` pixels wide. */
  function PixelDithered(rgb: seq<int>, w: nat, p: nat): int
    requires 3 * p + 2 < |rgb| && w > 0
  {
    DitheredValue(rgb[RgbOffset(p, 0)], rgb[RgbOffset(p, 1)], rgb[RgbOffset(p, 2)], Column(w, p), Row(w, p))
  }

  /** Channel `k` of pixel `p` in the dithered display. */
  function DitherSlot(rgb: seq<int>, w: nat, p: nat, k: nat): int
    requires 3 * p + 2 < |rgb| && w > 0 && k < 4
  {
    if k == 3 then 255 else PixelDithered(rgb, w, p)
  }

  /** Reference image: slot `i` holds channel `i % 4` of pixel `i / 4`. */
  function DitherImage(rgb: seq<int>, w: nat, n: nat): seq<int>
    requires |rgb| == 3 * n && (n > 0 ==> w > 0)
  {
    seq(4 * n, i requires 0 <= i < 4 * n => DitherSlot(rgb, w, i / 4, i % 4))
  }

  /** The nested loops over rows `y` and columns `x`, writing the slot at
      `(y * w + x) * 4` from the triple at `(y * w + x) * 3`. */
  method DitherToRgba(rgb: seq<int>, w: nat, h: nat) returns (rgba: seq<int>)
    requires |rgb| == 3 * (w * h)
    ensures w * h > 0 ==> w > 0
    ensures rgba == DitherImage(rgb, w, w * h)
    ensures |rgba| == 4 * (w * h)
  {
    var n := w * h;
    NonEmptyHasWidth(w, h);
    rgba := seq(4 * n, _ => 0);
    var y := 0;
    while y < h
      invariant 0 <= y <= h && PixelIndex(w, 0, y) <= n
      invariant |rgba| == 4 * n
      invariant forall j | 0 <= j < 4 * PixelIndex(w, 0, y) :: rgba[j] == DitherImage(rgb, w, n)[j]
    {
      rgba := DitherRow(rgb, w, h, y, rgba);
      NextRow(w, h, y);
      y := y + 1;
    }
    assert PixelIndex(w, 0, y) == n;
  }

  /** One pass of the inner loop: row `y`, columns `x = 0 .. w - 1`. Every
      pixel of the earlier rows is already written. */
  method DitherRow(rgb: seq<int>, w: nat, h: nat, y: nat, rows: seq<int>) returns (rgba: seq<int>)
    requires |rgb| == 3 * (w * h) && |rows| == 4 * (w * h) && y < h
    requires forall j | 0 <= j < 4 * PixelIndex(w, 0, y) :: rows[j] == DitherImage(rgb, w, w * h)[j]
    ensures |rgba| == 4 * (w * h) && PixelIndex(w, 0, y) + w <= w * h
    ensures forall j | 0 <= j < 4 * (PixelIndex(w, 0, y) + w) :: rgba[j] == DitherImage(rgb, w, w * h)[j]
  {
    var n := w * h;
    NonEmptyHasWidth(w, h);
    ghost var image := DitherImage(rgb, w, n);
    ghost var rowStart := PixelIndex(w, 0, y);
    NextRow(w, h, y);
    rgba := rows;
    var x := 0;
    while x < w
      invariant 0 <= x <= w && rowStart + x <= n
      invariant |rgba| == 4 * n
      invariant forall j | 0 <= j < 4 * (rowStart + x) :: rgba[j] == image[j]
    {
      ghost var p := PixelIndex(w, x, y);
      assert p == rowStart + x;
      var pixelLocation := (y * w + x) * 4;
      assert pixelLocation == 4 * p;
      SlotOf(p, 0);
      var rgbIndex := RgbIndex(pixelLocation);
      assert rgbIndex == 3 * p;

      var greyValue := Luma(rgb[rgbIndex], rgb[rgbIndex + 1], rgb[rgbIndex + 2]);

      var ditherValue := DitherMatrix[y % 2][x % 2];
      var ditheredValue := greyValue + (ditherValue as real / 4.0) * 255.0;

      DitheredOf(rgb, w, x, y, ditheredValue);
      DitherStep(rgb, w, n, rgba, pixelLocation, p);
      rgba := rgba[pixelLocation := ToUint8Clamp(ditheredValue)];
      rgba := rgba[pixelLocation + 1 := ToUint8Clamp(ditheredValue)];
      rgba := rgba[pixelLocation + 2 := ToUint8Clamp(ditheredValue)];
      rgba := rgba[pixelLocation + 3 := 255];
      x := x + 1;
    }
  }

  /** One pass of the inner loop at pixel `p`, slot `i = 4p`, extends the
      matched prefix. */
  lemma DitherStep(rgb: seq<int>, w: nat, n: nat, rgba: seq<int>, i: nat, p: nat)
    requires |rgb| == 3 * n && |rgba| == 4 * n && w > 0 && i == 4 * p && p < n
    requires forall j | 0 <= j < i :: rgba[j] == DitherImage(rgb, w, n)[j]
    ensures var v := PixelDithered(rgb, w, p);
            forall j | 0 <= j < i + 4 ::
              rgba[i := v][i + 1 := v][i + 2 := v][i + 3 := 255][j] == DitherImage(rgb, w, n)[j]
  {
    DitherPixelAt(rgb, w, n, p);
    var v := PixelDithered(rgb, w, p);
    ExtendPrefix(rgba, DitherImage(rgb, w, n), i, v, v, v, 255);
  }

  /** The loop's dithered value at `(x, y)` is stored as `PixelDithered`. */
  lemma DitheredOf(rgb: seq<int>, w: nat, x: nat, y: nat, v: real)
    requires x < w && 3 * PixelIndex(w, x, y) + 2 < |rgb|
    requires v == Luma(rgb[3 * PixelIndex(w, x, y)], rgb[3 * PixelIndex(w, x, y) + 1],
                       rgb[3 * PixelIndex(w, x, y) + 2])
                  + (DitherMatrix[y % 2][x % 2] as real / 4.0) * 255.0
    ensures ToUint8Clamp(v) == PixelDithered(rgb, w, PixelIndex(w, x, y))
  {
    CoordinatesOfPixel(w, x, y);
  }

  lemma NonEmptyHasWidth(w: nat, h: nat)
    ensures w * h > 0 ==> w > 0
  {
  }

  lemma NextRow(w: nat, h: nat, y: nat)
    requires y < h
    ensures PixelIndex(w, 0, y) + w == PixelIndex(w, 0, y + 1) <= w * h
  {
    assert y * w + w == (y + 1) * w;
    MulMonotone(y + 1, h, w);
  }

  lemma DitherSlotAt(rgb: seq<int>, w: nat, n: nat, p: nat, k: nat, i: nat)
    requires |rgb| == 3 * n && w > 0 && p < n && k < 4 && i == 4 * p + k
    ensures DitherImage(rgb, w, n)[i] == DitherSlot(rgb, w, p, k)
  {
    SlotOf(p, k);
  }

  lemma DitherPixelAt(rgb: seq<int>, w: nat, n: nat, p: nat)
    requires |rgb| == 3 * n && w > 0 && p < n
    ensures DitherImage(rgb, w, n)[4 * p] == PixelDithered(rgb, w, p)
    ensures DitherImage(rgb, w, n)[4 * p + 1] == PixelDithered(rgb, w, p)
    ensures DitherImage(rgb, w, n)[4 * p + 2] == PixelDithered(rgb, w, p)
    ensures DitherImage(rgb, w, n)[4 * p + 3] == 255
  {
    DitherSlotAt(rgb, w, n, p, 0, 4 * p);
    DitherSlotAt(rgb, w, n, p, 1, 4 * p + 1);
    DitherSlotAt(rgb, w, n, p, 2, 4 * p + 2);
    DitherSlotAt(rgb, w, n, p, 3, 4 * p + 3);
  }

  /** All three colour slots of a pixel hold its dithered value, and the
      alpha slot is opaque. */
  lemma DitherImagePixels(rgb: seq<int>, w: nat, n: nat)
    requires |rgb| == 3 * n && (n > 0 ==> w > 0)
    ensures |DitherImage(rgb, w, n)| == 4 * n
    ensures forall p: nat, k: nat | p < n && k < 3 ::
              DitherImage(rgb, w, n)[RgbaOffset(p, k)] == PixelDithered(rgb, w, p)
    ensures forall p: nat | p < n :: DitherImage(rgb, w, n)[RgbaOffset(p, 3)] == 255
  {
    forall p: nat, k: nat | p < n && k < 3
      ensures DitherImage(rgb, w, n)[RgbaOffset(p, k)] == PixelDithered(rgb, w, p)
    {
      DitherSlotAt(rgb, w, n, p, k, RgbaOffset(p, k));
    }
    forall p: nat | p < n
      ensures DitherImage(rgb, w, n)[RgbaOffset(p, 3)] == 255
    {
      DitherSlotAt(rgb, w, n, p, 3, RgbaOffset(p, 3));
    }
  }

  /** At coordinates `(x, y)` the dithered buffer holds, in all three colour
      slots at `(y * w + x) * 4`, the dithered grey value of the triple at
      `(y * w + x) * 3` with the matrix entry for `(y % 2, x % 2)`. */
  lemma DitherImageAtCoordinates(rgb: seq<int>, w: nat, h: nat, x: nat, y: nat)
    requires |rgb| == 3 * (w * h) && x < w && y < h
    ensures PixelIndex(w, x, y) < w * h
    ensures DitherImage(rgb, w, w * h)[RgbaOffset(PixelIndex(w, x, y), 0)] == DitheredValue(
              rgb[RgbOffset(PixelIndex(w, x, y), 0)], rgb[RgbOffset(PixelIndex(w, x, y), 1)],
              rgb[RgbOffset(PixelIndex(w, x, y), 2)], x, y)
  {
    PixelInBounds(w, h, x, y);
    CoordinatesOfPixel(w, x, y);
    DitherPixelAt(rgb, w, w * h, PixelIndex(w, x, y));
  }

  /** The dithered display: validate the first page, then convert it. */
  method RenderDithered(pages: seq<Frame>) returns (r: Outcome<Raster>)
    ensures r.Ok? <==> Renderable(pages)
    ensures |pages| == 0 ==> r == Err(NoPagesFound)
    ensures |pages| > 0 && !Renderable(pages) ==> r == Err(InvalidPixelDataLength)
    ensures r.Ok? ==> r.value == Raster(pages[0].width, pages[0].height,
                                        DitherImage(pages[0].data, pages[0].width, PixelCount(pages[0])))
    ensures r.Ok? ==> |r.value.rgba| == 4 * PixelCount(pages[0])
  {
    match FirstFrame(pages)
    case Err(e) =>
      r := Err(e);
    case Ok(f) =>
      var rgba := DitherToRgba(f.data, f.width, f.height);
      r := Ok(Raster(f.width, f.height, rgba));
  }
}
