/**
 The grey display component: each pixel's luma is written into all three
 colour samples of a fresh RGBA buffer, with opaque alpha.
 */
module GreyDisplay {
  import opened ByteStores
  import opened Frames
  import opened Luminance
  import opened Expansion

  /** The grey value of pixel `p` of the RGB data. */
  function PixelGrey(rgb: seq<int>, p: nat): int
    requires 3 * p + 2 < |rgb|
  {
    GreyValue(rgb[RgbOffset(p, 0)], rgb[RgbOffset(p, 1)], rgb[RgbOffset(p, 2)])
  }

  /** Channel `k` of pixel `p` in the grey display. */
  function GreySlot(rgb: seq<int>, p: nat, k: nat): int
    requires 3 * p + 2 < |rgb| && k < 4
  {
    if k == 3 then 255 else PixelGrey(rgb, p)
  }

  /** Reference image: three copies of each pixel's grey value, then alpha. */
  function GreyImage(rgb: seq<int>, n: nat): seq<int>
    requires |rgb| == 3 * n
  {
    seq(4 * n, i requires 0 <= i < 4 * n => GreySlot(rgb, i / 4, i % 4))
  }

  /** The grey loop over the RGBA buffer in steps of four: the luma of the
      triple at `(i / 4) * 3` is stored into the three colour slots. */
  method GreyToRgba(rgb: seq<int>, n: nat) returns (rgba: seq<int>)
    requires |rgb| == 3 * n
    ensures rgba == GreyImage(rgb, n)
    ensures |rgba| == 4 * n
  {
    rgba := seq(4 * n, _ => 0);
    ghost var image := GreyImage(rgb, n);
    var i := 0;
    ghost var p: nat := 0;
    while i < |rgba|
      invariant p <= n && i == 4 * p
      invariant |rgba| == 4 * n
      invariant forall j | 0 <= j < i :: rgba[j] == image[j]
    {
      var rgbIndex := RgbIndex(i);
      var greyValue := Luma(rgb[rgbIndex], rgb[rgbIndex + 1], rgb[rgbIndex + 2]);
      GreyStep(rgb, n, rgba, i, p);
      rgba := rgba[i := ToUint8Clamp(greyValue)];
      rgba := rgba[i + 1 := ToUint8Clamp(greyValue)];
      rgba := rgba[i + 2 := ToUint8Clamp(greyValue)];
      rgba := rgba[i + 3 := 255];
      i, p := i + 4, p + 1;
    }
  }

  /** One pass of the grey loop at `i = 4p` extends the matched prefix. */
  lemma GreyStep(rgb: seq<int>, n: nat, rgba: seq<int>, i: nat, p: nat)
    requires |rgb| == 3 * n && |rgba| == 4 * n && i == 4 * p && p < n
    requires forall j | 0 <= j < i :: rgba[j] == GreyImage(rgb, n)[j]
    ensures RgbIndex(i) + 2 < |rgb|
    ensures var g := ToUint8Clamp(Luma(rgb[RgbIndex(i)], rgb[RgbIndex(i) + 1], rgb[RgbIndex(i) + 2]));
            forall j | 0 <= j < i + 4 ::
              rgba[i := g][i + 1 := g][i + 2 := g][i + 3 := 255][j] == GreyImage(rgb, n)[j]
  {
    SlotOf(p, 0);
    assert RgbIndex(i) == 3 * p && RgbIndex(i) + 1 == 3 * p + 1 && RgbIndex(i) + 2 == 3 * p + 2;
    GreyPixelAt(rgb, n, p);
    var g := ToUint8Clamp(Luma(rgb[RgbIndex(i)], rgb[RgbIndex(i) + 1], rgb[RgbIndex(i) + 2]));
    ExtendPrefix(rgba, GreyImage(rgb, n), i, g, g, g, 255);
  }

  lemma GreySlotAt(rgb: seq<int>, n: nat, p: nat, k: nat, i: nat)
    requires |rgb| == 3 * n && p < n && k < 4 && i == 4 * p + k
    ensures GreyImage(rgb, n)[i] == GreySlot(rgb, p, k)
  {
    SlotOf(p, k);
  }

  lemma GreyPixelAt(rgb: seq<int>, n: nat, p: nat)
    requires |rgb| == 3 * n && p < n
    ensures GreyImage(rgb, n)[4 * p] == PixelGrey(rgb, p)
    ensures GreyImage(rgb, n)[4 * p + 1] == PixelGrey(rgb, p)
    ensures GreyImage(rgb, n)[4 * p + 2] == PixelGrey(rgb, p)
    ensures GreyImage(rgb, n)[4 * p + 3] == 255
  {
    var g := PixelGrey(rgb, p);
    GreySlotAt(rgb, n, p, 0, 4 * p);
    GreySlotAt(rgb, n, p, 1, 4 * p + 1);
    GreySlotAt(rgb, n, p, 2, 4 * p + 2);
    GreySlotAt(rgb, n, p, 3, 4 * p + 3);
    assert GreySlot(rgb, p, 0) == g && GreySlot(rgb, p, 1) == g && GreySlot(rgb, p, 2) == g;
  }

  /** All three colour slots of a pixel hold the same value, its grey value,
      and the alpha slot is opaque. */
  lemma GreyImagePixels(rgb: seq<int>, n: nat)
    requires |rgb| == 3 * n
    ensures |GreyImage(rgb, n)| == 4 * n
    ensures forall p: nat, k: nat | p < n && k < 3 ::
              GreyImage(rgb, n)[RgbaOffset(p, k)] == PixelGrey(rgb, p)
    ensures forall p: nat | p < n :: GreyImage(rgb, n)[RgbaOffset(p, 3)] == 255
  {
    forall p: nat, k: nat | p < n && k < 3
      ensures GreyImage(rgb, n)[RgbaOffset(p, k)] == PixelGrey(rgb, p)
    {
      GreySlotAt(rgb, n, p, k, RgbaOffset(p, k));
    }
    forall p: nat | p < n
      ensures GreyImage(rgb, n)[RgbaOffset(p, 3)] == 255
    {
      GreySlotAt(rgb, n, p, 3, RgbaOffset(p, 3));
    }
  }

  /** On an image whose pixels are already grey bytes, the grey display
      shows exactly what the plain display shows. */
  lemma GreyImageOfGreyData(rgb: seq<int>, n: nat)
    requires |rgb| == 3 * n
    requires AllBytes(rgb)
    requires forall p: nat | p < n :: rgb[RgbOffset(p, 0)] == rgb[RgbOffset(p, 1)] == rgb[RgbOffset(p, 2)]
    ensures GreyImage(rgb, n) == ExpandedImage(rgb, n)
  {
    forall i | 0 <= i < 4 * n
      ensures GreyImage(rgb, n)[i] == ExpandedImage(rgb, n)[i]
    {
      var p, k := i / 4, i % 4;
      GreySlotAt(rgb, n, p, k, i);
      ExpandedSlotAt(rgb, n, p, k, i);
      var v := rgb[RgbOffset(p, 0)];
      GreyOfGreyPixel(v);
      assert PixelGrey(rgb, p) == v;
      StoreClampedKeepsBytes(v);
      assert k < 3 ==> ExpandedSlot(rgb, p, k) == v;
    }
  }

  /** A 2x2 example image: the luma values 18.15, 48.15, 78.15
      and 108.15 are stored as 18, 48, 78 and 108. */
  lemma GreyExample()
    ensures GreyImage([10, 20, 30, 40, 50, 60, 70, 80, 90, 100, 110, 120], 4)
         == [18, 18, 18, 255, 48, 48, 48, 255, 78, 78, 78, 255, 108, 108, 108, 255]
  {
    var rgb := [10, 20, 30, 40, 50, 60, 70, 80, 90, 100, 110, 120];
    GreyExamplePixels();
    GreyPixelAt(rgb, 4, 0);
    GreyPixelAt(rgb, 4, 1);
    GreyPixelAt(rgb, 4, 2);
    GreyPixelAt(rgb, 4, 3);
  }

  /** The grey values of the four pixels of the 2x2 example. */
  lemma GreyExamplePixels()
    ensures PixelGrey([10, 20, 30, 40, 50, 60, 70, 80, 90, 100, 110, 120], 0) == 18
    ensures PixelGrey([10, 20, 30, 40, 50, 60, 70, 80, 90, 100, 110, 120], 1) == 48
    ensures PixelGrey([10, 20, 30, 40, 50, 60, 70, 80, 90, 100, 110, 120], 2) == 78
    ensures PixelGrey([10, 20, 30, 40, 50, 60, 70, 80, 90, 100, 110, 120], 3) == 108
  {
    GreyValueExample(10, 20, 30, 18.15, 18);
    GreyValueExample(40, 50, 60, 48.15, 48);
    GreyValueExample(70, 80, 90, 78.15, 78);
    GreyValueExample(100, 110, 120, 108.15, 108);
  }

  /** One pixel of the 2x2 example: its luma is `y`, stored as `v`. */
  lemma GreyValueExample(r: int, g: int, b: int, y: real, v: int)
    requires Luma(r, g, b) == y && 0.0 < y < 255.0 && y.Floor == v && y - v as real < 0.5
    ensures GreyValue(r, g, b) == v
  {
  }

  /** An exact tie: the pixel (0, 80, 110) has luma 59.5, which the
      clamped store rounds to the even neighbour 60. */
  lemma GreyTieExample()
    ensures Luma(0, 80, 110) == 59.5
    ensures GreyValue(0, 80, 110) == 60
  {
    assert RoundHalfEven(59.5) == 60;
  }

  /** The grey display: validate the first page, then convert it. */
  method RenderGrey(pages: seq<Frame>) returns (r: Outcome<Raster>)
    ensures r.Ok? <==> Renderable(pages)
    ensures |pages| == 0 ==> r == Err(NoPagesFound)
    ensures |pages| > 0 && !Renderable(pages) ==> r == Err(InvalidPixelDataLength)
    ensures r.Ok? ==> r.value == Raster(pages[0].width, pages[0].height,
                                        GreyImage(pages[0].data, PixelCount(pages[0])))
    ensures r.Ok? ==> |r.value.rgba| == 4 * PixelCount(pages[0])
  {
    match FirstFrame(pages)
    case Err(e) =>
      r := Err(e);
    case Ok(f) =>
      var rgba := GreyToRgba(f.data, PixelCount(f));
      r := Ok(Raster(f.width, f.height, rgba));
  }
}
