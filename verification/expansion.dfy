/**
 The plain display component: the first page's RGB data is copied into a
 fresh RGBA buffer with an opaque alpha channel.
 */
module Expansion {
  import opened ByteStores
  import opened Frames

  /** Channel `k` of pixel `p` in the plain display: the stored copy of the
      RGB sample, or opaque alpha for `k == 3`. */
  function ExpandedSlot(rgb: seq<int>, p: nat, k: nat): int
    requires 3 * p + 2 < |rgb| && k < 4
  {
    if k == 3 then 255 else StoreClamped(rgb[3 * p + k])
  }

  /** Reference image: slot `i` holds channel `i % 4` of pixel `i / 4`. */
  function ExpandedImage(rgb: seq<int>, n: nat): seq<int>
    requires |rgb| == 3 * n
  {
    seq(4 * n, i requires 0 <= i < 4 * n => ExpandedSlot(rgb, i / 4, i % 4))
  }

  /** The copy loop: `i` runs over the RGBA buffer in steps of four and reads
      the triple at `(i / 4) * 3`. The new buffer starts zero-filled. */
  method ExpandToRgba(rgb: seq<int>, n: nat) returns (rgba: seq<int>)
    requires |rgb| == 3 * n
    ensures rgba == ExpandedImage(rgb, n)
    ensures |rgba| == 4 * n
  {
    rgba := seq(4 * n, _ => 0);
    ghost var image := ExpandedImage(rgb, n);
    var i := 0;
    ghost var p: nat := 0;
    while i < |rgba|
      invariant p <= n && i == 4 * p
      invariant |rgba| == 4 * n
      invariant forall j | 0 <= j < i :: rgba[j] == image[j]
    {
      var rgbIndex := RgbIndex(i);
      ExpandStep(rgb, n, rgba, i, p);
      rgba := rgba[i := StoreClamped(rgb[rgbIndex])];
      rgba := rgba[i + 1 := StoreClamped(rgb[rgbIndex + 1])];
      rgba := rgba[i + 2 := StoreClamped(rgb[rgbIndex + 2])];
      rgba := rgba[i + 3 := 255];
      i, p := i + 4, p + 1;
    }
  }

  /** One pass of the copy loop at `i = 4p` extends the matched prefix. */
  lemma ExpandStep(rgb: seq<int>, n: nat, rgba: seq<int>, i: nat, p: nat)
    requires |rgb| == 3 * n && |rgba| == 4 * n && i == 4 * p && p < n
    requires forall j | 0 <= j < i :: rgba[j] == ExpandedImage(rgb, n)[j]
    ensures RgbIndex(i) + 2 < |rgb|
    ensures forall j | 0 <= j < i + 4 ::
              rgba[i := StoreClamped(rgb[RgbIndex(i)])][i + 1 := StoreClamped(rgb[RgbIndex(i) + 1])]
                  [i + 2 := StoreClamped(rgb[RgbIndex(i) + 2])][i + 3 := 255][j]
              == ExpandedImage(rgb, n)[j]
  {
    SlotOf(p, 0);
    assert RgbIndex(i) == 3 * p && RgbIndex(i) + 1 == 3 * p + 1 && RgbIndex(i) + 2 == 3 * p + 2;
    ExpandedPixelAt(rgb, n, p);
    ExtendPrefix(rgba, ExpandedImage(rgb, n), i, StoreClamped(rgb[RgbIndex(i)]),
                 StoreClamped(rgb[RgbIndex(i) + 1]), StoreClamped(rgb[RgbIndex(i) + 2]), 255);
  }

  lemma ExpandedSlotAt(rgb: seq<int>, n: nat, p: nat, k: nat, i: nat)
    requires |rgb| == 3 * n && p < n && k < 4 && i == 4 * p + k
    ensures ExpandedImage(rgb, n)[i] == ExpandedSlot(rgb, p, k)
  {
    SlotOf(p, k);
  }

  lemma ExpandedPixelAt(rgb: seq<int>, n: nat, p: nat)
    requires |rgb| == 3 * n && p < n
    ensures ExpandedImage(rgb, n)[4 * p] == StoreClamped(rgb[3 * p])
    ensures ExpandedImage(rgb, n)[4 * p + 1] == StoreClamped(rgb[3 * p + 1])
    ensures ExpandedImage(rgb, n)[4 * p + 2] == StoreClamped(rgb[3 * p + 2])
    ensures ExpandedImage(rgb, n)[4 * p + 3] == 255
  {
    ExpandedSlotAt(rgb, n, p, 0, 4 * p);
    ExpandedSlotAt(rgb, n, p, 1, 4 * p + 1);
    ExpandedSlotAt(rgb, n, p, 2, 4 * p + 2);
    ExpandedSlotAt(rgb, n, p, 3, 4 * p + 3);
  }

  /** Every colour slot of the plain display is the stored copy of the same
      channel of the same pixel, and every alpha slot is opaque. */
  lemma ExpandedImagePixels(rgb: seq<int>, n: nat)
    requires |rgb| == 3 * n
    ensures |ExpandedImage(rgb, n)| == 4 * n
    ensures forall p: nat, k: nat | p < n && k < 3 ::
              ExpandedImage(rgb, n)[RgbaOffset(p, k)] == StoreClamped(rgb[RgbOffset(p, k)])
    ensures forall p: nat | p < n :: ExpandedImage(rgb, n)[RgbaOffset(p, 3)] == 255
  {
    forall p: nat, k: nat | p < n && k < 3
      ensures ExpandedImage(rgb, n)[RgbaOffset(p, k)] == StoreClamped(rgb[RgbOffset(p, k)])
    {
      ExpandedSlotAt(rgb, n, p, k, RgbaOffset(p, k));
    }
    forall p: nat | p < n
      ensures ExpandedImage(rgb, n)[RgbaOffset(p, 3)] == 255
    {
      ExpandedSlotAt(rgb, n, p, 3, RgbaOffset(p, 3));
    }
  }

  /** Deletes every fourth sample (positions 3, 7, 11, ...). */
  function DropAlpha(rgba: seq<int>): (rgb: seq<int>)
    ensures |rgb| == |rgba| - |rgba| / 4
    decreases |rgba|
  {
    if |rgba| <= 3 then rgba else rgba[..3] + DropAlpha(rgba[4..])
  }

  /** Dropping the first pixel of the RGB data drops the first four slots of
      the expanded image. */
  lemma ExpandedImageTail(rgb: seq<int>, n: nat)
    requires |rgb| == 3 * n && n > 0
    ensures ExpandedImage(rgb, n)[4..] == ExpandedImage(rgb[3..], n - 1)
  {
    var e, e' := ExpandedImage(rgb, n), ExpandedImage(rgb[3..], n - 1);
    forall j | 0 <= j < 4 * (n - 1)
      ensures e[j + 4] == e'[j]
    {
      var p, k := j / 4, j % 4;
      ExpandedSlotAt(rgb, n, p + 1, k, j + 4);
      ExpandedSlotAt(rgb[3..], n - 1, p, k, j);
    }
  }

  /** A byte pixel is copied unchanged into the first three slots. */
  lemma ExpandedImageHead(rgb: seq<int>, n: nat)
    requires |rgb| == 3 * n && n > 0
    requires IsByte(rgb[0]) && IsByte(rgb[1]) && IsByte(rgb[2])
    ensures ExpandedImage(rgb, n)[..3] == rgb[..3]
  {
    ExpandedPixelAt(rgb, n, 0);
    StoreClampedKeepsBytes(rgb[0]);
    StoreClampedKeepsBytes(rgb[1]);
    StoreClampedKeepsBytes(rgb[2]);
  }

  /** Deleting the alpha samples of the expanded buffer gives back the RGB
      data exactly. */
  lemma {:induction false} ExpandRoundTrip(rgb: seq<int>, n: nat)
    requires |rgb| == 3 * n
    requires AllBytes(rgb)
    ensures DropAlpha(ExpandedImage(rgb, n)) == rgb
    decreases n
  {
    if n > 0 {
      var rest := rgb[3..];
      assert AllBytes(rest) by {
        forall j | 0 <= j < |rest| ensures IsByte(rest[j]) {
          assert rest[j] == rgb[j + 3];
        }
      }
      ExpandedImageTail(rgb, n);
      ExpandedImageHead(rgb, n);
      ExpandRoundTrip(rest, n - 1);
      assert rgb == rgb[..3] + rest;
    }
  }

  /** The plain display: validate the first page, then expand it. */
  method RenderPlain(pages: seq<Frame>) returns (r: Outcome<Raster>)
    ensures r.Ok? <==> Renderable(pages)
    ensures |pages| == 0 ==> r == Err(NoPagesFound)
    ensures |pages| > 0 && !Renderable(pages) ==> r == Err(InvalidPixelDataLength)
    ensures r.Ok? ==> r.value == Raster(pages[0].width, pages[0].height,
                                        ExpandedImage(pages[0].data, PixelCount(pages[0])))
    ensures r.Ok? ==> |r.value.rgba| == 4 * PixelCount(pages[0])
  {
    match FirstFrame(pages)
    case Err(e) =>
      r := Err(e);
    case Ok(f) =>
      var rgba := ExpandToRgba(f.data, PixelCount(f));
      r := Ok(Raster(f.width, f.height, rgba));
  }
}
