/**
 The half-brightness display component: every channel is multiplied by its
 luma weight, halved, and divided by the same weight again.
 */
module HalfBright {
  import opened ByteStores
  import opened Frames
  import opened Luminance

  /** `(c * w * 0.5) / w`, the unrounded half value of a channel with weight `w`. */
  function HalfValue(c: int, w: real): real
    requires w != 0.0
  {
    ((c as real * w) * 0.5) / w
  }

  /** Over exact reals the weighting cancels: the result is exactly `c / 2`.
      The weights are nonzero constants, so the division is always defined. */
  lemma HalfValueIsHalf(c: int, w: real)
    requires w != 0.0
    ensures HalfValue(c, w) == c as real / 2.0
  {
    calc {
      HalfValue(c, w);
      ((c as real * 0.5) * w) / w;
      { assert ((c as real * 0.5) * w) / w * w == (c as real * 0.5) * w; }
      c as real * 0.5;
    }
  }

  /** A channel value after the halving, as stored into a
      `Uint8ClampedArray`: the stored copy of exactly `c / 2`, so within one
      half of `c / 2`, and never above `c`. */
  function HalfStored(c: int): (h: int)
    ensures IsByte(h)
    ensures IsByte(c) ==> 0 <= h <= c
    ensures IsByte(c) ==> -0.5 <= c as real / 2.0 - h as real <= 0.5
  {
    ToUint8Clamp(c as real / 2.0)
  }

  /** Channel `k` of pixel `p` in the half-brightness display. */
  function HalfBrightSlot(rgb: seq<int>, p: nat, k: nat): int
    requires 3 * p + 2 < |rgb| && k < 4
  {
    if k == 3 then 255 else HalfStored(rgb[3 * p + k])
  }

  /** Reference image: slot `i` holds channel `i % 4` of pixel `i / 4`. */
  function HalfBrightImage(rgb: seq<int>, n: nat): seq<int>
    requires |rgb| == 3 * n
  {
    seq(4 * n, i requires 0 <= i < 4 * n => HalfBrightSlot(rgb, i / 4, i % 4))
  }

  /** The half-brightness loop over the RGBA buffer in steps of four. */
  method HalfBrightToRgba(rgb: seq<int>, n: nat) returns (rgba: seq<int>)
    requires |rgb| == 3 * n
    ensures rgba == HalfBrightImage(rgb, n)
    ensures |rgba| == 4 * n
  {
    rgba := seq(4 * n, _ => 0);
    ghost var image := HalfBrightImage(rgb, n);
    var i := 0;
    ghost var p: nat := 0;
    while i < |rgba|
      invariant p <= n && i == 4 * p
      invariant |rgba| == 4 * n
      invariant forall j | 0 <= j < i :: rgba[j] == image[j]
    {
      var rgbIndex := RgbIndex(i);

      var redLuminance := rgb[rgbIndex] as real * ChannelWeight(0);
      var greenLuminance := rgb[rgbIndex + 1] as real * ChannelWeight(1);
      var blueLuminance := rgb[rgbIndex + 2] as real * ChannelWeight(2);

      var redHalfValue := (redLuminance * 0.5) / ChannelWeight(0);
      var greenHalfValue := (greenLuminance * 0.5) / ChannelWeight(1);
      var blueHalfValue := (blueLuminance * 0.5) / ChannelWeight(2);

      HalfOfWeighted(rgb[rgbIndex], ChannelWeight(0), redHalfValue);
      HalfOfWeighted(rgb[rgbIndex + 1], ChannelWeight(1), greenHalfValue);
      HalfOfWeighted(rgb[rgbIndex + 2], ChannelWeight(2), blueHalfValue);
      HalfBrightStep(rgb, n, rgba, i, p);
      rgba := rgba[i := ToUint8Clamp(redHalfValue)];
      rgba := rgba[i + 1 := ToUint8Clamp(greenHalfValue)];
      rgba := rgba[i + 2 := ToUint8Clamp(blueHalfValue)];
      rgba := rgba[i + 3 := 255];
      i, p := i + 4, p + 1;
    }
  }

  /** One pass of the half-brightness loop at `i = 4p` extends the matched
      prefix. */
  lemma HalfBrightStep(rgb: seq<int>, n: nat, rgba: seq<int>, i: nat, p: nat)
    requires |rgb| == 3 * n && |rgba| == 4 * n && i == 4 * p && p < n
    requires forall j | 0 <= j < i :: rgba[j] == HalfBrightImage(rgb, n)[j]
    ensures RgbIndex(i) + 2 < |rgb|
    ensures var r, g, b := HalfStored(rgb[RgbIndex(i)]), HalfStored(rgb[RgbIndex(i) + 1]),
                           HalfStored(rgb[RgbIndex(i) + 2]);
            forall j | 0 <= j < i + 4 ::
              rgba[i := r][i + 1 := g][i + 2 := b][i + 3 := 255][j] == HalfBrightImage(rgb, n)[j]
  {
    SlotOf(p, 0);
    assert RgbIndex(i) == 3 * p && RgbIndex(i) + 1 == 3 * p + 1 && RgbIndex(i) + 2 == 3 * p + 2;
    HalfBrightPixelAt(rgb, n, p);
    ExtendPrefix(rgba, HalfBrightImage(rgb, n), i, HalfStored(rgb[RgbIndex(i)]),
                 HalfStored(rgb[RgbIndex(i) + 1]), HalfStored(rgb[RgbIndex(i) + 2]), 255);
  }

  /** The loop's weighted half value of a channel is exactly half of it, so
      it is stored as `HalfStored`. */
  lemma HalfOfWeighted(c: int, w: real, half: real)
    requires w != 0.0 && half == ((c as real * w) * 0.5) / w
    ensures half == c as real / 2.0
    ensures ToUint8Clamp(half) == HalfStored(c)
  {
    HalfValueIsHalf(c, w);
  }

  lemma HalfBrightSlotAt(rgb: seq<int>, n: nat, p: nat, k: nat, i: nat)
    requires |rgb| == 3 * n && p < n && k < 4 && i == 4 * p + k
    ensures HalfBrightImage(rgb, n)[i] == HalfBrightSlot(rgb, p, k)
  {
    SlotOf(p, k);
  }

  lemma HalfBrightPixelAt(rgb: seq<int>, n: nat, p: nat)
    requires |rgb| == 3 * n && p < n
    ensures HalfBrightImage(rgb, n)[4 * p] == HalfStored(rgb[3 * p])
    ensures HalfBrightImage(rgb, n)[4 * p + 1] == HalfStored(rgb[3 * p + 1])
    ensures HalfBrightImage(rgb, n)[4 * p + 2] == HalfStored(rgb[3 * p + 2])
    ensures HalfBrightImage(rgb, n)[4 * p + 3] == 255
  {
    HalfBrightSlotAt(rgb, n, p, 0, 4 * p);
    HalfBrightSlotAt(rgb, n, p, 1, 4 * p + 1);
    HalfBrightSlotAt(rgb, n, p, 2, 4 * p + 2);
    HalfBrightSlotAt(rgb, n, p, 3, 4 * p + 3);
  }

  /** Every colour slot holds the halved channel of the same pixel, and
      every alpha slot is opaque. */
  lemma HalfBrightImagePixels(rgb: seq<int>, n: nat)
    requires |rgb| == 3 * n
    ensures |HalfBrightImage(rgb, n)| == 4 * n
    ensures forall p: nat, k: nat | p < n && k < 3 ::
              HalfBrightImage(rgb, n)[RgbaOffset(p, k)] == HalfStored(rgb[RgbOffset(p, k)])
    ensures forall p: nat | p < n :: HalfBrightImage(rgb, n)[RgbaOffset(p, 3)] == 255
  {
    forall p: nat, k: nat | p < n && k < 3
      ensures HalfBrightImage(rgb, n)[RgbaOffset(p, k)] == HalfStored(rgb[RgbOffset(p, k)])
    {
      HalfBrightSlotAt(rgb, n, p, k, RgbaOffset(p, k));
    }
    forall p: nat | p < n
      ensures HalfBrightImage(rgb, n)[RgbaOffset(p, 3)] == 255
    {
      HalfBrightSlotAt(rgb, n, p, 3, RgbaOffset(p, 3));
    }
  }

  /** Each output channel depends on the same input channel only: two images
      that agree on channel `k` of pixel `p` agree there after the halving. */
  lemma HalfBrightChannelsIndependent(rgb: seq<int>, rgb': seq<int>, n: nat, p: nat, k: nat)
    requires |rgb| == |rgb'| == 3 * n && p < n && k < 3
    requires rgb[RgbOffset(p, k)] == rgb'[RgbOffset(p, k)]
    ensures HalfBrightImage(rgb, n)[RgbaOffset(p, k)] == HalfBrightImage(rgb', n)[RgbaOffset(p, k)]
  {
    HalfBrightSlotAt(rgb, n, p, k, RgbaOffset(p, k));
    HalfBrightSlotAt(rgb', n, p, k, RgbaOffset(p, k));
  }

  /** The half-brightness display: validate the first page, then convert it. */
  method RenderHalfBright(pages: seq<Frame>) returns (r: Outcome<Raster>)
    ensures r.Ok? <==> Renderable(pages)
    ensures |pages| == 0 ==> r == Err(NoPagesFound)
    ensures |pages| > 0 && !Renderable(pages) ==> r == Err(InvalidPixelDataLength)
    ensures r.Ok? ==> r.value == Raster(pages[0].width, pages[0].height,
                                        HalfBrightImage(pages[0].data, PixelCount(pages[0])))
    ensures r.Ok? ==> |r.value.rgba| == 4 * PixelCount(pages[0])
  {
    match FirstFrame(pages)
    case Err(e) =>
      r := Err(e);
    case Ok(f) =>
      var rgba := HalfBrightToRgba(f.data, PixelCount(f));
      r := Ok(Raster(f.width, f.height, rgba));
  }
}
