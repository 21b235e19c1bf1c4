/**
 The decoded page a display component works on, the RGBA raster it produces,
 and the validation every display component performs before transforming.

 The TIFF decoder is not part of this model: its result is the sequence of
 pages it yields, each with a width, a height and interleaved RGB data.
 */
module Frames {

  /** One decoded page: `width`, `height` and three samples per pixel. */
  datatype Frame = Frame(width: nat, height: nat, data: seq<int>)

  /** The buffer handed to the canvas: four samples per pixel. */
  datatype Raster = Raster(width: nat, height: nat, rgba: seq<int>)

  /** The two failures a display component reports before transforming. */
  datatype LoadError = NoPagesFound | InvalidPixelDataLength

  datatype Outcome<+T> = Ok(value: T) | Err(error: LoadError)

  function PixelCount(f: Frame): nat {
    f.width * f.height
  }

  /** `3 * width * height`, the data length an RGB page must have. */
  function ExpectedLength(f: Frame): nat {
    3 * f.width * f.height
  }

  /** There is a first page and its data has the RGB length. */
  predicate Renderable(pages: seq<Frame>) {
    |pages| > 0 && |pages[0].data| == ExpectedLength(pages[0])
  }

  /** The validation done before any transform: the first page is used, and only
      when its data length is `3 * width * height`. */
  function FirstFrame(pages: seq<Frame>): (r: Outcome<Frame>)
    ensures r.Ok? <==> Renderable(pages)
    ensures r.Ok? ==> r.value == pages[0] && |r.value.data| == 3 * PixelCount(r.value)
    ensures |pages| == 0 ==> r == Err(NoPagesFound)
    ensures |pages| > 0 && !Renderable(pages) ==> r == Err(InvalidPixelDataLength)
  {
    if |pages| == 0 then Err(NoPagesFound)
    else if |pages[0].data| != ExpectedLength(pages[0]) then Err(InvalidPixelDataLength)
    else Ok(pages[0])
  }

  /** Position of channel `k` of pixel `p` in the RGB data. */
  function RgbOffset(p: nat, k: nat): nat {
    3 * p + k
  }

  /** Position of channel `k` of pixel `p` in the RGBA buffer; `k == 3` is alpha. */
  function RgbaOffset(p: nat, k: nat): nat {
    4 * p + k
  }

  /** `(i / 4) * 3`: where the loops over the RGBA buffer read the RGB data. */
  function RgbIndex(i: nat): nat {
    (i / 4) * 3
  }

  /** Slot `4p + k` of an RGBA buffer is channel `k` of pixel `p`. */
  lemma SlotOf(p: nat, k: nat)
    requires k < 4
    ensures (4 * p + k) / 4 == p && (4 * p + k) % 4 == k
  {
  }

  /** The index map of the RGBA loops, taken at every fourth position
      `i = 4p` of a buffer of `n` pixels, stays in bounds, reads the start of
      pixel `p`'s triple, and reaches every triple from exactly one `i`. */
  lemma RgbIndexBijection(n: nat)
    ensures forall i: nat | i % 4 == 0 && i < 4 * n ::
              RgbIndex(i) + 2 < 3 * n && RgbIndex(i) == RgbOffset(i / 4, 0)
    ensures forall i: nat, j: nat | i % 4 == 0 && j % 4 == 0 && i != j :: RgbIndex(i) != RgbIndex(j)
    ensures forall t: nat | t % 3 == 0 && t < 3 * n ::
              exists i: nat :: i % 4 == 0 && i < 4 * n && RgbIndex(i) == t
  {
    forall t: nat | t % 3 == 0 && t < 3 * n
      ensures exists i: nat :: i % 4 == 0 && i < 4 * n && RgbIndex(i) == t
    {
      var i := (t / 3) * 4;
      assert RgbIndex(i) == t;
    }
  }

  /** Writing the reference image's four slots from `i` on into a buffer
      that matches it below `i` extends the match by one pixel. */
  lemma ExtendPrefix(before: seq<int>, image: seq<int>, i: nat, a: int, b: int, c: int, d: int)
    requires |before| == |image| && i + 4 <= |image|
    requires forall j | 0 <= j < i :: before[j] == image[j]
    requires image[i] == a && image[i + 1] == b && image[i + 2] == c && image[i + 3] == d
    ensures forall j | 0 <= j < i + 4 :: before[i := a][i + 1 := b][i + 2 := c][i + 3 := d][j] == image[j]
  {
  }
}
