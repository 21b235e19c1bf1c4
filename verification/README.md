# TIFF-Compare pixel transforms in Dafny

TIFF-Compare is a desktop viewer. It decodes a TIFF file and shows its first
page in two panes of a carousel. Each pane is a display component that turns
the page's interleaved RGB samples into an RGBA buffer for a canvas. This
project models those transforms and the carousel's step machine, and proves
properties about them:

- **Plain display** (`Expansion`): each RGB triple is copied into a fresh
  RGBA buffer, and alpha is set to 255.
- **Grey display** (`GreyDisplay`): the luma `0.299 R + 0.587 G + 0.114 B`
  (`Luminance`) goes into all three colour samples.
- **Half-brightness display** (`HalfBright`): each channel is multiplied by
  its luma weight, halved, and divided by the same weight again.
- **Dithered display** (`Dither`): the luma plus `(m / 4) * 255`, where `m`
  comes from the 2x2 matrix `[[0, 2], [3, 1]]` indexed by
  `[y % 2][x % 2]`.
- **Equalized display** (`Equalization`): a histogram equalization of the
  decoder's buffer, done in place, before the plain expansion. No pane of the
  carousel shows this component (step 4 shows the leveled display instead);
  it is modelled because it holds the program's only histogram equalizer.
- **Carousel** (`Carousel`): the step counter and the pair of components
  shown for each step.

`Frames` holds the decoded page, the RGBA raster, and the validation every
component makes before transforming:

- there must be a first page;
- its data length must be `3 * width * height`.

`ByteStores` holds what happens when a JavaScript number is stored into a
typed array:

- a store into a `Uint8ClampedArray` is ToUint8Clamp, from section 7.1.12 of
  ECMA-262: clamp to [0, 255], then round to nearest with ties to even;
- a store into a `Uint8Array` is ToUint8, from section 7.1.11 of ECMA-262:
  truncate, then reduce modulo 256.

All arithmetic is on exact reals.

Each display component has two parts:

- a loop method that mirrors the component's loop, reading at
  `(i / 4) * 3` and writing the four slots from `i`;
- a reference image built slot by slot: slot `4p + k` holds channel `k` of
  pixel `p`.

Each method is proved equal to its reference image. Lemmas then state what
the reference image holds.

The equalizer is modelled exactly as the code is written:

- It walks the three-sample buffer in steps of four. Histogram `c`
  therefore counts the positions `j` with `j % 4 == c`, wherever the pixel
  boundaries fall.
- Positions with `j % 4 == 3` are neither counted nor changed.
- The cumulative counts are divided by the buffer length, not by the pixel
  count.
- Reads past the end of the buffer give a histogram key that the CDF loop
  never visits. Writes past the end of a typed array are dropped. Both are
  modelled as guards `i + k < |data|`.
- The decoder's array is overwritten, so `RenderEqualized` also returns the
  page list as it is after the call.
- Even so, equalizing twice changes nothing
  (`Equalization.EqualizeIdempotent`).

The pixel `(10, 20, 30)` has luma 18.15, which is stored as 18
(`GreyDisplay.GreyExample`).

## Model

| member | source | states |
|---|---|---|
| ByteStores.RoundHalfEven | src/renderer/src/components/DisplayGreyTIF.jsx:49-51 | The rounding step of a clamped store: the result is within 1/2 of the input, and on an exact tie it is even. |
| ByteStores.ToUint8Clamp | src/renderer/src/components/DisplayGreyTIF.jsx:49-51 | A number stored into the clamped array becomes a byte. It is 0 at or below 0 and 255 at or above 255. In between it is within 1/2 of the number. |
| ByteStores.ToUint8ClampIsNearest | src/renderer/src/components/DisplayGreyTIF.jsx:49-51 | The stored byte is at least as close to the clamped input as any other byte, and a tie goes to the even byte. |
| ByteStores.ToUint8ClampMonotone | src/renderer/src/components/DisplayDitheredTIF.jsx:55-60 | A larger number is never stored as a smaller byte. |
| ByteStores.StoreClampedKeepsBytes | src/renderer/src/components/DisplayTIF.jsx:56-58 | A byte copied into the clamped array keeps its value. |
| ByteStores.Truncate | src/renderer/src/components/DisplayCRTTIF.jsx:95-97 | Truncation toward zero: for a non-negative input, the largest integer not above it; for a non-positive input, the smallest integer not below it. |
| ByteStores.ToUint8 | src/renderer/src/components/DisplayCRTTIF.jsx:95-97 | A number written back into the 8-bit array becomes a byte. On `[0, 256)` that byte is the floor of the number. |
| ByteStores.ToUint8Monotone | src/renderer/src/components/DisplayCRTTIF.jsx:95-97 | On `[0, 256)`, write-back preserves order. |
| Frames.FirstFrame | src/renderer/src/components/DisplayTIF.jsx:33-49 | The first page is used exactly when there is one and its data length is `3 * width * height`. Otherwise the error is "no pages" or "invalid pixel data length", in that order of checking. |
| Frames.RgbIndexBijection | src/renderer/src/components/DisplayTIF.jsx:54-55 | Over `i = 0, 4, 8, …` below `4n`, the read index `(i / 4) * 3` stays in bounds, starts pixel `i / 4`'s triple, differs for different `i`, and reaches every triple. |
| Luminance.ChannelWeight | src/renderer/src/components/DisplayHalfBrightTIF.jsx:42-49 | Every luma weight is positive, so the divisions by the weights are always defined. |
| Luminance.Luma | src/renderer/src/components/DisplayGreyTIF.jsx:44-47 | The unrounded grey value `0.299 R + 0.587 G + 0.114 B` over exact reals; its properties are the lemmas below. |
| Luminance.LumaBetweenChannels | src/renderer/src/components/DisplayGreyTIF.jsx:44-47 | The weights sum to one, so the luma lies between the darkest and the brightest channel. |
| Luminance.LumaOfGrey | src/renderer/src/components/DisplayGreyTIF.jsx:44-47 | The luma of `(v, v, v)` is `v`. |
| Luminance.LumaMonotone | src/renderer/src/components/DisplayGreyTIF.jsx:44-47 | Raising channels never lowers the luma. |
| Luminance.GreyValue | src/renderer/src/components/DisplayGreyTIF.jsx:44-51 | The stored grey value is a byte. For a byte pixel it lies between the pixel's smallest and largest channel, so no clamping happens. |
| Luminance.GreyOfGreyPixel | src/renderer/src/components/DisplayGreyTIF.jsx:44-51 | A grey byte pixel `(v, v, v)` is stored as `v`. |
| Luminance.GreyValueMonotone | src/renderer/src/components/DisplayGreyTIF.jsx:44-51 | Raising any input channel never darkens the stored grey value. |
| Expansion.ExpandToRgba | src/renderer/src/components/DisplayTIF.jsx:52-60 | The copy loop over a zero-filled buffer of length `4n` produces exactly the reference plain image. |
| Expansion.ExpandedImagePixels | src/renderer/src/components/DisplayTIF.jsx:54-59 | Slot `4p + k` (`k < 3`) holds the stored copy of RGB sample `3p + k`, and every slot `4p + 3` is 255. |
| Expansion.ExpandRoundTrip | src/renderer/src/components/DisplayTIF.jsx:54-60 | For byte data, deleting every fourth sample of the expanded buffer gives back the RGB data exactly. |
| Expansion.RenderPlain | src/renderer/src/components/DisplayTIF.jsx:33-60 | There is a raster exactly when the first page passes validation, with the matching error otherwise. The raster has the page's size and the expanded image of length `4 * width * height`. |
| GreyDisplay.GreyToRgba | src/renderer/src/components/DisplayGreyTIF.jsx:36-53 | The grey loop produces exactly the reference grey image. |
| GreyDisplay.GreyImagePixels | src/renderer/src/components/DisplayGreyTIF.jsx:49-52 | For every pixel, the three colour slots hold the same value (the stored luma of its triple), and alpha is 255. |
| GreyDisplay.GreyImageOfGreyData | src/renderer/src/components/DisplayGreyTIF.jsx:44-51 | On byte data whose pixels are already grey, the grey display equals the plain display. |
| GreyDisplay.GreyExample | src/renderer/src/components/DisplayGreyTIF.jsx:40-53 | The 2x2 image `10, 20, 30, …, 120` becomes the greys 18, 48, 78 and 108 with alpha 255. |
| GreyDisplay.GreyTieExample | src/renderer/src/components/DisplayGreyTIF.jsx:44-50 | Over exact reals the pixel (0, 80, 110) has luma 59.5, and the clamped store rounds that tie to the even value 60. |
| GreyDisplay.RenderGrey | src/renderer/src/components/DisplayGreyTIF.jsx:24-65 | Same validation and errors as the plain display. On success, the raster is the grey image. |
| HalfBright.HalfValueIsHalf | src/renderer/src/components/DisplayHalfBrightTIF.jsx:42-49 | For any nonzero weight `w`, `(c * w * 0.5) / w` is exactly `c / 2`. |
| HalfBright.HalfValue | src/renderer/src/components/DisplayHalfBrightTIF.jsx:42-49 | The unrounded half value `(c * w * 0.5) / w` of one channel; `HalfValueIsHalf` states what it equals. |
| HalfBright.HalfStored | src/renderer/src/components/DisplayHalfBrightTIF.jsx:47-53 | A halved channel is stored as a byte. For a byte channel it lies between 0 and `c` and within 1/2 of `c / 2`. |
| HalfBright.HalfOfWeighted | src/renderer/src/components/DisplayHalfBrightTIF.jsx:42-53 | The loop's weighted half value equals `c / 2`, so it is stored as the halved channel. |
| HalfBright.HalfBrightToRgba | src/renderer/src/components/DisplayHalfBrightTIF.jsx:36-55 | The loop, with its literal weights 0.299, 0.587 and 0.114, produces exactly the reference half-brightness image. |
| HalfBright.HalfBrightImagePixels | src/renderer/src/components/DisplayHalfBrightTIF.jsx:51-54 | Slot `4p + k` (`k < 3`) holds RGB sample `3p + k` halved, and alpha is 255. |
| HalfBright.HalfBrightChannelsIndependent | src/renderer/src/components/DisplayHalfBrightTIF.jsx:42-53 | Two images that agree on one channel of one pixel agree on that output slot. |
| HalfBright.RenderHalfBright | src/renderer/src/components/DisplayHalfBrightTIF.jsx:24-67 | Same validation and errors as the plain display. On success, the raster is the half-brightness image. |
| Dither.DitherOffset | src/renderer/src/components/DisplayDitheredTIF.jsx:31-55 | The offset `(m / 4) * 255` is one of 0, 63.75, 127.5 and 191.25. |
| Dither.DitherMatrix | src/renderer/src/components/DisplayDitheredTIF.jsx:31-34 | The 2x2 matrix `[[0, 2], [3, 1]]`; `DitherMatrixEntries` states that it holds each of 0..3 once. |
| Dither.DitherMatrixEntries | src/renderer/src/components/DisplayDitheredTIF.jsx:31-34 | The matrix entries lie in 0..3, and each of 0, 1, 2 and 3 occurs once. |
| Dither.DitherOffsetTiles | src/renderer/src/components/DisplayDitheredTIF.jsx:54-55 | The offset depends only on `x % 2` and `y % 2`. |
| Dither.DitheredValue | src/renderer/src/components/DisplayDitheredTIF.jsx:48-60 | The stored dithered value is a byte and never below the plain grey value. It equals the grey value where `x` and `y` are both even, and it is 255 once luma plus offset reaches 255. |
| Dither.PixelIndexBijection | src/renderer/src/components/DisplayDitheredTIF.jsx:43-46 | `(x, y) ↦ y * w + x` maps the `w` by `h` grid one-to-one onto the pixel numbers below `w * h`, and every pixel number comes from its row and column. |
| Dither.DitherToRgba | src/renderer/src/components/DisplayDitheredTIF.jsx:41-63 | The nested row and column loops produce exactly the reference dithered image of length `4 * w * h`. |
| Dither.DitherRow | src/renderer/src/components/DisplayDitheredTIF.jsx:44-62 | One pass of the inner loop extends the finished prefix by a whole row. |
| Dither.DitherImagePixels | src/renderer/src/components/DisplayDitheredTIF.jsx:58-61 | All three colour slots of a pixel hold its dithered value, and alpha is 255. |
| Dither.DitherImageAtCoordinates | src/renderer/src/components/DisplayDitheredTIF.jsx:43-58 | At `(x, y)`, slot `(y * w + x) * 4` holds the dithered grey of the triple at `(y * w + x) * 3`, taken with the matrix entry for `(y % 2, x % 2)`. |
| Dither.RenderDithered | src/renderer/src/components/DisplayDitheredTIF.jsx:24-75 | Same validation and errors as the plain display. On success, the raster is the dithered image. |
| Equalization.CountChannels | src/renderer/src/components/DisplayCRTTIF.jsx:71-77 | The stride-four counting loop leaves in entry `v` of histogram `c` the number of positions `j % 4 == c` holding `v`. |
| Equalization.HistogramTotal | src/renderer/src/components/DisplayCRTTIF.jsx:73-77 | The entries of histogram `c` sum to the number of passes `i` with `i + c` inside the buffer, `(len + 3 - c) / 4`. |
| Equalization.CumulativeIsBelow | src/renderer/src/components/DisplayCRTTIF.jsx:84-88 | The running total before `v` is the number of channel samples below `v`. |
| Equalization.CumulativeMonotone | src/renderer/src/components/DisplayCRTTIF.jsx:84-88 | The running total never decreases. |
| Equalization.CumulativeAtMostLength | src/renderer/src/components/DisplayCRTTIF.jsx:84-89 | The running total never exceeds the buffer length. |
| Equalization.BuildCdfs | src/renderer/src/components/DisplayCRTTIF.jsx:79-91 | The CDF loops, which skip empty entries, fill each table entry `v` with the running total up to `v`, over the buffer length, times 255. |
| Equalization.CdfMonotone | src/renderer/src/components/DisplayCRTTIF.jsx:83-91 | Each channel's CDF is non-decreasing in `v`. |
| Equalization.Cdf | src/renderer/src/components/DisplayCRTTIF.jsx:84-89 | Entry `v` of a channel's CDF: the running total up to and including `v`, over the buffer length, times 255; its properties are the lemmas around it. |
| Equalization.CdfInRange | src/renderer/src/components/DisplayCRTTIF.jsx:84-89 | Every CDF entry lies in `[0, 255]`. |
| Equalization.CdfAtSmallest | src/renderer/src/components/DisplayCRTTIF.jsx:84-89 | When no value of channel `c` lies below `v`, the CDF entry of `v` is `count(v) / len * 255`: the smallest value present maps to its own count's share of the buffer. |
| Equalization.CdfAtTop | src/renderer/src/components/DisplayCRTTIF.jsx:83-89 | The top entry of channel `c` is `((len + 3 - c) / 4) / len * 255`, the channel's share of the buffer. With three samples per pixel this is about a quarter of full scale. |
| Equalization.Remap | src/renderer/src/components/DisplayCRTTIF.jsx:93-98 | The in-place remap reads each position's original value before overwriting it, so it produces exactly the equalized buffer. |
| Equalization.HistogramEqualization | src/renderer/src/components/DisplayCRTTIF.jsx:69-101 | The three passes together produce exactly the equalized buffer. An empty buffer comes back unchanged. |
| Equalization.EqualizedBuffer | src/renderer/src/components/DisplayCRTTIF.jsx:93-100 | The equalized buffer has the same length as the input. |
| Equalization.EqualizeKeepsFourthSlots | src/renderer/src/components/DisplayCRTTIF.jsx:94-98 | Every sample of the equalized buffer is a byte, and positions `j % 4 == 3` keep their value. |
| Equalization.EqualizedPreservesChannelOrder | src/renderer/src/components/DisplayCRTTIF.jsx:94-98 | Within one channel, equal values stay equal and smaller values never become larger. |
| Equalization.EqualizedAtMostTop | src/renderer/src/components/DisplayCRTTIF.jsx:89-98 | No equalized sample exceeds its channel's top CDF entry. |
| Equalization.EqualizeIdempotent | src/renderer/src/components/DisplayCRTTIF.jsx:83-98 | On byte data, equalizing the equalized buffer gives it back unchanged: each level the remap produces has the same CDF entry in the equalized buffer as the largest original value that reached it. |
| Equalization.EqualizedDisplayRoundTrip | src/renderer/src/components/DisplayCRTTIF.jsx:38-46 | The expanded equalized image, with its alpha samples deleted, is exactly the equalized buffer. |
| Equalization.RenderEqualized | src/renderer/src/components/DisplayCRTTIF.jsx:24-58 | Validation comes first, with the same errors. On success, the raster is the expansion of the equalized data, of length `4 * width * height`. The first page's data is replaced by the equalized buffer, and on failure the pages are untouched. |
| Carousel.NextStep | src/renderer/src/components/TIFFCarousel.jsx:13-24 | From a step in 1..4, "next" gives a step in 1..4, namely `s % 4 + 1`. |
| Carousel.PanesFor | src/renderer/src/components/TIFFCarousel.jsx:29-50 | The two panes show different components exactly on the steps 1..4; every other step shows the plain display twice. |
| Carousel.PressesStayValid | src/renderer/src/components/TIFFCarousel.jsx:11-20 | From a valid step, any number of presses keeps the step in 1..4. |
| Carousel.PressesFromStart | src/renderer/src/components/TIFFCarousel.jsx:11-20 | From the initial step, `k` presses lead to step `k % 4 + 1`. |
| Carousel.PressesCycle | src/renderer/src/components/TIFFCarousel.jsx:15-20 | Four more presses return to the same step. |
| Carousel.DefaultOnlyOffCycle | src/renderer/src/components/TIFFCarousel.jsx:29-50 | The default pair (plain, plain) is shown exactly for steps outside 1..4. |
| Carousel.StepsShowDistinctPanes | src/renderer/src/components/TIFFCarousel.jsx:29-45 | The four valid steps show four different pairs. |
| Carousel.PanesAfterPresses | src/renderer/src/components/TIFFCarousel.jsx:11-50 | After `k` presses from the start, the panes are (plain, grey), (half-bright, half-bright grey), (grey, dithered) and (plain, leveled) in turn by `k % 4`, and never the default pair. |

## Left out

- The application shell and file picker (`App.jsx`): UI only.
- Canvas work, the spinner, the `loading` and `imageDimensions` state, React
  hooks, PropTypes and console logging: rendering and UI state. A successful
  render of a non-empty page is modelled as the returned raster, and a
  validation failure as the returned error.
- Expansion.RenderPlain, GreyDisplay.RenderGrey, HalfBright.RenderHalfBright,
  Dither.RenderDithered and Equalization.RenderEqualized: a page with zero
  width or height and empty data passes validation and yields an empty
  raster. The program then fails in `new ImageData` on the empty buffer, and
  its catch handler logs the error; that failure of the canvas API is not
  modelled.
- `fetch`, the promise chain, its `catch` handler, and `decode` from the
  `tiff` package: asynchronous I/O and a foreign library. The decoder's result
  is the `pages` argument.
- The half-bright grey and leveled components. The carousel names them, but
  their source is not part of this model, so they appear only as tags in
  `Carousel.Display`.
- IEEE-754 double arithmetic: all weights and quotients are exact reals.
- HalfBright.HalfStored: states the halved channel over exact reals. In
  doubles, `(c * 0.299 * 0.5) / 0.299` for an odd `c` may miss the exact
  `.5` tie. So the result is promised only to within 1/2 of `c / 2`, not bit
  for bit.
- GreyDisplay.GreyToRgba: stores the exact luma (`Luminance.GreyValue`). In
  doubles, a luma that is exactly a `.5` tie may come out just below it: the
  pixel (0, 80, 110) has exact luma 59.5, stored here as 60
  (`GreyDisplay.GreyTieExample`), while
  `0.299*0 + 0.587*80 + 0.114*110` in doubles is just under 59.5 and is stored
  as 59. So on such ties the model can differ from the program by one.
- Dither.DitheredValue: the same exact-real luma, so the same one-step
  difference on `.5` ties of the luma plus offset applies.
- Equalization.HistogramEqualization: requires byte data, which is what an
  8-bit decoder page holds. 16-bit data and other array types are not
  modelled. The JavaScript sparse histogram arrays with `|| 0` are modelled as
  zero-filled tables of 256 entries.
- Equalization.HistogramEqualization: returns an empty buffer at once. For an
  empty buffer the code computes CDF entries `0 / 0` that no pass reads, so
  the observable result is the same.
- Equalization.RenderEqualized: requires byte data in the first page, for the
  same reason.
- The carousel's layout and button: UI only. The button is `NextStep`.
