/**
 The luma weighting shared by the grey, half-brightness and dithering
 components: `0.299 R + 0.587 G + 0.114 B`, computed on exact reals.
 */
module Luminance {
  import opened ByteStores

  const RedWeight: real := 0.299
  const GreenWeight: real := 0.587
  const BlueWeight: real := 0.114

  /** The weight of channel `k` (0 red, 1 green, 2 blue), by which the
      half-brightness loop multiplies and then divides. */
  function ChannelWeight(k: nat): (w: real)
    requires k < 3
    ensures w > 0.0
  {
    if k == 0 then RedWeight else if k == 1 then GreenWeight else BlueWeight
  }

  /** The unrounded grey value of one pixel. */
  function Luma(r: int, g: int, b: int): real {
    RedWeight * r as real + GreenWeight * g as real + BlueWeight * b as real
  }

  function Min3(a: int, b: int, c: int): int {
    if a <= b && a <= c then a else if b <= c then b else c
  }

  function Max3(a: int, b: int, c: int): int {
    if a >= b && a >= c then a else if b >= c then b else c
  }

  /** The weights are positive and sum to exactly one, so the luma is a
      convex combination of the three channels. */
  lemma LumaBetweenChannels(r: int, g: int, b: int)
    ensures Min3(r, g, b) as real <= Luma(r, g, b) <= Max3(r, g, b) as real
  {
    assert RedWeight + GreenWeight + BlueWeight == 1.0;
  }

  lemma LumaOfGrey(v: int)
    ensures Luma(v, v, v) == v as real
  {
  }

  lemma LumaMonotone(r: int, g: int, b: int, r': int, g': int, b': int)
    requires r <= r' && g <= g' && b <= b'
    ensures Luma(r, g, b) <= Luma(r', g', b')
  {
  }

  /** The grey value as stored into a `Uint8ClampedArray`. For a byte pixel it
      lies between its darkest and brightest channel, so it is never clamped. */
  function GreyValue(r: int, g: int, b: int): (y: int)
    ensures IsByte(y)
    ensures IsByte(r) && IsByte(g) && IsByte(b) ==> Min3(r, g, b) <= y <= Max3(r, g, b)
  {
    LumaBetweenChannels(r, g, b);
    ToUint8Clamp(Luma(r, g, b))
  }

  /** A grey byte pixel `(v, v, v)` keeps its value. */
  lemma GreyOfGreyPixel(v: int)
    requires IsByte(v)
    ensures GreyValue(v, v, v) == v
  {
    LumaOfGrey(v);
  }

  /** Raising any channel never darkens the grey value. */
  lemma GreyValueMonotone(r: int, g: int, b: int, r': int, g': int, b': int)
    requires r <= r' && g <= g' && b <= b'
    ensures GreyValue(r, g, b) <= GreyValue(r', g', b')
  {
    LumaMonotone(r, g, b, r', g', b');
    ToUint8ClampMonotone(Luma(r, g, b), Luma(r', g', b'));
  }
}
