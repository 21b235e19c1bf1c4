/**
 Conversions applied when a JavaScript number is stored into a typed array.

 A store into a `Uint8ClampedArray` applies ToUint8Clamp (section 7.1.12 of
 ECMA-262): clamp to [0, 255], then round to nearest with ties to even.
 A store into a `Uint8Array` applies ToUint8 (section 7.1.11 of ECMA-262):
 truncate toward zero, then reduce modulo 2^8.
 Numbers are modelled as exact reals; NaN and the infinities never arise here.
 */
module ByteStores {

  predicate IsByte(v: int) {
    0 <= v <= 255
  }

  predicate AllBytes(s: seq<int>) {
    forall i | 0 <= i < |s| :: IsByte(s[i])
  }

  /** Rounding step of ToUint8Clamp: nearest integer, ties to the even one. */
  function RoundHalfEven(x: real): (r: int)
    ensures -0.5 <= x - r as real <= 0.5
    ensures (x - r as real == 0.5 || x - r as real == -0.5) ==> r % 2 == 0
  {
    var f := x.Floor;
    if f as real + 0.5 < x then f + 1
    else if x < f as real + 0.5 then f
    else if f % 2 == 1 then f + 1
    else f
  }

  /** ToUint8Clamp (section 7.1.12 of ECMA-262) on an exact real. */
  function ToUint8Clamp(x: real): (r: int)
    ensures IsByte(r)
    ensures x <= 0.0 ==> r == 0
    ensures x >= 255.0 ==> r == 255
    ensures 0.0 <= x <= 255.0 ==> -0.5 <= x - r as real <= 0.5
  {
    if x <= 0.0 then 0
    else if x >= 255.0 then 255
    else RoundHalfEven(x)
  }

  /** The value a `Uint8ClampedArray` holds after an integer is stored into it. */
  function StoreClamped(v: int): int {
    ToUint8Clamp(v as real)
  }

  function ClampReal(x: real): real {
    if x <= 0.0 then 0.0 else if x >= 255.0 then 255.0 else x
  }

  function AbsReal(x: real): real {
    if x < 0.0 then -x else x
  }

  /** Independent characterisation: ToUint8Clamp picks a byte nearest to the
      clamped input, and on a tie the even one. */
  lemma ToUint8ClampIsNearest(x: real, k: int)
    requires IsByte(k)
    ensures AbsReal(ClampReal(x) - ToUint8Clamp(x) as real) <= AbsReal(ClampReal(x) - k as real)
    ensures (AbsReal(ClampReal(x) - ToUint8Clamp(x) as real) == AbsReal(ClampReal(x) - k as real)
             && k != ToUint8Clamp(x)) ==> ToUint8Clamp(x) % 2 == 0
  {
  }

  lemma ToUint8ClampMonotone(x: real, y: real)
    requires x <= y
    ensures ToUint8Clamp(x) <= ToUint8Clamp(y)
  {
    if 0.0 < x && y < 255.0 {
      var fx, fy := x.Floor, y.Floor;
      assert fx <= fy;
    }
  }

  /** A byte stored into a `Uint8ClampedArray` is kept unchanged. */
  lemma StoreClampedKeepsBytes(v: int)
    requires IsByte(v)
    ensures StoreClamped(v) == v
  {
  }

  /** Truncation toward zero, the first step of ToUint8. */
  function Truncate(x: real): (t: int)
    ensures 0.0 <= x ==> 0 <= t && t as real <= x < t as real + 1.0
    ensures x <= 0.0 ==> t <= 0 && t as real - 1.0 < x <= t as real
  {
    if x >= 0.0 then x.Floor else -((-x).Floor)
  }

  /** ToUint8 (section 7.1.11 of ECMA-262) on an exact real. */
  function ToUint8(x: real): (r: int)
    ensures IsByte(r)
    ensures 0.0 <= x < 256.0 ==> r == x.Floor
  {
    Truncate(x) % 256
  }

  lemma ToUint8Monotone(x: real, y: real)
    requires 0.0 <= x <= y < 256.0
    ensures ToUint8(x) <= ToUint8(y)
  {
  }
}
