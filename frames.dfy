/**
 * Pixel data as the browser's canvas hands it out: `ImageData.data` is a
 * Uint8ClampedArray holding four bytes (R, G, B, A) per pixel.
 */
module Frames {

  /** One channel value; every element of a Uint8ClampedArray is one. */
  type Byte = x: int | 0 <= x <= 255

  /** An RGBA buffer: non-empty, four bytes per pixel. */
  predicate IsFrame(f: seq<Byte>)
  {
    |f| > 0 && |f| % 4 == 0
  }

  /** The index of the alpha byte within each pixel. */
  predicate IsAlpha(i: int)
  {
    i % 4 == 3
  }

  /**
   * From the first byte of a pixel: three colour bytes, then its alpha byte,
   * the next pixel four bytes on, and within a frame the whole pixel.
   */
  lemma PixelLayout(i: int, n: int)
    requires i % 4 == 0 && n % 4 == 0 && i < n
    ensures !IsAlpha(i) && !IsAlpha(i + 1) && !IsAlpha(i + 2) && IsAlpha(i + 3)
    ensures (i + 4) % 4 == 0 && i + 4 <= n
  {
  }

  /**
   * ECMAScript's ToUint8Clamp, the conversion every store into a
   * Uint8ClampedArray performs: clamp to 0..255, then round to the nearest
   * integer, ties to even.
   */
  function ToUint8Clamp(x: real): (r: Byte)
    ensures x <= 0.0 ==> r == 0
    ensures x >= 255.0 ==> r == 255
    ensures 0.0 < x < 255.0 ==> -0.5 <= (r as real) - x <= 0.5
    ensures 0.0 < x < 255.0 && ((r as real) - x == 0.5 || x - (r as real) == 0.5) ==> r % 2 == 0
  {
    if x <= 0.0 then 0
    else if x >= 255.0 then 255
    else
      var f := x.Floor;
      if (f as real) + 0.5 < x then f + 1
      else if x < (f as real) + 0.5 then f
      else if f % 2 == 0 then f
      else f + 1
  }

  /** A store never leaves the interval spanned by two bytes around the stored value. */
  lemma ClampStaysBetween(lo: Byte, hi: Byte, x: real)
    requires lo as real <= x <= hi as real
    ensures lo <= ToUint8Clamp(x) <= hi
  {
  }

  /** Storing a value that is already a byte keeps it. */
  lemma ClampOfByte(b: Byte)
    ensures ToUint8Clamp(b as real) == b
  {
  }

  /** JavaScript's Math.round: the nearest integer, halves rounded up. */
  function JsRound(x: real): (r: int)
    ensures (r as real) - 0.5 <= x < (r as real) + 0.5
  {
    (x + 0.5).Floor
  }
}
