/**
  Pixels, the fixed 16-entry palette and the integer helpers the ditherer
  needs: the saturating clamp and division truncated toward zero.
 */
module Colour {

  /** A pixel or palette colour; also used for a signed per-channel error. */
  datatype Rgb = Rgb(r: int, g: int, b: int)

  /** A position in the palette. */
  type PaletteIndex = i: int | 0 <= i < 16

  const PaletteSize: nat := 16

  /** The palette table, in declaration order. */
  const PaletteRgb: seq<Rgb> := [
    Rgb(0, 0, 0), Rgb(128, 0, 0), Rgb(0, 128, 0), Rgb(128, 128, 0),
    Rgb(0, 0, 128), Rgb(128, 0, 128), Rgb(0, 128, 128), Rgb(192, 192, 192),
    Rgb(128, 128, 128), Rgb(255, 0, 0), Rgb(0, 255, 0), Rgb(255, 255, 0),
    Rgb(0, 0, 255), Rgb(255, 0, 255), Rgb(0, 255, 255), Rgb(255, 255, 255)
  ]

  predicate ChannelInRange(v: int) { 0 <= v <= 255 }

  predicate InRange(c: Rgb) {
    ChannelInRange(c.r) && ChannelInRange(c.g) && ChannelInRange(c.b)
  }

  predicate AllInRange(s: seq<Rgb>) {
    forall i :: 0 <= i < |s| ==> InRange(s[i])
  }

  /** The palette has 16 entries, every one of them a valid 8-bit colour, and no two alike. */
  lemma PaletteWellFormed()
    ensures |PaletteRgb| == PaletteSize
    ensures forall i :: 0 <= i < |PaletteRgb| ==> InRange(PaletteRgb[i])
    ensures forall i, j :: 0 <= i < j < |PaletteRgb| ==> PaletteRgb[i] != PaletteRgb[j]
  {
  }

  /** Saturates an integer to the channel range [0,255]. */
  function Clamp(v: int): (r: int)
    ensures ChannelInRange(r)
    ensures ChannelInRange(v) ==> r == v
    ensures v < 0 ==> r == 0
    ensures v > 255 ==> r == 255
  {
    if v < 0 then 0 else if v > 255 then 255 else v
  }

  /** Clamping a clamped value changes nothing, and clamping preserves order. */
  lemma ClampIdempotentMonotone(u: int, v: int)
    ensures Clamp(Clamp(v)) == Clamp(v)
    ensures u <= v ==> Clamp(u) <= Clamp(v)
  {
  }

  /**
    Integer division rounding toward zero, as a float-to-int conversion does
    (Dafny's own `/` is Euclidean and rounds negative quotients down).
   */
  function TruncDiv(a: int, d: int): (q: int)
    requires d > 0
    ensures a >= 0 ==> 0 <= a - q * d < d
    ensures a < 0 ==> -d < a - q * d <= 0
  {
    if a >= 0 then a / d else -((-a) / d)
  }

  /** Dividing an exact multiple of 16 by 16 gives the factor back, whatever its sign. */
  lemma TruncDivExact(v: int)
    ensures TruncDiv(16 * v, 16) == v
  {
  }

  /** Truncation toward zero is symmetric about zero. */
  lemma TruncDivNegate(a: int, d: int)
    requires d > 0
    ensures TruncDiv(-a, d) == -TruncDiv(a, d)
  {
  }
}
