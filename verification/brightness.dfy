/** From a pixel to a palette index: weighted luminance, the transparency
    rule, the luminance-to-index mapping and its inversion. JavaScript works
    in doubles, `(0.3 r + 0.59 g + 0.11 b) / 255`; here the same quantity is
    kept exactly as the integer `30 r + 59 g + 11 b` over `25500`. */
module Brightness {

  import opened Frame

  /** Luminance of pure white: brightness 1 in the double formulation. */
  const MaxLuminance: int := 25500

  /** Weighted luminance, 100 × 255 times the brightness of the source. Zero
      exactly for black and maximal exactly for white. */
  function Luminance(p: Pixel): (l: int)
    ensures 0 <= l <= MaxLuminance
    ensures l == 0 <==> p.red == 0 && p.green == 0 && p.blue == 0
    ensures l == MaxLuminance <==> p.red == 255 && p.green == 255 && p.blue == 255
  {
    30 * p.red + 59 * p.green + 11 * p.blue
  }

  /** The luminance the mapping uses: a fully transparent pixel counts as
      white, whatever its colour channels. */
  function EffectiveLuminance(p: Pixel): (l: int)
    ensures 0 <= l <= MaxLuminance
  {
    if p.alpha == 0 then MaxLuminance else Luminance(p)
  }

  lemma DivLeq(a: int, b: int, d: int)
    requires a <= b && 0 < d
    ensures a / d <= b / d
  {
    if a / d > b / d {
      assert a == d * (a / d) + a % d;
      assert b == d * (b / d) + b % d;
      MulLeq(b / d + 1, a / d, d);
    }
  }

  /** `floor((1 - brightness) × (n - 1))`: the index into a palette of `n`
      glyphs. For a non-empty palette it is always a valid index. */
  function RawIndex(lum: int, n: nat): (i: int)
    requires 0 <= lum <= MaxLuminance
    ensures 1 <= n ==> 0 <= i < n
  {
    if 1 <= n then
      MulLeq(0, MaxLuminance - lum, n - 1);
      MulLeq(MaxLuminance - lum, MaxLuminance, n - 1);
      DivLeq(0, (MaxLuminance - lum) * (n - 1), MaxLuminance);
      DivLeq((MaxLuminance - lum) * (n - 1), MaxLuminance * (n - 1), MaxLuminance);
      ((MaxLuminance - lum) * (n - 1)) / MaxLuminance
    else
      ((MaxLuminance - lum) * (n - 1)) / MaxLuminance
  }

  /** Reflection of an index in a palette of `n` glyphs. */
  function Invert(n: int, i: int): (j: int)
    ensures 0 <= i < n ==> 0 <= j < n
  {
    n - i - 1
  }

  /** The palette index of a pixel, inverted when asked to. */
  function CharIndex(p: Pixel, n: nat, invert: bool): (i: int)
    ensures 1 <= n ==> 0 <= i < n
  {
    var raw := RawIndex(EffectiveLuminance(p), n);
    if invert then Invert(n, raw) else raw
  }

  lemma InvertInvolutive(n: int, i: int)
    ensures Invert(n, Invert(n, i)) == i
  {
  }

  /** Without inversion, more light never means a larger index. */
  lemma RawIndexMonotone(lum1: int, lum2: int, n: nat)
    requires 0 <= lum1 <= lum2 <= MaxLuminance
    requires 1 <= n
    ensures RawIndex(lum2, n) <= RawIndex(lum1, n)
  {
    MulLeq(MaxLuminance - lum2, MaxLuminance - lum1, n - 1);
    DivLeq((MaxLuminance - lum2) * (n - 1), (MaxLuminance - lum1) * (n - 1), MaxLuminance);
  }

  /** A brighter pixel never gets a larger index; with inversion, never a
      smaller one. */
  lemma CharIndexMonotone(p: Pixel, q: Pixel, n: nat)
    requires EffectiveLuminance(p) <= EffectiveLuminance(q)
    requires 1 <= n
    ensures CharIndex(q, n, false) <= CharIndex(p, n, false)
    ensures CharIndex(p, n, true) <= CharIndex(q, n, true)
  {
    RawIndexMonotone(EffectiveLuminance(p), EffectiveLuminance(q), n);
  }

  /** Pure white maps to the first glyph, opaque pure black to the last. */
  lemma Extremes(p: Pixel, n: nat)
    requires 1 <= n
    ensures p.red == 255 && p.green == 255 && p.blue == 255 ==> CharIndex(p, n, false) == 0
    ensures p.red == 0 && p.green == 0 && p.blue == 0 && p.alpha != 0 ==> CharIndex(p, n, false) == n - 1
  {
  }

  /** A fully transparent pixel takes the "white" end of the palette. */
  lemma TransparentIndex(p: Pixel, n: nat, invert: bool)
    requires p.alpha == 0
    requires 1 <= n
    ensures CharIndex(p, n, invert) == if invert then n - 1 else 0
  {
  }

  /** Inverting reflects every index: index with inversion is `n - 1` minus the
      index without it. */
  lemma InvertLaw(p: Pixel, n: nat)
    ensures CharIndex(p, n, true) == n - 1 - CharIndex(p, n, false)
  {
  }

}
