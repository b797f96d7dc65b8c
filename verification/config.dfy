/** What the effect's constructor and `setSize` compute: the settings read
    from the options object with their fallbacks, the active palette, the
    font metrics and letter-spacing correction, and the sample-buffer
    dimensions. */
module Config {

  import opened Optional
  import opened Markup
  import opened Frame
  import opened Brightness

  /** The `charSet` argument as JavaScript sees it: left out (the parameter
      default applies), a falsy value (`null`, `false`, ...), a string, or an
      array of one-character strings. */
  datatype CharSet = Omitted | Falsy | Chars(text: string) | CharArray(items: seq<char>)

  /** The options object: a missing key is `None`. */
  datatype Options = Options(
    resolution: Option<real>,
    scale: Option<int>,
    color: bool,
    alpha: bool,
    block: bool,
    invert: bool,
    strResolution: Option<string>)

  /** Everything the constructor fixes. Letter spacing is in hundredths of a
      pixel. */
  datatype Settings = Settings(
    resolution: real,
    scale: int,
    flags: Flags,
    density: string,
    palette: seq<char>,
    fontSize: real,
    lineHeight: real,
    letterSpacing: int)

  /** Default of the `charSet` parameter. */
  const DefaultCharSet: string := " .:-=+*#%@"

  /** Ramps used when `charSet` is falsy, without and with colour. */
  const DefaultCharList: string := " .,:;i1tfLCG08@"
  const DefaultColorCharList: string := " CGO08@"

  const DefaultResolution: real := 0.15

  /** JavaScript truthiness of the argument: an empty string is falsy, an
      array (even an empty one) is truthy. */
  predicate Truthy(cs: CharSet) {
    (cs.Chars? && cs.text != "") || cs.CharArray?
  }

  /** The palette the effect maps luminance into: the argument whenever it is
      truthy, else one of the two built-in ramps. It is never empty unless
      the caller passed an empty array. */
  function Palette(cs: CharSet, color: bool): (p: seq<char>)
    ensures cs.Chars? && cs.text != "" ==> p == cs.text
    ensures cs.CharArray? ==> p == cs.items
    ensures cs.Omitted? ==> p == DefaultCharSet
    ensures cs.Falsy? || cs == Chars("") ==> p == if color then DefaultColorCharList else DefaultCharList
    ensures !cs.CharArray? ==> 1 <= |p|
  {
    var given := if cs.Omitted? then Chars(DefaultCharSet) else cs;
    var list := if color then DefaultColorCharList else DefaultCharList;
    if Truthy(given) then (if given.Chars? then given.text else given.items) else list
  }

  /** `options.resolution || 0.15`: zero falls back to the default. */
  function Resolution(o: Option<real>): (r: real)
    ensures r != 0.0
    ensures o.Some? && o.value != 0.0 ==> r == o.value
    ensures o.None? || o == Some(0.0) ==> r == DefaultResolution
  {
    if o.Some? && o.value != 0.0 then o.value else DefaultResolution
  }

  /** `options.scale || 1`. */
  function Scale(o: Option<int>): (s: int)
    ensures s != 0
    ensures o.Some? && o.value != 0 ==> s == o.value
    ensures o.None? || o == Some(0) ==> s == 1
  {
    if o.Some? && o.value != 0 then o.value else 1
  }

  /** `options.strResolution || 'low'`. */
  function Density(o: Option<string>): (d: string)
    ensures d != ""
    ensures o.Some? && o.value != "" ==> d == o.value
    ensures o.None? || o == Some("") ==> d == "low"
  {
    if o.Some? && o.value != "" then o.value else "low"
  }

  /** Font size and line height, `(2 / resolution) × scale` pixels. */
  function CellSize(resolution: real, scale: int): (size: real)
    requires resolution != 0.0
    ensures size * resolution == 2.0 * scale as real
  {
    assert (2.0 / resolution) * resolution == 2.0;
    (2.0 / resolution) * scale as real
  }

  /** Letter-spacing correction, in hundredths of a pixel, for a density and
      a scale. It is zero for a scale outside 1..5 and for a density other
      than `low`, `medium` and `high`, and never positive. */
  function LetterSpacing(density: string, scale: int): (h: int)
    ensures -415 <= h <= 0
    ensures !(1 <= scale <= 5) ==> h == 0
    ensures density != "low" && density != "medium" && density != "high" ==> h == 0
  {
    if density == "low" then
      if scale == 1 then -100
      else if scale == 2 || scale == 3 then -210
      else if scale == 4 then -310
      else if scale == 5 then -415
      else 0
    else if density == "medium" then
      if scale == 1 then 0
      else if scale == 2 then -100
      else if scale == 3 then -104
      else if scale == 4 || scale == 5 then -210
      else 0
    else if density == "high" then
      if scale == 1 || scale == 2 then 0
      else if 3 <= scale <= 5 then -100
      else 0
    else
      0
  }

  /** At a fixed density a larger scale never spaces letters wider. */
  lemma LetterSpacingMonotone(density: string, s1: int, s2: int)
    requires 1 <= s1 <= s2 <= 5
    ensures LetterSpacing(density, s2) <= LetterSpacing(density, s1)
  {
  }

  /** At a fixed scale a denser setting never spaces letters tighter. */
  lemma LetterSpacingByDensity(scale: int)
    ensures LetterSpacing("low", scale) <= LetterSpacing("medium", scale) <= LetterSpacing("high", scale)
  {
  }

  /** The constructor: fallbacks applied, palette chosen, metrics derived. */
  function New(cs: CharSet, options: Options): (s: Settings)
    ensures s.resolution == Resolution(options.resolution)
    ensures s.scale == Scale(options.scale)
    ensures s.density == Density(options.strResolution)
    ensures s.resolution != 0.0 && s.scale != 0
    ensures s.flags == Flags(options.color, options.alpha, options.block, options.invert)
    ensures s.palette == Palette(cs, options.color)
    ensures s.fontSize == s.lineHeight
    ensures s.fontSize * s.resolution == 2.0 * s.scale as real
    ensures s.letterSpacing == LetterSpacing(s.density, s.scale)
    ensures !(1 <= s.scale <= 5) ==> s.letterSpacing == 0
  {
    var resolution := Resolution(options.resolution);
    var scale := Scale(options.scale);
    var density := Density(options.strResolution);
    Settings(
      resolution,
      scale,
      Flags(options.color, options.alpha, options.block, options.invert),
      density,
      Palette(cs, options.color),
      CellSize(resolution, scale),
      CellSize(resolution, scale),
      LetterSpacing(density, scale))
  }

  /** The sample buffer's dimensions after `setSize(width, height)`. */
  datatype Size = Size(width: nat, height: nat, sampleWidth: int, sampleHeight: int)

  /** `Math.floor(extent × resolution)`. For a resolution in (0, 1] it never
      exceeds the extent and is never negative. */
  function SampleSize(extent: nat, resolution: real): (n: int)
    ensures n as real <= extent as real * resolution < n as real + 1.0
    ensures 0.0 < resolution ==> 0 <= n
    ensures 0.0 < resolution <= 1.0 ==> n <= extent
  {
    if 0.0 < resolution <= 1.0 then
      assert extent as real * resolution <= extent as real;
      (extent as real * resolution).Floor
    else
      (extent as real * resolution).Floor
  }

  lemma SampleSizeMonotone(e1: nat, e2: nat, resolution: real)
    requires e1 <= e2 && 0.0 < resolution
    ensures SampleSize(e1, resolution) <= SampleSize(e2, resolution)
  {
    assert e1 as real * resolution <= e2 as real * resolution;
  }

  /** `setSize(width, height)`: each sample dimension is the whole number of
      sample pixels that fit at the resolution. */
  function SetSize(s: Settings, width: nat, height: nat): (z: Size)
    ensures z.width == width && z.height == height
    ensures z.sampleWidth as real <= width as real * s.resolution < z.sampleWidth as real + 1.0
    ensures z.sampleHeight as real <= height as real * s.resolution < z.sampleHeight as real + 1.0
    ensures 0.0 < s.resolution <= 1.0 ==> 0 <= z.sampleWidth <= width && 0 <= z.sampleHeight <= height
  {
    Size(width, height, SampleSize(width, s.resolution), SampleSize(height, s.resolution))
  }

  /** A sample side is non-empty exactly when at least one whole sample pixel
      fits, i.e. when extent × resolution reaches 1. */
  lemma SampleSizePositive(extent: nat, resolution: real)
    requires 0.0 < resolution
    ensures 1 <= SampleSize(extent, resolution) <==> 1.0 <= extent as real * resolution
  {
  }

  /** At the default resolution a side of the canvas needs at least 7 pixels
      for the sample buffer to have that side non-empty. */
  lemma DefaultSampleNonEmpty(extent: nat)
    ensures 1 <= SampleSize(extent, DefaultResolution) <==> 7 <= extent
  {
    SampleSizePositive(extent, DefaultResolution);
    if 7 <= extent {
      assert 7.0 * DefaultResolution <= extent as real * DefaultResolution;
    } else {
      assert extent as real * DefaultResolution <= 6.0 * DefaultResolution;
    }
  }

  /** Without options and without a `charSet` argument the effect uses
      resolution 0.15, scale 1, low density, the parameter's default palette
      and a letter spacing of −1 px. */
  lemma NewDefaults()
    ensures var s := New(Omitted, Options(None, None, false, false, false, false, None));
      && s.resolution == DefaultResolution && s.scale == 1 && s.density == "low"
      && s.palette == DefaultCharSet && s.flags == Flags(false, false, false, false)
      && s.letterSpacing == -100
  {
  }

  /** Unless an array is passed, every pixel's index lands inside the palette,
      so the missing-entry fallback never fires: the glyph is the palette
      character at the pixel's index, and `&nbsp;` only where that character
      is a space. */
  lemma PaletteGlyph(cs: CharSet, options: Options, p: Pixel)
    requires !cs.CharArray?
    ensures var s := New(cs, options);
      var i := CharIndex(p, |s.palette|, s.flags.invert);
      && 0 <= i < |s.palette|
      && Glyph(s.palette, i) == (if s.palette[i] == ' ' then Nbsp else [s.palette[i]])
  {
  }

  /** Every built-in palette starts with a space, so without inversion a white
      or fully transparent pixel is rendered blank. */
  lemma BlankWhite(cs: CharSet, options: Options, p: Pixel)
    requires cs.Omitted? || cs.Falsy? || cs == Chars("")
    requires !options.invert && EffectiveLuminance(p) == MaxLuminance
    ensures var s := New(cs, options);
      Glyph(s.palette, CharIndex(p, |s.palette|, s.flags.invert)) == Nbsp
  {
  }

}
