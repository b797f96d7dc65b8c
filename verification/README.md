# ASCII-art rasteriser of `AsciiEffect`, in Dafny

`AsciiEffect` renders a three.js scene as text. On each frame it draws the
rendered canvas into a small sample canvas and reads that canvas back as an
RGBA byte buffer. It then turns every second row of the buffer into a line of
glyphs. Each pixel's brightness picks a glyph from a palette, and in colour
mode each glyph is wrapped in a `<span>` that carries the pixel's colour.

This project models that rasteriser as pure functions over an exact model of
the buffer. It proves what the markup contains and how it is laid out. It also
models what the constructor and `setSize` compute: the option fallbacks, the
palette, the font metrics, the letter-spacing table and the sample size.

Modules, one per file:

- `Frame`: the buffer, as `width × height` pixels, row-major, four bytes each.
  It has the channel offset `(y × width + x) × 4` and the pixel reader.
- `Brightness`: luminance `30r + 59g + 11b`, which lies in `0 … 25500`. This is
  the source's `0.3r + 0.59g + 0.11b` scaled by 100 and computed exactly. It
  also has the transparency override, the palette index
  `⌊(25500 − lum)(n − 1) / 25500⌋` and the inversion `n − 1 − i`.
- `Markup`:
  - the glyph, with its `&nbsp;` fallback;
  - a cell's inline style as a list of declarations, with a serialiser and a
    parser;
  - the `rgb(r,g,b)` text and its parser;
  - the span around a cell;
  - counting of `<` characters.
- `Decimal`: the decimal numerals JavaScript writes for the channel values, and
  a parser that reads them back.
- `Text`: index-of, split and join on one separator character. Both parsers
  are built on these.
- `Config`:
  - the `charSet` argument and the options object;
  - palette selection;
  - the fallbacks `resolution || 0.15`, `scale || 1` and
    `strResolution || 'low'`;
  - font size and line height;
  - the letter-spacing table, in hundredths of a pixel;
  - the sample size `⌊extent × resolution⌋`.
- `Asciify`:
  - the output as a reference grid of cells;
  - its serialisation;
  - the loop as the source writes it. `AsciifyImage` reads pixels, computes
    glyphs and concatenates cells, and is proved equal to the reference.
- `Optional`: `Option`.

Some behaviour of the code is easy to misread, and the model follows the code:

- Rows are sampled at `y = 0, 2, 4, …` below the sample height. That gives
  `⌈iHeight / 2⌉` rows, not `⌊iHeight / 2⌋`.
- No step clamps the glyph index. Under exact arithmetic the index is always
  inside the palette when the palette is non-empty. A missing entry would
  become `&nbsp;`, like a space.
- The buffer always comes from `getImageData(0, 0, iWidth, iHeight)`, so its
  length is `iWidth × iHeight × 4`. The model takes that as a precondition
  (`Image.Valid`). The code has no error path for any other length.
- A `charSet` that is left out, or passed as `undefined`, takes the parameter
  default `' .:-=+*#%@'`. The two built-in ramps (`' .,:;i1tfLCG08@'`, and
  `' CGO08@'` in colour mode) apply only when the argument is some other falsy
  value, such as `null`, `false`, `''`, `0` or `NaN`.
- An array is truthy even when empty. So an empty array gives an empty palette,
  and every glyph is then `&nbsp;`, wrapped in its span in colour mode.

## Model

| member | source | states |
|---|---|---|
| Frame.PixelOffset | jsm/effects/AsciiEffect.js:189-194 | all four channel reads of pixel (x, y) lie inside a buffer of `width × height × 4` bytes |
| Frame.PixelOffsetInverse | jsm/effects/AsciiEffect.js:189 | the offset is a multiple of 4; dividing by 4 and then by the width gives back x (as remainder) and y (as quotient) |
| Frame.PixelOffsetInjective | jsm/effects/AsciiEffect.js:189 | two different pixels never read the same channel |
| Frame.PixelAt | jsm/effects/AsciiEffect.js:189-194 | the pixel at (x, y): its four channels, read at the pixel's offset |
| Frame.PixelGroup | jsm/effects/AsciiEffect.js:189-194 | the pixel at (x, y) is exactly the four-byte group at its offset, in the order red, green, blue, alpha |
| Brightness.Luminance | jsm/effects/AsciiEffect.js:199 | luminance lies in 0 … 25500; it is 0 exactly for black and 25500 exactly for white |
| Brightness.EffectiveLuminance | jsm/effects/AsciiEffect.js:199-208 | the luminance used, with transparency forced to white, stays in 0 … 25500 |
| Brightness.RawIndex | jsm/effects/AsciiEffect.js:210 | for a non-empty palette of n glyphs, the index lies in 0 … n − 1 |
| Brightness.Invert | jsm/effects/AsciiEffect.js:212-216 | inverting maps the index range 0 … n − 1 into itself (onto it, with `InvertInvolutive`) |
| Brightness.CharIndex | jsm/effects/AsciiEffect.js:199-216 | with or without inversion, the index of any pixel is a valid palette position when the palette is non-empty |
| Brightness.InvertInvolutive | jsm/effects/AsciiEffect.js:214 | inverting twice gives back the original index |
| Brightness.RawIndexMonotone | jsm/effects/AsciiEffect.js:210 | more light never gives a larger index |
| Brightness.CharIndexMonotone | jsm/effects/AsciiEffect.js:199-216 | a brighter pixel never gets a larger index, and with inversion never a smaller one |
| Brightness.Extremes | jsm/effects/AsciiEffect.js:199-210 | pure white maps to index 0 and opaque pure black to index n − 1 |
| Brightness.TransparentIndex | jsm/effects/AsciiEffect.js:202-216 | a pixel with alpha 0 gets index 0, or n − 1 when inverted, whatever its colour |
| Brightness.InvertLaw | jsm/effects/AsciiEffect.js:210-216 | the inverted index is n − 1 minus the plain index, for every pixel |
| Markup.Glyph | jsm/effects/AsciiEffect.js:222-225 | the glyph is `&nbsp;` exactly when the index is outside the palette or the entry is a space; otherwise it is that one palette character |
| Decimal.NatText | jsm/effects/AsciiEffect.js:230 | a channel is written with decimal digits only and no leading zero, except for 0 itself |
| Decimal.ParseNatText | jsm/effects/AsciiEffect.js:230 | the decimal text of a channel reads back as that channel |
| Markup.RgbText | jsm/effects/AsciiEffect.js:230-231 | the colour text `rgb(` red `,` green `,` blue `)` of a pixel; `RgbRoundTrip` reads it back |
| Markup.RgbRoundTrip | jsm/effects/AsciiEffect.js:230 | the text `rgb(r,g,b)` parses back to the pixel's three channels |
| Markup.StyleRoundTrip | jsm/effects/AsciiEffect.js:229-233 | a style made of clean declarations parses back to the same declarations, in order |
| Markup.CellStyle | jsm/effects/AsciiEffect.js:230-232 | the declarations of a coloured cell's style: colour, then background when block is on, then opacity when alpha is on; `CellStyleCarries` and `StyleInOrder` state this |
| Markup.CellStyleCarries | jsm/effects/AsciiEffect.js:229-233 | a coloured cell's style starts with its colour; it has a background exactly when block is on, and an opacity exactly when alpha is on; those values are the colour text and the opacity text |
| Markup.SpanAsWritten | jsm/effects/AsciiEffect.js:229-233 | the modelled cell is character for character the span the loop concatenates |
| Markup.Span | jsm/effects/AsciiEffect.js:229-233 | `<span style='` style `'>` content `</span>`; `SpanParts` reads the style back and finds the content at the end |
| Markup.Cell | jsm/effects/AsciiEffect.js:227-239 | outside colour mode the cell is the glyph itself; in colour mode it starts with `<span style='` and ends with the glyph and `</span>` |
| Markup.CellContents | jsm/effects/AsciiEffect.js:227-239 | outside colour mode the cell is the bare glyph; in colour mode it is a span that ends in the glyph and `</span>`, and whose style attribute parses to the cell's declarations |
| Markup.CellLtCount | jsm/effects/AsciiEffect.js:227-239 | a cell opens two tags in colour mode and none otherwise, when neither the glyph nor the opacity text holds a `<` |
| Asciify.CellFor | jsm/effects/AsciiEffect.js:199-239 | outside colour mode, the cell of a pixel is the palette character at the pixel's index, or `&nbsp;` when that character is a space or the palette is empty |
| Asciify.CellForLtCount | jsm/effects/AsciiEffect.js:222-239 | if the palette has no `<`, a pixel's cell opens exactly the tags of its mode |
| Asciify.SampledRows | jsm/effects/AsciiEffect.js:185 | the number of sampled rows y = 0, 2, … below the height: twice it is the height, or the height plus one when the height is odd |
| Asciify.RowText | jsm/effects/AsciiEffect.js:187-241 | the cells of row y, columns 0 … n − 1, left to right; `AppendRow` is proved to build it and `RowIsJoin` ties it to the grid's row |
| Asciify.RowIsJoin | jsm/effects/AsciiEffect.js:187-241 | the text of the first n columns of a row is the join of any n cells that equal that row's pixel cells |
| Asciify.Grid | jsm/effects/AsciiEffect.js:185-241 | there are ⌈height / 2⌉ rows of cells; row i comes from source row 2i and holds one cell per column, each the cell of that pixel |
| Asciify.RowsFrom | jsm/effects/AsciiEffect.js:185-245 | the sampled rows from source row y down, each followed by `<br/>`; empty exactly when y is past the last row |
| Asciify.RowsEndWithBreak | jsm/effects/AsciiEffect.js:185-245 | a non-empty run of sampled rows ends with `<br/>` |
| Asciify.Asciify | jsm/effects/AsciiEffect.js:181-245 | the reference text for one buffer: the sampled rows from row 0; `AsciifyImage` is proved to build it and `AsciifyIsGrid` ties it to the grid |
| Asciify.AsciifyShape | jsm/effects/AsciiEffect.js:181-245 | the text is empty exactly when the buffer has no rows, and otherwise ends with `<br/>` |
| Asciify.RowsAreSerialized | jsm/effects/AsciiEffect.js:185-245 | any rows whose joins equal the image's sampled row texts serialise, from row i on, to the rows from source row 2i down |
| Asciify.RowsAreGrid | jsm/effects/AsciiEffect.js:185-245 | the sampled rows from source row 2i down are the grid's rows from i on, serialised |
| Asciify.AsciifyIsGrid | jsm/effects/AsciiEffect.js:185-245 | the output is the grid serialised: each row's cells in order, then `<br/>` |
| Asciify.AsciifyLtCount | jsm/effects/AsciiEffect.js:185-245 | if no glyph or opacity text holds a `<`, the output opens ⌈height / 2⌉ × (width × tags per cell + 1) tags: one `<br/>` per row, plus two tags per cell in colour mode |
| Asciify.ReadPixel | jsm/effects/AsciiEffect.js:189-194 | reading the four bytes at the pixel's offset yields the pixel at (x, y) |
| Asciify.GlyphFor | jsm/effects/AsciiEffect.js:199-225 | the loop body's glyph is the palette glyph at the pixel's (possibly inverted) index |
| Asciify.CellMarkup | jsm/effects/AsciiEffect.js:199-239 | the loop body's cell text equals the modelled cell of the pixel |
| Asciify.AppendRow | jsm/effects/AsciiEffect.js:187-241 | the inner loop appends exactly the cells of row y, left to right |
| Asciify.AsciifyImage | jsm/effects/AsciiEffect.js:181-245 | the nested loop builds exactly the reference output for the buffer |
| Config.Truthy | jsm/effects/AsciiEffect.js:115 | the `if ( charSet )` test: a non-empty string or any array, even an empty one |
| Config.Palette | jsm/effects/AsciiEffect.js:113-115 | a truthy `charSet` is the palette; an omitted one gives `' .:-=+*#%@'`; a falsy one gives the colour or plain built-in ramp; the palette is non-empty unless an array was passed |
| Config.Resolution | jsm/effects/AsciiEffect.js:13 | a missing or zero resolution becomes 0.15; any other value is kept; the result is never zero |
| Config.Scale | jsm/effects/AsciiEffect.js:14 | a missing or zero scale becomes 1; any other value is kept |
| Config.Density | jsm/effects/AsciiEffect.js:19 | a missing or empty density becomes `low`; any other value is kept |
| Config.CellSize | jsm/effects/AsciiEffect.js:119-120 | the size times the resolution is twice the scale, i.e. the size is `(2 / resolution) × scale` |
| Config.LetterSpacing | jsm/effects/AsciiEffect.js:124-166 | the spacing lies between −4.15 px and 0; it is 0 for a scale outside 1 … 5 and for a density other than low, medium or high |
| Config.LetterSpacingMonotone | jsm/effects/AsciiEffect.js:124-166 | at a fixed density, a larger scale never gets wider spacing |
| Config.LetterSpacingByDensity | jsm/effects/AsciiEffect.js:124-166 | at a fixed scale, low density is never wider-spaced than medium, and medium never wider than high |
| Config.New | jsm/effects/AsciiEffect.js:13-166 | resolution, scale and density are the options' values, with a missing or zero value replaced by 0.15, 1 and `low`; the flags are the options' flags, the palette is the selected one, font size equals line height at `(2 / resolution) × scale` of those values, and the spacing is the table entry for that density and scale |
| Config.NewDefaults | jsm/effects/AsciiEffect.js:13-19 | with no options and no `charSet`, the effect uses resolution 0.15, scale 1, low density, the palette `' .:-=+*#%@'` and a spacing of −1 px |
| Config.PaletteGlyph | jsm/effects/AsciiEffect.js:113-115 | unless an array is passed, every pixel's index is inside the selected palette, so the glyph is the palette character there and `&nbsp;` only where that character is a space |
| Config.BlankWhite | jsm/effects/AsciiEffect.js:113-115 | every built-in palette starts with a space, so without inversion a white or fully transparent pixel renders as `&nbsp;` |
| Config.SampleSize | jsm/effects/AsciiEffect.js:58-59 | the sample size is the floor of extent × resolution; for a resolution in (0, 1] it lies in 0 … extent |
| Config.SampleSizeMonotone | jsm/effects/AsciiEffect.js:58-59 | a larger canvas never gives a smaller sample |
| Config.SetSize | jsm/effects/AsciiEffect.js:56-59 | `setSize` keeps the canvas size, and each sample dimension is the largest whole number not above canvas dimension × resolution; for a resolution in (0, 1] it lies between 0 and the canvas dimension |
| Config.SampleSizePositive | jsm/effects/AsciiEffect.js:58-59 | a sample side is at least 1 exactly when extent × resolution reaches 1 |
| Config.DefaultSampleNonEmpty | jsm/effects/AsciiEffect.js:58-59 | at the default resolution 0.15 a sample side is non-empty exactly when the canvas side is at least 7 pixels |

## Left out

- The DOM: the `div` and `table` elements, their styling, and the
  `innerHTML` assignment that wraps the output in a table cell
  (AsciiEffect.js:23-27, 69-88, 247). The model's output is the string
  before it is wrapped.
- Canvas calls. `getContext`, `clearRect`, `drawImage` and `getImageData`
  (AsciiEffect.js:99-111, 176-178) are replaced by the buffer given as input.
  The renderer calls at :37 and :46 are left out for the same reason. When a
  sample side is 0 (a canvas side under 7 pixels at the default resolution,
  see `Config.DefaultSampleNonEmpty`), `getImageData` throws and the effect
  renders nothing. The model has no such error: `AsciifyImage` on a buffer
  with no rows or no columns returns `""` or a run of `<br/>`.
- Floating point. Brightness is exact integer arithmetic, scaled by 100. In
  doubles, the brightness of a pixel that lies exactly on a boundary between
  two palette buckets can come out a hair above the exact value, and the code
  then picks the next lower index. For example, with a palette of 3 glyphs the
  opaque pixel (107, 130, 170) has exact brightness 1/2 and index 1, while the
  double is 0.5000000000000001 and the code picks index 0. Only such boundary
  pixels differ; white still gives index 0 and black index n − 1. That
  rounding is not reproduced.
- Opacity text. The text of `iAlpha / 255` is JavaScript's number-to-string
  conversion of a double, so it is a parameter `opacity: Byte -> string`. The
  properties that read a span back require that this text holds no `;`, `'`
  or `<`.
- Option values of other types. The flags are booleans, a missing key is
  `None`, the resolution is a real and the scale an integer. NaN, strings
  where numbers are expected, and fractional scales are not modelled.
- Array `charSet`: entries are single characters. An array whose entries are
  longer strings would emit those strings as glyphs. That is not modelled.
- Config.SampleSize: the model floors the exact product of extent and
  resolution, while the code floors a double product. The two differ when the
  double falls just below a whole number: `Math.floor(100 * 0.29)` is 28 and
  `Math.floor(180 * 0.35)` is 62, where the model gives 29 and 63.
- Config.SetSize: each sample side is `Config.SampleSize` of the canvas side,
  so it inherits the exact-product floor described on the line above.
- Config.CellSize: the font size is an exact real, while the code computes
  `2 / fResolution * iScale` in doubles. At resolution 0.35 and scale 3 the
  code's size is 17.142857142857142, and that times 0.35 is not exactly 6 in
  doubles. The size only reaches the CSS text of the output element, which is
  not modelled.
- Config.Palette: the palette is a sequence of Unicode scalar values, while
  the code indexes the string in UTF-16 code units (`aCharList.length` and
  `aCharList[i]`). A `charSet` holding a character outside the Basic
  Multilingual Plane, such as an emoji, has one entry per character here but
  two entries (a surrogate pair) in the code, where each half can be emitted
  as a glyph on its own. Only palettes of Basic Multilingual Plane characters
  are modelled faithfully.
- Config.LetterSpacing: the contract bounds the table and states where it is
  zero. The individual entries (−1, −2.1, −2.1, −3.1, −4.15 for low density
  at scales 1 to 5, and so on) are the function's definition, in hundredths
  of a pixel; they are not repeated as a separate claim.
