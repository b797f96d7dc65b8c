/** The pixel loop of the effect: every second row of the sample buffer,
    every column, one cell per pixel, a `<br/>` after each sampled row. The
    reference `Asciify` builds the grid of cells and serialises it;
    `AsciifyImage` builds the same string the way the loop does, one
    concatenation at a time. */
module Asciify {

  import opened Frame
  import opened Brightness
  import opened Markup
  import opened Config
  import opened Decimal

  const RowBreak: string := "<br/>"

  /** The markup for one pixel under the given palette and switches. */
  function CellFor(p: Pixel, palette: seq<char>, flags: Flags, opacity: Byte -> string): (c: string)
    ensures !flags.color && 1 <= |palette| ==>
      var i := CharIndex(p, |palette|, flags.invert);
      c == if palette[i] == ' ' then Nbsp else [palette[i]]
    ensures !flags.color && |palette| == 0 ==> c == Nbsp
  {
    Cell(p, Glyph(palette, CharIndex(p, |palette|, flags.invert)), flags, opacity)
  }

  /** Rows `0, 2, 4, …` below `height`: there are `ceil(height / 2)` of them. */
  function SampledRows(height: nat): (n: nat)
    ensures height <= 2 * n <= height + 1
  {
    (height + 1) / 2
  }

  /** The markup for pixel (x, y) of the sample buffer. */
  function CellAt(img: Image, x: nat, y: nat, palette: seq<char>, flags: Flags, opacity: Byte -> string): string
    requires img.Valid() && x < img.width && y < img.height
  {
    CellFor(PixelAt(img, x, y), palette, flags, opacity)
  }

  /** The cells of the first `n` columns of row `y`, left to right. */
  function RowText(img: Image, y: nat, n: nat, palette: seq<char>, flags: Flags, opacity: Byte -> string): string
    requires img.Valid() && y < img.height && n <= img.width
  {
    if n == 0 then ""
    else RowText(img, y, n - 1, palette, flags, opacity) + CellAt(img, n - 1, y, palette, flags, opacity)
  }

  /** The sampled rows from source row `y` down: rows `y, y + 2, …` below the
      height, each complete and followed by a row break. */
  function RowsFrom(img: Image, y: nat, palette: seq<char>, flags: Flags, opacity: Byte -> string): (r: string)
    requires img.Valid()
    ensures r == "" <==> img.height <= y
    decreases img.height - y
  {
    if img.height <= y then ""
    else RowText(img, y, img.width, palette, flags, opacity) + RowBreak + RowsFrom(img, y + 2, palette, flags, opacity)
  }

  /** Every non-empty run of sampled rows ends with a row break. */
  lemma {:induction false} RowsEndWithBreak(img: Image, y: nat, palette: seq<char>, flags: Flags, opacity: Byte -> string)
    requires img.Valid() && y < img.height
    ensures EndsWith(RowsFrom(img, y, palette, flags, opacity), RowBreak)
    decreases img.height - y
  {
    var head := RowText(img, y, img.width, palette, flags, opacity) + RowBreak;
    var rest := RowsFrom(img, y + 2, palette, flags, opacity);
    assert RowsFrom(img, y, palette, flags, opacity) == head + rest;
    if y + 2 < img.height {
      RowsEndWithBreak(img, y + 2, palette, flags, opacity);
      assert (head + rest)[|head + rest| - |RowBreak|..] == rest[|rest| - |RowBreak|..];
    } else {
      assert rest == "";
      assert head + rest == head;
    }
  }

  /** The text the effect renders for one sample buffer. */
  function Asciify(s: Settings, img: Image, opacity: Byte -> string): (r: string)
    requires img.Valid()
  {
    RowsFrom(img, 0, s.palette, s.flags, opacity)
  }

  /** The rendered text is empty exactly when the buffer has no rows, and
      otherwise ends with a row break. */
  lemma AsciifyShape(s: Settings, img: Image, opacity: Byte -> string)
    requires img.Valid()
    ensures Asciify(s, img, opacity) == "" <==> img.height == 0
    ensures 0 < img.height ==> EndsWith(Asciify(s, img, opacity), RowBreak)
  {
    if 0 < img.height {
      RowsEndWithBreak(img, 0, s.palette, s.flags, opacity);
    }
  }

  /** The output as a grid of cells: row `i` holds one cell per column of
      source row `2 i`. */
  function Grid(img: Image, palette: seq<char>, flags: Flags, opacity: Byte -> string): (g: seq<seq<string>>)
    requires img.Valid()
    ensures |g| == SampledRows(img.height)
    ensures forall i :: 0 <= i < |g| ==> 2 * i < img.height && |g[i]| == img.width
    ensures forall i, x :: 0 <= i < |g| && 0 <= x < |g[i]| ==> g[i][x] == CellAt(img, x, 2 * i, palette, flags, opacity)
  {
    seq(SampledRows(img.height), i requires 0 <= i < SampledRows(img.height) =>
      seq(img.width, x requires 0 <= x < img.width => CellAt(img, x, 2 * i, palette, flags, opacity)))
  }

  function JoinCells(cells: seq<string>): string {
    if |cells| == 0 then "" else JoinCells(cells[..|cells| - 1]) + cells[|cells| - 1]
  }

  /** Each row's cells followed by a row break. */
  function Serialize(rows: seq<seq<string>>): string {
    if |rows| == 0 then "" else JoinCells(rows[0]) + RowBreak + Serialize(rows[1..])
  }

  lemma {:induction false} RowIsJoin(img: Image, y: nat, n: nat, palette: seq<char>, flags: Flags, opacity: Byte -> string, row: seq<string>)
    requires img.Valid() && y < img.height && n <= img.width && n <= |row|
    requires forall x :: 0 <= x < n ==> row[x] == CellAt(img, x, y, palette, flags, opacity)
    ensures RowText(img, y, n, palette, flags, opacity) == JoinCells(row[..n])
    decreases n
  {
    if n > 0 {
      RowIsJoin(img, y, n - 1, palette, flags, opacity, row);
      var front, cell := RowText(img, y, n - 1, palette, flags, opacity), row[n - 1];
      assert RowText(img, y, n, palette, flags, opacity) == front + cell;
      assert row[..n][..n - 1] == row[..n - 1] && row[..n][n - 1] == cell;
    }
  }

  lemma GridRow(img: Image, i: nat, palette: seq<char>, flags: Flags, opacity: Byte -> string)
    requires img.Valid() && i < SampledRows(img.height)
    ensures 2 * i < img.height
    ensures RowText(img, 2 * i, img.width, palette, flags, opacity) == JoinCells(Grid(img, palette, flags, opacity)[i])
  {
    var g := Grid(img, palette, flags, opacity);
    RowIsJoin(img, 2 * i, img.width, palette, flags, opacity, g[i]);
    assert g[i][..img.width] == g[i];
  }

  /** `rows` holds, for each sampled row, that row's cells. */
  predicate RowsMatch(img: Image, rows: seq<seq<string>>, palette: seq<char>, flags: Flags, opacity: Byte -> string)
    requires img.Valid() && |rows| == SampledRows(img.height)
  {
    forall k :: 0 <= k < |rows| ==> RowText(img, 2 * k, img.width, palette, flags, opacity) == JoinCells(rows[k])
  }

  /** Any rows matching the image serialise, from row `i` on, to the sampled
      rows from source row `2 i` down. */
  lemma {:induction false} RowsAreSerialized(img: Image, i: nat, palette: seq<char>, flags: Flags, opacity: Byte -> string,
                                              rows: seq<seq<string>>)
    requires img.Valid() && |rows| == SampledRows(img.height) && i <= |rows|
    requires RowsMatch(img, rows, palette, flags, opacity)
    ensures RowsFrom(img, 2 * i, palette, flags, opacity) == Serialize(rows[i..])
    decreases |rows| - i
  {
    if i < |rows| {
      var y := 2 * i;
      assert RowText(img, y, img.width, palette, flags, opacity) == JoinCells(rows[i]);
      RowsAreSerialized(img, i + 1, palette, flags, opacity, rows);
      assert y + 2 == 2 * (i + 1);
      SerializeFrom(rows, i);
      assert RowsFrom(img, y, palette, flags, opacity)
        == RowText(img, y, img.width, palette, flags, opacity) + RowBreak + RowsFrom(img, y + 2, palette, flags, opacity);
    } else {
      assert rows[i..] == [];
    }
  }

  /** The sampled rows from source row `2 i` down are the grid's rows from
      `i` on, serialised. */
  lemma RowsAreGrid(img: Image, i: nat, palette: seq<char>, flags: Flags, opacity: Byte -> string)
    requires img.Valid() && i <= SampledRows(img.height)
    ensures RowsFrom(img, 2 * i, palette, flags, opacity) == Serialize(Grid(img, palette, flags, opacity)[i..])
  {
    var g := Grid(img, palette, flags, opacity);
    forall k | 0 <= k < |g|
      ensures RowText(img, 2 * k, img.width, palette, flags, opacity) == JoinCells(g[k])
    {
      GridRow(img, k, palette, flags, opacity);
    }
    RowsAreSerialized(img, i, palette, flags, opacity, g);
  }

  /** Serialising from row `i` writes row `i`, its break, then the rest. */
  lemma SerializeFrom(rows: seq<seq<string>>, i: nat)
    requires i < |rows|
    ensures Serialize(rows[i..]) == JoinCells(rows[i]) + RowBreak + Serialize(rows[i + 1..])
  {
    assert rows[i..][0] == rows[i] && rows[i..][1..] == rows[i + 1..];
  }

  /** The rendered text is the grid of cells serialised row by row: one row
      per sampled source row, `width` cells in each, a break after each. */
  lemma AsciifyIsGrid(s: Settings, img: Image, opacity: Byte -> string)
    requires img.Valid()
    ensures Asciify(s, img, opacity) == Serialize(Grid(img, s.palette, s.flags, opacity))
  {
    var g := Grid(img, s.palette, s.flags, opacity);
    RowsAreGrid(img, 0, s.palette, s.flags, opacity);
    assert g[0..] == g;
  }

  /** Tags opened by one cell: a span's two in colour mode, none otherwise. */
  function TagsPerCell(flags: Flags): nat {
    if flags.color then 2 else 0
  }

  lemma GlyphLtFree(palette: seq<char>, idx: int)
    requires '<' !in palette
    ensures '<' !in Glyph(palette, idx)
  {
    assert '<' !in Nbsp;
  }

  lemma CellForLtCount(p: Pixel, palette: seq<char>, flags: Flags, opacity: Byte -> string)
    requires '<' !in palette && CleanValue(opacity(p.alpha))
    ensures LtCount(CellFor(p, palette, flags, opacity)) == TagsPerCell(flags)
  {
    GlyphLtFree(palette, CharIndex(p, |palette|, flags.invert));
    CellLtCount(p, Glyph(palette, CharIndex(p, |palette|, flags.invert)), flags, opacity);
  }

  lemma ConcatLtCount(a: string, b: string)
    ensures LtCount(a + b) == LtCount(a) + LtCount(b)
  {
    OccurrencesConcat(a, b, '<');
  }

  lemma MulSucc(a: nat, b: nat)
    ensures (a + 1) * b == a * b + b
  {
  }

  lemma RowBreakLtCount()
    ensures LtCount(RowBreak) == 1
  {
    var rest := "br/>";
    assert RowBreak == "<" + rest;
    assert '<' !in rest;
    OccurrencesAbsent(rest, '<');
    OccurrencesConcat("<", rest, '<');
  }

  lemma {:induction false} JoinCellsLtCount(cells: seq<string>, t: nat)
    requires forall x :: 0 <= x < |cells| ==> LtCount(cells[x]) == t
    ensures LtCount(JoinCells(cells)) == |cells| * t
    decreases |cells|
  {
    if |cells| > 0 {
      var front := cells[..|cells| - 1];
      JoinCellsLtCount(front, t);
      ConcatLtCount(JoinCells(front), cells[|cells| - 1]);
      MulSucc(|front|, t);
    }
  }

  lemma {:induction false} SerializeLtCount(rows: seq<seq<string>>, w: nat, t: nat)
    requires forall i :: 0 <= i < |rows| ==> |rows[i]| == w
    requires forall i, x :: 0 <= i < |rows| && 0 <= x < |rows[i]| ==> LtCount(rows[i][x]) == t
    ensures LtCount(Serialize(rows)) == |rows| * (w * t + 1)
    decreases |rows|
  {
    if |rows| > 0 {
      var rest := rows[1..];
      SerializeLtCount(rest, w, t);
      JoinCellsLtCount(rows[0], t);
      RowBreakLtCount();
      ConcatLtCount(JoinCells(rows[0]), RowBreak);
      ConcatLtCount(JoinCells(rows[0]) + RowBreak, Serialize(rest));
      MulSucc(|rest|, w * t + 1);
    }
  }

  /** Counting tags: when no glyph and no opacity text holds a `<`, the output
      opens one `<br/>` per sampled row and, in colour mode, two tags per
      cell, `width` cells per row. */
  lemma AsciifyLtCount(s: Settings, img: Image, opacity: Byte -> string)
    requires img.Valid()
    requires '<' !in s.palette && forall a: Byte :: CleanValue(opacity(a))
    ensures LtCount(Asciify(s, img, opacity))
      == SampledRows(img.height) * (img.width * TagsPerCell(s.flags) + 1)
  {
    var g := Grid(img, s.palette, s.flags, opacity);
    forall i, x | 0 <= i < |g| && 0 <= x < |g[i]|
      ensures LtCount(g[i][x]) == TagsPerCell(s.flags)
    {
      CellForLtCount(PixelAt(img, x, 2 * i), s.palette, s.flags, opacity);
    }
    SerializeLtCount(g, img.width, TagsPerCell(s.flags));
    AsciifyIsGrid(s, img, opacity);
  }

  /** The glyph step of the loop body: luminance, the transparency override,
      the index, the optional inversion, then the glyph with its fallback for
      a space or an entry that does not exist. */
  method GlyphFor(p: Pixel, palette: seq<char>, invert: bool) returns (ch: string)
    ensures ch == Glyph(palette, CharIndex(p, |palette|, invert))
  {
    var lum := 30 * p.red + 59 * p.green + 11 * p.blue;
    if p.alpha == 0 {
      lum := MaxLuminance;
    }
    var idx := ((MaxLuminance - lum) * (|palette| - 1)) / MaxLuminance;
    if invert {
      idx := |palette| - idx - 1;
    }
    var found := 0 <= idx < |palette|;
    ch := if found then [palette[idx]] else "";
    if !found || ch == " " {
      ch := Nbsp;
    }
  }

  /** One cell as the loop body writes it: the span assembled piece by piece
      in colour mode, the bare glyph otherwise. */
  method CellMarkup(p: Pixel, palette: seq<char>, flags: Flags, opacity: Byte -> string) returns (cell: string)
    ensures cell == CellFor(p, palette, flags, opacity)
  {
    var ch := GlyphFor(p, palette, flags.invert);
    if flags.color {
      var rgb := NatText(p.red) + "," + NatText(p.green) + "," + NatText(p.blue);
      cell := "<span style='"
        + ("color:rgb(" + rgb + ");")
        + (if flags.block then "background-color:rgb(" + rgb + ");" else "")
        + (if flags.alpha then "opacity:" + opacity(p.alpha) + ";" else "")
        + "'>" + ch + "</span>";
      SpanAsWritten(p, ch, flags, opacity);
    } else {
      cell := ch;
    }
  }

  lemma RowTextStep(img: Image, y: nat, x: nat, palette: seq<char>, flags: Flags, opacity: Byte -> string,
                    before: string, chars: string, p: Pixel, cell: string)
    requires img.Valid() && y < img.height && x < img.width
    requires chars == before + RowText(img, y, x, palette, flags, opacity)
    requires p == PixelAt(img, x, y) && cell == CellFor(p, palette, flags, opacity)
    ensures chars + cell == before + RowText(img, y, x + 1, palette, flags, opacity)
  {
    ConcatAssoc(before, RowText(img, y, x, palette, flags, opacity), cell);
  }

  lemma ConcatAssoc(a: string, b: string, c: string)
    ensures (a + b) + c == a + (b + c)
  {
  }

  lemma RowsFromStep(img: Image, y: nat, palette: seq<char>, flags: Flags, opacity: Byte -> string,
                     before: string, chars: string)
    requires img.Valid() && y < img.height
    requires chars == before + RowText(img, y, img.width, palette, flags, opacity)
    ensures before + RowsFrom(img, y, palette, flags, opacity)
      == (chars + RowBreak) + RowsFrom(img, y + 2, palette, flags, opacity)
  {
    var line := RowText(img, y, img.width, palette, flags, opacity);
    var rest := RowsFrom(img, y + 2, palette, flags, opacity);
    assert RowsFrom(img, y, palette, flags, opacity) == line + RowBreak + rest;
    assert before + (line + RowBreak + rest) == (before + line + RowBreak) + rest;
  }

  /** Reads pixel (x, y) from the buffer: its four channels start at
      `(y × width + x) × 4`. */
  method ReadPixel(img: Image, x: nat, y: nat) returns (p: Pixel)
    requires img.Valid() && x < img.width && y < img.height
    ensures p == PixelAt(img, x, y)
  {
    var off := (y * img.width + x) * 4;
    assert off == PixelOffset(img.width, img.height, x, y);
    p := Pixel(img.data[off], img.data[off + 1], img.data[off + 2], img.data[off + 3]);
  }

  /** The inner loop: appends the cells of row `y`, columns `0 … width - 1`. */
  method AppendRow(chars: string, s: Settings, img: Image, y: nat, opacity: Byte -> string) returns (out: string)
    requires img.Valid() && y < img.height
    ensures out == chars + RowText(img, y, img.width, s.palette, s.flags, opacity)
  {
    out := chars;
    var x := 0;
    while x < img.width
      invariant 0 <= x <= img.width
      invariant out == chars + RowText(img, y, x, s.palette, s.flags, opacity)
    {
      var p := ReadPixel(img, x, y);
      var cell := CellMarkup(p, s.palette, s.flags, opacity);
      RowTextStep(img, y, x, s.palette, s.flags, opacity, chars, out, p, cell);
      out := out + cell;
      x := x + 1;
    }
  }

  /** The conversion loop: rows `y = 0, 2, 4, …` below the sample height, each
      row's cells followed by a row break. */
  method AsciifyImage(s: Settings, img: Image, opacity: Byte -> string) returns (chars: string)
    requires img.Valid()
    ensures chars == Asciify(s, img, opacity)
  {
    chars := "";
    var y := 0;
    while y < img.height
      invariant chars + RowsFrom(img, y, s.palette, s.flags, opacity) == Asciify(s, img, opacity)
    {
      ghost var before := chars;
      chars := AppendRow(chars, s, img, y, opacity);
      RowsFromStep(img, y, s.palette, s.flags, opacity, before, chars);
      chars := chars + RowBreak;
      y := y + 2;
    }
    assert chars + "" == chars;
  }

}
