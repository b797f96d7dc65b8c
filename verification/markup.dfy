/** The markup of one rasterised cell: the glyph, blank cells written as the
    non-breaking-space entity, and in colour mode a `<span>` whose inline
    style carries the pixel's colour, optionally a matching background and
    optionally its opacity. The style is kept as a list of declarations with
    a serialiser and a parser, so that what a span carries can be stated. */
module Markup {

  import opened Frame
  import opened Decimal
  import opened Text
  import opened Optional

  /** The entity written for a space or a missing glyph. */
  const Nbsp: string := "&nbsp;"

  const SpanOpen: string := "<span style='"

  const SpanClose: string := "</span>"

  predicate EndsWith(s: string, suffix: string) {
    |suffix| <= |s| && s[|s| - |suffix|..] == suffix
  }

  /** Presentation switches fixed at construction. */
  datatype Flags = Flags(color: bool, alpha: bool, block: bool, invert: bool)

  /** The text written for palette entry `idx`: the character itself, or the
      blank entity when the entry is a space or does not exist. */
  function Glyph(palette: seq<char>, idx: int): (g: string)
    ensures g == Nbsp <==> !(0 <= idx < |palette|) || palette[idx] == ' '
    ensures 0 <= idx < |palette| && palette[idx] != ' ' ==> g == [palette[idx]]
    ensures forall c :: c in g && c !in Nbsp ==> c in palette
  {
    if 0 <= idx < |palette| && palette[idx] != ' ' then [palette[idx]] else Nbsp
  }

  /** One CSS declaration, `property:value;`. */
  datatype Decl = Decl(property: string, value: string)

  function DeclBody(d: Decl): string {
    d.property + ":" + d.value
  }

  function DeclText(d: Decl): string {
    DeclBody(d) + ";"
  }

  /** The inline style attribute value: the declarations in order. */
  function StyleText(ds: seq<Decl>): string {
    if |ds| == 0 then "" else DeclText(ds[0]) + StyleText(ds[1..])
  }

  /** A value that cannot end a declaration, the attribute or the span. */
  predicate CleanValue(v: string) {
    ';' !in v && '\'' !in v && '<' !in v
  }

  /** A property name: clean, and free of the `:` that ends it. */
  predicate CleanName(n: string) {
    ':' !in n && CleanValue(n)
  }

  predicate CleanDecl(d: Decl) {
    CleanName(d.property) && CleanValue(d.value)
  }

  function ParseDecl(t: string): Decl {
    var i := IndexOf(t, ':');
    Decl(t[..i], if i < |t| then t[i + 1..] else "")
  }

  /** Reads a style attribute value back into its declarations; text after
      the last `;` is not a declaration. */
  function ParseStyle(s: string): seq<Decl> {
    var items := Split(s, ';');
    seq(|items| - 1, k requires 0 <= k < |items| - 1 => ParseDecl(items[k]))
  }

  function DeclBodies(ds: seq<Decl>): (bs: seq<string>)
    ensures |bs| == |ds|
    ensures forall k :: 0 <= k < |ds| ==> bs[k] == DeclBody(ds[k])
  {
    seq(|ds|, k requires 0 <= k < |ds| => DeclBody(ds[k]))
  }

  lemma {:induction false} StyleAsJoin(ds: seq<Decl>)
    ensures StyleText(ds) == Join(DeclBodies(ds) + [""], ';')
    decreases |ds|
  {
    if |ds| > 0 {
      StyleAsJoin(ds[1..]);
      assert (DeclBodies(ds) + [""])[1..] == DeclBodies(ds[1..]) + [""];
    }
  }

  lemma ParseDeclBody(d: Decl)
    requires ':' !in d.property
    ensures ParseDecl(DeclBody(d)) == d
  {
    IndexOfAfter(d.property, ':', d.value);
    var t := DeclBody(d);
    assert t[..|d.property|] == d.property;
    assert t[|d.property| + 1..] == d.value;
  }

  predicate AllClean(ds: seq<Decl>) {
    forall k :: 0 <= k < |ds| ==> CleanDecl(ds[k])
  }

  /** Parsing a serialised style gives back exactly its declarations. */
  lemma StyleRoundTrip(ds: seq<Decl>)
    requires AllClean(ds)
    ensures ParseStyle(StyleText(ds)) == ds
  {
    StyleAsJoin(ds);
    var items := DeclBodies(ds) + [""];
    forall k | 0 <= k < |items|
      ensures ';' !in items[k]
    {
      if k < |ds| {
        assert CleanDecl(ds[k]);
        assert items[k] == ds[k].property + ":" + ds[k].value;
      }
    }
    SplitJoin(items, ';');
    var parsed := ParseStyle(StyleText(ds));
    assert Split(StyleText(ds), ';') == items;
    assert |parsed| == |ds|;
    forall k | 0 <= k < |ds|
      ensures parsed[k] == ds[k]
    {
      assert parsed[k] == ParseDecl(items[k]);
      ParseDeclBody(ds[k]);
    }
  }

  lemma {:induction false} StyleTextAvoids(ds: seq<Decl>, c: char)
    requires c != ':' && c != ';'
    requires forall k :: 0 <= k < |ds| ==> c !in ds[k].property && c !in ds[k].value
    ensures c !in StyleText(ds)
    decreases |ds|
  {
    if |ds| > 0 {
      StyleTextAvoids(ds[1..], c);
    }
  }

  /** `rgb(r,g,b)` with the channels in decimal. */
  function RgbText(p: Pixel): string {
    "rgb(" + NatText(p.red) + "," + NatText(p.green) + "," + NatText(p.blue) + ")"
  }

  /** Reads `rgb(r,g,b)` back into its three channels. */
  function ParseRgb(s: string): Option<(nat, nat, nat)> {
    if 5 <= |s| && s[..4] == "rgb(" && s[|s| - 1] == ')' then
      var parts := Split(s[4..|s| - 1], ',');
      if |parts| == 3 && AllDigits(parts[0]) && AllDigits(parts[1]) && AllDigits(parts[2]) then
        Some((ParseDigits(parts[0]), ParseDigits(parts[1]), ParseDigits(parts[2])))
      else
        None
    else
      None
  }

  lemma DigitsAvoid(s: string, c: char)
    requires AllDigits(s) && !IsDigit(c)
    ensures c !in s
  {
  }

  /** Three digit strings joined by commas split back into the three. */
  lemma ChannelsSplit(r: string, g: string, b: string)
    requires AllDigits(r) && AllDigits(g) && AllDigits(b)
    ensures Split(r + "," + g + "," + b, ',') == [r, g, b]
  {
    DigitsAvoid(r, ',');
    DigitsAvoid(g, ',');
    DigitsAvoid(b, ',');
    assert Join([r, g, b], ',') == r + "," + g + "," + b by {
      assert [r, g, b][1..] == [g, b];
      assert [g, b][1..] == [b];
      assert Join([b], ',') == b;
      assert Join([g, b], ',') == g + [','] + b;
    }
    SplitJoin([r, g, b], ',');
  }

  /** The colour text of a pixel reads back as that pixel's channels. */
  lemma RgbRoundTrip(p: Pixel)
    ensures ParseRgb(RgbText(p)) == Some((p.red, p.green, p.blue))
  {
    var r, g, b := NatText(p.red), NatText(p.green), NatText(p.blue);
    var s := RgbText(p);
    var inner := r + "," + g + "," + b;
    assert s == "rgb(" + inner + ")";
    assert s[4..|s| - 1] == inner;
    assert s[..4] == "rgb(";
    ChannelsSplit(r, g, b);
    ParseNatText(p.red);
    ParseNatText(p.green);
    ParseNatText(p.blue);
  }

  lemma RgbTextClean(p: Pixel)
    ensures CleanValue(RgbText(p)) && ':' !in RgbText(p)
  {
    DigitsAvoid(NatText(p.red), ';');
    DigitsAvoid(NatText(p.green), ';');
    DigitsAvoid(NatText(p.blue), ';');
    DigitsAvoid(NatText(p.red), '\'');
    DigitsAvoid(NatText(p.green), '\'');
    DigitsAvoid(NatText(p.blue), '\'');
    DigitsAvoid(NatText(p.red), '<');
    DigitsAvoid(NatText(p.green), '<');
    DigitsAvoid(NatText(p.blue), '<');
    DigitsAvoid(NatText(p.red), ':');
    DigitsAvoid(NatText(p.green), ':');
    DigitsAvoid(NatText(p.blue), ':');
  }

  predicate HasProperty(ds: seq<Decl>, name: string) {
    exists k :: 0 <= k < |ds| && ds[k].property == name
  }

  /** The declarations of a coloured cell, in the order the effect writes
      them, for the colour text `rgb` and the opacity text `opacity`. */
  function CellStyle(rgb: string, opacity: string, flags: Flags): seq<Decl> {
    var color := Decl("color", rgb);
    var background := Decl("background-color", rgb);
    var alpha := Decl("opacity", opacity);
    if flags.block && flags.alpha then [color, background, alpha]
    else if flags.block then [color, background]
    else if flags.alpha then [color, alpha]
    else [color]
  }

  /** A coloured cell always carries the colour, first; it carries the same
      colour as background exactly when blocks are on, and the opacity exactly
      when alpha is on. */
  lemma CellStyleCarries(rgb: string, opacity: string, flags: Flags)
    ensures var ds := CellStyle(rgb, opacity, flags);
      && 1 <= |ds| && ds[0] == Decl("color", rgb)
      && (HasProperty(ds, "background-color") <==> flags.block)
      && (HasProperty(ds, "opacity") <==> flags.alpha)
      && (forall k :: 0 <= k < |ds| && ds[k].property == "background-color" ==> ds[k].value == rgb)
      && (forall k :: 0 <= k < |ds| && ds[k].property == "opacity" ==> ds[k].value == opacity)
  {
    var ds := CellStyle(rgb, opacity, flags);
    assert "color" != "background-color" && "opacity" != "background-color" && "color" != "opacity";
    if flags.block && flags.alpha {
      assert ds[1].property == "background-color" && ds[2].property == "opacity";
    } else if flags.block {
      assert ds[1].property == "background-color";
    } else if flags.alpha {
      assert ds[1].property == "opacity";
    }
  }

  /** Lower-case letters and hyphens, the alphabet of CSS property names. */
  predicate NameChar(c: char) {
    'a' <= c <= 'z' || c == '-'
  }

  lemma NameCharsClean(n: string)
    requires forall i :: 0 <= i < |n| ==> NameChar(n[i])
    ensures CleanName(n)
  {
  }

  lemma PropertyNamesClean()
    ensures CleanName("color") && CleanName("background-color") && CleanName("opacity")
  {
    NameCharsClean("color");
    NameCharsClean("background-color");
    NameCharsClean("opacity");
  }

  lemma CellStyleClean(rgb: string, opacity: string, flags: Flags)
    requires CleanValue(rgb) && CleanValue(opacity)
    ensures AllClean(CellStyle(rgb, opacity, flags))
  {
    PropertyNamesClean();
    var color, background, alpha := Decl("color", rgb), Decl("background-color", rgb), Decl("opacity", opacity);
    assert CleanDecl(color) && CleanDecl(background) && CleanDecl(alpha);
  }

  /** A span with the given style attribute around the given content. */
  function Span(style: string, content: string): string {
    SpanOpen + style + "'>" + content + SpanClose
  }

  /** The markup of one cell: the bare glyph, or in colour mode the glyph in
      a span styled with the pixel's colour. */
  function Cell(p: Pixel, glyph: string, flags: Flags, opacity: Byte -> string): (c: string)
    ensures !flags.color ==> c == glyph
    ensures flags.color ==> EndsWith(c, glyph + SpanClose) && |SpanOpen| <= |c| && c[..|SpanOpen|] == SpanOpen
  {
    if flags.color then
      var style := StyleText(CellStyle(RgbText(p), opacity(p.alpha), flags));
      SpanEnds(style, glyph);
      Span(style, glyph)
    else glyph
  }

  lemma SpanEnds(style: string, content: string)
    ensures EndsWith(Span(style, content), content + SpanClose)
    ensures |SpanOpen| <= |Span(style, content)| && Span(style, content)[..|SpanOpen|] == SpanOpen
  {
    var front := SpanOpen + style + "'>";
    assert Span(style, content) == front + (content + SpanClose);
  }

  /** The style attribute of a span, when the text is one. */
  function SpanStyle(cell: string): Option<string> {
    if |SpanOpen| <= |cell| && cell[..|SpanOpen|] == SpanOpen then
      var rest := cell[|SpanOpen|..];
      Some(rest[..IndexOf(rest, '\'')])
    else
      None
  }

  /** The style attribute of a span reads back, and the span ends with its
      content and the closing tag. */
  lemma SpanParts(style: string, content: string)
    requires '\'' !in style
    ensures SpanStyle(Span(style, content)) == Some(style)
    ensures EndsWith(Span(style, content), content + SpanClose)
  {
    var tail := ">" + content + SpanClose;
    var rest := style + ['\''] + tail;
    var cell := Span(style, content);
    assert cell == SpanOpen + rest;
    assert cell[..|SpanOpen|] == SpanOpen;
    assert cell[|SpanOpen|..] == rest;
    IndexOfAfter(style, '\'', tail);
    assert rest[..|style|] == style;
    var front := SpanOpen + style + "'>";
    assert cell == front + (content + SpanClose);
    assert cell[|front|..] == content + SpanClose;
  }

  /** Outside colour mode a cell is its glyph and nothing else. In colour mode
      the cell is a span ending in the glyph, whose style attribute parses back
      to exactly the declarations of `CellStyle` for the pixel's colour and
      opacity text. */
  lemma CellContents(p: Pixel, glyph: string, flags: Flags, opacity: Byte -> string)
    requires CleanValue(opacity(p.alpha))
    ensures !flags.color ==> Cell(p, glyph, flags, opacity) == glyph
    ensures flags.color ==> EndsWith(Cell(p, glyph, flags, opacity), glyph + SpanClose)
    ensures flags.color ==> SpanStyle(Cell(p, glyph, flags, opacity)).Some?
    ensures flags.color ==>
      ParseStyle(SpanStyle(Cell(p, glyph, flags, opacity)).value) == CellStyle(RgbText(p), opacity(p.alpha), flags)
  {
    if flags.color {
      var ds := CellStyle(RgbText(p), opacity(p.alpha), flags);
      RgbTextClean(p);
      CellStyleClean(RgbText(p), opacity(p.alpha), flags);
      StyleTextAvoids(ds, '\'');
      SpanParts(StyleText(ds), glyph);
      StyleRoundTrip(ds);
    }
  }

  /** The style of a coloured cell, serialised, is the colour, then the
      background when blocks are on, then the opacity when alpha is on. */
  lemma StyleInOrder(rgb: string, opacity: string, flags: Flags)
    ensures StyleText(CellStyle(rgb, opacity, flags))
      == DeclText(Decl("color", rgb))
      + (if flags.block then DeclText(Decl("background-color", rgb)) else "")
      + (if flags.alpha then DeclText(Decl("opacity", opacity)) else "")
  {
    var color := Decl("color", rgb);
    var background := Decl("background-color", rgb);
    var alpha := Decl("opacity", opacity);
    assert StyleText([alpha]) == DeclText(alpha);
    assert StyleText([background]) == DeclText(background);
    if flags.block && flags.alpha {
      assert [color, background, alpha][1..] == [background, alpha];
      assert [background, alpha][1..] == [alpha];
    } else if flags.block {
      assert [color, background][1..] == [background];
    } else if flags.alpha {
      assert [color, alpha][1..] == [alpha];
    }
  }

  lemma DeclAsWritten(channels: string, opacity: string)
    ensures DeclText(Decl("color", "rgb(" + channels + ")")) == "color:rgb(" + channels + ");"
    ensures DeclText(Decl("background-color", "rgb(" + channels + ")")) == "background-color:rgb(" + channels + ");"
    ensures DeclText(Decl("opacity", opacity)) == "opacity:" + opacity + ";"
  {
  }

  /** A coloured cell is the span the effect assembles by concatenation. */
  lemma SpanAsWritten(p: Pixel, glyph: string, flags: Flags, opacity: Byte -> string)
    requires flags.color
    ensures var channels := NatText(p.red) + "," + NatText(p.green) + "," + NatText(p.blue);
      Cell(p, glyph, flags, opacity)
      == "<span style='"
      + ("color:rgb(" + channels + ");")
      + (if flags.block then "background-color:rgb(" + channels + ");" else "")
      + (if flags.alpha then "opacity:" + opacity(p.alpha) + ";" else "")
      + "'>" + glyph + "</span>"
  {
    var channels := NatText(p.red) + "," + NatText(p.green) + "," + NatText(p.blue);
    var rgb := RgbText(p);
    var op := opacity(p.alpha);
    var a := "color:rgb(" + channels + ");";
    var b := if flags.block then "background-color:rgb(" + channels + ");" else "";
    var c := if flags.alpha then "opacity:" + op + ";" else "";
    assert rgb == "rgb(" + channels + ")";
    StyleInOrder(rgb, op, flags);
    DeclAsWritten(channels, op);
    assert StyleText(CellStyle(rgb, op, flags)) == a + b + c;
    SpanAssembly(a, b, c, glyph);
    assert Cell(p, glyph, flags, opacity) == Span(a + b + c, glyph);
  }

  lemma SpanAssembly(a: string, b: string, c: string, content: string)
    ensures Span(a + b + c, content) == "<span style='" + a + b + c + "'>" + content + "</span>"
  {
  }

  /** Number of occurrences of `c` in `s`. */
  function Occurrences(s: string, c: char): nat {
    if |s| == 0 then 0 else (if s[0] == c then 1 else 0) + Occurrences(s[1..], c)
  }

  lemma {:induction false} OccurrencesConcat(a: string, b: string, c: char)
    ensures Occurrences(a + b, c) == Occurrences(a, c) + Occurrences(b, c)
    decreases |a|
  {
    if |a| > 0 {
      assert (a + b)[1..] == a[1..] + b;
      OccurrencesConcat(a[1..], b, c);
    } else {
      assert a + b == b;
    }
  }

  lemma {:induction false} OccurrencesAbsent(s: string, c: char)
    requires c !in s
    ensures Occurrences(s, c) == 0
    decreases |s|
  {
    if |s| > 0 {
      OccurrencesAbsent(s[1..], c);
    }
  }

  /** Number of `<` characters: every tag opens with one. */
  function LtCount(s: string): nat {
    Occurrences(s, '<')
  }

  lemma SpanOpenLtCount()
    ensures LtCount(SpanOpen) == 1
  {
    var rest := "span style='";
    assert SpanOpen == "<" + rest;
    assert '<' !in rest;
    OccurrencesAbsent(rest, '<');
    OccurrencesConcat("<", rest, '<');
  }

  lemma SpanCloseLtCount()
    ensures LtCount(SpanClose) == 1
  {
    var rest := "/span>";
    assert SpanClose == "<" + rest;
    assert '<' !in rest;
    OccurrencesAbsent(rest, '<');
    OccurrencesConcat("<", rest, '<');
  }

  /** A span opens exactly two tags when neither its style nor its content
      holds a `<`. */
  lemma SpanLtCount(style: string, content: string)
    requires '<' !in style && '<' !in content
    ensures LtCount(Span(style, content)) == 2
  {
    var middle := style + "'>" + content;
    assert Span(style, content) == SpanOpen + middle + SpanClose;
    OccurrencesAbsent(middle, '<');
    SpanOpenLtCount();
    SpanCloseLtCount();
    OccurrencesConcat(SpanOpen, middle, '<');
    OccurrencesConcat(SpanOpen + middle, SpanClose, '<');
  }

  /** A cell opens no tag outside colour mode and exactly two (`<span` and
      `</span>`) in it, provided the glyph and the opacity text hold no `<`. */
  lemma CellLtCount(p: Pixel, glyph: string, flags: Flags, opacity: Byte -> string)
    requires '<' !in glyph
    requires CleanValue(opacity(p.alpha))
    ensures LtCount(Cell(p, glyph, flags, opacity)) == if flags.color then 2 else 0
  {
    OccurrencesAbsent(glyph, '<');
    if flags.color {
      var ds := CellStyle(RgbText(p), opacity(p.alpha), flags);
      RgbTextClean(p);
      CellStyleClean(RgbText(p), opacity(p.alpha), flags);
      StyleTextAvoids(ds, '<');
      SpanLtCount(StyleText(ds), glyph);
    }
  }

}
