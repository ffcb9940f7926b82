/** The style reading of `convert_to_excel` for one cell: the declarations and substrings
    of `cell_style + row_style`, and the openpyxl font and fill built from them. */
module Styles {
  import opened Wrappers
  import opened Text
  import opened Patterns
  import opened Html
  import opened Colors

  /** `background-color:\s*([^;]+)` */
  const BackgroundColor: Pattern := Declaration("background-color:", "")
  /** `(?<!background-)color:\s*([^;]+)` */
  const FontColor: Pattern := Declaration("color:", "background-")
  /** `text-align:\s*([^;]+)` */
  const TextAlign: Pattern := Declaration("text-align:", "")
  /** `font-family:\s*([^;]+)` */
  const FontFamily: Pattern := Declaration("font-family:", "")
  /** `font-size:\s*([\d.]+)px` */
  const FontSize: Pattern := Pixels("font-size:")

  /** The horizontal alignments the converter can produce. */
  datatype HAlign = General | Center | Left | Right | Justify

  /** openpyxl's name for an alignment. */
  function AlignName(a: HAlign): string {
    match a
    case General => "general"
    case Center => "center"
    case Left => "left"
    case Right => "right"
    case Justify => "justify"
  }

  /** The keys of `align_map`. */
  const AlignWords: set<string> := {"center", "left", "right", "justify"}

  /** `align_map.get(v.strip().lower(), 'general')` */
  function AlignOf(v: string): (a: HAlign)
    ensures a != General <==> Lower(Strip(v)) in AlignWords
    ensures a != General ==> AlignName(a) == Lower(Strip(v))
  {
    var k := Lower(Strip(v));
    if k == "center" then Center
    else if k == "left" then Left
    else if k == "right" then Right
    else if k == "justify" then Justify
    else General
  }

  /** Every alignment but `General` is read back from its own name. */
  lemma AlignNameRoundTrip(a: HAlign)
    requires a != General
    ensures AlignOf(AlignName(a)) == a
  {
    PlainWord(AlignName(a));
  }

  /** A word of lower-case letters is its own `.strip().lower()`. */
  lemma PlainWord(n: string)
    requires n != [] && forall i :: 0 <= i < |n| ==> 'a' <= n[i] <= 'z'
    ensures Lower(Strip(n)) == n
  {
    StripsTo(n, Whitespace, 0, 0);
    assert Strip(n) == n[0..|n|] == n;
    assert Lower(n) == n;
  }

  /** `text_align`: `General` unless a `text-align` declaration names one of the four. */
  function Alignment(s: string): (a: HAlign)
    ensures Search(TextAlign, s).None? ==> a == General
  {
    match Search(TextAlign, s)
    case Some(v) => AlignOf(v)
    case None => General
  }

  /** The quotes `strip("'\"")` removes. */
  const Quotes: set<char> := {'\'', '"'}

  /** `v.split(',')[0].strip().strip("'\"")`: the first family of a `font-family` list. */
  function FamilyOf(v: string): (f: string)
    ensures ',' !in f
    ensures f != [] ==> f[0] !in Quotes && f[|f| - 1] !in Quotes
  {
    FamilyShape(v);
    StripChars(Strip(UpTo(v, ',')), Quotes)
  }

  /** The first family holds no `,` and neither starts nor ends with a quote. */
  lemma FamilyShape(v: string)
    ensures var f := StripChars(Strip(UpTo(v, ',')), Quotes);
      ',' !in f && (f != [] ==> f[0] !in Quotes && f[|f| - 1] !in Quotes)
  {
    var t := UpTo(v, ',');
    TrimEnds(t, Whitespace);
    TrimEnds(Strip(t), Quotes);
  }

  /** What `strip(cs)` leaves neither starts nor ends with a character of `cs`, and its
      characters come from its argument. */
  lemma TrimEnds(u: string, cs: set<char>)
    ensures var f := StripChars(u, cs); f != [] ==> f[0] !in cs && f[|f| - 1] !in cs
    ensures forall c :: c in StripChars(u, cs) ==> c in u
  {
    var a := LeadingCount(u, cs);
    var l := u[a..];
    var b := TrailingCount(l, cs);
    var f := l[..|l| - b];
    assert StripChars(u, cs) == f;
    if f != [] {
      assert f[0] == u[a];
      assert f[|f| - 1] == l[|l| - b - 1];
    }
    forall c | c in f
      ensures c in u
    {
      var i :| 0 <= i < |f| && f[i] == c;
      assert u[a + i] == c;
    }
  }

  /** A family written plainly and followed by others is read as itself. */
  lemma FamilyOfListed(name: string, rest: string)
    requires name != [] && ',' !in name
    requires name[0] !in Quotes && !IsSpace(name[0])
    requires name[|name| - 1] !in Quotes && !IsSpace(name[|name| - 1])
    ensures FamilyOf(name + "," + rest) == name
  {
    assert name + "," + rest == name + ("," + rest);
    UpToPrefix(name, "," + rest, ',');
    PlainFamily(name);
  }

  lemma PlainFamily(name: string)
    requires name != []
    requires name[0] !in Quotes && !IsSpace(name[0])
    requires name[|name| - 1] !in Quotes && !IsSpace(name[|name| - 1])
    ensures StripChars(Strip(name), Quotes) == name
  {
    StripsTo(name, Whitespace, 0, 0);
    assert Strip(name) == name[0..|name|] == name;
    StripsTo(name, Quotes, 0, 0);
    assert StripChars(name, Quotes) == name[0..|name|];
  }

  /** The quotes around a family name are dropped. */
  lemma FamilyOfQuoted(name: string, rest: string)
    requires name != [] && ',' !in name
    requires name[0] !in Quotes
    requires name[|name| - 1] !in Quotes
    ensures FamilyOf("'" + name + "'," + rest) == name
  {
    var q := "'" + name + "'";
    assert "'" + name + "'," + rest == q + ("," + rest);
    QuotedNoComma(name);
    UpToPrefix(q, "," + rest, ',');
    QuotedStrips(name);
  }

  lemma QuotedNoComma(name: string)
    requires ',' !in name
    ensures ',' !in "'" + name + "'"
  {
    var q := "'" + name + "'";
    assert forall i :: 1 <= i < |q| - 1 ==> q[i] == name[i - 1];
  }

  lemma QuotedStrips(name: string)
    requires name != [] && name[0] !in Quotes && name[|name| - 1] !in Quotes
    ensures StripChars(Strip("'" + name + "'"), Quotes) == name
  {
    var q := "'" + name + "'";
    StripsTo(q, Whitespace, 0, 0);
    assert Strip(q) == q[0..|q|] == q;
    assert q[1] == name[0] && q[|q| - 2] == name[|name| - 1];
    StripsTo(q, Quotes, 1, 1);
    assert q[1..|q| - 1] == name;
  }

  /** The text before the first `c` of `x + c...` is `x` when `x` has no `c`. */
  lemma {:induction false} UpToPrefix(x: string, y: string, c: char)
    requires c !in x && y != [] && y[0] == c
    ensures UpTo(x + y, c) == x
  {
    if x == [] {
      assert x + y == y;
    } else {
      assert (x + y)[1..] == x[1..] + y;
      assert c !in x[1..] by {
        forall i | 0 <= i < |x[1..]|
          ensures x[1..][i] != c
        {
          assert x[1..][i] == x[i + 1];
        }
      }
      UpToPrefix(x[1..], y, c);
      assert x == [x[0]] + x[1..];
    }
  }

  /** `strip(cs)` of a text with `a` leading and `b` trailing characters of `cs`,
      and none next to them. */
  lemma StripsTo(x: string, cs: set<char>, a: nat, b: nat)
    requires a + b < |x|
    requires forall i :: 0 <= i < a ==> x[i] in cs
    requires forall i :: |x| - b <= i < |x| ==> x[i] in cs
    requires x[a] !in cs && x[|x| - b - 1] !in cs
    ensures StripChars(x, cs) == x[a..|x| - b]
  {
    TrimLeftAt(x, cs, a);
    var l := x[a..];
    assert l[|l| - b - 1] == x[|x| - b - 1];
    TrailingCountIs(l, cs, b);
    assert l[..|l| - b] == x[a..|x| - b];
  }

  /** `font_family if font_family else None`. */
  function Family(s: string): (f: Option<string>)
    ensures f.Some? ==> f.value != [] && ',' !in f.value
  {
    match Search(FontFamily, s)
    case Some(v) => var n := FamilyOf(v); if n == [] then None else Some(n)
    case None => None
  }

  /** The style values read from a cell, before openpyxl objects are built: colours
      as HTML tokens, the font size as the number of pixels written. */
  datatype CellStyle = CellStyle(
    background: Option<string>,
    fontColor: Option<string>,
    align: HAlign,
    bold: bool,
    italic: bool,
    underline: bool,
    strike: bool,
    family: Option<string>,
    sizePx: Option<string>)

  /** `bg_color_html`: the `bgcolor` attribute when truthy, else the stripped
      `background-color` value, else the attribute as it was. */
  function Background(cell: Cell, s: string): (bg: Option<string>)
    ensures Truthy(cell.bgcolor) ==> bg == cell.bgcolor
    ensures !Truthy(cell.bgcolor) && Search(BackgroundColor, s).None? ==> bg == cell.bgcolor
  {
    if Truthy(cell.bgcolor) then cell.bgcolor
    else
      match Search(BackgroundColor, s)
      case Some(v) => Some(Strip(v))
      case None => cell.bgcolor
  }

  /** `font_color_html` */
  function ForegroundColor(s: string): Option<string> {
    match Search(FontColor, s)
    case Some(v) => Some(Strip(v))
    case None => None
  }

  /** `font_size_match.group(1)` */
  function SizePx(s: string): (r: Option<string>)
    ensures r.Some? ==> r.value != [] && forall i :: 0 <= i < |r.value| ==> IsNumberChar(r.value[i])
  {
    PixelsCapture("font-size:", s);
    Search(FontSize, s)
  }

  /** The style of `cell` in a row whose `style` is `rowStyle`. */
  function ExtractStyle(cell: Cell, rowStyle: string): (st: CellStyle)
    ensures Truthy(cell.bgcolor) ==> st.background == cell.bgcolor
    ensures cell.hasBold || cell.tag == Th ==> st.bold
    ensures cell.hasItalic ==> st.italic
    ensures Contains(cell.style, "font-weight: bold") || Contains(rowStyle, "font-weight: bold") ==> st.bold
    ensures Contains(cell.style, "font-style: italic") || Contains(rowStyle, "font-style: italic") ==> st.italic
    ensures Contains(cell.style, "text-decoration: underline") || Contains(rowStyle, "text-decoration: underline") ==> st.underline
    ensures Contains(cell.style, "text-decoration: line-through") || Contains(rowStyle, "text-decoration: line-through") ==> st.strike
    ensures st.family.Some? ==> st.family.value != [] && ',' !in st.family.value
  {
    var s := cell.style + rowStyle;
    ContainsConcat(cell.style, rowStyle, "font-weight: bold");
    ContainsConcat(cell.style, rowStyle, "font-style: italic");
    ContainsConcat(cell.style, rowStyle, "text-decoration: underline");
    ContainsConcat(cell.style, rowStyle, "text-decoration: line-through");
    CellStyle(
      Background(cell, s),
      ForegroundColor(s),
      Alignment(s),
      Contains(s, "font-weight: bold") || cell.hasBold || cell.tag == Th,
      Contains(s, "font-style: italic") || cell.hasItalic,
      Contains(s, "text-decoration: underline"),
      Contains(s, "text-decoration: line-through"),
      Family(s),
      SizePx(s))
  }

  /** The two style strings are joined without a separator, so a substring test can
      also succeed across the join: half a declaration in the cell and half in the row. */
  lemma BoldAcrossTheJoin(cell: Cell)
    requires cell.style == "font-weight:" && !cell.hasBold && cell.tag == Td
    ensures ExtractStyle(cell, " bold").bold
  {
    var s := cell.style + " bold";
    assert s == "font-weight: bold";
    assert StartsAt(s, 0, "font-weight: bold");
  }

  /** Whitespace and the other characters of a value other than `;`. */
  lemma StripNoSemicolon(x: string)
    requires ';' !in x
    ensures ';' !in Strip(x)
  {
    TrimEnds(x, Whitespace);
  }

  /** The background read from the style is the stripped text of the leftmost
      `background-color:` declaration up to the next `;`, and holds no `;`. */
  lemma BackgroundFromStyle(cell: Cell, s: string, i: nat)
    requires !Truthy(cell.bgcolor)
    requires FindFrom(BackgroundColor, s, 0) == Some(i)
    ensures i + 17 < |s|
    ensures Background(cell, s) == Some(Strip(UpTo(s[i + 17..], ';')))
    ensures ';' !in Background(cell, s).value
  {
    var t := s[i + 17..];
    DeclarationFound("background-color:", "", s, i);
    DeclarationCaptureStrip(t);
    StripNoSemicolon(UpTo(t, ';'));
  }

  /** The font colour is read from the leftmost `color:` that does not follow
      `background-`; that includes `border-color:` and any other `...-color:`. */
  lemma ForegroundFromStyle(s: string, i: nat)
    requires FindFrom(FontColor, s, 0) == Some(i)
    ensures StartsAt(s, i, "color:") && !PrecededBy(s, i, "background-")
    ensures i + 6 < |s| && ForegroundColor(s) == Some(Strip(UpTo(s[i + 6..], ';')))
  {
    var t := s[i + 6..];
    DeclarationFound("color:", "background-", s, i);
    DeclarationCaptureStrip(t);
  }

  /** The `;`-closed declaration the cell makes of a property. */
  predicate ClosedIn(p: Pattern, s: string)
    requires p.Declaration?
  {
    match FindFrom(p, s, 0)
    case Some(i) => i + |p.property| < |s| && ';' in s[i + |p.property|..]
    case None => false
  }

  /** The search on the joined styles stops in the cell's own declaration. */
  lemma CellSearchWins(p: Pattern, cell: string, row: string)
    requires p.Declaration? && ClosedIn(p, cell)
    ensures Search(p, cell + row) == Search(p, cell)
  {
    CellDeclarationWins(p.property, p.notAfter, cell, row, FindFrom(p, cell, 0).value);
  }

  /** A cell whose own style declares a property and closes it with `;` keeps its
      value whatever the row declares, because `cell_style` is searched first: the font
      family, ... */
  lemma CellFamilyWins(cell: string, row: string)
    requires ClosedIn(FontFamily, cell)
    ensures Family(cell + row) == Family(cell)
  {
    CellSearchWins(FontFamily, cell, row);
  }

  /** ... the alignment, ... */
  lemma CellAlignmentWins(cell: string, row: string)
    requires ClosedIn(TextAlign, cell)
    ensures Alignment(cell + row) == Alignment(cell)
  {
    CellSearchWins(TextAlign, cell, row);
  }

  /** ... the font colour, ... */
  lemma CellFontColorWins(cell: string, row: string)
    requires ClosedIn(FontColor, cell)
    ensures ForegroundColor(cell + row) == ForegroundColor(cell)
  {
    CellSearchWins(FontColor, cell, row);
  }

  /** ... and the background. */
  lemma CellBackgroundWins(cell: Cell, row: string)
    requires ClosedIn(BackgroundColor, cell.style)
    ensures Background(cell, cell.style + row) == Background(cell, cell.style)
  {
    CellSearchWins(BackgroundColor, cell.style, row);
  }

  /** `float(c)` accepts a run of digits and dots: at most one dot and at least one digit. */
  predicate IsFloatLiteral(c: string) {
    CountChar(c, '.') <= 1 && exists i :: 0 <= i < |c| && IsDigit(c[i])
  }

  /** A literal that `float` reads as a non-zero number: one of its digits is not `0`. */
  predicate IsNonZero(c: string) {
    exists i :: 0 <= i < |c| && IsDigit(c[i]) && c[i] != '0'
  }

  /** openpyxl's `Font`, with the size kept as the pixel count it is computed from. */
  datatype Font = Font(
    name: Option<string>,
    sizePx: Option<string>,
    bold: bool,
    italic: bool,
    underline: bool,
    strike: bool,
    color: Option<string>)

  /** What is written to the anchor cell: its value, horizontal alignment, font and
      solid fill colour. */
  datatype OutCell = OutCell(value: string, align: HAlign, font: Font, fill: Option<string>)

  /** The fill: the background's code, kept only when `PatternFill` accepts it (its
      `ValueError` is caught). */
  function Fill(background: Option<string>, names: string -> Option<string>): (f: Option<string>)
    ensures f.Some? ==> IsArgbHex(f.value) && f == HtmlColorToArgb(background, names)
    ensures var c := HtmlColorToArgb(background, names); c.Some? && IsArgbHex(c.value) ==> f == c
    ensures HtmlColorToArgb(background, names).None? ==> f.None?
  {
    var argb := HtmlColorToArgb(background, names);
    if argb.Some? && IsArgbHex(argb.value) then argb else None
  }

  /** The longest value openpyxl stores in a cell. */
  const MaxCellLength: nat := 32767

  /** What `cell.value = text` stores: the text cut to its first 32767 characters. */
  function StoredText(text: string): (v: string)
    ensures |v| <= MaxCellLength && |v| <= |text| && v == text[..|v|]
    ensures |text| <= MaxCellLength ==> v == text
    ensures |text| > MaxCellLength ==> |v| == MaxCellLength
  {
    if |text| <= MaxCellLength then text else text[..MaxCellLength]
  }

  /** A character of openpyxl's `ILLEGAL_CHARACTERS_RE`, `[\000-\010]|[\013-\014]|[\016-\037]`:
      a control character other than tab, newline and carriage return. */
  predicate IsIllegalChar(c: char) {
    c <= '\U{0008}' || '\U{000B}' <= c <= '\U{000C}' || '\U{000E}' <= c <= '\U{001F}'
  }

  /** openpyxl refuses a stored value holding such a character (`IllegalCharacterError`). */
  predicate HasIllegalChar(s: string) {
    exists i :: 0 <= i < |s| && IsIllegalChar(s[i])
  }

  /** The font size: the pixel count, when `float` reads it as a non-zero number
      (`size if size else None`). */
  function SizeOf(sizePx: Option<string>): Option<string> {
    if sizePx.Some? && IsNonZero(sizePx.value) then sizePx else None
  }

  /** The anchor cell for `cell`, or `None` when an exception escapes: `float` of a
      malformed size or a font colour that is not an aRGB code (building the `Font`), or
      a stored value holding an illegal character (`cell.value = text`). */
  function RenderCell(cell: Cell, rowStyle: string, names: string -> Option<string>): (r: Option<OutCell>)
    ensures r.Some? ==> r.value.value == StoredText(cell.text)
    ensures r.Some? ==>
      (var st := ExtractStyle(cell, rowStyle);
       r.value.align == st.align &&
       r.value.font == Font(st.family, SizeOf(st.sizePx), st.bold, st.italic, st.underline, st.strike,
                            HtmlColorToArgb(st.fontColor, names)) &&
       r.value.fill == Fill(st.background, names))
    ensures r.Some? ==> r.value.font.color.Some? ==> IsArgbHex(r.value.font.color.value)
    ensures r.None? <==>
      (var st := ExtractStyle(cell, rowStyle);
       (st.sizePx.Some? && !IsFloatLiteral(st.sizePx.value)) ||
       (var c := HtmlColorToArgb(st.fontColor, names); c.Some? && !IsArgbHex(c.value)) ||
       HasIllegalChar(StoredText(cell.text)))
  {
    var st := ExtractStyle(cell, rowStyle);
    var color := HtmlColorToArgb(st.fontColor, names);
    var value := StoredText(cell.text);
    if st.sizePx.Some? && !IsFloatLiteral(st.sizePx.value) then None
    else if color.Some? && !IsArgbHex(color.value) then None
    else if HasIllegalChar(value) then None
    else
      var font := Font(st.family, SizeOf(st.sizePx), st.bold, st.italic, st.underline, st.strike, color);
      Some(OutCell(value, st.align, font, Fill(st.background, names)))
  }

  /** No pattern matches in an empty string. */
  lemma SearchEmpty(p: Pattern)
    ensures Search(p, "") == None
  {
    assert MatchAt(p, "", 0).None?;
  }

  /** A cell without a style, a truthy `bgcolor` or an illegal character, in a row
      without a style, gets its text with default alignment and font and no fill; only
      `<b>`, `th` and `<i>` change the font. */
  lemma RenderPlainCell(cell: Cell, names: string -> Option<string>)
    requires cell.style == "" && !Truthy(cell.bgcolor)
    requires |cell.text| <= MaxCellLength && !HasIllegalChar(cell.text)
    ensures RenderCell(cell, "", names)
         == Some(OutCell(cell.text, General,
                         Font(None, None, cell.hasBold || cell.tag == Th, cell.hasItalic, false, false, None),
                         None))
  {
    assert cell.style + "" == "";
    SearchEmpty(BackgroundColor);
    SearchEmpty(FontColor);
    SearchEmpty(TextAlign);
    SearchEmpty(FontFamily);
    SearchEmpty(FontSize);
    var st := ExtractStyle(cell, "");
    assert !Contains("", "font-weight: bold") && !Contains("", "font-style: italic");
    assert !Contains("", "text-decoration: underline") && !Contains("", "text-decoration: line-through");
    assert st == CellStyle(cell.bgcolor, None, General, cell.hasBold || cell.tag == Th, cell.hasItalic,
                           false, false, None, None);
  }
}
