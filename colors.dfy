/** `html_color_to_openpyxl_argb`: an HTML colour token to openpyxl's eight-digit
    ARGB code with a fully opaque alpha channel, or no colour. */
module Colors {
  import opened Wrappers
  import opened Text

  /** Python truthiness of an optional string: neither `None` nor "". */
  predicate Truthy(s: Option<string>) {
    s.Some? && s.value != ""
  }

  /** The CSS shorthand expansion: every character written twice ("#abc" is "#aabbcc",
      section 4.2.1 of CSS Color Module Level 3). */
  function Double(h: string): (r: string)
    ensures |r| == 2 * |h|
    ensures forall i :: 0 <= i < |r| ==> r[i] == h[i / 2]
  {
    if h == [] then [] else [h[0], h[0]] + Double(h[1..])
  }

  predicate IsHexDigit(c: char) {
    '0' <= c <= '9' || 'a' <= c <= 'f' || 'A' <= c <= 'F'
  }

  /** The hex digits a normalised token stands for, before the shorthand expansion:
      a token starting with `#` loses every leading `#`; any other token is looked up
      in the colour-name table `names` (webcolors' `name_to_hex`, which gives "#rrggbb"
      or raises `ValueError`, here `None`). */
  function HexDigitsOf(c: string, names: string -> Option<string>): Option<string> {
    if StartsAt(c, 0, "#") then Some(TrimLeft(c, {'#'}))
    else
      match names(c)
      case Some(h) => Some(TrimLeft(h, {'#'}))
      case None => None
  }

  /** The code for the digits `h`: three are doubled first, and then exactly six are
      needed. The digits themselves are not checked. */
  function ArgbOfDigits(h: string): (r: Option<string>)
    ensures r.Some? ==> |r.value| == 8 && r.value[..2] == "FF"
    ensures r.Some? <==> |h| == 3 || |h| == 6
  {
    var hex := if |h| == 3 then Double(h) else h;
    if |hex| == 6 then Some("FF" + Upper(hex)) else None
  }

  function HtmlColorToArgb(color: Option<string>, names: string -> Option<string>): (r: Option<string>)
    ensures !Truthy(color) ==> r == None
    ensures r.Some? ==> |r.value| == 8 && r.value[..2] == "FF"
  {
    if !Truthy(color) then None
    else
      match HexDigitsOf(Strip(Lower(color.value)), names)
      case None => None
      case Some(h) => ArgbOfDigits(h)
  }

  /** The result depends on the token only through its trimmed, lower-cased form. */
  lemma ArgbDependsOnNormalForm(a: string, b: string, names: string -> Option<string>)
    requires a != "" && b != ""
    requires Lower(Strip(a)) == Lower(Strip(b))
    ensures HtmlColorToArgb(Some(a), names) == HtmlColorToArgb(Some(b), names)
  {
    StripLowerCommute(a);
    StripLowerCommute(b);
  }

  /** A name the table does not know gives no colour instead of an exception. */
  lemma UnknownNameGivesNone(color: string, names: string -> Option<string>)
    requires color != ""
    requires !StartsAt(Strip(Lower(color)), 0, "#")
    requires names(Strip(Lower(color))) == None
    ensures HtmlColorToArgb(Some(color), names) == None
  {
  }

  /** A name the table knows gives the code of its "#rrggbb" value. */
  lemma KnownNameGivesArgb(color: string, names: string -> Option<string>, hex: string)
    requires color != ""
    requires !StartsAt(Strip(Lower(color)), 0, "#")
    requires |hex| == 6 && hex[0] != '#'
    requires names(Strip(Lower(color))) == Some("#" + hex)
    ensures HtmlColorToArgb(Some(color), names) == Some("FF" + Upper(hex))
  {
    TrimLeftAt("#" + hex, {'#'}, 1);
    assert ("#" + hex)[1..] == hex;
  }

  /** No upper-case letter, no whitespace, no `#`: lower-case hex digits, for one. */
  predicate IsPlainToken(h: string) {
    forall i :: 0 <= i < |h| ==> !('A' <= h[i] <= 'Z') && !IsSpace(h[i]) && h[i] != '#'
  }

  /** The stripped, lower-cased form of "#" followed by a plain token is itself. */
  lemma NormalHexToken(h: string)
    requires IsPlainToken(h)
    ensures Strip(Lower("#" + h)) == "#" + h
    ensures TrimLeft("#" + h, {'#'}) == h
  {
    var t := "#" + h;
    assert Lower(t) == t;
    TrimLeftAt(t, Whitespace, 0);
    assert TrimLeft(t, Whitespace) == t;
    TrailingCountIs(t, Whitespace, 0);
    TrimLeftAt(t, {'#'}, 1);
    assert t[1..] == h;
  }

  /** A `#` followed by a plain token is looked at through that token only. */
  lemma HashTokenDigits(h: string, names: string -> Option<string>)
    requires IsPlainToken(h)
    ensures HtmlColorToArgb(Some("#" + h), names) == ArgbOfDigits(h)
  {
    var t := "#" + h;
    NormalHexToken(h);
    assert t[0..1] == "#";
    assert HexDigitsOf(t, names) == Some(h);
    assert Truthy(Some(t));
  }

  /** "#rrggbb" becomes "FFRRGGBB". */
  lemma FullHexGivesArgb(h: string, names: string -> Option<string>)
    requires |h| == 6 && IsPlainToken(h)
    ensures HtmlColorToArgb(Some("#" + h), names) == Some("FF" + Upper(h))
  {
    HashTokenDigits(h, names);
  }

  /** Three digits are the same as their doubled six. */
  lemma ArgbOfShorthand(h: string)
    requires |h| == 3
    ensures ArgbOfDigits(h) == ArgbOfDigits(Double(h)) == Some("FF" + Upper(Double(h)))
  {
  }

  lemma DoublePlain(h: string)
    requires IsPlainToken(h)
    ensures IsPlainToken(Double(h))
  {
    forall i | 0 <= i < |Double(h)|
      ensures !('A' <= Double(h)[i] <= 'Z') && !IsSpace(Double(h)[i]) && Double(h)[i] != '#'
    {
      assert Double(h)[i] == h[i / 2];
    }
  }

  /** "#rgb" gives the same code as "#rrggbb": the shorthand is expanded before the
      length test. */
  lemma ShorthandExpands(h: string, names: string -> Option<string>)
    requires |h| == 3 && IsPlainToken(h)
    ensures HtmlColorToArgb(Some("#" + h), names) == Some("FF" + Upper(Double(h)))
    ensures HtmlColorToArgb(Some("#" + h), names) == HtmlColorToArgb(Some("#" + Double(h)), names)
  {
    HashTokenDigits(h, names);
    DoublePlain(h);
    HashTokenDigits(Double(h), names);
    ArgbOfShorthand(h);
  }

  /** Only the number of characters after the `#` is tested, not whether they are
      hex digits: "#zzz" is accepted, "#abcd" is not. */
  lemma HashTokenAcceptedIffLength(h: string, names: string -> Option<string>)
    requires IsPlainToken(h)
    ensures HtmlColorToArgb(Some("#" + h), names).Some? <==> |h| == 3 || |h| == 6
  {
    HashTokenDigits(h, names);
  }

  /** Every character is a hex digit, in either case. */
  predicate AllHex(s: string) {
    forall i :: 0 <= i < |s| ==> IsHexDigit(s[i])
  }

  /** openpyxl's test on a colour value, `^([A-Fa-f0-9]{8}|[A-Fa-f0-9]{6})$`: a colour
      failing it makes `Color(...)` raise `ValueError`. */
  predicate IsArgbHex(s: string) {
    (|s| == 8 || |s| == 6) && AllHex(s)
  }

  lemma UpperKeepsHex(c: char)
    ensures IsHexDigit(UpperChar(c)) <==> IsHexDigit(c)
  {
  }

  lemma AllHexUpper(hex: string)
    ensures AllHex("FF" + Upper(hex)) <==> AllHex(hex)
  {
    var r := "FF" + Upper(hex);
    forall i | 0 <= i < |hex|
      ensures IsHexDigit(r[i + 2]) <==> IsHexDigit(hex[i])
    {
      assert r[i + 2] == UpperChar(hex[i]);
      UpperKeepsHex(hex[i]);
    }
    if AllHex(hex) {
      forall i | 2 <= i < |r|
        ensures IsHexDigit(r[i])
      {
        assert IsHexDigit(r[(i - 2) + 2]);
      }
      assert IsHexDigit(r[0]) && IsHexDigit(r[1]);
    }
  }

  lemma AllHexDouble(h: string)
    ensures AllHex(Double(h)) <==> AllHex(h)
  {
    if AllHex(h) {
      forall i | 0 <= i < |Double(h)|
        ensures IsHexDigit(Double(h)[i])
      {
        assert Double(h)[i] == h[i / 2];
      }
    }
    if AllHex(Double(h)) {
      forall i | 0 <= i < |h|
        ensures IsHexDigit(h[i])
      {
        assert Double(h)[2 * i] == h[i];
      }
    }
  }

  /** A code passes openpyxl's test exactly when the digits it was made from are all hex
      digits: "#zzz" gives a code, but not one openpyxl takes. */
  lemma ArgbHexIffHexDigits(h: string)
    requires ArgbOfDigits(h).Some?
    ensures IsArgbHex(ArgbOfDigits(h).value) <==> AllHex(h)
  {
    var hex := if |h| == 3 then Double(h) else h;
    AllHexDouble(h);
    AllHexUpper(hex);
  }
}
