/** The regular expressions the converter applies to style strings, written out as
    matchers with Python `re.search` semantics: the leftmost index at which the
    pattern matches, with the group that greedy matching and backtracking capture. */
module Patterns {
  import opened Wrappers
  import opened Text

  datatype Pattern =
      /** `property\s*([^;]+)`, and with `notAfter != ""` also `(?<!notAfter)` in front. */
    | Declaration(property: string, notAfter: string)
      /** `property\s*(\d+)` */
    | Digits(property: string)
      /** `property\s*([\d.]+)px` */
    | Pixels(property: string)

  predicate IsDigit(c: char) {
    '0' <= c <= '9'
  }

  predicate IsNumberChar(c: char) {
    IsDigit(c) || c == '.'
  }

  /** Length of the longest digit prefix (`\d+` is greedy). */
  function DigitRun(s: string): (n: nat)
    ensures n <= |s|
    ensures forall i :: 0 <= i < n ==> IsDigit(s[i])
    ensures n == |s| || !IsDigit(s[n])
  {
    if |s| > 0 && IsDigit(s[0]) then 1 + DigitRun(s[1..]) else 0
  }

  /** Length of the longest `[\d.]` prefix. */
  function NumberRun(s: string): (n: nat)
    ensures n <= |s|
    ensures forall i :: 0 <= i < n ==> IsNumberChar(s[i])
    ensures n == |s| || !IsNumberChar(s[n])
  {
    if |s| > 0 && IsNumberChar(s[0]) then 1 + NumberRun(s[1..]) else 0
  }

  /** The negative lookbehind `(?<!q)` fails at `i`. An empty `q` never does. */
  predicate PrecededBy(s: string, i: nat, q: string) {
    q != [] && |q| <= i <= |s| && s[i - |q|..i] == q
  }

  /** The group `([^;]+)` captures after `\s*`, on the text `t` that follows the
      property name. Greedy `\s*` takes the whole whitespace run; when nothing but
      a `;` or the end follows it, backtracking hands its last character to the group. */
  function DeclarationCapture(t: string): (v: string)
    requires |t| > 0 && t[0] != ';'
    ensures |v| > 0 && ';' !in v
  {
    var k := |UpTo(t, ';')|;
    var w := SpaceRun(t);
    SpaceRunBeforeSemicolon(t);
    assert t[..k] == UpTo(t, ';');
    if w < k then
      assert t[w..k] == t[..k][w..];
      t[w..k]
    else
      assert t[k - 1..k] == t[..k][k - 1..];
      t[k - 1..k]
  }

  /** The whitespace run ends at or before the first `;`. */
  lemma SpaceRunBeforeSemicolon(t: string)
    ensures SpaceRun(t) <= |UpTo(t, ';')|
  {
    var k := |UpTo(t, ';')|;
    if k < |t| {
      assert t[k] == ';' && !IsSpace(t[k]);
    }
  }

  /** The group captured by a match of `p` that starts at index `i` of `s`, if it matches there. */
  function MatchAt(p: Pattern, s: string, i: nat): Option<string> {
    match p
    case Declaration(key, notAfter) => DeclarationAt(key, notAfter, s, i)
    case Digits(key) => DigitsAt(key, s, i)
    case Pixels(key) => PixelsAt(key, s, i)
  }

  /** `(?<!notAfter)key\s*([^;]+)` at `i`: the group needs one character that is not `;`. */
  function DeclarationAt(key: string, notAfter: string, s: string, i: nat): Option<string> {
    if DeclarationStarts(key, notAfter, s, i) then Some(DeclarationCapture(s[i + |key|..])) else None
  }

  /** The part of the pattern before the group matches at `i`, and one character that is
      not `;` follows it. */
  predicate DeclarationStarts(key: string, notAfter: string, s: string, i: nat)
    ensures DeclarationStarts(key, notAfter, s, i) ==> i + |key| < |s| && s[i + |key|] != ';'
  {
    StartsAt(s, i, key) && !PrecededBy(s, i, notAfter) && i + |key| < |s| && s[i + |key|] != ';'
  }

  /** `key\s*(\d+)` at `i`. */
  function DigitsAt(key: string, s: string, i: nat): Option<string> {
    if !StartsAt(s, i, key) then None
    else
      var t := s[i + |key|..];
      var w := SpaceRun(t);
      var n := DigitRun(t[w..]);
      if n > 0 then Some(t[w..w + n]) else None
  }

  /** `key\s*([\d.]+)px` at `i`. */
  function PixelsAt(key: string, s: string, i: nat): Option<string> {
    if !StartsAt(s, i, key) then None
    else
      var t := s[i + |key|..];
      var w := SpaceRun(t);
      var n := NumberRun(t[w..]);
      if n > 0 && StartsAt(t, w + n, "px") then Some(t[w..w + n]) else None
  }

  /** The leftmost index at or after `i` where `p` matches. */
  function FindFrom(p: Pattern, s: string, i: nat): (r: Option<nat>)
    requires i <= |s|
    ensures r.Some? ==> i <= r.value <= |s| && MatchAt(p, s, r.value).Some?
    ensures r.Some? ==> forall j :: i <= j < r.value ==> MatchAt(p, s, j).None?
    ensures r.None? ==> forall j :: i <= j <= |s| ==> MatchAt(p, s, j).None?
    decreases |s| - i
  {
    if MatchAt(p, s, i).Some? then Some(i)
    else if i == |s| then None
    else FindFrom(p, s, i + 1)
  }

  /** `re.search(p, s)`, giving the first group of the match. */
  function Search(p: Pattern, s: string): Option<string> {
    match FindFrom(p, s, 0)
    case Some(i) => MatchAt(p, s, i)
    case None => None
  }

  /** `Search` finds something exactly when the pattern matches somewhere, and then
      it is the group of the leftmost match. */
  lemma SearchIsLeftmost(p: Pattern, s: string, i: nat)
    requires i <= |s|
    requires MatchAt(p, s, i).Some?
    requires forall j :: 0 <= j < i ==> MatchAt(p, s, j).None?
    ensures FindFrom(p, s, 0) == Some(i)
    ensures Search(p, s) == MatchAt(p, s, i)
  {
  }

  /** What `.strip()` leaves of a `([^;]+)` group does not depend on the
      backtracking: it is the stripped text up to the next `;`. */
  lemma DeclarationCaptureStrip(t: string)
    requires |t| > 0 && t[0] != ';'
    ensures Strip(DeclarationCapture(t)) == Strip(UpTo(t, ';'))
  {
    var k := |UpTo(t, ';')|;
    SpaceRunBeforeSemicolon(t);
    if SpaceRun(t) < k {
      GroupTrimLeft(t, k);
    } else {
      BacktrackedTrimLeft(t, k);
    }
  }

  /** The group after the whole whitespace run, left-trimmed, is the left-trimmed text
      up to the `;`. */
  lemma GroupTrimLeft(t: string, k: nat)
    requires k == |UpTo(t, ';')| && SpaceRun(t) < k
    ensures TrimLeft(t[SpaceRun(t)..k], Whitespace) == TrimLeft(t[..k], Whitespace)
  {
    var w := SpaceRun(t);
    assert t[..k][w..] == t[w..k];
    TrimLeftAt(t[..k], Whitespace, w);
    TrimLeftAt(t[w..k], Whitespace, 0);
  }

  /** When only whitespace comes before the `;`, the backtracked one-character group and
      the text up to the `;` both trim to nothing. */
  lemma BacktrackedTrimLeft(t: string, k: nat)
    requires |t| > 0 && t[0] != ';'
    requires k == |UpTo(t, ';')| && SpaceRun(t) >= k
    ensures k > 0
    ensures TrimLeft(t[k - 1..k], Whitespace) == [] && TrimLeft(t[..k], Whitespace) == []
  {
    assert UpTo(t, ';') != [];
    TrimLeftAt(t[..k], Whitespace, k);
    assert IsSpace(t[k - 1]);
    TrimLeftAt(t[k - 1..k], Whitespace, 1);
  }

  /** Text appended after a `c` does not change what comes before the first `c`. */
  lemma {:induction false} UpToAppend(x: string, y: string, c: char)
    requires c in x
    ensures UpTo(x + y, c) == UpTo(x, c)
  {
    if x[0] != c {
      assert (x + y)[1..] == x[1..] + y;
      UpToAppend(x[1..], y, c);
    }
  }

  /** Whether a declaration matches at `j` does not depend on text appended after
      the character that follows its property name. */
  lemma DeclarationMatchStable(key: string, notAfter: string, a: string, b: string, j: nat)
    requires j + |key| < |a|
    ensures DeclarationStarts(key, notAfter, a + b, j) == DeclarationStarts(key, notAfter, a, j)
  {
    assert (a + b)[j..j + |key|] == a[j..j + |key|];
    assert (a + b)[j + |key|] == a[j + |key|];
    if |notAfter| <= j {
      assert (a + b)[j - |notAfter|..j] == a[j - |notAfter|..j];
    }
  }

  /** The cell's style comes first in `cell_style + row_style`, so when the cell
      declares a property, the search over the concatenation stops at the cell's own
      declaration: a row declaration of the same property never wins. */
  lemma CellDeclarationFirst(key: string, notAfter: string, cell: string, row: string)
    requires FindFrom(Declaration(key, notAfter), cell, 0).Some?
    ensures FindFrom(Declaration(key, notAfter), cell + row, 0)
         == FindFrom(Declaration(key, notAfter), cell, 0)
  {
    var p := Declaration(key, notAfter);
    var i := FindFrom(p, cell, 0).value;
    assert DeclarationAt(key, notAfter, cell, i).Some? by {
      assert MatchAt(p, cell, i).Some?;
    }
    forall j | 0 <= j < i
      ensures MatchAt(p, cell + row, j).None?
    {
      assert MatchAt(p, cell, j).None?;
      DeclarationMatchStable(key, notAfter, cell, row, j);
    }
    DeclarationMatchStable(key, notAfter, cell, row, i);
    SearchIsLeftmost(p, cell + row, i);
  }

  /** A group closed by a `;` is not changed by text appended after it. */
  lemma DeclarationCaptureAppend(x: string, y: string)
    requires |x| > 0 && x[0] != ';' && ';' in x
    ensures DeclarationCapture(x + y) == DeclarationCapture(x)
  {
    UpToAppend(x, y, ';');
    var w := SpaceRun(x);
    SpaceRunBeforeSemicolon(x);
    assert w < |x| by {
      var m :| 0 <= m < |x| && x[m] == ';';
      assert !IsSpace(x[m]);
    }
    TrimLeftAt(x + y, Whitespace, w);
    var k := |UpTo(x, ';')|;
    assert (x + y)[..k] == x[..k];
  }

  /** A declaration closed by a `;` captures the same group with text appended. */
  lemma DeclarationMatchAppend(key: string, notAfter: string, a: string, b: string, i: nat)
    requires i + |key| < |a| && ';' in a[i + |key|..]
    requires DeclarationAt(key, notAfter, a, i).Some?
    ensures DeclarationAt(key, notAfter, a + b, i) == DeclarationAt(key, notAfter, a, i)
  {
    DeclarationMatchStable(key, notAfter, a, b, i);
    CaptureAfter(a, b, i + |key|);
  }

  /** The group read at index `j` of `a`, closed by a `;`, is read the same with text
      appended to `a`. */
  lemma CaptureAfter(a: string, b: string, j: nat)
    requires j < |a| && a[j] != ';' && ';' in a[j..]
    ensures DeclarationCapture((a + b)[j..]) == DeclarationCapture(a[j..])
  {
    var x := a[j..];
    assert (a + b)[j..] == x + b;
    assert x[0] == a[j];
    DeclarationCaptureAppend(x, b);
  }

  /** When the cell's declaration is closed by a `;`, the group is the cell's own;
      without the `;` the group runs on into the row's style (the two strings are
      joined without a separator). */
  lemma CellDeclarationWins(key: string, notAfter: string, cell: string, row: string, i: nat)
    requires i + |key| < |cell|
    requires FindFrom(Declaration(key, notAfter), cell, 0) == Some(i)
    requires ';' in cell[i + |key|..]
    ensures Search(Declaration(key, notAfter), cell + row) == Search(Declaration(key, notAfter), cell)
  {
    CellDeclarationFirst(key, notAfter, cell, row);
    DeclarationMatchAppend(key, notAfter, cell, row, i);
  }

  /** The group of `property\s*(\d+)` is a non-empty run of digits ... */
  lemma DigitsMatch(key: string, s: string, i: nat)
    requires MatchAt(Digits(key), s, i).Some?
    ensures var d := MatchAt(Digits(key), s, i).value;
      d != [] && forall j :: 0 <= j < |d| ==> IsDigit(d[j])
  {
    var t := s[i + |key|..];
    var w := SpaceRun(t);
    var n := DigitRun(t[w..]);
    var d := t[w..w + n];
    forall j | 0 <= j < |d|
      ensures IsDigit(d[j])
    {
      assert d[j] == t[w..][j];
    }
  }

  /** ... and so is the group `re.search` returns. */
  lemma DigitsCapture(key: string, s: string)
    ensures Search(Digits(key), s).Some? ==>
      var d := Search(Digits(key), s).value;
      d != [] && forall i :: 0 <= i < |d| ==> IsDigit(d[i])
  {
    var f := FindFrom(Digits(key), s, 0);
    if f.Some? {
      DigitsMatch(key, s, f.value);
    }
  }

  /** ... and the same for `property\s*([\d.]+)px` and its run of digits and dots. */
  lemma PixelsMatch(key: string, s: string, i: nat)
    requires MatchAt(Pixels(key), s, i).Some?
    ensures var d := MatchAt(Pixels(key), s, i).value;
      d != [] && forall j :: 0 <= j < |d| ==> IsNumberChar(d[j])
  {
    var t := s[i + |key|..];
    var w := SpaceRun(t);
    var n := NumberRun(t[w..]);
    var d := t[w..w + n];
    forall j | 0 <= j < |d|
      ensures IsNumberChar(d[j])
    {
      assert d[j] == t[w..][j];
    }
  }

  lemma PixelsCapture(key: string, s: string)
    ensures Search(Pixels(key), s).Some? ==>
      var d := Search(Pixels(key), s).value;
      d != [] && forall i :: 0 <= i < |d| ==> IsNumberChar(d[i])
  {
    var f := FindFrom(Pixels(key), s, 0);
    if f.Some? {
      PixelsMatch(key, s, f.value);
    }
  }

  /** The leftmost match of a declaration pattern: the property name at `i`, not after
      the excluded prefix, and the group read from the text after the name. */
  lemma DeclarationFound(key: string, notAfter: string, s: string, i: nat)
    requires FindFrom(Declaration(key, notAfter), s, 0) == Some(i)
    ensures StartsAt(s, i, key) && !PrecededBy(s, i, notAfter)
    ensures i + |key| < |s| && s[i + |key|] != ';'
    ensures Search(Declaration(key, notAfter), s) == Some(DeclarationCapture(s[i + |key|..]))
  {
    assert MatchAt(Declaration(key, notAfter), s, i).Some?;
  }
}
