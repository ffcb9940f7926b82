/** The string operations the converter relies on: Python's `strip`, `lstrip`, `lower`,
    `upper`, `in` (substring), `split(',')[0]`, `split('\n')` and `count('\n')`,
    with Python's whitespace and with case mapping restricted to ASCII letters. */
module Text {

  /** The characters `str.isspace()` accepts, which are what `str.strip()` removes and
      what the regex class `\s` matches: the ASCII spaces, the four information
      separators U+001C to U+001F, and the Unicode spaces and line separators. */
  const Whitespace: set<char> := {
    ' ', '\t', '\n', '\r', '\U{000B}', '\U{000C}',
    '\U{001C}', '\U{001D}', '\U{001E}', '\U{001F}', '\U{0085}', '\U{00A0}', '\U{1680}',
    '\U{2000}', '\U{2001}', '\U{2002}', '\U{2003}', '\U{2004}', '\U{2005}', '\U{2006}',
    '\U{2007}', '\U{2008}', '\U{2009}', '\U{200A}', '\U{2028}', '\U{2029}', '\U{202F}',
    '\U{205F}', '\U{3000}'}

  predicate IsSpace(c: char) {
    c in Whitespace
  }

  /** The number of leading characters of `s` that belong to `cs`. */
  function LeadingCount(s: string, cs: set<char>): (n: nat)
    ensures n <= |s|
    ensures forall i :: 0 <= i < n ==> s[i] in cs
    ensures n == |s| || s[n] !in cs
  {
    if |s| > 0 && s[0] in cs then 1 + LeadingCount(s[1..], cs) else 0
  }

  /** The number of trailing characters of `s` that belong to `cs`. */
  function TrailingCount(s: string, cs: set<char>): (n: nat)
    ensures n <= |s|
    ensures forall i :: |s| - n <= i < |s| ==> s[i] in cs
    ensures n == |s| || s[|s| - n - 1] !in cs
  {
    if |s| > 0 && s[|s| - 1] in cs then 1 + TrailingCount(s[..|s| - 1], cs) else 0
  }

  /** A run of `w` leading characters of `cs` followed by one that is not: that is the count. */
  lemma LeadingCountIs(x: string, cs: set<char>, w: nat)
    requires w <= |x|
    requires forall i :: 0 <= i < w ==> x[i] in cs
    requires w == |x| || x[w] !in cs
    ensures LeadingCount(x, cs) == w
  {
  }

  /** The same from the other end. */
  lemma TrailingCountIs(x: string, cs: set<char>, w: nat)
    requires w <= |x|
    requires forall i :: |x| - w <= i < |x| ==> x[i] in cs
    requires w == |x| || x[|x| - w - 1] !in cs
    ensures TrailingCount(x, cs) == w
  {
  }

  /** Drops every leading character that belongs to `cs` (`s.lstrip(cs)`). */
  function TrimLeft(s: string, cs: set<char>): string {
    s[LeadingCount(s, cs)..]
  }

  /** Drops every trailing character that belongs to `cs` (`s.rstrip(cs)`). */
  function TrimRight(s: string, cs: set<char>): string {
    s[..|s| - TrailingCount(s, cs)]
  }

  /** Skipping a prefix of characters of `cs` that ends before a character not in `cs`. */
  lemma TrimLeftAt(x: string, cs: set<char>, w: nat)
    requires w <= |x|
    requires forall i :: 0 <= i < w ==> x[i] in cs
    requires w == |x| || x[w] !in cs
    ensures TrimLeft(x, cs) == x[w..]
  {
    LeadingCountIs(x, cs, w);
  }

  /** `s.strip(cs)`: both ends. */
  function StripChars(s: string, cs: set<char>): string {
    TrimRight(TrimLeft(s, cs), cs)
  }

  /** `s.strip()` */
  function Strip(s: string): string {
    StripChars(s, Whitespace)
  }

  /** The number of leading whitespace characters of `s`: what a greedy `\s*` consumes. */
  function SpaceRun(s: string): (n: nat)
    ensures n <= |s|
    ensures forall i :: 0 <= i < n ==> IsSpace(s[i])
    ensures n == |s| || !IsSpace(s[n])
  {
    LeadingCount(s, Whitespace)
  }

  function LowerChar(c: char): char {
    if 'A' <= c <= 'Z' then (c as int + 32) as char else c
  }

  function UpperChar(c: char): char {
    if 'a' <= c <= 'z' then (c as int - 32) as char else c
  }

  /** `s.lower()` on ASCII letters. */
  function Lower(s: string): (r: string)
    ensures |r| == |s| && forall i :: 0 <= i < |s| ==> r[i] == LowerChar(s[i])
  {
    seq(|s|, i requires 0 <= i < |s| => LowerChar(s[i]))
  }

  /** `s.upper()` on ASCII letters. */
  function Upper(s: string): (r: string)
    ensures |r| == |s| && forall i :: 0 <= i < |s| ==> r[i] == UpperChar(s[i])
  {
    seq(|s|, i requires 0 <= i < |s| => UpperChar(s[i]))
  }

  /** The text `p` occurs in `s` at index `i`. */
  predicate StartsAt(s: string, i: nat, p: string) {
    i + |p| <= |s| && s[i..i + |p|] == p
  }

  /** Python's `p in s`. */
  predicate Contains(s: string, p: string) {
    exists i :: 0 <= i <= |s| - |p| && StartsAt(s, i, p)
  }

  /** The part of `s` before the first `c`: `s.split(c)[0]`. */
  function UpTo(s: string, c: char): (r: string)
    ensures |r| <= |s| && r == s[..|r|]
    ensures c !in r
    ensures |r| < |s| ==> s[|r|] == c
  {
    if |s| == 0 || s[0] == c then [] else [s[0]] + UpTo(s[1..], c)
  }

  /** `s.count(c)` */
  function CountChar(s: string, c: char): nat {
    if |s| == 0 then 0 else (if s[0] == c then 1 else 0) + CountChar(s[1..], c)
  }

  /** `s.split('\n')`: never empty, and the pieces hold no newline. */
  function SplitLines(s: string): (r: seq<string>)
    ensures |r| >= 1
    ensures forall k :: 0 <= k < |r| ==> '\n' !in r[k]
  {
    if |s| == 0 then [""]
    else
      var rest := SplitLines(s[1..]);
      if s[0] == '\n' then [""] + rest else [[s[0]] + rest[0]] + rest[1..]
  }

  /** `'\n'.join(ls)`, the inverse of `SplitLines`. */
  function JoinLines(ls: seq<string>): string
    requires |ls| >= 1
  {
    if |ls| == 1 then ls[0] else ls[0] + "\n" + JoinLines(ls[1..])
  }

  /** Joining the pieces of a split gives back the text. */
  lemma {:induction false} JoinSplitLines(s: string)
    ensures JoinLines(SplitLines(s)) == s
  {
    if |s| > 0 {
      var rest := SplitLines(s[1..]);
      JoinSplitLines(s[1..]);
      if s[0] == '\n' {
        assert SplitLines(s) == [""] + rest;
        assert ([""] + rest)[1..] == rest;
        assert s == "\n" + s[1..];
      } else {
        var r := [[s[0]] + rest[0]] + rest[1..];
        assert SplitLines(s) == r;
        if |rest| == 1 {
          assert s == [s[0]] + s[1..];
        } else {
          assert r[1..] == rest[1..];
          assert JoinLines(rest) == rest[0] + "\n" + JoinLines(rest[1..]);
          assert s == [s[0]] + s[1..];
        }
      }
    }
  }

  /** Splitting at a newline splits the pieces: `(a + "\n" + b).split('\n')` is
      `a.split('\n') + b.split('\n')`. */
  lemma {:induction false} SplitLinesAtNewline(a: string, b: string)
    ensures SplitLines(a + "\n" + b) == SplitLines(a) + SplitLines(b)
  {
    if |a| == 0 {
      assert a + "\n" + b == "\n" + b;
      assert ("\n" + b)[1..] == b;
    } else {
      assert (a + "\n" + b)[0] == a[0];
      assert (a + "\n" + b)[1..] == a[1..] + "\n" + b;
      SplitLinesAtNewline(a[1..], b);
    }
  }

  /** A text without newline is one piece. */
  lemma {:induction false} SplitLinesOfLine(s: string)
    requires '\n' !in s
    ensures SplitLines(s) == [s]
  {
    if |s| > 0 {
      assert s[0] in s;
      assert forall c :: c in s[1..] ==> c in s;
      SplitLinesOfLine(s[1..]);
      assert s == [s[0]] + s[1..];
    }
  }

  /** Lower-casing does not move the whitespace, so `s.lower().strip()` is `s.strip().lower()`. */
  lemma StripLowerCommute(s: string)
    ensures Strip(Lower(s)) == Lower(Strip(s))
  {
    var a := LeadingCount(s, Whitespace);
    LeadingCountLower(s);
    var t := s[a..];
    assert Lower(s)[a..] == Lower(t);
    TrimRightLower(t);
  }

  /** Whitespace holds no upper-case ASCII letter and no letter's lower-case form. */
  lemma LowerKeepsSpace(c: char)
    ensures IsSpace(LowerChar(c)) == IsSpace(c)
  {
  }

  lemma LeadingCountLower(s: string)
    ensures LeadingCount(Lower(s), Whitespace) == LeadingCount(s, Whitespace)
  {
    var w := LeadingCount(s, Whitespace);
    if w < |s| {
      LowerKeepsSpace(s[w]);
    }
    LeadingCountIs(Lower(s), Whitespace, w);
  }

  lemma TrimRightLower(t: string)
    ensures TrimRight(Lower(t), Whitespace) == Lower(TrimRight(t, Whitespace))
  {
    var b := TrailingCount(t, Whitespace);
    if b < |t| {
      LowerKeepsSpace(t[|t| - b - 1]);
    }
    TrailingCountIs(Lower(t), Whitespace, b);
    assert Lower(t)[..|t| - b] == Lower(t[..|t| - b]);
  }

  /** A substring of either half is a substring of the concatenation. */
  lemma ContainsConcat(a: string, b: string, p: string)
    ensures Contains(a, p) ==> Contains(a + b, p)
    ensures Contains(b, p) ==> Contains(a + b, p)
  {
    if Contains(a, p) {
      var i :| 0 <= i <= |a| - |p| && StartsAt(a, i, p);
      assert (a + b)[i..i + |p|] == a[i..i + |p|];
      assert StartsAt(a + b, i, p);
    }
    if Contains(b, p) {
      var i :| 0 <= i <= |b| - |p| && StartsAt(b, i, p);
      assert (a + b)[|a| + i..|a| + i + |p|] == b[i..i + |p|];
      assert StartsAt(a + b, |a| + i, p);
    }
  }
}
