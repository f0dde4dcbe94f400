/**
 * The handful of Python `str` operations the endpoint tester relies on:
 * `isspace`-based `strip`/`lstrip`/`rstrip`, `rstrip("\n")`, `upper`,
 * `find`/`in`, `startswith`, `sep.join` and `splitlines`.
 */
module PyText {

  /** Python's `str.isspace()` for one character (the complete set of 29 code points). */
  predicate IsSpace(c: char) {
    ('\U{9}' <= c <= '\U{D}') || ('\U{1C}' <= c <= ' ') || c == '\U{85}' || c == '\U{A0}'
    || c == '\U{1680}' || ('\U{2000}' <= c <= '\U{200A}') || c == '\U{2028}' || c == '\U{2029}'
    || c == '\U{202F}' || c == '\U{205F}' || c == '\U{3000}'
  }

  /** The line boundaries of Python's `str.splitlines()` (a `\r` directly followed by `\n` counts once). */
  predicate IsLineBreak(c: char) {
    ('\n' <= c <= '\r') || ('\U{1C}' <= c <= '\U{1E}') || c == '\U{85}' || c == '\U{2028}' || c == '\U{2029}'
  }

  predicate NoLineBreaks(s: string) {
    forall i :: 0 <= i < |s| ==> !IsLineBreak(s[i])
  }

  predicate AllSpace(s: string) {
    forall i :: 0 <= i < |s| ==> IsSpace(s[i])
  }

  /** `s.lstrip()`: drops the leading whitespace and nothing else. */
  function LStrip(s: string): (r: string)
    ensures |r| <= |s| && r == s[|s| - |r|..]
    ensures r == [] || !IsSpace(r[0])
  {
    if s != [] && IsSpace(s[0]) then LStrip(s[1..]) else s
  }

  /** A leading whitespace character is dropped by `lstrip`. */
  lemma LStripSpaceCons(c: char, s: string)
    requires IsSpace(c)
    ensures LStrip([c] + s) == LStrip(s)
  {
    assert ([c] + s)[1..] == s;
  }

  /** Everything `lstrip` drops is whitespace. */
  lemma {:induction false} LStripDropsSpace(s: string)
    ensures forall i :: 0 <= i < |s| - |LStrip(s)| ==> IsSpace(s[i])
  {
    if s != [] && IsSpace(s[0]) {
      LStripDropsSpace(s[1..]);
    }
  }

  /** `s.rstrip()`: drops the trailing whitespace and nothing else. */
  function RStrip(s: string): (r: string)
    ensures |r| <= |s| && r == s[..|r|]
    ensures r == [] || !IsSpace(r[|r| - 1])
  {
    if s != [] && IsSpace(s[|s| - 1]) then RStrip(s[..|s| - 1]) else s
  }

  /** Everything `rstrip` drops is whitespace. */
  lemma {:induction false} RStripDropsSpace(s: string)
    ensures forall i :: |RStrip(s)| <= i < |s| ==> IsSpace(s[i])
  {
    if s != [] && IsSpace(s[|s| - 1]) {
      RStripDropsSpace(s[..|s| - 1]);
    }
  }

  /** `s.strip()`: `lstrip` then `rstrip`. */
  function Strip(s: string): (r: string)
    ensures |r| <= |s|
    ensures NoEdgeSpace(r)
  {
    RStrip(LStrip(s))
  }

  /** `strip` keeps a slice of the text and drops only whitespace, at both ends. */
  lemma StripSlice(s: string)
    ensures exists k ::
              0 <= k && k + |Strip(s)| <= |s| && Strip(s) == s[k..k + |Strip(s)|]
              && AllSpace(s[..k]) && AllSpace(s[k + |Strip(s)|..])
  {
    var l := LStrip(s);
    LStripPrefixSpace(s);
    RStripSuffixSpace(l);
    TrimmedSlice(s, l, Strip(s), |s| - |l|);
  }

  /** A right-trimmed tail of `s` is a slice of it, with whitespace around it. */
  lemma TrimmedSlice(s: string, l: string, r: string, k: int)
    requires 0 <= k <= |s| && l == s[k..] && |r| <= |l| && r == l[..|r|]
    requires AllSpace(s[..k]) && AllSpace(l[|r|..])
    ensures k + |r| <= |s| && r == s[k..k + |r|] && AllSpace(s[..k]) && AllSpace(s[k + |r|..])
  {
    assert s[k + |r|..] == l[|r|..];
  }

  lemma LStripPrefixSpace(s: string)
    ensures AllSpace(s[..|s| - |LStrip(s)|])
  {
    LStripDropsSpace(s);
    SpaceRun(s, 0, |s| - |LStrip(s)|);
    assert s[..|s| - |LStrip(s)|] == s[0..|s| - |LStrip(s)|];
  }

  lemma RStripSuffixSpace(s: string)
    ensures AllSpace(s[|RStrip(s)|..])
  {
    RStripDropsSpace(s);
    SpaceRun(s, |RStrip(s)|, |s|);
    assert s[|RStrip(s)|..] == s[|RStrip(s)|..|s|];
  }

  lemma SpaceRun(s: string, a: int, b: int)
    requires 0 <= a <= b <= |s|
    requires forall i :: a <= i < b ==> IsSpace(s[i])
    ensures AllSpace(s[a..b])
  {
    assert forall j :: 0 <= j < b - a ==> s[a..b][j] == s[a + j];
  }

  /** `not s.strip()`: the text is empty or whitespace only. */
  predicate IsBlank(s: string) {
    Strip(s) == []
  }

  lemma {:induction false} BlankIffAllSpace(s: string)
    ensures IsBlank(s) <==> AllSpace(s)
  {
    var l := LStrip(s);
    LStripDropsSpace(s);
    if AllSpace(s) {
      assert l == [];
    } else {
      var i :| 0 <= i < |s| && !IsSpace(s[i]);
      assert l != [];
      assert !IsSpace(l[0]);
      RStripDropsSpace(l);
    }
  }

  /** Neither end of the text is whitespace. */
  predicate NoEdgeSpace(s: string) {
    s == [] || (!IsSpace(s[0]) && !IsSpace(s[|s| - 1]))
  }

  /** A text with no whitespace at either end is its own strip. */
  lemma StripFixed(s: string)
    requires NoEdgeSpace(s)
    ensures Strip(s) == s
  {
  }

  /** Stripping twice is stripping once. */
  lemma StripIdempotent(s: string)
    ensures Strip(Strip(s)) == Strip(s)
  {
    StripFixed(Strip(s));
  }

  /** `lstrip` of a text with one more character at the end. */
  lemma {:induction false} LStripSnoc(t: string, c: char)
    ensures LStrip(t + [c]) == if LStrip(t) == [] then LStrip([c]) else LStrip(t) + [c]
    decreases |t|
  {
    if t != [] {
      assert (t + [c])[1..] == t[1..] + [c];
      if IsSpace(t[0]) {
        LStripSnoc(t[1..], c);
      }
    } else {
      assert t + [c] == [c];
    }
  }

  /** `rstrip` of a text with one more character at the end. */
  lemma RStripSnoc(l: string, c: char)
    ensures RStrip(l + [c]) == if IsSpace(c) then RStrip(l) else l + [c]
  {
    assert (l + [c])[..|l|] == l;
  }

  /** `lstrip` and `rstrip` commute. */
  lemma {:induction false} LStripRStrip(s: string)
    ensures LStrip(RStrip(s)) == RStrip(LStrip(s))
    decreases |s|
  {
    if s != [] {
      var t := s[..|s| - 1];
      var c := s[|s| - 1];
      assert t + [c] == s;
      LStripSnoc(t, c);
      if IsSpace(c) {
        assert RStrip(s) == RStrip(t);
        LStripRStrip(t);
        if LStrip(t) == [] {
          assert LStrip([c]) == LStrip([c][1..]);
          assert [c][1..] == [];
        } else {
          RStripSnoc(LStrip(t), c);
        }
      } else {
        assert RStrip(s) == s;
        if LStrip(t) == [] {
          assert LStrip([c]) == [c];
        } else {
          RStripSnoc(LStrip(t), c);
        }
      }
    }
  }

  /** Removing whitespace on the right first does not change the strip. */
  lemma StripOfRStrip(s: string)
    ensures Strip(RStrip(s)) == Strip(s)
  {
    LStripRStrip(s);
  }

  /** `s.rstrip("\n")`: drops the trailing line feeds only. */
  function RStripNewlines(s: string): (r: string)
    ensures |r| <= |s| && r == s[..|r|]
    ensures r == [] || r[|r| - 1] != '\n'
    ensures forall i :: |r| <= i < |s| ==> s[i] == '\n'
  {
    if s != [] && s[|s| - 1] == '\n' then RStripNewlines(s[..|s| - 1]) else s
  }

  /**
   * `c.upper()` for the characters whose uppercase form is plain ASCII:
   * the ASCII letters, and the few non-ASCII letters Python maps into ASCII
   * (sharp s, dotless i, long s and the Latin ligatures U+FB00..U+FB06).
   * Every other character is kept as it is.
   */
  function UpperChar(c: char): (r: string)
    ensures 'a' <= c <= 'z' ==> |r| == 1 && r[0] as int == c as int - 32
    ensures '\U{80}' <= c && r != [c] ==> forall i :: 0 <= i < |r| ==> 'A' <= r[i] <= 'Z'
    ensures forall i :: 0 <= i < |r| ==> !('a' <= r[i] <= 'z')
  {
    if 'a' <= c <= 'z' then [(c as int - 32) as char]
    else if c == '\U{DF}' then "SS"
    else if c == '\U{131}' then "I"
    else if c == '\U{17F}' then "S"
    else if c == '\U{FB00}' then "FF"
    else if c == '\U{FB01}' then "FI"
    else if c == '\U{FB02}' then "FL"
    else if c == '\U{FB03}' then "FFI"
    else if c == '\U{FB04}' then "FFL"
    else if c == '\U{FB05}' || c == '\U{FB06}' then "ST"
    else [c]
  }

  /** `s.upper()`, character by character. */
  function Upper(s: string): (r: string)
    ensures |r| >= |s|
    ensures r == [] <==> s == []
    ensures forall i :: 0 <= i < |r| ==> !('a' <= r[i] <= 'z')
  {
    if s == [] then []
    else
      var head := UpperChar(s[0]);
      var tail := Upper(s[1..]);
      assert forall i :: |head| <= i < |head + tail| ==> (head + tail)[i] == tail[i - |head|];
      head + tail
  }

  /** `pat` occurs in `s` at index `i`. */
  predicate IsAt(s: string, pat: string, i: int) {
    0 <= i && i + |pat| <= |s| && s[i..i + |pat|] == pat
  }

  /** `s.startswith(p)`. */
  predicate StartsWith(s: string, p: string) {
    IsAt(s, p, 0)
  }

  function FindFrom(s: string, pat: string, k: nat): (i: int)
    requires k <= |s|
    ensures i == -1 || (k <= i && IsAt(s, pat, i))
    ensures forall j :: k <= j < (if i == -1 then |s| + 1 else i) ==> !IsAt(s, pat, j)
    decreases |s| - k
  {
    if IsAt(s, pat, k) then k else if k == |s| then -1 else FindFrom(s, pat, k + 1)
  }

  /** `s.find(pat)`: the first index where `pat` occurs, or -1. */
  function Find(s: string, pat: string): (i: int)
    ensures i == -1 || IsAt(s, pat, i)
    ensures i == -1 <==> forall j :: 0 <= j <= |s| ==> !IsAt(s, pat, j)
    ensures forall j :: 0 <= j < i ==> !IsAt(s, pat, j)
  {
    FindFrom(s, pat, 0)
  }

  /** `pat in s`. */
  predicate Contains(s: string, pat: string) {
    Find(s, pat) >= 0
  }

  /** `sep.join(xs)`. */
  function Join(sep: string, xs: seq<string>): (r: string)
    ensures |xs| == 1 ==> r == xs[0]
  {
    if |xs| == 0 then [] else if |xs| == 1 then xs[0] else xs[0] + sep + Join(sep, xs[1..])
  }

  /** The joined text starts with the first element. */
  lemma JoinHead(sep: string, xs: seq<string>)
    requires xs != []
    ensures |Join(sep, xs)| >= |xs[0]| && Join(sep, xs)[..|xs[0]|] == xs[0]
  {
  }

  lemma {:induction false} JoinSnoc(sep: string, xs: seq<string>, y: string)
    requires xs != []
    ensures Join(sep, xs + [y]) == Join(sep, xs) + sep + y
    decreases |xs|
  {
    if |xs| > 1 {
      assert (xs + [y])[1..] == xs[1..] + [y];
      JoinSnoc(sep, xs[1..], y);
    } else {
      assert xs + [y] == [xs[0], y];
    }
  }

  /** Index of the first line boundary in `s`, or `|s|`. */
  function LineEnd(s: string): (i: nat)
    ensures i <= |s| && NoLineBreaks(s[..i])
    ensures i < |s| ==> IsLineBreak(s[i])
  {
    if s == [] || IsLineBreak(s[0]) then 0
    else
      var i := 1 + LineEnd(s[1..]);
      assert s[..i] == [s[0]] + s[1..][..i - 1];
      i
  }

  /** Length of the line boundary at index `i`: 2 for `\r\n`, otherwise 1. */
  function BreakLength(s: string, i: nat): nat
    requires i < |s|
  {
    if s[i] == '\r' && i + 1 < |s| && s[i + 1] == '\n' then 2 else 1
  }

  /** `s.splitlines()`: the lines without their line boundaries; no empty line after a final boundary. */
  function SplitLines(s: string): (lines: seq<string>)
    ensures lines == [] <==> s == []
    ensures forall k :: 0 <= k < |lines| ==> NoLineBreaks(lines[k])
    decreases |s|
  {
    if s == [] then []
    else
      var i := LineEnd(s);
      if i == |s| then [s] else [s[..i]] + SplitLines(s[i + BreakLength(s, i)..])
  }

  lemma {:induction false} LineEndAfter(line: string, t: string)
    requires NoLineBreaks(line)
    ensures LineEnd(line + t) == |line| + LineEnd(t)
    decreases |line|
  {
    if line != [] {
      assert (line + t)[1..] == line[1..] + t;
      LineEndAfter(line[1..], t);
    } else {
      assert line + t == t;
    }
  }

  /** A line followed by `\n` splits off as the first line. */
  lemma SplitLinesCons(line: string, rest: string)
    requires NoLineBreaks(line)
    ensures SplitLines(line + "\n" + rest) == [line] + SplitLines(rest)
  {
    var s := line + ("\n" + rest);
    assert line + "\n" + rest == s;
    LineEndAfter(line, "\n" + rest);
    assert s[|line|] == '\n';
    assert s[..|line|] == line;
    assert s[|line| + 1..] == rest;
  }

  /** Joining non-empty lines that hold no line boundary with `\n` and splitting again gives them back. */
  lemma {:induction false} SplitLinesJoin(lines: seq<string>)
    requires forall k :: 0 <= k < |lines| ==> lines[k] != [] && NoLineBreaks(lines[k])
    ensures SplitLines(Join("\n", lines)) == lines
    decreases |lines|
  {
    if |lines| == 1 {
      LineEndAfter(lines[0], []);
      assert lines[0] + [] == lines[0];
    } else if |lines| > 1 {
      SplitLinesCons(lines[0], Join("\n", lines[1..]));
      SplitLinesJoin(lines[1..]);
      assert lines == [lines[0]] + lines[1..];
    }
  }
}
