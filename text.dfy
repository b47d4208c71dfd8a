/** The string primitives the layout engine leans on: Python's `str.strip()`
    and `str.splitlines()`, with the character classes they use, plus the
    small sequence helpers (concatenation, filtering) in which the
    properties of the wrapper and the page builder are stated. */
module Text {

  /** Python's `str.isspace()`: the characters `str.strip()` removes. */
  predicate IsSpace(c: char) {
    || c == ' '
    || ('\t' <= c <= '\r')
    || ('\U{1C}' <= c <= '\U{1F}')
    || c == '\U{85}' || c == '\U{A0}' || c == '\U{1680}'
    || ('\U{2000}' <= c <= '\U{200A}')
    || c == '\U{2028}' || c == '\U{2029}'
    || c == '\U{202F}' || c == '\U{205F}' || c == '\U{3000}'
  }

  /** The line boundaries of Python's `str.splitlines()`. */
  predicate IsLineBreak(c: char) {
    || ('\n' <= c <= '\r')
    || ('\U{1C}' <= c <= '\U{1E}')
    || c == '\U{85}' || c == '\U{2028}' || c == '\U{2029}'
  }

  /** The whitespace `textwrap` splits words on: ASCII whitespace only. */
  predicate IsWrapSpace(c: char) {
    c == ' ' || ('\t' <= c <= '\r')
  }

  /** The three character classes above, named so that one filter serves all. */
  datatype CharClass = Whitespace | LineBreaks | WrapWhitespace

  predicate InClass(c: char, cls: CharClass) {
    match cls
    case Whitespace => IsSpace(c)
    case LineBreaks => IsLineBreak(c)
    case WrapWhitespace => IsWrapSpace(c)
  }

  // ---------------------------------------------------------------------
  // Sequence helpers

  /** The strings of `ss` glued together with nothing in between. */
  function Concat(ss: seq<string>): string {
    if ss == [] then [] else ss[0] + Concat(ss[1..])
  }

  lemma {:induction false} ConcatAppend(a: seq<string>, b: seq<string>)
    ensures Concat(a + b) == Concat(a) + Concat(b)
  {
    if a == [] {
      assert a + b == b;
    } else {
      assert (a + b)[1..] == a[1..] + b;
      ConcatAppend(a[1..], b);
    }
  }

  /** `s` with every character of class `drop` taken out; what is left
      keeps its order. */
  function Remove(s: string, drop: CharClass): (r: string)
    ensures |r| <= |s|
  {
    if s == [] then [] else (if InClass(s[0], drop) then [] else [s[0]]) + Remove(s[1..], drop)
  }

  lemma {:induction false} RemoveAppend(a: string, b: string, drop: CharClass)
    ensures Remove(a + b, drop) == Remove(a, drop) + Remove(b, drop)
  {
    if a == [] {
      assert a + b == b;
    } else {
      assert (a + b)[1..] == a[1..] + b;
      RemoveAppend(a[1..], b, drop);
    }
  }

  /** Removing characters none of which is selected changes nothing. */
  lemma {:induction false} RemoveNothing(s: string, drop: CharClass)
    requires forall k :: 0 <= k < |s| ==> !InClass(s[k], drop)
    ensures Remove(s, drop) == s
  {
    if s != [] {
      RemoveNothing(s[1..], drop);
    }
  }

  /** Removing characters all of which are selected leaves nothing. */
  lemma {:induction false} RemoveEverything(s: string, drop: CharClass)
    requires forall k :: 0 <= k < |s| ==> InClass(s[k], drop)
    ensures Remove(s, drop) == []
  {
    if s != [] {
      RemoveEverything(s[1..], drop);
    }
  }

  /** Removing a narrower class first does not change the result of removing
      a wider one. */
  lemma {:induction false} RemoveWithin(s: string, narrow: CharClass, wide: CharClass)
    requires forall c :: InClass(c, narrow) ==> InClass(c, wide)
    ensures Remove(Remove(s, narrow), wide) == Remove(s, wide)
  {
    if s != [] {
      var head := if InClass(s[0], narrow) then [] else [s[0]];
      RemoveAppend(head, Remove(s[1..], narrow), wide);
      RemoveWithin(s[1..], narrow, wide);
    }
  }

  // ---------------------------------------------------------------------
  // str.strip()

  /** `s` without its leading whitespace. */
  function TrimStart(s: string): (r: string)
    ensures |r| <= |s|
  {
    if s != [] && IsSpace(s[0]) then TrimStart(s[1..]) else s
  }

  /** What `TrimStart` removes is a whitespace prefix, and what it keeps does
      not start with whitespace. */
  lemma {:induction false} TrimStartShape(s: string)
    ensures var r := TrimStart(s);
      && r == s[|s| - |r|..]
      && (forall k :: 0 <= k < |s| - |r| ==> IsSpace(s[k]))
      && (r == [] || !IsSpace(r[0]))
  {
    if s != [] && IsSpace(s[0]) {
      TrimStartShape(s[1..]);
    }
  }

  /** `s` without its trailing whitespace. */
  function TrimEnd(s: string): (r: string)
    ensures |r| <= |s|
  {
    if s != [] && IsSpace(s[|s| - 1]) then TrimEnd(s[..|s| - 1]) else s
  }

  /** What `TrimEnd` removes is a whitespace suffix, and what it keeps does
      not end with whitespace. */
  lemma {:induction false} TrimEndShape(s: string)
    ensures var r := TrimEnd(s);
      && r == s[..|r|]
      && (forall k :: |r| <= k < |s| ==> IsSpace(s[k]))
      && (r == [] || !IsSpace(r[|r| - 1]))
  {
    if s != [] && IsSpace(s[|s| - 1]) {
      TrimEndShape(s[..|s| - 1]);
    }
  }

  /** Python's `s.strip()`. */
  function Strip(s: string): (r: string)
    ensures |r| <= |s|
  {
    TrimEnd(TrimStart(s))
  }

  /** What `Strip` leaves neither starts nor ends with whitespace. */
  lemma StripEnds(s: string)
    ensures var r := Strip(s);
      r != [] ==> !IsSpace(r[0]) && !IsSpace(r[|r| - 1])
  {
    var t := TrimStart(s);
    TrimStartShape(s);
    TrimEndShape(t);
    var r := TrimEnd(t);
    assert r != [] ==> r[0] == t[0];
  }

  /** A line is blank after stripping exactly when it is all whitespace. */
  lemma StripBlank(s: string)
    ensures Strip(s) == [] <==> forall k :: 0 <= k < |s| ==> IsSpace(s[k])
  {
    var t := TrimStart(s);
    TrimStartShape(s);
    TrimEndShape(t);
    if Strip(s) == [] {
      assert t == [];
    } else {
      assert t != [] && t[0] == s[|s| - |t|] && !IsSpace(t[0]);
    }
  }

  /** Stripping only takes whitespace away: the non-whitespace text of a
      line is the non-whitespace text of its stripped form. */
  lemma StripKeepsText(s: string)
    ensures Remove(Strip(s), Whitespace) == Remove(s, Whitespace)
  {
    TrimStartKeepsText(s);
    TrimEndKeepsText(TrimStart(s));
  }

  lemma TrimStartKeepsText(s: string)
    ensures Remove(TrimStart(s), Whitespace) == Remove(s, Whitespace)
  {
    var t := TrimStart(s);
    TrimStartShape(s);
    var lead := s[..|s| - |t|];
    assert s == lead + t;
    RemoveAppend(lead, t, Whitespace);
    RemoveEverything(lead, Whitespace);
  }

  lemma TrimEndKeepsText(s: string)
    ensures Remove(TrimEnd(s), Whitespace) == Remove(s, Whitespace)
  {
    var t := TrimEnd(s);
    TrimEndShape(s);
    var trail := s[|t|..];
    assert s == t + trail;
    RemoveAppend(t, trail, Whitespace);
    RemoveEverything(trail, Whitespace);
  }

  // ---------------------------------------------------------------------
  // str.splitlines()

  /** The length of the first line of `s`: the index of its first line
      boundary, or `|s|` when it has none. */
  function LineLen(s: string): (n: nat)
    ensures n <= |s|
    ensures n < |s| ==> IsLineBreak(s[n])
  {
    if s == [] || IsLineBreak(s[0]) then 0 else 1 + LineLen(s[1..])
  }

  /** No line boundary comes before `LineLen`. */
  lemma {:induction false} LineLenShape(s: string)
    ensures forall k :: 0 <= k < LineLen(s) ==> !IsLineBreak(s[k])
  {
    if s != [] && !IsLineBreak(s[0]) {
      LineLenShape(s[1..]);
    }
  }

  /** The width of the boundary that starts `s`: "\r\n" counts as one. */
  function BreakLen(s: string): (n: nat)
    requires s != [] && IsLineBreak(s[0])
    ensures 1 <= n <= |s|
  {
    if s[0] == '\r' && |s| >= 2 && s[1] == '\n' then 2 else 1
  }

  /** Python's `s.splitlines()`: the lines of `s` without their boundaries.
      A final boundary does not open an empty last line, and the empty string
      has no lines at all. */
  function SplitLines(s: string): (ls: seq<string>)
    ensures ls == [] <==> s == []
    decreases |s|
  {
    if s == [] then []
    else
      var n := LineLen(s);
      LineLenShape(s);
      if n == |s| then [s]
      else [s[..n]] + SplitLines(s[n + BreakLen(s[n..])..])
  }

  /** Splitting into lines drops the boundaries and nothing else. */
  lemma {:induction false} SplitLinesKeepsText(s: string)
    ensures Concat(SplitLines(s)) == Remove(s, LineBreaks)
    decreases |s|
  {
    if s != [] {
      var n := LineLen(s);
      if n == |s| {
        LineLenShape(s);
        RemoveNothing(s, LineBreaks);
        assert SplitLines(s) == [s];
        assert Concat([s]) == s + Concat([]);
      } else {
        var m := n + BreakLen(s[n..]);
        SplitLinesKeepsText(s[m..]);
        SplitLinesStep(s, n, m);
      }
    }
  }

  lemma ConcatCons(x: string, xs: seq<string>)
    ensures Concat([x] + xs) == x + Concat(xs)
  {
    assert ([x] + xs)[1..] == xs;
  }

  /** The inductive step of `SplitLinesKeepsText`: the first line, then the
      rest. */
  lemma SplitLinesStep(s: string, n: nat, m: nat)
    requires s != [] && n == LineLen(s) && n < |s| && m == n + BreakLen(s[n..])
    requires Concat(SplitLines(s[m..])) == Remove(s[m..], LineBreaks)
    ensures Concat(SplitLines(s)) == Remove(s, LineBreaks)
  {
    FirstLineSplitOff(s, n, m);
    FirstBoundaryRemoved(s, n, m);
  }

  lemma FirstLineSplitOff(s: string, n: nat, m: nat)
    requires s != [] && n == LineLen(s) && n < |s| && m == n + BreakLen(s[n..])
    ensures Concat(SplitLines(s)) == s[..n] + Concat(SplitLines(s[m..]))
  {
    assert SplitLines(s) == [s[..n]] + SplitLines(s[m..]);
    ConcatCons(s[..n], SplitLines(s[m..]));
  }

  /** Whether `line` holds no line boundary. */
  predicate NoBreaks(line: string) {
    forall k :: 0 <= k < |line| ==> !IsLineBreak(line[k])
  }

  /** A string without line boundaries is a single line. */
  lemma SplitLinesOfLine(s: string)
    requires s != [] && NoBreaks(s)
    ensures SplitLines(s) == [s]
  {
    assert LineLen(s) == |s|;
  }

  /** `sep` is one line boundary as `splitlines()` reads it when `rest`
      follows: "\r\n", or one boundary character that is not the "\r" of a
      "\r\n". */
  predicate Boundary(sep: string, rest: string) {
    || sep == "\r\n"
    || (|sep| == 1 && IsLineBreak(sep[0]) && !(sep[0] == '\r' && rest != [] && rest[0] == '\n'))
  }

  /** The first line of a text ends at its first boundary: the line before
      it, empty or not, is the first of the lines, and the text after the
      boundary is split on its own. */
  lemma SplitLinesAt(line: string, sep: string, rest: string)
    requires NoBreaks(line) && Boundary(sep, rest)
    ensures SplitLines(line + sep + rest) == [line] + SplitLines(rest)
  {
    var s := line + sep + rest;
    var n := |line|;
    LineLenOfLine(line, sep + rest);
    assert line + (sep + rest) == s;
    assert s[n..] == sep + rest && s[..n] == line;
    assert BreakLen(s[n..]) == |sep|;
    assert s[n + |sep|..] == rest;
  }

  lemma {:induction false} LineLenOfLine(line: string, t: string)
    requires NoBreaks(line)
    requires t == [] || IsLineBreak(t[0])
    ensures LineLen(line + t) == |line|
  {
    if line == [] {
      assert line + t == t;
    } else {
      assert (line + t)[1..] == line[1..] + t;
      LineLenOfLine(line[1..], t);
    }
  }

  /** No line that `SplitLines` returns contains a line boundary. */
  lemma {:induction false} SplitLinesHaveNoBreaks(s: string)
    ensures forall i :: 0 <= i < |SplitLines(s)| ==> NoBreaks(SplitLines(s)[i])
    decreases |s|
  {
    if s != [] {
      var n := LineLen(s);
      LineLenShape(s);
      assert NoBreaks(s[..n]);
      if n < |s| {
        var m := n + BreakLen(s[n..]);
        SplitLinesHaveNoBreaks(s[m..]);
        var ls, rest := SplitLines(s), SplitLines(s[m..]);
        assert ls == [s[..n]] + rest;
        forall i | 0 <= i < |ls| ensures NoBreaks(ls[i]) {
          if i > 0 {
            assert ls[i] == rest[i - 1];
          }
        }
      } else {
        assert s[..n] == s && SplitLines(s) == [s[..n]];
      }
    }
  }

  /** Removing the line boundaries of `s` keeps its first line whole and
      drops the boundary after it. */
  lemma FirstBoundaryRemoved(s: string, n: nat, m: nat)
    requires s != [] && n == LineLen(s) && n < |s| && m == n + BreakLen(s[n..])
    ensures Remove(s, LineBreaks) == s[..n] + Remove(s[m..], LineBreaks)
  {
    LineLenShape(s);
    BoundaryChars(s, n);
    LineThenBreaksRemoved(s, n, m);
  }

  /** The boundary after the first line is made of line-boundary
      characters. */
  lemma BoundaryChars(s: string, n: nat)
    requires n < |s| && IsLineBreak(s[n])
    ensures forall k :: n <= k < n + BreakLen(s[n..]) ==> IsLineBreak(s[k])
  {
    if BreakLen(s[n..]) == 2 {
      assert s[n + 1] == s[n..][1] == '\n';
    }
  }

  /** When `s` starts with `n` characters that are no boundary, followed by
      boundaries up to index `m`, removing the boundaries keeps those `n`
      characters and drops the rest up to `m`. */
  lemma {:induction false} LineThenBreaksRemoved(s: string, n: nat, m: nat)
    requires n <= m <= |s|
    requires forall k :: 0 <= k < n ==> !IsLineBreak(s[k])
    requires forall k :: n <= k < m ==> IsLineBreak(s[k])
    ensures Remove(s, LineBreaks) == s[..n] + Remove(s[m..], LineBreaks)
    decreases m
  {
    if m > 0 {
      LineThenBreaksRemoved(s[1..], if n > 0 then n - 1 else 0, m - 1);
      assert s[1..][m - 1..] == s[m..];
      if n > 0 {
        assert s[..n] == [s[0]] + s[1..][..n - 1];
      }
    }
  }

}
