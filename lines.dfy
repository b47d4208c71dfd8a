/** Turning one page of text into the list of display lines that
    `create_hindi_pdf_from_texts` draws: each source line is stripped; a blank
    one becomes one empty display line, any other is wrapped to at most
    80 characters. */
module Lines {
  import opened Text
  import opened TextWrap

  /** The character budget of a display line. */
  const MaxCharsPerLine: nat := 80

  /** The display lines one source line contributes. */
  function Entries(sourceLine: string): (es: seq<string>)
    ensures es != []
  {
    var paragraph := Strip(sourceLine);
    StripEnds(sourceLine);
    if paragraph == [] then [""]
    else
      WrapNonEmpty(paragraph, MaxCharsPerLine);
      Wrap(paragraph, MaxCharsPerLine)
  }

  /** The lines each source line gives under `f`, one after the other. */
  function FlatMap(sourceLines: seq<string>, f: string -> seq<string>): seq<string> {
    if sourceLines == [] then [] else f(sourceLines[0]) + FlatMap(sourceLines[1..], f)
  }

  /** The display lines of a sequence of source lines, in order. */
  function LinesOf(sourceLines: seq<string>): seq<string> {
    FlatMap(sourceLines, Entries)
  }

  /** The display lines of one page. */
  function PageLines(pageText: string): (ls: seq<string>)
    ensures ls == [] <==> pageText == []
  {
    var sourceLines := SplitLines(pageText);
    assert sourceLines != [] ==> LinesOf(sourceLines) == Entries(sourceLines[0]) + LinesOf(sourceLines[1..]);
    LinesOf(sourceLines)
  }

  /** Builds the `lines` list of one page by appending to it source line by
      source line. */
  method BuildLines(pageText: string) returns (lines: seq<string>)
    ensures lines == PageLines(pageText)
  {
    var sourceLines := SplitLines(pageText);
    lines := [];
    for i := 0 to |sourceLines|
      invariant lines == LinesOf(sourceLines[..i])
    {
      var paragraph := Strip(sourceLines[i]);
      if paragraph == [] {
        lines := lines + [""];
      } else {
        var wrapped := Wrap(paragraph, MaxCharsPerLine);
        lines := lines + wrapped;
      }
      LinesOfSnoc(sourceLines[..i], sourceLines[i]);
      assert sourceLines[..i + 1] == sourceLines[..i] + [sourceLines[i]];
    }
    assert sourceLines[..|sourceLines|] == sourceLines;
  }

  lemma {:induction false} FlatMapAppend(a: seq<string>, b: seq<string>, f: string -> seq<string>)
    ensures FlatMap(a + b, f) == FlatMap(a, f) + FlatMap(b, f)
  {
    if a == [] {
      assert a + b == b;
    } else {
      assert (a + b)[1..] == a[1..] + b;
      FlatMapAppend(a[1..], b, f);
    }
  }

  lemma LinesOfSnoc(a: seq<string>, x: string)
    ensures LinesOf(a + [x]) == LinesOf(a) + Entries(x)
  {
    FlatMapAppend(a, [x], Entries);
    assert FlatMap([x], Entries) == Entries(x) + FlatMap([], Entries);
  }

  // ---------------------------------------------------------------------
  // Properties of the display lines

  /** The number of empty strings in a list of lines. */
  function Blanks(ls: seq<string>): nat {
    if ls == [] then 0 else (if ls[0] == [] then 1 else 0) + Blanks(ls[1..])
  }

  /** The number of source lines that are blank after stripping. */
  function BlankSourceLines(sourceLines: seq<string>): nat {
    if sourceLines == [] then 0
    else (if Strip(sourceLines[0]) == [] then 1 else 0) + BlankSourceLines(sourceLines[1..])
  }

  lemma {:induction false} BlanksAppend(a: seq<string>, b: seq<string>)
    ensures Blanks(a + b) == Blanks(a) + Blanks(b)
  {
    if a == [] {
      assert a + b == b;
    } else {
      assert (a + b)[1..] == a[1..] + b;
      BlanksAppend(a[1..], b);
    }
  }

  lemma {:induction false} NoBlanks(ls: seq<string>)
    requires forall i :: 0 <= i < |ls| ==> ls[i] != []
    ensures Blanks(ls) == 0
  {
    if ls != [] {
      NoBlanks(ls[1..]);
    }
  }

  /** A blank source line contributes one empty display line; any other
      contributes at least one line, none of them empty, none longer than
      the budget. */
  lemma EntriesShape(sourceLine: string)
    ensures var es := Entries(sourceLine);
      && (Strip(sourceLine) == [] ==> es == [""])
      && (Strip(sourceLine) != [] ==> es != [] && WithinBudget(es) && forall i :: 0 <= i < |es| ==> es[i] != [])
  {
    var paragraph := Strip(sourceLine);
    if paragraph != [] {
      StripEnds(sourceLine);
      assert !IsWrapSpace(paragraph[0]);
      WrapNonEmpty(paragraph, MaxCharsPerLine);
      WrapBounded(paragraph, MaxCharsPerLine);
    }
  }

  /** Every blank source line gives exactly one empty display line, never
      merged with its neighbours, and no other source line gives an empty
      one. */
  lemma {:induction false} BlankLinesPreserved(sourceLines: seq<string>)
    ensures Blanks(LinesOf(sourceLines)) == BlankSourceLines(sourceLines)
  {
    if sourceLines != [] {
      var es := Entries(sourceLines[0]);
      EntriesShape(sourceLines[0]);
      BlanksAppend(es, LinesOf(sourceLines[1..]));
      if Strip(sourceLines[0]) != [] {
        NoBlanks(es);
      }
      BlankLinesPreserved(sourceLines[1..]);
    }
  }

  /** No line of `ls` is longer than the budget. */
  predicate WithinBudget(ls: seq<string>) {
    forall i :: 0 <= i < |ls| ==> |ls[i]| <= MaxCharsPerLine
  }

  lemma WithinBudgetAppend(a: seq<string>, b: seq<string>)
    requires WithinBudget(a) && WithinBudget(b)
    ensures WithinBudget(a + b)
  {
    forall i | 0 <= i < |a + b| ensures |(a + b)[i]| <= MaxCharsPerLine {
      if i >= |a| {
        assert (a + b)[i] == b[i - |a|];
      }
    }
  }

  /** Every display line fits the budget, and each source line gives at
      least one display line. */
  lemma {:induction false} LinesBounded(sourceLines: seq<string>)
    ensures WithinBudget(LinesOf(sourceLines))
    ensures |LinesOf(sourceLines)| >= |sourceLines|
  {
    if sourceLines != [] {
      var es := Entries(sourceLines[0]);
      var rest := LinesOf(sourceLines[1..]);
      EntriesShape(sourceLines[0]);
      assert es != [] && WithinBudget(es);
      LinesBounded(sourceLines[1..]);
      WithinBudgetAppend(es, rest);
      assert LinesOf(sourceLines) == es + rest;
    }
  }

  /** A page is its first source line, a boundary and the rest: its display
      lines are that line's entries (one empty line when it is blank), then
      those of the rest. */
  lemma PageLinesAt(line: string, sep: string, rest: string)
    requires NoBreaks(line) && Boundary(sep, rest)
    ensures PageLines(line + sep + rest) == Entries(line) + PageLines(rest)
    ensures Strip(line) == [] ==> PageLines(line + sep + rest) == [""] + PageLines(rest)
  {
    SplitLinesAt(line, sep, rest);
    FlatMapAppend([line], SplitLines(rest), Entries);
    assert FlatMap([line], Entries) == Entries(line) + FlatMap([], Entries);
  }

  /** Every non-whitespace character of a source line appears in its display
      lines, in order, and nothing else does. */
  lemma EntriesKeepText(sourceLine: string)
    ensures Remove(Concat(Entries(sourceLine)), Whitespace) == Remove(sourceLine, Whitespace)
  {
    var paragraph := Strip(sourceLine);
    StripKeepsText(sourceLine);
    if paragraph == [] {
      assert Concat([""]) == [];
      StripBlank(sourceLine);
      RemoveEverything(sourceLine, Whitespace);
    } else {
      WrapKeepsText(paragraph, MaxCharsPerLine);
      RemoveWithin(Concat(Wrap(paragraph, MaxCharsPerLine)), WrapWhitespace, Whitespace);
      RemoveWithin(paragraph, WrapWhitespace, Whitespace);
    }
  }

  lemma {:induction false} LinesOfKeepText(sourceLines: seq<string>)
    ensures Remove(Concat(LinesOf(sourceLines)), Whitespace) == Remove(Concat(sourceLines), Whitespace)
  {
    if sourceLines != [] {
      var head, rest := sourceLines[0], sourceLines[1..];
      ConcatAppend(Entries(head), LinesOf(rest));
      RemoveAppend(Concat(Entries(head)), Concat(LinesOf(rest)), Whitespace);
      EntriesKeepText(head);
      LinesOfKeepText(rest);
      RemoveAppend(head, Concat(rest), Whitespace);
    }
  }

  /** Every non-whitespace character of a page is on one of its display
      lines, in the order of the page. */
  lemma PageLinesKeepText(pageText: string)
    ensures Remove(Concat(PageLines(pageText)), Whitespace) == Remove(pageText, Whitespace)
  {
    LinesOfKeepText(SplitLines(pageText));
    SplitLinesKeepsText(pageText);
    RemoveWithin(pageText, LineBreaks, Whitespace);
  }

  /** A page with any text at all has at least one display line, and every
      display line fits the budget. */
  lemma PageLinesBounded(pageText: string)
    ensures pageText != [] ==> PageLines(pageText) != []
    ensures WithinBudget(PageLines(pageText))
  {
    LinesBounded(SplitLines(pageText));
  }

  /** A source line that is a single short word is one display line. */
  lemma EntriesOfWord(w: string)
    requires w != [] && |w| <= MaxCharsPerLine
    requires forall k :: 0 <= k < |w| ==> !IsSpace(w[k])
    ensures Entries(w) == [w]
  {
    TrimStartShape(w);
    TrimEndShape(w);
    assert Strip(w) == w;
    WordIsSpaced(w);
    FillOneLine([], [w], MaxCharsPerLine);
    assert JoinSp([w]) == w;
  }

  /** The page "Hello world" is one display line, as it stands. */
  lemma HelloWorldLines()
    ensures PageLines("Hello world") == ["Hello world"]
  {
    var s := "Hello world";
    SplitLinesOfLine(s);
    HelloWorldEntries();
    LinesOfSnoc([], s);
    assert [] + [s] == [s];
  }

  lemma HelloWorldEntries()
    ensures Entries("Hello world") == ["Hello world"]
  {
    HelloWorldStrip();
    HelloWorldWrap();
  }

  lemma HelloWorldStrip()
    ensures Strip("Hello world") == "Hello world"
  {
    var s := "Hello world";
    assert TrimStart(s) == s;
    assert TrimEnd(s) == s;
  }

  lemma HelloWorldWrap()
    ensures Wrap("Hello world", MaxCharsPerLine) == ["Hello world"]
  {
    var ws := ["Hello", "world"];
    assert JoinSp(ws) == "Hello world" by {
      assert ws[1..] == ["world"];
    }
    assert AllWords(ws);
    SplitJoin(ws);
    FillOneLine([], ws, MaxCharsPerLine);
  }

  /** The page "A\n\nB" gives "A", an empty line, and "B". */
  lemma BlankLineExample()
    ensures PageLines("A\n\nB") == ["A", "", "B"]
  {
    ThreeSourceLines();
    ThreeDisplayLines();
  }

  lemma ThreeSourceLines()
    ensures SplitLines("A\n\nB") == ["A", "", "B"]
  {
    FirstSourceLine();
    LastTwoSourceLines();
  }

  lemma FirstSourceLine()
    ensures SplitLines("A\n\nB") == ["A"] + SplitLines("\nB")
  {
    var s := "A\n\nB";
    assert LineLen(s) == 1 by { assert s[1..] == "\n\nB"; }
    assert s[1..] == "\n\nB" && BreakLen("\n\nB") == 1;
    assert s[2..] == "\nB" && s[..1] == "A";
  }

  lemma LastTwoSourceLines()
    ensures SplitLines("\nB") == ["", "B"]
  {
    var t := "\nB";
    assert LineLen(t) == 0 && BreakLen(t) == 1 && t[1..] == "B" && t[..0] == "";
    assert LineLen("B") == 1 by { assert "B"[1..] == []; }
  }

  lemma ThreeDisplayLines()
    ensures LinesOf(["A", "", "B"]) == ["A", "", "B"]
  {
    EntriesOfWord("A");
    EntriesOfWord("B");
    assert Entries("") == [""];
    assert LinesOf(["B"]) == ["B"];
    assert LinesOf(["", "B"]) == ["", "B"];
  }
}
