/** A model of the greedy paragraph filler of Python's `textwrap` as the page
    builder configures it (`width=80`, `break_long_words=True`): words are
    maximal runs of non-whitespace, a line takes words separated by single
    spaces while they fit, and a word longer than the whole width first fills
    what is left of the current line and then continues on the next ones. */
module TextWrap {
  import opened Text

  /** A word as `textwrap` sees it: at least one character, no whitespace. */
  predicate IsWord(w: string) {
    |w| > 0 && forall k :: 0 <= k < |w| ==> !IsWrapSpace(w[k])
  }

  predicate AllWords(ws: seq<string>) {
    forall i :: 0 <= i < |ws| ==> IsWord(ws[i])
  }

  /** No word is longer than a whole line, so none has to be broken. */
  predicate Fits(ws: seq<string>, width: nat) {
    forall i :: 0 <= i < |ws| ==> |ws[i]| <= width
  }

  /** The length of the word that starts `s`. */
  function WordLen(s: string): (n: nat)
    ensures n <= |s|
  {
    if s == [] || IsWrapSpace(s[0]) then 0 else 1 + WordLen(s[1..])
  }

  /** `WordLen` stops at the first whitespace character. */
  lemma {:induction false} WordLenShape(s: string)
    ensures var n := WordLen(s);
      && (forall k :: 0 <= k < n ==> !IsWrapSpace(s[k]))
      && (n < |s| ==> IsWrapSpace(s[n]))
  {
    if s != [] && !IsWrapSpace(s[0]) {
      WordLenShape(s[1..]);
    }
  }

  /** The words of a paragraph, in order. */
  function SplitWords(s: string): (ws: seq<string>)
    decreases |s|
  {
    if s == [] then []
    else if IsWrapSpace(s[0]) then SplitWords(s[1..])
    else
      var n := WordLen(s);
      [s[..n]] + SplitWords(s[n..])
  }

  /** Everything `SplitWords` returns is a word. */
  lemma {:induction false} SplitWordsAreWords(s: string)
    ensures AllWords(SplitWords(s))
    decreases |s|
  {
    if s != [] {
      if IsWrapSpace(s[0]) {
        SplitWordsAreWords(s[1..]);
      } else {
        var n := WordLen(s);
        WordLenShape(s);
        SplitWordsAreWords(s[n..]);
        var ws := SplitWords(s);
        assert ws == [s[..n]] + SplitWords(s[n..]);
        assert IsWord(s[..n]);
      }
    }
  }

  /** Words joined by single spaces. */
  function JoinSp(ws: seq<string>): string {
    if ws == [] then [] else if |ws| == 1 then ws[0] else ws[0] + " " + JoinSp(ws[1..])
  }

  /** A line made of words separated by single spaces, and nothing else. */
  predicate Spaced(line: string) {
    line != [] && line == JoinSp(SplitWords(line))
  }

  // ---------------------------------------------------------------------
  // Splitting into words and joining them back

  /** Splitting into words drops the whitespace and nothing else. */
  lemma {:induction false} SplitWordsKeepsText(s: string)
    ensures Concat(SplitWords(s)) == Remove(s, WrapWhitespace)
    decreases |s|
  {
    if s != [] {
      if IsWrapSpace(s[0]) {
        assert s == [s[0]] + s[1..];
        RemoveAppend([s[0]], s[1..], WrapWhitespace);
        SplitWordsKeepsText(s[1..]);
      } else {
        var n := WordLen(s);
        WordLenShape(s);
        assert s == s[..n] + s[n..];
        RemoveAppend(s[..n], s[n..], WrapWhitespace);
        RemoveNothing(s[..n], WrapWhitespace);
        SplitWordsKeepsText(s[n..]);
      }
    }
  }

  /** A word followed by whitespace (or by nothing) is split off whole. */
  lemma {:induction false} SplitWordsAfterWord(w: string, t: string)
    requires IsWord(w)
    requires t == [] || IsWrapSpace(t[0])
    ensures SplitWords(w + t) == [w] + SplitWords(t)
  {
    WordLenOfWord(w, t);
    assert (w + t)[..|w|] == w;
    assert (w + t)[|w|..] == t;
  }

  lemma {:induction false} WordLenOfWord(w: string, t: string)
    requires forall k :: 0 <= k < |w| ==> !IsWrapSpace(w[k])
    requires t == [] || IsWrapSpace(t[0])
    ensures WordLen(w + t) == |w|
    decreases |w|
  {
    if w == [] {
      assert w + t == t;
    } else {
      assert (w + t)[1..] == w[1..] + t;
      WordLenOfWord(w[1..], t);
    }
  }

  /** Joining words with single spaces and splitting again gives the words
      back. */
  lemma {:induction false} SplitJoin(ws: seq<string>)
    requires AllWords(ws)
    ensures SplitWords(JoinSp(ws)) == ws
  {
    if ws == [] {
    } else if |ws| == 1 {
      SplitWordsAfterWord(ws[0], []);
      assert ws[0] + [] == ws[0];
    } else {
      var tail := " " + JoinSp(ws[1..]);
      assert JoinSp(ws) == ws[0] + tail;
      SplitWordsAfterWord(ws[0], tail);
      assert tail[1..] == JoinSp(ws[1..]);
      SplitJoin(ws[1..]);
    }
  }

  lemma {:induction false} JoinSpSnoc(ws: seq<string>, w: string)
    requires ws != []
    ensures JoinSp(ws + [w]) == JoinSp(ws) + " " + w
  {
    if |ws| == 1 {
      assert (ws + [w])[1..] == [w];
    } else {
      assert (ws + [w])[1..] == ws[1..] + [w];
      JoinSpSnoc(ws[1..], w);
    }
  }

  /** A single word is a spaced line. */
  lemma WordIsSpaced(w: string)
    requires IsWord(w)
    ensures Spaced(w) && SplitWords(w) == [w]
  {
    SplitJoin([w]);
  }

  /** Appending a space and a word to a spaced line keeps it spaced, with
      the word as its new last word. */
  lemma SpacedSnoc(line: string, w: string)
    requires Spaced(line) && IsWord(w)
    ensures Spaced(line + " " + w)
    ensures SplitWords(line + " " + w) == SplitWords(line) + [w]
  {
    var ws := SplitWords(line);
    assert ws != [];
    JoinSpSnoc(ws, w);
    SplitWordsAreWords(line);
    SplitJoin(ws + [w]);
  }

  // ---------------------------------------------------------------------
  // The greedy filler

  /** Fills lines of at most `width` characters, `cur` being the line under
      construction. */
  function Fill(cur: string, words: seq<string>, width: nat): (lines: seq<string>)
    requires 1 <= width && |cur| <= width && AllWords(words)
    ensures lines == [] <==> cur == [] && words == []
    decreases |Concat(words)|, |cur|
  {
    if words == [] then
      (if cur == [] then [] else [cur])
    else
      var w := words[0];
      assert Concat(words) == w + Concat(words[1..]);
      if cur == [] then
        if |w| <= width then
          Fill(w, words[1..], width)
        else
          assert Concat([w[width..]] + words[1..]) == w[width..] + Concat(words[1..]);
          [w[..width]] + Fill([], [w[width..]] + words[1..], width)
      else if |cur| + 1 + |w| <= width then
        Fill(cur + " " + w, words[1..], width)
      else if |w| <= width || |cur| + 1 > width then
        [cur] + Fill([], words, width)
      else
        var room := width - |cur| - 1;
        assert Concat([w[room..]] + words[1..]) == w[room..] + Concat(words[1..]);
        [cur + " " + w[..room]] + Fill([], [w[room..]] + words[1..], width)
  }

  /** `textwrap.TextWrapper(width=width, break_long_words=True).wrap(paragraph)`. */
  function Wrap(paragraph: string, width: nat): (lines: seq<string>)
    requires 1 <= width
    ensures lines == [] <==> SplitWords(paragraph) == []
  {
    SplitWordsAreWords(paragraph);
    Fill([], SplitWords(paragraph), width)
  }

  /** No line is empty and none is longer than `width`. */
  predicate Bounded(lines: seq<string>, width: nat) {
    forall i :: 0 <= i < |lines| ==> 0 < |lines[i]| <= width
  }

  lemma {:induction false} FillBounded(cur: string, words: seq<string>, width: nat)
    requires 1 <= width && |cur| <= width && AllWords(words)
    ensures Bounded(Fill(cur, words, width), width)
    decreases |Concat(words)|, |cur|
  {
    var lines := Fill(cur, words, width);
    if words != [] {
      var w, rest := words[0], words[1..];
      assert Concat(words) == w + Concat(rest);
      if cur == [] {
        if |w| <= width {
          FillBounded(w, rest, width);
        } else {
          var tail := [w[width..]] + rest;
          assert Concat(tail) == w[width..] + Concat(rest);
          FillBounded([], tail, width);
          assert lines == [w[..width]] + Fill([], tail, width);
          BoundedCons(w[..width], Fill([], tail, width), width);
        }
      } else if |cur| + 1 + |w| <= width {
        FillBounded(cur + " " + w, rest, width);
      } else if |w| <= width || |cur| + 1 > width {
        FillBounded([], words, width);
        assert lines == [cur] + Fill([], words, width);
        BoundedCons(cur, Fill([], words, width), width);
      } else {
        var room := width - |cur| - 1;
        var tail := [w[room..]] + rest;
        assert Concat(tail) == w[room..] + Concat(rest);
        FillBounded([], tail, width);
        assert lines == [cur + " " + w[..room]] + Fill([], tail, width);
        BoundedCons(cur + " " + w[..room], Fill([], tail, width), width);
      }
    }
  }

  lemma BoundedCons(line: string, more: seq<string>, width: nat)
    requires 0 < |line| <= width && Bounded(more, width)
    ensures Bounded([line] + more, width)
  {
    assert forall i :: 1 <= i < |[line] + more| ==> ([line] + more)[i] == more[i - 1];
  }

  /** Every wrapped line holds between 1 and `width` characters. */
  lemma WrapBounded(paragraph: string, width: nat)
    requires 1 <= width
    ensures Bounded(Wrap(paragraph, width), width)
  {
    SplitWordsAreWords(paragraph);
    FillBounded([], SplitWords(paragraph), width);
  }

  // ---------------------------------------------------------------------
  // What the filler keeps

  /** No character other than whitespace is lost, and the order is kept. */
  lemma {:induction false} FillKeepsText(cur: string, words: seq<string>, width: nat)
    requires 1 <= width && |cur| <= width && AllWords(words)
    ensures Remove(Concat(Fill(cur, words, width)), WrapWhitespace)
         == Remove(cur, WrapWhitespace) + Concat(words)
    decreases |Concat(words)|, |cur|, 1
  {
    if words == [] {
      LastLineKept(cur, width);
    } else {
      var w, rest := words[0], words[1..];
      assert Concat(words) == w + Concat(rest);
      if cur == [] && |w| <= width {
        FillKeepsText(w, rest, width);
        FirstWordKept(words, width);
      } else if cur != [] && |cur| + 1 + |w| <= width {
        FillKeepsText(cur + " " + w, rest, width);
        WordAppendedKept(cur, words, width);
      } else if cur != [] && (|w| <= width || |cur| + 1 > width) {
        FillKeepsText([], words, width);
        LineBrokenKept(cur, words, width);
      } else {
        LongWordKeepsText(cur, words, width);
      }
    }
  }

  lemma LastLineKept(cur: string, width: nat)
    requires 1 <= width && |cur| <= width
    ensures Remove(Concat(Fill(cur, [], width)), WrapWhitespace) == Remove(cur, WrapWhitespace) + Concat([])
  {
    assert Concat([]) == [];
    if cur != [] {
      assert Fill(cur, [], width) == [cur];
      assert Concat([cur]) == cur + Concat([]) == cur;
    } else {
      assert Fill(cur, [], width) == [];
    }
  }

  lemma FirstWordKept(words: seq<string>, width: nat)
    requires 1 <= width && AllWords(words) && words != [] && |words[0]| <= width
    requires Remove(Concat(Fill(words[0], words[1..], width)), WrapWhitespace)
          == Remove(words[0], WrapWhitespace) + Concat(words[1..])
    ensures Remove(Concat(Fill([], words, width)), WrapWhitespace) == Remove([], WrapWhitespace) + Concat(words)
  {
    assert IsWord(words[0]);
    RemoveNothing(words[0], WrapWhitespace);
    assert Concat(words) == words[0] + Concat(words[1..]);
    assert Fill([], words, width) == Fill(words[0], words[1..], width);
  }

  lemma WordAppendedKept(cur: string, words: seq<string>, width: nat)
    requires 1 <= width && |cur| <= width && AllWords(words) && words != [] && cur != []
    requires |cur| + 1 + |words[0]| <= width
    requires Remove(Concat(Fill(cur + " " + words[0], words[1..], width)), WrapWhitespace)
          == Remove(cur + " " + words[0], WrapWhitespace) + Concat(words[1..])
    ensures Remove(Concat(Fill(cur, words, width)), WrapWhitespace) == Remove(cur, WrapWhitespace) + Concat(words)
  {
    assert IsWord(words[0]);
    SpaceDropped(cur, words[0]);
    assert Concat(words) == words[0] + Concat(words[1..]);
    assert Fill(cur, words, width) == Fill(cur + " " + words[0], words[1..], width);
  }

  lemma LineBrokenKept(cur: string, words: seq<string>, width: nat)
    requires 1 <= width && |cur| <= width && AllWords(words) && words != [] && cur != []
    requires |cur| + 1 + |words[0]| > width && (|words[0]| <= width || |cur| + 1 > width)
    requires Remove(Concat(Fill([], words, width)), WrapWhitespace) == Remove([], WrapWhitespace) + Concat(words)
    ensures Remove(Concat(Fill(cur, words, width)), WrapWhitespace) == Remove(cur, WrapWhitespace) + Concat(words)
  {
    var more := Fill([], words, width);
    assert Fill(cur, words, width) == [cur] + more;
    ConsKept(cur, more);
  }

  /** A word longer than a line: its first piece ends the current line (or
      fills a line of its own) and the rest of it is carried over. */
  lemma {:induction false} LongWordKeepsText(cur: string, words: seq<string>, width: nat)
    requires 1 <= width && |cur| <= width && AllWords(words)
    requires words != [] && width < |words[0]|
    requires cur != [] ==> |cur| + 1 <= width
    ensures Remove(Concat(Fill(cur, words, width)), WrapWhitespace)
         == Remove(cur, WrapWhitespace) + Concat(words)
    decreases |Concat(words)|, |cur|, 0
  {
    var w, rest := words[0], words[1..];
    var room := if cur == [] then width else width - |cur| - 1;
    var tail := [w[room..]] + rest;
    assert Concat(tail) == w[room..] + Concat(rest);
    assert Concat(words) == w + Concat(rest);
    FillKeepsText([], tail, width);
    if cur == [] {
      LongWordOpensLine(words, width);
    } else {
      LongWordEndsLine(cur, words, width);
    }
  }

  /** Where a word longer than a line starts: its first `width` characters
      make a line of their own, or, after a space, it completes the current
      line. Either way that line is exactly `width` long. */
  lemma LongWordFirstLine(cur: string, words: seq<string>, width: nat)
    requires 1 <= width && |cur| <= width && AllWords(words)
    requires words != [] && width < |words[0]|
    ensures var lines := Fill(cur, words, width);
      && lines != []
      && (cur != [] && |cur| == width ==> lines[0] == cur)
      && (cur == [] ==> lines[0] == words[0][..width])
      && (cur != [] && |cur| < width ==> lines[0] == cur + " " + words[0][..width - |cur| - 1])
      && |lines[0]| == width
  {
    var w := words[0];
    assert Concat(words) == w + Concat(words[1..]);
    if cur != [] && |cur| == width {
      assert Fill(cur, words, width) == [cur] + Fill([], words, width);
    }
  }

  lemma LongWordOpensLine(words: seq<string>, width: nat)
    requires 1 <= width && AllWords(words)
    requires words != [] && width < |words[0]|
    requires Remove(Concat(Fill([], [words[0][width..]] + words[1..], width)), WrapWhitespace)
          == Concat([words[0][width..]] + words[1..])
    ensures Remove(Concat(Fill([], words, width)), WrapWhitespace) == Concat(words)
  {
    var w, rest := words[0], words[1..];
    var tail := [w[width..]] + rest;
    var more := Fill([], tail, width);
    assert Fill([], words, width) == [w[..width]] + more;
    ConsKept(w[..width], more);
    RemoveNothing(w[..width], WrapWhitespace);
    assert Concat(tail) == w[width..] + Concat(rest);
    assert Concat(words) == w + Concat(rest);
    calc {
      Remove(Concat(Fill([], words, width)), WrapWhitespace);
      w[..width] + (w[width..] + Concat(rest));
      { Reassemble([], w, width, Concat(rest)); assert [] + w[..width] == w[..width]; }
      w + Concat(rest);
    }
  }

  lemma LongWordEndsLine(cur: string, words: seq<string>, width: nat)
    requires 1 <= width && AllWords(words)
    requires words != [] && width < |words[0]| && cur != [] && |cur| + 1 <= width
    requires Remove(Concat(Fill([], [words[0][width - |cur| - 1..]] + words[1..], width)), WrapWhitespace)
          == Concat([words[0][width - |cur| - 1..]] + words[1..])
    ensures Remove(Concat(Fill(cur, words, width)), WrapWhitespace)
         == Remove(cur, WrapWhitespace) + Concat(words)
  {
    var w, rest := words[0], words[1..];
    var room := width - |cur| - 1;
    var first := cur + " " + w[..room];
    var tail := [w[room..]] + rest;
    var more := Fill([], tail, width);
    assert Fill(cur, words, width) == [first] + more;
    ConsKept(first, more);
    SpaceDropped(cur, w[..room]);
    assert Concat(tail) == w[room..] + Concat(rest);
    assert Concat(words) == w + Concat(rest);
    Reassemble(Remove(cur, WrapWhitespace), w, room, Concat(rest));
  }

  lemma Reassemble(before: string, w: string, k: nat, after: string)
    requires k <= |w|
    ensures (before + w[..k]) + (w[k..] + after) == before + (w + after)
  {
    assert w[..k] + w[k..] == w;
  }

  /** The text of a line followed by more lines. */
  lemma ConsKept(line: string, more: seq<string>)
    ensures Remove(Concat([line] + more), WrapWhitespace)
         == Remove(line, WrapWhitespace) + Remove(Concat(more), WrapWhitespace)
  {
    assert Concat([line] + more) == line + Concat(more);
    RemoveAppend(line, Concat(more), WrapWhitespace);
  }

  lemma SpaceDropped(cur: string, w: string)
    requires forall k :: 0 <= k < |w| ==> !IsWrapSpace(w[k])
    ensures Remove(cur + " " + w, WrapWhitespace) == Remove(cur, WrapWhitespace) + w
  {
    var space: string := " ";
    assert IsWrapSpace(space[0]);
    RemoveEverything(space, WrapWhitespace);
    RemoveAppend(cur + space, w, WrapWhitespace);
    RemoveAppend(cur, space, WrapWhitespace);
    RemoveNothing(w, WrapWhitespace);
  }

  // ---------------------------------------------------------------------
  // Words kept whole, greedy lines, and re-wrapping

  /** What is still to be laid out: the line under construction, then the
      words not yet placed. */
  function Pending(cur: string, words: seq<string>): seq<string> {
    if cur == [] then words else [cur] + words
  }

  lemma JoinSpCons(x: string, more: seq<string>)
    requires more != []
    ensures JoinSp([x] + more) == x + " " + JoinSp(more)
  {
    assert ([x] + more)[1..] == more;
  }

  lemma JoinSpMerge(a: string, b: string, more: seq<string>)
    ensures JoinSp([a + " " + b] + more) == JoinSp([a, b] + more)
  {
    if more == [] {
      assert [a, b][1..] == [b];
    } else {
      JoinSpCons(a + " " + b, more);
      JoinSpCons(b, more);
      assert [a, b] + more == [a] + ([b] + more);
      JoinSpCons(a, [b] + more);
    }
  }

  lemma JoinSpFirst(ws: seq<string>)
    requires ws != []
    ensures |JoinSp(ws)| >= |ws[0]|
  {
  }

  /** When no word is longer than a line, every word ends up whole on some
      line, in order: each break between two lines stands where exactly one
      space stood. */
  lemma {:induction false} FillKeepsWords(cur: string, words: seq<string>, width: nat)
    requires 1 <= width && |cur| <= width && AllWords(words) && Fits(words, width)
    ensures JoinSp(Fill(cur, words, width)) == JoinSp(Pending(cur, words))
    decreases |Concat(words)|, |cur|
  {
    if words != [] {
      var w, rest := words[0], words[1..];
      assert Concat(words) == w + Concat(rest);
      assert words == [w] + rest;
      if cur == [] {
        FillKeepsWords(w, rest, width);
      } else if |cur| + 1 + |w| <= width {
        FillKeepsWords(cur + " " + w, rest, width);
        JoinSpMerge(cur, w, rest);
        assert [cur, w] + rest == [cur] + words;
      } else {
        var more := Fill([], words, width);
        FillKeepsWords([], words, width);
        assert Fill(cur, words, width) == [cur] + more;
        JoinSpCons(cur, more);
        JoinSpCons(cur, words);
      }
    }
  }

  /** The first word of a spaced line. */
  function FirstWord(line: string): (w: string)
    requires Spaced(line)
    ensures IsWord(w)
  {
    assert SplitWords(line) != [];
    SplitWordsAreWords(line);
    SplitWords(line)[0]
  }

  /** When no word is longer than a line, every line is made of whole words
      separated by single spaces, and the filling is greedy: the first word
      of each line would not have fitted, after a space, on the line before. */
  lemma {:induction false} FillGreedy(cur: string, words: seq<string>, width: nat)
    requires 1 <= width && |cur| <= width && AllWords(words) && Fits(words, width)
    requires cur == [] || Spaced(cur)
    ensures var lines := Fill(cur, words, width);
      && (forall i :: 0 <= i < |lines| ==> Spaced(lines[i]))
      && (lines != [] ==> FirstWord(lines[0]) == (if cur == [] then words[0] else FirstWord(cur)))
      && (forall i :: 0 <= i < |lines| - 1 ==> |lines[i]| + 1 + |FirstWord(lines[i + 1])| > width)
    decreases |Concat(words)|, |cur|
  {
    if words != [] {
      var w, rest := words[0], words[1..];
      assert Concat(words) == w + Concat(rest);
      if cur == [] {
        WordIsSpaced(w);
        FillGreedy(w, rest, width);
      } else if |cur| + 1 + |w| <= width {
        SpacedSnoc(cur, w);
        FillGreedy(cur + " " + w, rest, width);
      } else {
        var more := Fill([], words, width);
        FillGreedy([], words, width);
        assert Fill(cur, words, width) == [cur] + more;
      }
    }
  }

  /** Words that fit on one line together are put on that one line. */
  lemma {:induction false} FillOneLine(cur: string, words: seq<string>, width: nat)
    requires 1 <= width && |cur| <= width && AllWords(words)
    requires Pending(cur, words) != [] && |JoinSp(Pending(cur, words))| <= width
    ensures Fill(cur, words, width) == [JoinSp(Pending(cur, words))]
    decreases |words|
  {
    if words != [] {
      var w, rest := words[0], words[1..];
      assert words == [w] + rest;
      JoinSpFirst(words);
      if cur == [] {
        FillOneLine(w, rest, width);
      } else {
        JoinSpCons(cur, words);
        JoinSpMerge(cur, w, rest);
        assert [cur, w] + rest == [cur] + words;
        FillOneLine(cur + " " + w, rest, width);
      }
    }
  }

  /** The line ends with a space. */
  predicate EndsInSpace(line: string) {
    line != [] && line[|line| - 1] == ' '
  }

  /** A line of words separated by single spaces, possibly followed by one
      more space. */
  predicate SpacedOrTrailing(line: string) {
    || Spaced(line)
    || (EndsInSpace(line) && Spaced(line[..|line| - 1]))
  }

  predicate AllShaped(lines: seq<string>) {
    forall i :: 0 <= i < |lines| ==> SpacedOrTrailing(lines[i])
  }

  lemma ShapedCons(line: string, more: seq<string>)
    requires SpacedOrTrailing(line) && AllShaped(more)
    ensures AllShaped([line] + more)
  {
    assert forall i :: 1 <= i < |[line] + more| ==> ([line] + more)[i] == more[i - 1];
  }

  /** Both pieces of a word cut in two are words. */
  lemma WordPieces(w: string, k: nat)
    requires IsWord(w) && 0 < k < |w|
    ensures IsWord(w[..k]) && IsWord(w[k..])
  {
    assert forall j :: 0 <= j < |w[k..]| ==> w[k..][j] == w[k + j];
  }

  /** For any words, each line is words (or pieces of a broken word)
      separated by single spaces; a line also ends with one space exactly
      when a word too long for a line follows a line of `width - 1`
      characters, as in `textwrap` when no room is left for its first piece. */
  lemma {:induction false} FillShape(cur: string, words: seq<string>, width: nat)
    requires 1 <= width && |cur| <= width && AllWords(words)
    requires cur == [] || Spaced(cur)
    ensures AllShaped(Fill(cur, words, width))
    decreases |Concat(words)|, |cur|
  {
    if words == [] {
      if cur != [] {
        assert Fill(cur, words, width) == [cur];
      }
    } else {
      var w, rest := words[0], words[1..];
      assert IsWord(w);
      assert Concat(words) == w + Concat(rest);
      if cur == [] {
        if |w| <= width {
          WordIsSpaced(w);
          FillShape(w, rest, width);
        } else {
          var tail := [w[width..]] + rest;
          WordPieces(w, width);
          WordIsSpaced(w[..width]);
          assert Concat(tail) == w[width..] + Concat(rest);
          assert forall i :: 1 <= i < |tail| ==> tail[i] == words[i];
          FillShape([], tail, width);
          ShapedCons(w[..width], Fill([], tail, width));
        }
      } else if |cur| + 1 + |w| <= width {
        SpacedSnoc(cur, w);
        FillShape(cur + " " + w, rest, width);
      } else if |w| <= width || |cur| + 1 > width {
        FillShape([], words, width);
        ShapedCons(cur, Fill([], words, width));
      } else {
        var room := width - |cur| - 1;
        var tail := [w[room..]] + rest;
        var line := cur + " " + w[..room];
        if room == 0 {
          assert line == cur + " " && line[..|line| - 1] == cur;
          assert w[room..] == w;
        } else {
          WordPieces(w, room);
          SpacedSnoc(cur, w[..room]);
        }
        assert Concat(tail) == w[room..] + Concat(rest);
        assert forall i :: 1 <= i < |tail| ==> tail[i] == words[i];
        FillShape([], tail, width);
        ShapedCons(line, Fill([], tail, width));
      }
    }
  }

  /** Words joined by single spaces end with a character of the last word. */
  lemma {:induction false} JoinSpLast(ws: seq<string>)
    requires AllWords(ws) && ws != []
    ensures JoinSp(ws) != [] && !IsWrapSpace(JoinSp(ws)[|JoinSp(ws)| - 1])
  {
    assert IsWord(ws[0]);
    if |ws| > 1 {
      var t := JoinSp(ws[1..]);
      JoinSpLast(ws[1..]);
      assert JoinSp(ws) == ws[0] + " " + t;
      assert JoinSp(ws)[|JoinSp(ws)| - 1] == t[|t| - 1];
    }
  }

  /** A space after the last word adds no word. */
  lemma {:induction false} SplitWordsTrailingSpace(ws: seq<string>)
    requires AllWords(ws)
    ensures SplitWords(JoinSp(ws) + " ") == ws
  {
    if ws == [] {
      assert JoinSp(ws) + " " == " " && " "[1..] == [];
    } else if |ws| == 1 {
      assert IsWord(ws[0]);
      SplitWordsAfterWord(ws[0], " ");
      assert " "[1..] == [];
    } else {
      var tail := " " + JoinSp(ws[1..]) + " ";
      assert IsWord(ws[0]);
      assert JoinSp(ws) + " " == ws[0] + tail;
      SplitWordsAfterWord(ws[0], tail);
      assert tail[1..] == JoinSp(ws[1..]) + " ";
      SplitWordsTrailingSpace(ws[1..]);
    }
  }

  /** The line without the one space it may end with. */
  function WithoutTrailingSpace(line: string): (r: string)
    ensures |r| <= |line|
  {
    if EndsInSpace(line) then line[..|line| - 1] else line
  }

  /** A line the filler can produce, wrapped again at the same width, comes
      back as it is, save for the space it may end with. */
  lemma RewrapLine(line: string, width: nat)
    requires 1 <= width && |line| <= width && SpacedOrTrailing(line)
    ensures Wrap(line, width) == [WithoutTrailingSpace(line)]
  {
    if Spaced(line) {
      SplitWordsAreWords(line);
      JoinSpLast(SplitWords(line));
      FillOneLine([], SplitWords(line), width);
    } else {
      var x := line[..|line| - 1];
      var ws := SplitWords(x);
      assert line == x + " ";
      SplitWordsAreWords(x);
      SplitWordsTrailingSpace(ws);
      FillOneLine([], ws, width);
    }
  }

  // ---------------------------------------------------------------------
  // The same facts for a whole paragraph

  /** Wrapping a paragraph drops whitespace and nothing else, in order. */
  lemma WrapKeepsText(paragraph: string, width: nat)
    requires 1 <= width
    ensures Remove(Concat(Wrap(paragraph, width)), WrapWhitespace) == Remove(paragraph, WrapWhitespace)
  {
    SplitWordsAreWords(paragraph);
    FillKeepsText([], SplitWords(paragraph), width);
    SplitWordsKeepsText(paragraph);
  }

  /** A paragraph with some non-whitespace character wraps to at least one
      line. */
  lemma WrapNonEmpty(paragraph: string, width: nat)
    requires 1 <= width
    requires paragraph != [] && !IsWrapSpace(paragraph[0])
    ensures Wrap(paragraph, width) != []
  {
  }

  /** When no word is longer than a line, joining the wrapped lines with
      single spaces gives the paragraph's words joined with single spaces. */
  lemma WrapKeepsWords(paragraph: string, width: nat)
    requires 1 <= width && Fits(SplitWords(paragraph), width)
    ensures JoinSp(Wrap(paragraph, width)) == JoinSp(SplitWords(paragraph))
  {
    SplitWordsAreWords(paragraph);
    FillKeepsWords([], SplitWords(paragraph), width);
  }

  /** Re-wrapping a line produced by the wrapper, at the same width, gives
      that line back, without the space it ends with in the one case where
      `textwrap` leaves one. */
  lemma WrapIdempotent(paragraph: string, width: nat)
    requires 1 <= width
    ensures forall i :: 0 <= i < |Wrap(paragraph, width)| ==>
      Wrap(Wrap(paragraph, width)[i], width) == [WithoutTrailingSpace(Wrap(paragraph, width)[i])]
  {
    var lines := Wrap(paragraph, width);
    WrapBounded(paragraph, width);
    SplitWordsAreWords(paragraph);
    FillShape([], SplitWords(paragraph), width);
    forall i | 0 <= i < |lines|
      ensures Wrap(lines[i], width) == [WithoutTrailingSpace(lines[i])]
    {
      RewrapLine(lines[i], width);
    }
  }

  /** When no word is longer than a line, no line ends with a space, so
      re-wrapping any line gives it back unchanged. */
  lemma WrapIdempotentWhenFits(paragraph: string, width: nat)
    requires 1 <= width && Fits(SplitWords(paragraph), width)
    ensures forall i :: 0 <= i < |Wrap(paragraph, width)| ==>
      Wrap(Wrap(paragraph, width)[i], width) == [Wrap(paragraph, width)[i]]
  {
    var lines := Wrap(paragraph, width);
    WrapIdempotent(paragraph, width);
    SplitWordsAreWords(paragraph);
    FillGreedy([], SplitWords(paragraph), width);
    forall i | 0 <= i < |lines|
      ensures !EndsInSpace(lines[i])
    {
      SplitWordsAreWords(lines[i]);
      JoinSpLast(SplitWords(lines[i]));
    }
  }
}
