/** The page layout of `create_hindi_pdf_from_texts`: which font is used,
    where each display line is drawn, when a new page is started, and the
    document that comes out of a list of page texts. `Paginate` and
    `Compose` say what the drawing loops produce; `DrawPage` and `CreatePdf`
    are those loops, run against the recording canvas. */
module Layout {
  import opened Text
  import opened Lines
  import opened Pdf

  const FontSize := 12
  /** The distance between two baselines: the font size plus 6 points. */
  const LineHeight := FontSize + 6
  /** The x coordinate of every line. */
  const LeftMargin := 40
  /** The first baseline of a page lies this far below its top edge. */
  const TopMargin := 60
  /** A line whose baseline would fall below this goes to a new page. */
  const BottomMargin := 60

  const DevanagariFont := "Deva"
  const FallbackFont := "Helvetica"

  /** The Devanagari font when it has been registered, Helvetica otherwise. */
  function ChooseFont(registered: set<string>): (name: string)
    ensures name == DevanagariFont <==> DevanagariFont in registered
    ensures name == DevanagariFont || name == FallbackFont
  {
    if DevanagariFont in registered then DevanagariFont else FallbackFont
  }

  /** The baseline of line `j` (from 0) of a page. */
  function LineY(height: int, j: int): int {
    height - TopMargin - LineHeight * j
  }

  /** How many lines fit on one page: the last of them is still on or above
      the bottom margin, one more would not be. */
  function LinesPerPage(height: int): (k: nat)
    requires height >= TopMargin + BottomMargin
    ensures k >= 1
    ensures LineY(height, k - 1) >= BottomMargin
    ensures LineY(height, k) < BottomMargin
  {
    (height - TopMargin - BottomMargin) / LineHeight + 1
  }

  /** One page holding `ls` from the top, one line per baseline. */
  function Placed(ls: seq<string>, height: int, font: Font): (page: Page)
    ensures |page| == |ls|
  {
    seq(|ls|, j requires 0 <= j < |ls| => Draw(LeftMargin, LineY(height, j), ls[j], font))
  }

  /** The pages the drawing loop fills with the display lines `ls`: full
      pages of `LinesPerPage` lines, then the rest. No lines at all still
      give one (empty) page. */
  function Paginate(ls: seq<string>, height: int, font: Font): (pages: seq<Page>)
    requires height >= TopMargin + BottomMargin
    ensures pages != []
    decreases |ls|
  {
    var k := LinesPerPage(height);
    if |ls| <= k then [Placed(ls, height, font)]
    else [Placed(ls[..k], height, font)] + Paginate(ls[k..], height, font)
  }

  /** The pages one page text becomes: an empty text gives one blank page,
      any other its display lines, paginated. */
  function PageBlock(text: string, height: int, font: Font): (pages: seq<Page>)
    requires height >= TopMargin + BottomMargin
    ensures pages != []
  {
    if text == [] then [[]] else Paginate(PageLines(text), height, font)
  }

  /** The pages of each page text, one block per text. */
  function Blocks(texts: seq<string>, height: int, font: Font): (blocks: seq<seq<Page>>)
    requires height >= TopMargin + BottomMargin
    ensures |blocks| == |texts|
  {
    seq(|texts|, i requires 0 <= i < |texts| => PageBlock(texts[i], height, font))
  }

  /** Blocks of pages, one after the other. */
  function Flatten(blocks: seq<seq<Page>>): seq<Page> {
    if blocks == [] then [] else Flatten(blocks[..|blocks| - 1]) + blocks[|blocks| - 1]
  }

  /** The document made of a list of page texts, in order. */
  function Compose(texts: seq<string>, height: int, font: Font): (doc: seq<Page>)
    requires height >= TopMargin + BottomMargin
    ensures doc == [] <==> texts == []
  {
    var blocks := Blocks(texts, height, font);
    assert blocks != [] ==> blocks[|blocks| - 1] != [];
    Flatten(blocks)
  }

  /** The strings drawn on a page, top to bottom. */
  function TextsOf(page: Page): (ts: seq<string>)
    ensures |ts| == |page|
  {
    seq(|page|, j requires 0 <= j < |page| => page[j].text)
  }

  /** The strings drawn on a sequence of pages, page by page. */
  function AllTexts(pages: seq<Page>): seq<string> {
    if pages == [] then [] else TextsOf(pages[0]) + AllTexts(pages[1..])
  }

  /** Every draw on `pages` is at the left margin, in `font`, between the
      margins, and the `j`-th draw of a page is on the `j`-th baseline, so
      that two consecutive draws are `LineHeight` apart; no page holds more
      than fits. */
  predicate WellPlaced(pages: seq<Page>, height: int, font: Font)
    requires height >= TopMargin + BottomMargin
  {
    forall p :: 0 <= p < |pages| ==>
      && |pages[p]| <= LinesPerPage(height)
      && forall j :: 0 <= j < |pages[p]| ==>
           && pages[p][j].x == LeftMargin
           && pages[p][j].y == LineY(height, j)
           && BottomMargin <= pages[p][j].y <= height - TopMargin
           && pages[p][j].font == font
  }

  // ---------------------------------------------------------------------
  // Pagination

  /** Adding one line either extends the last page, at the next baseline,
      or, when the last page is full, opens a new page at the top. */
  lemma {:induction false} PaginateSnoc(ls: seq<string>, x: string, height: int, font: Font)
    requires height >= TopMargin + BottomMargin
    ensures var ps := Paginate(ls, height, font);
      var last := ps[|ps| - 1];
      && |last| <= LinesPerPage(height)
      && (|last| < LinesPerPage(height) ==>
            Paginate(ls + [x], height, font)
            == ps[..|ps| - 1] + [last + [Draw(LeftMargin, LineY(height, |last|), x, font)]])
      && (|last| == LinesPerPage(height) ==>
            Paginate(ls + [x], height, font)
            == ps + [[Draw(LeftMargin, LineY(height, 0), x, font)]])
    decreases |ls|
  {
    var k := LinesPerPage(height);
    var ps := Paginate(ls, height, font);
    if |ls| < k {
      assert ps == [Placed(ls, height, font)];
      assert Placed(ls + [x], height, font)
        == Placed(ls, height, font) + [Draw(LeftMargin, LineY(height, |ls|), x, font)];
    } else if |ls| == k {
      assert ps == [Placed(ls, height, font)];
      assert (ls + [x])[..k] == ls && (ls + [x])[k..] == [x];
      assert Placed([x], height, font) == [Draw(LeftMargin, LineY(height, 0), x, font)];
    } else {
      var rest := ls[k..];
      assert ps == [Placed(ls[..k], height, font)] + Paginate(rest, height, font);
      assert (ls + [x])[..k] == ls[..k] && (ls + [x])[k..] == rest + [x];
      PaginateSnoc(rest, x, height, font);
      var qs := Paginate(rest, height, font);
      assert ps[..|ps| - 1] == [Placed(ls[..k], height, font)] + qs[..|qs| - 1];
    }
  }

  /** Line `p * K + j` of the input is line `j` of page `p`, where `K` lines
      fit on a page. */
  lemma {:induction false} PaginateAt(ls: seq<string>, p: nat, j: nat, height: int, font: Font)
    requires height >= TopMargin + BottomMargin
    requires j < LinesPerPage(height) && p * LinesPerPage(height) + j < |ls|
    ensures var ps := Paginate(ls, height, font);
      && p < |ps| && j < |ps[p]|
      && ps[p][j] == Draw(LeftMargin, LineY(height, j), ls[p * LinesPerPage(height) + j], font)
  {
    var k := LinesPerPage(height);
    if p > 0 {
      assert p * k == (p - 1) * k + k;
      assert (p - 1) * k + j < |ls| - k;
      PaginateAt(ls[k..], p - 1, j, height, font);
      assert ls[k..][(p - 1) * k + j] == ls[p * k + j];
    }
  }

  /** One page for no lines; otherwise just enough pages for all of them:
      every page but the last is full. */
  lemma {:induction false} PaginateCount(ls: seq<string>, height: int, font: Font)
    requires height >= TopMargin + BottomMargin
    ensures var ps := Paginate(ls, height, font);
      && (ls == [] ==> ps == [[]])
      && (ls != [] ==> (|ps| - 1) * LinesPerPage(height) < |ls| <= |ps| * LinesPerPage(height))
      && forall p :: 0 <= p < |ps| - 1 ==> |ps[p]| == LinesPerPage(height)
    decreases |ls|
  {
    var k := LinesPerPage(height);
    if |ls| > k {
      var qs := Paginate(ls[k..], height, font);
      PaginateCount(ls[k..], height, font);
      var ps := Paginate(ls, height, font);
      assert ps == [Placed(ls[..k], height, font)] + qs;
      assert |ps| * k == |qs| * k + k;
      forall p | 0 <= p < |ps| - 1 ensures |ps[p]| == k {
        if p > 0 {
          assert ps[p] == qs[p - 1];
        }
      }
    }
  }

  /** The pages hold exactly the given lines, in order. */
  lemma {:induction false} PaginateKeepsLines(ls: seq<string>, height: int, font: Font)
    requires height >= TopMargin + BottomMargin
    ensures AllTexts(Paginate(ls, height, font)) == ls
    decreases |ls|
  {
    var k := LinesPerPage(height);
    if |ls| <= k {
      assert TextsOf(Placed(ls, height, font)) == ls;
      assert AllTexts([Placed(ls, height, font)]) == TextsOf(Placed(ls, height, font)) + AllTexts([]);
    } else {
      var ps := Paginate(ls, height, font);
      var qs := Paginate(ls[k..], height, font);
      assert ps == [Placed(ls[..k], height, font)] + qs;
      assert ps[1..] == qs;
      assert TextsOf(Placed(ls[..k], height, font)) == ls[..k];
      PaginateKeepsLines(ls[k..], height, font);
      assert ls[..k] + ls[k..] == ls;
    }
  }

  /** Every line lands at the left margin, between the top and bottom
      margins, in the chosen font. */
  lemma {:induction false} PaginateWellPlaced(ls: seq<string>, height: int, font: Font)
    requires height >= TopMargin + BottomMargin
    ensures WellPlaced(Paginate(ls, height, font), height, font)
    decreases |ls|
  {
    var k := LinesPerPage(height);
    if |ls| <= k {
      PlacedWellPlaced(ls, height, font);
    } else {
      PlacedWellPlaced(ls[..k], height, font);
      PaginateWellPlaced(ls[k..], height, font);
      WellPlacedAppend([Placed(ls[..k], height, font)], Paginate(ls[k..], height, font), height, font);
    }
  }

  lemma PlacedWellPlaced(ls: seq<string>, height: int, font: Font)
    requires height >= TopMargin + BottomMargin && |ls| <= LinesPerPage(height)
    ensures WellPlaced([Placed(ls, height, font)], height, font)
  {
    var k := LinesPerPage(height);
    var page := Placed(ls, height, font);
    forall j | 0 <= j < |page|
      ensures page[j].y == LineY(height, j)
      ensures BottomMargin <= page[j].y <= height - TopMargin
    {
      assert page[j].y == LineY(height, j);
      assert LineY(height, j) >= LineY(height, k - 1);
    }
  }

  lemma WellPlacedAppend(a: seq<Page>, b: seq<Page>, height: int, font: Font)
    requires height >= TopMargin + BottomMargin
    requires WellPlaced(a, height, font) && WellPlaced(b, height, font)
    ensures WellPlaced(a + b, height, font)
  {
    forall p | |a| <= p < |a + b| ensures (a + b)[p] == b[p - |a|] {}
  }

  lemma {:induction false} AllTextsAppend(a: seq<Page>, b: seq<Page>)
    ensures AllTexts(a + b) == AllTexts(a) + AllTexts(b)
  {
    if a == [] {
      assert a + b == b;
    } else {
      assert (a + b)[1..] == a[1..] + b;
      AllTextsAppend(a[1..], b);
    }
  }

  // ---------------------------------------------------------------------
  // The document

  /** The early exit for an empty page text gives the very page the general
      path would: an empty text has no display lines, and no lines make one
      empty page. */
  lemma EmptyTextShortcut(text: string, height: int, font: Font)
    requires height >= TopMargin + BottomMargin
    ensures PageBlock(text, height, font) == Paginate(PageLines(text), height, font)
  {
    if text == [] {
      assert SplitLines(text) == [];
      assert PageLines(text) == [];
      assert Placed([], height, font) == [];
    }
  }

  lemma {:induction false} FlattenAppend(a: seq<seq<Page>>, b: seq<seq<Page>>)
    ensures Flatten(a + b) == Flatten(a) + Flatten(b)
    decreases |b|
  {
    if b == [] {
      assert a + b == a;
    } else {
      var init := b[..|b| - 1];
      assert (a + b)[..|a + b| - 1] == a + init;
      FlattenAppend(a, init);
    }
  }

  lemma BlocksAppend(a: seq<string>, b: seq<string>, height: int, font: Font)
    requires height >= TopMargin + BottomMargin
    ensures Blocks(a + b, height, font) == Blocks(a, height, font) + Blocks(b, height, font)
  {
    var ab, ba, bb := Blocks(a + b, height, font), Blocks(a, height, font), Blocks(b, height, font);
    forall i | 0 <= i < |ab| ensures ab[i] == (ba + bb)[i] {
      if i < |a| {
        assert (a + b)[i] == a[i] && (ba + bb)[i] == ba[i];
      } else {
        assert (a + b)[i] == b[i - |a|] && (ba + bb)[i] == bb[i - |a|];
      }
    }
    assert ab == ba + bb;
  }

  /** Adding a page text adds its pages at the end of the document. */
  lemma ComposeSnoc(texts: seq<string>, text: string, height: int, font: Font)
    requires height >= TopMargin + BottomMargin
    ensures Compose(texts + [text], height, font) == Compose(texts, height, font) + PageBlock(text, height, font)
  {
    var blocks := Blocks(texts + [text], height, font);
    BlocksAppend(texts, [text], height, font);
    assert blocks[..|blocks| - 1] == Blocks(texts, height, font);
  }

  lemma ComposeAppend(a: seq<string>, b: seq<string>, height: int, font: Font)
    requires height >= TopMargin + BottomMargin
    ensures Compose(a + b, height, font) == Compose(a, height, font) + Compose(b, height, font)
  {
    BlocksAppend(a, b, height, font);
    FlattenAppend(Blocks(a, height, font), Blocks(b, height, font));
  }

  /** An empty page text becomes exactly one blank page, in its place. */
  lemma ComposeBlankPage(before: seq<string>, after: seq<string>, height: int, font: Font)
    requires height >= TopMargin + BottomMargin
    ensures Compose(before + [""] + after, height, font)
         == Compose(before, height, font) + [[]] + Compose(after, height, font)
  {
    ComposeAppend(before + [""], after, height, font);
    ComposeAppend(before, [""], height, font);
    assert Compose([""], height, font) == Compose([], height, font) + [[]];
  }

  /** Every page text gives at least one page, so no page is dropped. */
  lemma {:induction false} ComposeCount(texts: seq<string>, height: int, font: Font)
    requires height >= TopMargin + BottomMargin
    ensures |Compose(texts, height, font)| >= |texts|
    decreases |texts|
  {
    if texts != [] {
      var init, text := texts[..|texts| - 1], texts[|texts| - 1];
      assert texts == init + [text];
      ComposeSnoc(init, text, height, font);
      ComposeCount(init, height, font);
    }
  }

  /** Every line of the document sits within the margins, in the chosen
      font, and no page overflows. */
  lemma {:induction false} ComposeWellPlaced(texts: seq<string>, height: int, font: Font)
    requires height >= TopMargin + BottomMargin
    ensures WellPlaced(Compose(texts, height, font), height, font)
    decreases |texts|
  {
    if texts != [] {
      var init, text := texts[..|texts| - 1], texts[|texts| - 1];
      assert texts == init + [text];
      ComposeSnoc(init, text, height, font);
      ComposeWellPlaced(init, height, font);
      PaginateWellPlaced(PageLines(text), height, font);
      EmptyTextShortcut(text, height, font);
      WellPlacedAppend(Compose(init, height, font), PageBlock(text, height, font), height, font);
    }
  }

  /** Every non-whitespace character of the input is drawn, in input order,
      and nothing else is. */
  lemma {:induction false} ComposeKeepsText(texts: seq<string>, height: int, font: Font)
    requires height >= TopMargin + BottomMargin
    ensures Remove(Concat(AllTexts(Compose(texts, height, font))), Whitespace)
         == Remove(Concat(texts), Whitespace)
    decreases |texts|
  {
    if texts != [] {
      var init, text := texts[..|texts| - 1], texts[|texts| - 1];
      assert texts == init + [text];
      ComposeSnoc(init, text, height, font);
      ComposeKeepsText(init, height, font);
      BlockKeepsText(text, height, font);
      StepKeepsText(Compose(init, height, font), PageBlock(text, height, font), init, text);
    }
  }

  lemma StepKeepsText(front: seq<Page>, block: seq<Page>, init: seq<string>, text: string)
    requires Remove(Concat(AllTexts(front)), Whitespace) == Remove(Concat(init), Whitespace)
    requires Remove(Concat(AllTexts(block)), Whitespace) == Remove(text, Whitespace)
    ensures Remove(Concat(AllTexts(front + block)), Whitespace) == Remove(Concat(init + [text]), Whitespace)
  {
    AllTextsAppend(front, block);
    KeptAppend(AllTexts(front), AllTexts(block), init, text);
  }

  /** One page text: its non-whitespace characters are what its pages show. */
  lemma BlockKeepsText(text: string, height: int, font: Font)
    requires height >= TopMargin + BottomMargin
    ensures Remove(Concat(AllTexts(PageBlock(text, height, font))), Whitespace) == Remove(text, Whitespace)
  {
    EmptyTextShortcut(text, height, font);
    PaginateKeepsLines(PageLines(text), height, font);
    PageLinesKeepText(text);
  }

  lemma KeptAppend(front: seq<string>, block: seq<string>, init: seq<string>, text: string)
    requires Remove(Concat(front), Whitespace) == Remove(Concat(init), Whitespace)
    requires Remove(Concat(block), Whitespace) == Remove(text, Whitespace)
    ensures Remove(Concat(front + block), Whitespace) == Remove(Concat(init + [text]), Whitespace)
  {
    calc {
      Remove(Concat(front + block), Whitespace);
      { ConcatAppend(front, block); }
      Remove(Concat(front) + Concat(block), Whitespace);
      { RemoveAppend(Concat(front), Concat(block), Whitespace); }
      Remove(Concat(init), Whitespace) + Remove(text, Whitespace);
      { RemoveAppend(Concat(init), text, Whitespace); }
      Remove(Concat(init) + text, Whitespace);
      { ConcatSnoc(init, text); }
      Remove(Concat(init + [text]), Whitespace);
    }
  }

  lemma ConcatSnoc(ss: seq<string>, s: string)
    ensures Concat(ss + [s]) == Concat(ss) + s
  {
    ConcatAppend(ss, [s]);
    assert Concat([s]) == s + Concat([]);
  }

  /** On an A4 page (842 points high), 41 lines fit. */
  lemma A4Capacity()
    ensures LinesPerPage(842) == 41
  {
  }

  /** On an A4 page, the texts "Hello world" and "" give two pages: the
      first with "Hello world" on the top baseline, 782 points up, the second
      blank. */
  lemma HelloWorldDocument(font: Font)
    ensures Compose(["Hello world", ""], 842, font) == [[Draw(LeftMargin, 782, "Hello world", font)], []]
  {
    HelloWorldPage(font);
    ComposeTwo("Hello world", "", 842, font);
  }

  lemma ComposeTwo(first: string, second: string, height: int, font: Font)
    requires height >= TopMargin + BottomMargin
    ensures Compose([first, second], height, font) == PageBlock(first, height, font) + PageBlock(second, height, font)
  {
    ComposeSnoc([], first, height, font);
    ComposeSnoc([first], second, height, font);
    assert Compose([], height, font) == [];
    assert [first] + [second] == [first, second];
  }

  lemma HelloWorldPage(font: Font)
    ensures PageBlock("Hello world", 842, font) == [[Draw(LeftMargin, 782, "Hello world", font)]]
  {
    HelloWorldLines();
    OneLinePage("Hello world", 842, font);
  }

  /** A page text that is one display line by itself is drawn alone, on the
      top baseline of one page. */
  lemma OneLinePage(text: string, height: int, font: Font)
    requires height >= TopMargin + BottomMargin
    requires text != [] && PageLines(text) == [text]
    ensures PageBlock(text, height, font) == [[Draw(LeftMargin, height - TopMargin, text, font)]]
  {
    var ls := [text];
    assert Paginate(ls, height, font) == [Placed(ls, height, font)];
    assert Placed(ls, height, font)[0] == Draw(LeftMargin, LineY(height, 0), text, font);
    assert Placed(ls, height, font) == [Draw(LeftMargin, height - TopMargin, text, font)];
    assert PageBlock(text, height, font) == Paginate(PageLines(text), height, font);
  }

  // ---------------------------------------------------------------------
  // The drawing loops

  /** When the finished pages and the open page together are `before + ps`,
      the open page is the last of `ps`. */
  lemma SplitLast(pages: seq<Page>, current: Page, before: seq<Page>, ps: seq<Page>)
    requires ps != [] && pages + [current] == before + ps
    ensures current == ps[|ps| - 1] && pages == before + ps[..|ps| - 1]
  {
    assert (pages + [current])[|pages|] == current;
    assert pages == (pages + [current])[..|pages|];
  }

  /** One more line on the open page (the last of `before + ps`): on that
      page at the next baseline while it has room, else on a new page at
      the top. */
  lemma DrawStep(pages: seq<Page>, current: Page, before: seq<Page>, ls: seq<string>, x: string,
                 height: int, font: Font)
    requires height >= TopMargin + BottomMargin
    requires pages + [current] == before + Paginate(ls, height, font)
    ensures |current| <= LinesPerPage(height)
    ensures |current| == LinesPerPage(height) ==>
      pages + [current] + [[Draw(LeftMargin, LineY(height, 0), x, font)]] == before + Paginate(ls + [x], height, font)
    ensures |current| < LinesPerPage(height) ==>
      pages + [current + [Draw(LeftMargin, LineY(height, |current|), x, font)]] == before + Paginate(ls + [x], height, font)
  {
    var ps := Paginate(ls, height, font);
    PaginateSnoc(ls, x, height, font);
    SplitLast(pages, current, before, ps);
    assert ps[..|ps| - 1] + [current] == ps;
  }

  /** Draws the display lines of one page text, starting new pages as the
      bottom margin is reached, and closes the last page. */
  method DrawPage(c: Canvas, lines: seq<string>, fontName: string, height: int)
    requires height >= TopMargin + BottomMargin
    requires c.current == []
    modifies c
    ensures c.pages == old(c.pages) + Paginate(lines, height, Font(fontName, FontSize))
    ensures c.current == [] && c.font == InitialFont
  {
    var font := Font(fontName, FontSize);
    var k := LinesPerPage(height);
    ghost var before := c.pages;
    var y := height - TopMargin;
    c.SetFont(fontName, FontSize);
    assert lines[..0] == [];
    assert Paginate([], height, font) == [[]];
    for i := 0 to |lines|
      invariant c.font == font
      invariant |c.current| <= k
      invariant y == LineY(height, |c.current|)
      invariant c.pages + [c.current] == before + Paginate(lines[..i], height, font)
    {
      var line := lines[i];
      ghost var pages, last := c.pages, c.current;
      DrawStep(pages, last, before, lines[..i], line, height, font);
      assert lines[..i + 1] == lines[..i] + [line];
      if y < BottomMargin {
        assert |last| == k;
        c.ShowPage();
        c.SetFont(fontName, FontSize);
        y := height - TopMargin;
        assert c.pages == pages + [last] && c.current == [] && c.font == font;
        assert y == LineY(height, 0);
        c.DrawString(LeftMargin, y, line);
        assert c.current == [Draw(LeftMargin, LineY(height, 0), line, font)];
      } else {
        assert |last| < k;
        c.DrawString(LeftMargin, y, line);
      }
      y := y - LineHeight;
    }
    assert lines[..|lines|] == lines;
    c.ShowPage();
  }

  /** `create_hindi_pdf_from_texts`: the pages of the document made from
      `textPages`, given which fonts are registered. */
  method CreatePdf(textPages: seq<string>, height: int, registered: set<string>)
    returns (document: seq<Page>)
    requires height >= TopMargin + BottomMargin
    ensures document == Compose(textPages, height, Font(ChooseFont(registered), FontSize))
  {
    var c := new Canvas();
    var fontName := ChooseFont(registered);
    ghost var font := Font(fontName, FontSize);
    for i := 0 to |textPages|
      invariant c.current == []
      invariant c.pages == Compose(textPages[..i], height, font)
    {
      var text := textPages[i];
      if text == [] {
        c.ShowPage();
      } else {
        var lines := BuildLines(text);
        DrawPage(c, lines, fontName, height);
      }
      ComposeSnoc(textPages[..i], text, height, font);
      assert textPages[..i + 1] == textPages[..i] + [text];
    }
    assert textPages[..|textPages|] == textPages;
    document := c.pages;
  }
}
