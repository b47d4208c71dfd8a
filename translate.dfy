/** The per-page translation step of the `/translate` endpoint and its
    hand-over to the PDF builder. The translation service itself is a
    parameter: `translate` maps a page text to the translated text the
    service returns. */
module Translation {
  import opened Text
  import opened Pdf
  import opened Layout

  /** Whether a page has no visible text. */
  predicate IsBlank(text: string) {
    Strip(text) == []
  }

  /** A page with no visible text stays empty; any other is translated
      whole, surrounding whitespace included. */
  function TranslatedPage(text: string, translate: string -> string): string {
    if IsBlank(text) then "" else translate(text)
  }

  /** The translated text of every page, in page order. */
  function TranslatedAll(pagesText: seq<string>, translate: string -> string): (ts: seq<string>)
    ensures |ts| == |pagesText|
  {
    seq(|pagesText|, i requires 0 <= i < |pagesText| => TranslatedPage(pagesText[i], translate))
  }

  /** The texts sent to the translator, in order: the pages with visible
      text. */
  function Requests(pagesText: seq<string>): seq<string> {
    if pagesText == [] then []
    else (if IsBlank(pagesText[0]) then [] else [pagesText[0]]) + Requests(pagesText[1..])
  }

  /** The number of pages without visible text. */
  function BlankPages(pagesText: seq<string>): nat {
    if pagesText == [] then 0 else (if IsBlank(pagesText[0]) then 1 else 0) + BlankPages(pagesText[1..])
  }

  /** Translates page by page: blank pages are kept as empty pages without
      a call to the translator, every other page is sent to it once. */
  method TranslatePages(pagesText: seq<string>, translate: string -> string)
    returns (translatedPages: seq<string>, requests: seq<string>)
    ensures translatedPages == TranslatedAll(pagesText, translate)
    ensures requests == Requests(pagesText)
  {
    translatedPages := [];
    requests := [];
    for i := 0 to |pagesText|
      invariant translatedPages == TranslatedAll(pagesText[..i], translate)
      invariant requests == Requests(pagesText[..i])
    {
      var text := pagesText[i];
      RequestsSnoc(pagesText[..i], text);
      TranslatedAllSnoc(pagesText[..i], text, translate);
      assert pagesText[..i + 1] == pagesText[..i] + [text];
      if IsBlank(text) {
        translatedPages := translatedPages + [""];
        continue;
      }
      var translated := translate(text);
      requests := requests + [text];
      translatedPages := translatedPages + [translated];
    }
    assert pagesText[..|pagesText|] == pagesText;
  }

  /** The whole pipeline after text extraction: translate every page, then
      lay the translations out as a PDF. */
  method TranslateToPdf(pagesText: seq<string>, translate: string -> string, height: int, registered: set<string>)
    returns (document: seq<Page>)
    requires height >= TopMargin + BottomMargin
    ensures document == Compose(TranslatedAll(pagesText, translate), height, Font(ChooseFont(registered), FontSize))
  {
    var translatedPages, _ := TranslatePages(pagesText, translate);
    document := CreatePdf(translatedPages, height, registered);
  }

  // ---------------------------------------------------------------------
  // Properties

  lemma {:induction false} RequestsSnoc(pagesText: seq<string>, text: string)
    ensures Requests(pagesText + [text]) == Requests(pagesText) + (if IsBlank(text) then [] else [text])
  {
    if pagesText == [] {
      assert [] + [text] == [text];
    } else {
      assert (pagesText + [text])[1..] == pagesText[1..] + [text];
      RequestsSnoc(pagesText[1..], text);
    }
  }

  lemma TranslatedAllSnoc(pagesText: seq<string>, text: string, translate: string -> string)
    ensures TranslatedAll(pagesText + [text], translate)
         == TranslatedAll(pagesText, translate) + [TranslatedPage(text, translate)]
  {
  }

  /** Exactly the pages with visible text reach the translator, unchanged
      and in order. */
  lemma {:induction false} RequestsAreVisiblePages(pagesText: seq<string>)
    ensures |Requests(pagesText)| + BlankPages(pagesText) == |pagesText|
    ensures forall r :: r in Requests(pagesText) ==> r in pagesText && !IsBlank(r)
  {
    if pagesText != [] {
      RequestsAreVisiblePages(pagesText[1..]);
    }
  }

  /** Translation keeps the number of pages, so the document has at least
      one page per input page. */
  lemma TranslationKeepsPages(pagesText: seq<string>, translate: string -> string, height: int, font: Font)
    requires height >= TopMargin + BottomMargin
    ensures |Compose(TranslatedAll(pagesText, translate), height, font)| >= |pagesText|
  {
    ComposeCount(TranslatedAll(pagesText, translate), height, font);
  }

  /** A page without visible text becomes exactly one blank page of the
      document, in its place, whatever the translator does. */
  lemma BlankPageStaysBlank(before: seq<string>, page: string, after: seq<string>,
                            translate: string -> string, height: int, font: Font)
    requires height >= TopMargin + BottomMargin
    requires IsBlank(page)
    ensures Compose(TranslatedAll(before + [page] + after, translate), height, font)
         == Compose(TranslatedAll(before, translate), height, font) + [[]]
            + Compose(TranslatedAll(after, translate), height, font)
  {
    assert TranslatedAll(before + [page] + after, translate)
        == TranslatedAll(before, translate) + [""] + TranslatedAll(after, translate);
    ComposeBlankPage(TranslatedAll(before, translate), TranslatedAll(after, translate), height, font);
  }
}
