# Pdf-translate layout engine in Dafny

This project models the text-to-page layout engine of Pdf-translate. It is
the function `create_hindi_pdf_from_texts` of `app.py`, together with the
per-page translation loop that feeds it. The engine takes the translated
text of each source page and does the following:

- It splits every page into lines and strips each line.
- It turns each blank line into one empty display line and wraps every
  other line to at most 80 characters with `textwrap`.
- It draws the display lines 18 points apart, from 60 points below the
  top of an A4 page. It starts a new page whenever the next baseline would
  fall below 60 points.
- It closes every source page with a page break of its own.

The model has six modules, one per file:

- `Text` (`text.dfy`): Python's `str.strip()` and `str.splitlines()` with
  their exact character sets. It also has the concatenation and character
  filter in which "no text is lost" is stated.
- `TextWrap` (`wrap.dfy`): the greedy filler of `textwrap.TextWrapper`
  with `break_long_words=True`. That includes the splitting of a word
  longer than a line across lines.
- `Lines` (`lines.dfy`): the construction of one page's list of display
  lines, as a method with a loop.
- `Pdf` (`canvas.dfy`): a recording stand-in for the ReportLab canvas, as
  a class. It keeps the finished pages, the open page and the current font,
  and it has `showPage`, `setFont` and `drawString` methods.
- `Layout` (`layout.dfy`):
  - the font choice;
  - the page geometry;
  - the drawing loop (`DrawPage`) and the document loop (`CreatePdf`), as
    methods over the canvas;
  - the functions `Paginate` and `Compose` that specify them, with their
    properties.
- `Translation` (`translate.dfy`): the per-page translation loop. The
  translator is a function parameter.

Two details of the code matter for the model:

- A blank display line is drawn as an empty `drawString` at its baseline.
- The page height is an integer parameter with a precondition: at least
  120 points, the two margins. The code always uses A4.

## Model

| member | source | states |
|---|---|---|
| Text.Strip | app.py:63 | `strip()` never makes a line longer; its other properties are the lemmas below |
| Text.StripEnds | app.py:63 | what `strip()` leaves neither starts nor ends with a whitespace character |
| Text.StripBlank | app.py:63-64 | a line strips to the empty string exactly when all its characters are whitespace |
| Text.StripKeepsText | app.py:63 | stripping removes whitespace only: the non-whitespace characters are kept, in order |
| Text.TrimStartShape | app.py:63 | the leading part removed by `strip()` is all whitespace, and what is kept is a suffix that does not start with whitespace |
| Text.TrimEndShape | app.py:63 | the trailing part removed by `strip()` is all whitespace, and what is kept is a prefix that does not end with whitespace |
| Text.SplitLines | app.py:62 | `splitlines()` gives no lines exactly for the empty string |
| Text.SplitLinesKeepsText | app.py:62 | the lines of `splitlines()`, glued together, are the text without its line boundaries |
| Text.SplitLinesHaveNoBreaks | app.py:62 | no line that `splitlines()` returns contains a line boundary |
| Text.SplitLinesOfLine | app.py:62 | a non-empty string without line boundaries is one line |
| Text.SplitLinesAt | app.py:62 | a line without boundaries followed by one boundary ("\n", "\r", "\r\n" or another) is exactly the first line, even when it is empty, and the rest splits on its own |
| TextWrap.SplitWordsAreWords | app.py:60 | the words `textwrap` splits a paragraph into are non-empty and free of whitespace |
| TextWrap.SplitWordsKeepsText | app.py:60 | splitting into words drops the whitespace and nothing else |
| TextWrap.SplitJoin | app.py:60 | words joined by single spaces split back into the same words |
| TextWrap.Fill | app.py:67 | the filler returns no lines exactly when nothing is pending |
| TextWrap.FillBounded | app.py:50-67 | every line the filler produces has between 1 and `width` characters |
| TextWrap.WrapBounded | app.py:50-67 | every wrapped line of a paragraph has between 1 and 80 characters |
| TextWrap.FillKeepsText | app.py:60-67 | with long words broken, the filled lines hold all non-whitespace characters of the pending text, in order, and nothing else |
| TextWrap.LongWordKeepsText | app.py:60 | a word longer than a line is split across lines, and none of its characters is lost |
| TextWrap.LongWordFirstLine | app.py:60-67 | a word longer than a line starts the next line with its first `width` characters, or, after a space, completes the current line; that line is exactly `width` long (it is the current line alone when that is already full) |
| TextWrap.Wrap | app.py:60-67 | a paragraph wraps to no lines exactly when it has no words |
| TextWrap.WrapKeepsText | app.py:60-67 | the wrapped lines of a paragraph hold exactly its non-whitespace characters, in order |
| TextWrap.FillKeepsWords | app.py:60-67 | when no word is longer than a line, every word is kept whole and in order, and each line break replaces one space |
| TextWrap.WrapKeepsWords | app.py:60-67 | when no word is longer than a line, the wrapped lines read in order give the paragraph's words |
| TextWrap.FillGreedy | app.py:60-67 | when no word is longer than a line, lines are words separated by single spaces, and a line break happens only when the next word would not fit |
| TextWrap.FillShape | app.py:60-67 | for any words, every line is words separated by single spaces, possibly followed by one space (left where a long word was broken) |
| TextWrap.FillOneLine | app.py:60-67 | words that fit together on one line become exactly that one line |
| TextWrap.WrapNonEmpty | app.py:67 | a paragraph starting with a non-whitespace character, as every stripped line does, wraps to at least one line |
| TextWrap.RewrapLine | app.py:60-67 | a line of spaced words, with at most one trailing space, that fits the width wraps to itself without the trailing space |
| TextWrap.WrapIdempotent | app.py:60-67 | re-wrapping any wrapped line at the same width gives that line back, less the one trailing space it may end with |
| TextWrap.WrapIdempotentWhenFits | app.py:60-67 | when no word is longer than a line, re-wrapping any wrapped line gives that line unchanged |
| Lines.Entries | app.py:63-68 | every source line gives at least one display line |
| Lines.PageLines | app.py:61-68 | a page has no display lines exactly when its text is empty |
| Lines.PageLinesAt | app.py:61-68 | a source line followed by a line boundary contributes its own entries before the rest of the page; a blank one contributes exactly one "" in its place |
| Lines.BuildLines | app.py:61-68 | the loop builds exactly the display lines of the page: each source line's entries, in source order |
| Lines.LinesOfSnoc | app.py:61-68 | one more source line appends its entries after the lines built so far |
| Lines.EntriesShape | app.py:63-68 | a blank source line gives exactly one empty entry; any other gives at least one entry, none empty, none over 80 characters |
| Lines.BlankLinesPreserved | app.py:64-65 | the number of empty display lines equals the number of blank source lines: blanks are never merged or invented |
| Lines.LinesBounded | app.py:60-68 | every display line has at most 80 characters, and each source line gives at least one display line |
| Lines.EntriesKeepText | app.py:63-68 | one source line's entries hold exactly its non-whitespace characters, in order |
| Lines.PageLinesKeepText | app.py:61-68 | the display lines of a page hold exactly the page's non-whitespace characters, in order |
| Lines.PageLinesBounded | app.py:61-68 | a non-empty page has at least one display line, and none is over 80 characters |
| Lines.EntriesOfWord | app.py:63-68 | a line that is a single word of at most 80 characters is one display line, unchanged |
| Lines.BlankLineExample | app.py:61-68 | the page "A\n\nB" gives the lines "A", "", "B" |
| Lines.HelloWorldLines | app.py:61-68 | the page "Hello world" gives the single line "Hello world" |
| Pdf.Canvas.constructor | app.py:40 | a new canvas has no pages, an empty open page and the initial font |
| Pdf.Canvas.ShowPage | app.py:75-82 | `showPage` appends the open page (even an empty one) to the document, opens an empty page and resets the font to Helvetica 12 |
| Pdf.Canvas.SetFont | app.py:72-76 | `setFont` changes the font of the following draws and nothing else |
| Pdf.Canvas.DrawString | app.py:79 | `drawString` adds one draw with its position and text, in the current font, to the open page |
| Layout.ChooseFont | app.py:44 | the font is "Deva" exactly when "Deva" is registered; otherwise it is Helvetica |
| Layout.LinesPerPage | app.py:71-77 | K = (height - 120) / 18 + 1 lines fit on a page: line K-1 is on or above the bottom margin, line K would be below it |
| Layout.A4Capacity | app.py:41-77 | on an A4 page 41 lines fit |
| Layout.Paginate | app.py:70-82 | drawing any list of lines, even an empty one, leaves at least one page |
| Layout.PageBlock | app.py:53-82 | every page text, the empty one included, becomes at least one page |
| Layout.PaginateSnoc | app.py:73-80 | one more line goes at the next baseline of the open page while it has room, and otherwise on a new page at the top baseline |
| Layout.PaginateAt | app.py:71-80 | line p * K + j is drawn as line j of page p, at x = 40 and y = height - 60 - 18 j, in the chosen font |
| Layout.PaginateCount | app.py:71-82 | no lines give one empty page; n lines give ceil(n / K) pages, every page but the last full |
| Layout.PaginateKeepsLines | app.py:73-80 | every display line, blanks included, is drawn exactly once and in order |
| Layout.PaginateWellPlaced | app.py:46-80 | every draw is at x = 40 in the chosen font, on its baseline (consecutive draws 18 apart), with y in [60, height - 60] |
| Layout.EmptyTextShortcut | app.py:53-55 | the early exit for an empty page text gives the same single blank page as the general path |
| Layout.Compose | app.py:52-82 | the document is empty exactly when there are no page texts |
| Layout.ComposeSnoc | app.py:52-82 | each source page's pages follow the previous ones, starting on a fresh page |
| Layout.ComposeAppend | app.py:52 | the document of two lists of page texts is the two documents one after the other |
| Layout.ComposeTwo | app.py:52-82 | the document of two page texts is the pages of the first followed by those of the second |
| Layout.ComposeBlankPage | app.py:53-55 | an empty page text becomes exactly one page with no draws, in its place |
| Layout.ComposeCount | app.py:52-82 | the document has at least as many pages as there are page texts |
| Layout.ComposeWellPlaced | app.py:52-82 | every draw of the document is well placed and no page overflows |
| Layout.ComposeKeepsText | app.py:52-82 | the document shows exactly the non-whitespace characters of the page texts, in order |
| Layout.OneLinePage | app.py:70-82 | a page text that is one display line is drawn alone on the top baseline of one page |
| Layout.HelloWorldDocument | app.py:38-84 | on A4, the texts "Hello world" and "" give two pages: "Hello world" at (40, 782), then a blank page |
| Layout.DrawStep | app.py:73-80 | one more line extends the open page or, on a full page, opens a new one, as `Paginate` prescribes |
| Layout.DrawPage | app.py:70-82 | the drawing loop appends exactly `Paginate` of the lines to the document and leaves an empty page open with the initial font |
| Layout.CreatePdf | app.py:38-84 | the document loop produces exactly `Compose` of the page texts in the chosen font |
| Translation.TranslatedAll | app.py:105-112 | there is one translated text per page |
| Translation.TranslatePages | app.py:105-112 | the loop yields each page's translation in page order, and sends exactly the non-blank pages to the translator |
| Translation.RequestsSnoc | app.py:106-111 | a further page is sent to the translator exactly when it is not blank |
| Translation.RequestsAreVisiblePages | app.py:106-111 | every text sent to the translator is a non-blank page; sent plus blank pages are all pages |
| Translation.TranslateToPdf | app.py:102-116 | the translated pages are laid out by `create_hindi_pdf_from_texts` |
| Translation.TranslationKeepsPages | app.py:105-116 | the document has at least one page per extracted page |
| Translation.BlankPageStaysBlank | app.py:105-116 | a blank page becomes exactly one page with no draws, in its place, whatever the translator returns |

## Left out

- The Flask application is not modelled: routes, upload checks, `send_file`, the response header and the catch-all error reply (app.py:26-28, 86-99, 114-134). It is request plumbing.
- Text extraction with PyPDF2 (app.py:30-36) is a foreign library. The model starts from the list of page texts.
- The googletrans client (app.py:24, 111) is a network service. It is the function parameter `translate`.
- Font registration from a TTF file on disk and the start-up warning (app.py:16-22) are file I/O. The set of registered font names is a parameter of `Layout.ChooseFont`.
- `c.save()` and the PDF encoding (app.py:84) are not modelled. The document is the recorded list of pages.
- `right_margin` and `usable_width` (app.py:48-49) are computed but never used.
- Layout.LinesPerPage: the page height is an integer, not the float 841.89 of A4. Heights below 120 points are excluded, since the source only ever uses A4. Each baseline of the A4 page is 0.11 points lower than in the model, and 41 lines fit either way.
- TextWrap.Wrap: a run of spaces inside a line is joined as one space.
- TextWrap.Wrap: tabs are not expanded.
- TextWrap.Wrap: a word made only of non-ASCII whitespace characters (U+00A0, U+2000 to U+200A, U+3000 and the like) is kept as a word. `textwrap` splits only at ASCII whitespace, but with `drop_whitespace` it tests chunks with `str.strip()`, which knows Unicode whitespace. So it drops such a word when it ends a line, or when it would start the next one. The model keeps it, and its lines can then differ from those of `textwrap`: they keep that character, and can be split elsewhere. Lines still hold every character that is not whitespace, in order.
- TextWrap.Wrap: a line is not broken after a hyphen (`break_on_hyphens`). Lines keep every non-whitespace character in order either way, but a line with a whitespace run or a hyphenated word can be split at other places than `textwrap` splits it.
- TextWrap.FillGreedy: proved only when no word is longer than a line. Otherwise a line may end in a space or hold a piece of a word, which TextWrap.FillShape states for all inputs.
- TextWrap.WrapKeepsWords: proved only when no word is longer than a line. A word broken across lines is not one word of the output.
