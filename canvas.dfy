/** A recording stand-in for the ReportLab canvas: instead of encoding PDF
    operators it keeps the pages it has finished, each as the list of strings
    drawn on it, together with the page under construction and the current
    font. */
module Pdf {

  /** A font selection: its registered name and its point size. */
  datatype Font = Font(name: string, size: int)

  /** One `drawString`: the text and where, and in which font, it went. */
  datatype Draw = Draw(x: int, y: int, text: string, font: Font)

  type Page = seq<Draw>

  /** The font of a page that has just been started: ReportLab resets the
      graphics state, font included, to Helvetica 12 on every new page. */
  const InitialFont := Font("Helvetica", 12)

  class Canvas {
    /** The pages finished by `ShowPage`, in order. */
    var pages: seq<Page>
    /** The draws on the page under construction. */
    var current: Page
    /** The font the next draw uses. */
    var font: Font

    constructor ()
      ensures pages == [] && current == [] && font == InitialFont
    {
      pages := [];
      current := [];
      font := InitialFont;
    }

    /** `showPage()`: closes the current page, even an empty one, and starts
        a new one with the initial font. */
    method ShowPage()
      modifies this
      ensures pages == old(pages) + [old(current)]
      ensures current == [] && font == InitialFont
    {
      pages := pages + [current];
      current := [];
      font := InitialFont;
    }

    /** `setFont(name, size)`: changes the font of the following draws. */
    method SetFont(name: string, size: int)
      modifies this
      ensures font == Font(name, size)
      ensures pages == old(pages) && current == old(current)
    {
      font := Font(name, size);
    }

    /** `drawString(x, y, text)`: draws on the current page in the current
        font. */
    method DrawString(x: int, y: int, text: string)
      modifies this
      ensures current == old(current) + [Draw(x, y, text, old(font))]
      ensures pages == old(pages) && font == old(font)
    {
      current := current + [Draw(x, y, text, font)];
    }
  }
}
