/**
 * What the pipeline sees of a PDF through its PDF library: pages with a size, their selectable
 * text, their embedded images (with what OCR makes of each), and the rectangles painted on them.
 * `preprocess_pdf` paints a white band of fixed height across the top and the bottom of every
 * page and saves the painted copy.
 */
module Pdf {
  import opened Wrappers

  /** A rectangle with corners (x0, y0) and (x1, y1); y grows downwards from the top of the page. */
  datatype Rect = Rect(x0: real, y0: real, x1: real, y1: real)

  /** What OCR makes of one embedded image, or the failure of extracting or recognising it. */
  datatype ImageOcr = Recognized(text: string) | OcrFailure

  /**
   * One page: its size, the text `get_text` returns, the images `get_images` lists (in order)
   * and the filled rectangles drawn on it so far.
   */
  datatype Page = Page(width: real, height: real, text: string, images: seq<ImageOcr>, drawings: seq<Rect>)

  /** The result of opening a file as a PDF: its pages, or the failure to open it. */
  datatype PdfFile = Unreadable | Pdf(pages: seq<Page>)

  const BandHeight: real := 50.0

  /** The header band: the full width of the page, from the top down to `BandHeight`. */
  function HeaderBand(p: Page): Rect {
    Rect(0.0, 0.0, p.width, BandHeight)
  }

  /** The footer band: the full width of the page, the last `BandHeight` of its height. */
  function FooterBand(p: Page): Rect {
    Rect(0.0, p.height - BandHeight, p.width, p.height)
  }

  predicate InRect(r: Rect, x: real, y: real) {
    r.x0 <= x <= r.x1 && r.y0 <= y <= r.y1
  }

  /** The page after the header band and then the footer band have been painted on it. */
  function WithBands(p: Page): Page {
    p.(drawings := p.drawings + [HeaderBand(p), FooterBand(p)])
  }

  /** The painted copy of a document: every page with its two bands. */
  function Painted(pages: seq<Page>): (r: seq<Page>)
    ensures |r| == |pages|
    ensures forall i :: 0 <= i < |pages| ==> r[i] == WithBands(pages[i])
  {
    seq(|pages|, i requires 0 <= i < |pages| => WithBands(pages[i]))
  }

  /**
   * Painting adds the header band and then the footer band after what was drawn before, each the
   * full width of the page and `BandHeight` high, and leaves the size, text and images alone.
   */
  lemma WithBandsShape(p: Page)
    ensures var q := WithBands(p);
      && q.width == p.width && q.height == p.height && q.text == p.text && q.images == p.images
      && |q.drawings| == |p.drawings| + 2
      && q.drawings[..|p.drawings|] == p.drawings
      && var h, f := q.drawings[|p.drawings|], q.drawings[|p.drawings| + 1];
         && h.x0 == f.x0 == 0.0 && h.x1 == f.x1 == p.width
         && h.y0 == 0.0 && h.y1 - h.y0 == BandHeight
         && f.y1 == p.height && f.y1 - f.y0 == BandHeight
  {
  }

  /**
   * A point of the page is under one of the two bands exactly when it lies within `BandHeight`
   * of the top or of the bottom edge.
   */
  lemma BandsCover(p: Page, x: real, y: real)
    requires 0.0 <= x <= p.width && 0.0 <= y <= p.height
    ensures InRect(HeaderBand(p), x, y) || InRect(FooterBand(p), x, y)
            <==> y <= BandHeight || p.height - BandHeight <= y
  {
  }

  /** On a page of height at most twice `BandHeight` the two bands hide every point. */
  lemma ShortPageFullyMasked(p: Page, x: real, y: real)
    requires p.height <= 2.0 * BandHeight
    requires 0.0 <= x <= p.width && 0.0 <= y <= p.height
    ensures InRect(HeaderBand(p), x, y) || InRect(FooterBand(p), x, y)
  {
    BandsCover(p, x, y);
  }

  /** The loop of `preprocess_pdf` over the pages: each page gets its header and footer band, in place. */
  method PaintBands(doc: array<Page>)
    modifies doc
    ensures forall i :: 0 <= i < doc.Length ==> doc[i] == WithBands(old(doc[i]))
  {
    for n := 0 to doc.Length
      invariant forall i :: 0 <= i < n ==> doc[i] == WithBands(old(doc[i]))
      invariant forall i :: n <= i < doc.Length ==> doc[i] == old(doc[i])
    {
      var page := doc[n];
      var header := HeaderBand(page);
      page := page.(drawings := page.drawings + [header]);
      var footer := FooterBand(page);
      page := page.(drawings := page.drawings + [footer]);
      doc[n] := page;
    }
  }

  /**
   * `preprocess_pdf`: open the document, paint the bands on every page and save the copy. When
   * the file cannot be opened or the copy cannot be saved the result is `None` (the source's
   * `except` branch); otherwise it is the painted copy.
   */
  method PreprocessPdf(file: PdfFile, saves: bool) returns (copy: Option<seq<Page>>)
    ensures file.Unreadable? || !saves ==> copy == None
    ensures file.Pdf? && saves ==> copy == Some(Painted(file.pages))
  {
    if file.Unreadable? {
      return None;
    }
    var pages := file.pages;
    var doc := new Page[|pages|](i requires 0 <= i < |pages| => pages[i]);
    assert doc[..] == pages;
    PaintBands(doc);
    assert doc[..] == Painted(pages);
    if !saves {
      return None;
    }
    copy := Some(doc[..]);
  }
}
