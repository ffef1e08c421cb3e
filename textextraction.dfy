/**
 * The three text extractors. The PDF one builds its text page by page in document order: a page
 * with selectable text contributes that text, any other page the OCR text of its images in
 * image order. A failure anywhere discards everything gathered so far and gives "" for the whole
 * document. The DOCX one joins the paragraph texts with newlines; the image one returns what OCR
 * recognises. Any failure of the libraries gives "".
 */
module TextExtraction {
  import opened Wrappers
  import opened Text
  import opened Pdf

  /** Both pieces of text, concatenated, when neither failed. */
  function Concat(x: Option<string>, y: Option<string>): Option<string> {
    if x.Some? && y.Some? then Some(x.value + y.value) else None
  }

  function OcrText(img: ImageOcr): Option<string> {
    match img
    case Recognized(t) => Some(t)
    case OcrFailure => None
  }

  /** What the images of a page contribute: their OCR texts in image order, unless one fails. */
  function ImagesText(images: seq<ImageOcr>): Option<string> {
    if |images| == 0 then Some("")
    else Concat(ImagesText(images[..|images| - 1]), OcrText(images[|images| - 1]))
  }

  /** What one page contributes: its selectable text if there is any, else the OCR text of its images. */
  function PageText(p: Page): Option<string> {
    if p.text != "" then Some(p.text) else ImagesText(p.images)
  }

  /** What a sequence of pages contributes, in page order, unless one of them fails. */
  function PagesText(pages: seq<Page>): Option<string> {
    if |pages| == 0 then Some("")
    else Concat(PagesText(pages[..|pages| - 1]), PageText(pages[|pages| - 1]))
  }

  /** `extract_text_from_pdf` as a value: the text of the pages, or "" on any failure. */
  function PdfText(file: PdfFile): string {
    match file
    case Unreadable => ""
    case Pdf(pages) => PagesText(pages).GetOr("")
  }

  lemma ConcatAssoc(x: Option<string>, y: Option<string>, z: Option<string>)
    ensures Concat(Concat(x, y), z) == Concat(x, Concat(y, z))
  {
    if x.Some? && y.Some? && z.Some? {
      assert (x.value + y.value) + z.value == x.value + (y.value + z.value);
    }
  }

  /** The images of `a + b` give the text of the images of `a` followed by that of `b`. */
  lemma {:induction false} ImagesTextAppend(a: seq<ImageOcr>, b: seq<ImageOcr>)
    ensures ImagesText(a + b) == Concat(ImagesText(a), ImagesText(b))
    decreases |b|
  {
    if |b| == 0 {
      assert a + b == a;
      if ImagesText(a).Some? {
        assert ImagesText(a).value + "" == ImagesText(a).value;
      }
    } else {
      var c := b[..|b| - 1];
      assert (a + b)[..|a + b| - 1] == a + c;
      assert (a + b)[|a + b| - 1] == b[|b| - 1];
      ImagesTextAppend(a, c);
      ConcatAssoc(ImagesText(a), ImagesText(c), OcrText(b[|b| - 1]));
    }
  }

  /**
   * Page order: the pages `a + b` give the text of the pages of `a` followed by that of `b`, and
   * fail when either part fails.
   */
  lemma {:induction false} PagesTextAppend(a: seq<Page>, b: seq<Page>)
    ensures PagesText(a + b) == Concat(PagesText(a), PagesText(b))
    decreases |b|
  {
    if |b| == 0 {
      assert a + b == a;
      if PagesText(a).Some? {
        assert PagesText(a).value + "" == PagesText(a).value;
      }
    } else {
      var c := b[..|b| - 1];
      assert (a + b)[..|a + b| - 1] == a + c;
      assert (a + b)[|a + b| - 1] == b[|b| - 1];
      PagesTextAppend(a, c);
      ConcatAssoc(PagesText(a), PagesText(c), PageText(b[|b| - 1]));
    }
  }

  /**
   * What a single page contributes: its selectable text when it has some; otherwise its images'
   * OCR texts, which is "" for a page without text and without images.
   */
  lemma SinglePageText(p: Page)
    ensures PagesText([p]) == PageText(p)
    ensures p.text != "" ==> PagesText([p]) == Some(p.text)
    ensures p.text == "" && p.images == [] ==> PagesText([p]) == Some("")
    ensures p.text == "" && (forall j :: 0 <= j < |p.images| ==> p.images[j].Recognized?) ==>
              PagesText([p]).Some?
  {
    assert [p][..0] == [];
    if PageText(p).Some? {
      assert "" + PageText(p).value == PageText(p).value;
    }
    if p.text == "" && (forall j :: 0 <= j < |p.images| ==> p.images[j].Recognized?) {
      ImagesSucceed(p.images);
    }
  }

  /** The images of a page give a text exactly when none of them fails. */
  lemma {:induction false} ImagesSucceed(images: seq<ImageOcr>)
    ensures ImagesText(images).Some? <==> forall j :: 0 <= j < |images| ==> images[j].Recognized?
  {
    if |images| > 0 {
      var c := images[..|images| - 1];
      ImagesSucceed(c);
      assert forall j :: 0 <= j < |c| ==> c[j] == images[j];
    }
  }

  /**
   * All or nothing: the document gives a text exactly when every page does, so a single failing
   * page turns the whole extraction into "", whatever the other pages held.
   */
  lemma {:induction false} PagesSucceed(pages: seq<Page>)
    ensures PagesText(pages).Some? <==> forall i :: 0 <= i < |pages| ==> PageText(pages[i]).Some?
    ensures PagesText(pages).None? ==> PdfText(Pdf(pages)) == ""
  {
    if |pages| > 0 {
      var c := pages[..|pages| - 1];
      PagesSucceed(c);
      assert forall i :: 0 <= i < |c| ==> c[i] == pages[i];
    }
  }

  /** Painting bands changes neither the text nor the images of any page, so not the document's text. */
  lemma {:induction false} PaintedText(pages: seq<Page>)
    ensures PagesText(Painted(pages)) == PagesText(pages)
  {
    if |pages| > 0 {
      var c := pages[..|pages| - 1];
      assert Painted(pages)[..|pages| - 1] == Painted(c);
      PaintedText(c);
    }
  }

  lemma PagesStep(pages: seq<Page>, i: nat)
    requires i < |pages|
    ensures PagesText(pages[..i + 1]) == Concat(PagesText(pages[..i]), PageText(pages[i]))
  {
    assert pages[..i + 1][..i] == pages[..i];
  }

  lemma ImagesStep(images: seq<ImageOcr>, j: nat)
    requires j < |images|
    ensures ImagesText(images[..j + 1]) == Concat(ImagesText(images[..j]), OcrText(images[j]))
  {
    assert images[..j + 1][..j] == images[..j];
  }

  /** An image of a text-less page that OCR cannot read makes the whole document fail. */
  lemma FailingImageFailsDocument(pages: seq<Page>, i: nat, j: nat)
    requires i < |pages| && pages[i].text == ""
    requires j < |pages[i].images| && pages[i].images[j] == OcrFailure
    ensures PagesText(pages) == None
  {
    ImagesSucceed(pages[i].images);
    PagesSucceed(pages);
  }

  /** `extract_text_from_pdf`: the loops over pages and images that build the text with `+=`. */
  method ExtractTextFromPdf(file: PdfFile) returns (text: string)
    ensures text == PdfText(file)
  {
    if file.Unreadable? {
      return "";
    }
    var pages := file.pages;
    text := "";
    for i := 0 to |pages|
      invariant PagesText(pages[..i]) == Some(text)
    {
      var page := pages[i];
      PagesStep(pages, i);
      if page.text != "" {
        text := text + page.text;
      } else {
        var images := page.images;
        ghost var before, acc := text, "";
        for j := 0 to |images|
          invariant ImagesText(images[..j]) == Some(acc)
          invariant text == before + acc
        {
          ImagesStep(images, j);
          match images[j]
          case OcrFailure =>
            FailingImageFailsDocument(pages, i, j);
            return "";
          case Recognized(t) =>
            assert (before + acc) + t == before + (acc + t);
            text, acc := text + t, acc + t;
        }
        assert images[..|images|] == images;
      }
    }
    assert pages[..|pages|] == pages;
  }

  /** `extract_text_from_docx`: the paragraph texts joined with newlines, or "" when the file cannot be read. */
  function DocxText(paragraphs: Option<seq<string>>): string {
    match paragraphs
    case None => ""
    case Some(ps) => Join(ps, '\n')
  }

  /**
   * Splitting the DOCX text on newlines, as the education extractor does, gives the paragraphs
   * back when there is at least one and none holds a newline.
   */
  lemma DocxRoundTrip(ps: seq<string>)
    requires |ps| >= 1
    requires forall k :: 0 <= k < |ps| ==> '\n' !in ps[k]
    ensures Split(DocxText(Some(ps)), '\n') == ps
  {
    SplitJoin(ps, '\n');
  }

  lemma DocxExample()
    ensures DocxText(Some(["Jane Doe", "Engineer"])) == "Jane Doe\nEngineer"
  {
    assert ["Jane Doe", "Engineer"][1..] == ["Engineer"];
  }

  /** `extract_text_from_image`: what OCR recognises, or "" when the image cannot be read. */
  function ImageText(ocr: Option<string>): string {
    ocr.GetOr("")
  }

  /**
   * An uploaded image gives the same text as a one-page PDF without selectable text that holds
   * only that image: both take what OCR recognises, and both give "" when it fails.
   */
  lemma ImageTextAsScannedPage(ocr: Option<string>, p: Page)
    requires p.text == "" && |p.images| == 1
    requires p.images[0] == if ocr.Some? then Recognized(ocr.value) else OcrFailure
    ensures ImageText(ocr) == PdfText(Pdf([p]))
    ensures ocr.None? ==> ImageText(ocr) == ""
  {
    assert p.images[..0] == [];
    assert ImagesText(p.images) == Concat(Some(""), OcrText(p.images[0]));
    if ocr.Some? {
      assert "" + ocr.value == ocr.value;
    }
    assert PageText(p) == ocr;
    assert [p][..0] == [];
    assert PagesText([p]) == Concat(Some(""), PageText(p));
  }
}
