/** Text extraction from a PDF: two text-layer extractors tried in turn, each appending to the same
    text, and OCR as the last resort. The extractors are parameters. */
module PdfParser {
  import opened Text
  import opened Values
  import opened Wrappers

  /** What one text-layer extractor did with a file: the text of each page it read, in page order (""
      for a page without text), and whether it raised, while opening the file or after the pages
      listed. Pages read before a failure have already been added to the text. */
  datatype PageRun = PageRun(pages: seq<string>, failed: bool)

  /** The thresholds of the cascade. */
  const TextMinimum: nat := 50
  const OcrMinimum: nat := 20

  /** `text += page_text + "\n"` for each page that has text. */
  function Accumulate(pages: seq<string>): string {
    if pages == [] then ""
    else
      var p := pages[|pages| - 1];
      Accumulate(pages[..|pages| - 1]) + (if p != "" then p + "\n" else "")
  }

  /** A strategy succeeds when it did not raise and the text so far strips to more than 50 characters. */
  predicate Accepted(text: string, run: PageRun) {
    !run.failed && text != "" && |Strip(text)| > TextMinimum
  }

  /** `extract_text_with_ocr(file_content)`: `None` when rendering or recognition raised. */
  function OcrText(ocr: Option<seq<string>>): string {
    match ocr
    case None => ""
    case Some(pages) => Accumulate(pages)
  }

  /** The text after the first strategy, and after the second. */
  function FirstText(plumber: PageRun): string {
    Accumulate(plumber.pages)
  }

  function SecondText(plumber: PageRun, pypdf: PageRun): string {
    FirstText(plumber) + Accumulate(pypdf.pages)
  }

  /** `extract_text_from_pdf(file_content)`, given what pdfplumber, PyPDF2 and OCR make of the file. */
  function PdfText(plumber: PageRun, pypdf: PageRun, ocr: Option<seq<string>>): string {
    var t1 := FirstText(plumber);
    if Accepted(t1, plumber) then t1
    else
      var t2 := SecondText(plumber, pypdf);
      if Accepted(t2, pypdf) then t2
      else if |Strip(t2)| < TextMinimum then
        var o := OcrText(ocr);
        if o != "" && |Strip(o)| > OcrMinimum then o else t2
      else t2
  }

  // ---------------------------------------------------------------------------------------------
  // Properties

  /** Accumulating two runs of pages is accumulating each, in order. */
  lemma {:induction false} AccumulateAppend(a: seq<string>, b: seq<string>)
    ensures Accumulate(a + b) == Accumulate(a) + Accumulate(b)
    decreases |b|
  {
    if b == [] {
      assert a + b == a;
    } else {
      var init := b[..|b| - 1];
      var last := b[|b| - 1];
      assert (a + b)[..|a + b| - 1] == a + init;
      assert (a + b)[|a + b| - 1] == last;
      AccumulateAppend(a, init);
      var tail := if last != "" then last + "\n" else "";
      assert Accumulate(a + b) == Accumulate(a + init) + tail;
      assert Accumulate(b) == Accumulate(init) + tail;
    }
  }

  /** Each page with text contributes that text followed by a newline; a page without text
      contributes nothing. */
  lemma AccumulateOne(p: string)
    ensures Accumulate([p]) == if p != "" then p + "\n" else ""
  {
    assert [p][..0] == [];
  }

  /** The accumulated text is empty exactly when no page has text, and otherwise ends with a newline. */
  lemma {:induction false} AccumulateEmpty(pages: seq<string>)
    ensures Accumulate(pages) == "" <==> forall i :: 0 <= i < |pages| ==> pages[i] == ""
    ensures Accumulate(pages) != "" ==> Accumulate(pages)[|Accumulate(pages)| - 1] == '\n'
  {
    if pages != [] {
      var n := |pages| - 1;
      var init := pages[..n];
      AccumulateEmpty(init);
      assert forall i :: 0 <= i < n ==> init[i] == pages[i];
    }
  }

  /** When the first extractor's text is long enough it is the result, whatever the others would give. */
  lemma FirstStrategyWins(plumber: PageRun, pypdf: PageRun, ocr: Option<seq<string>>, pypdf': PageRun, ocr': Option<seq<string>>)
    requires Accepted(FirstText(plumber), plumber)
    ensures PdfText(plumber, pypdf, ocr) == FirstText(plumber)
    ensures PdfText(plumber, pypdf, ocr) == PdfText(plumber, pypdf', ocr')
  {
  }

  /** The second extractor appends to the first one's text, even when the first raised partway: the
      first text is a prefix of the second. */
  lemma SecondExtendsFirst(plumber: PageRun, pypdf: PageRun)
    ensures var t1 := FirstText(plumber); var t2 := SecondText(plumber, pypdf);
      |t1| <= |t2| && t2[..|t1|] == t1
  {
  }

  /** When the second extractor's text is accepted, it is the result and OCR plays no part. */
  lemma SecondStrategyWins(plumber: PageRun, pypdf: PageRun, ocr: Option<seq<string>>)
    requires !Accepted(FirstText(plumber), plumber)
    requires Accepted(SecondText(plumber, pypdf), pypdf)
    ensures PdfText(plumber, pypdf, ocr) == FirstText(plumber) + Accumulate(pypdf.pages)
  {
  }

  /** OCR is consulted only below 50 stripped characters: from 50 on, including exactly 50, its output
      cannot change the result. */
  lemma OcrOnlyWhenShort(plumber: PageRun, pypdf: PageRun, ocr: Option<seq<string>>, ocr': Option<seq<string>>)
    requires |Strip(SecondText(plumber, pypdf))| >= TextMinimum
    ensures PdfText(plumber, pypdf, ocr) == PdfText(plumber, pypdf, ocr')
  {
  }

  /** Below 50 stripped characters, with both extractors rejected, the OCR text is the result when it
      strips to more than 20 characters; otherwise the accumulated text is. A failed OCR gives "". */
  lemma OcrFallback(plumber: PageRun, pypdf: PageRun, ocr: Option<seq<string>>)
    requires !Accepted(FirstText(plumber), plumber)
    requires |Strip(SecondText(plumber, pypdf))| < TextMinimum
    ensures var o := OcrText(ocr);
      PdfText(plumber, pypdf, ocr) == if |Strip(o)| > OcrMinimum then o else SecondText(plumber, pypdf)
    ensures ocr.None? ==> PdfText(plumber, pypdf, ocr) == SecondText(plumber, pypdf)
  {
    assert |Strip(SecondText(plumber, pypdf))| <= TextMinimum;
  }

  /** The result is the first text, the combined text, or the OCR text. */
  lemma ResultIsCandidate(plumber: PageRun, pypdf: PageRun, ocr: Option<seq<string>>)
    ensures PdfText(plumber, pypdf, ocr) in [FirstText(plumber), SecondText(plumber, pypdf), OcrText(ocr)]
  {
  }

  // ---------------------------------------------------------------------------------------------
  // The imperative form

  lemma AccumulatePrefix(pages: seq<string>, i: int)
    requires 0 <= i < |pages|
    ensures var p := pages[i];
      Accumulate(pages[..i + 1]) == Accumulate(pages[..i]) + (if p != "" then p + "\n" else "")
  {
    assert pages[..i + 1][..i] == pages[..i];
  }

  /** One strategy's page loop, appending to `text`. */
  method AddPages(text: string, pages: seq<string>) returns (out: string)
    ensures out == text + Accumulate(pages)
  {
    out := text;
    var i := 0;
    while i < |pages|
      invariant 0 <= i <= |pages|
      invariant out == text + Accumulate(pages[..i])
    {
      var pageText := pages[i];
      AccumulatePrefix(pages, i);
      if pageText != "" {
        out := out + (pageText + "\n");
      }
      i := i + 1;
    }
    assert pages[..i] == pages;
  }

  /** `extract_text_with_ocr(file_content)`, with `ocr` the page texts the recogniser gives for the
      file, or `None` when it raises. */
  method ExtractTextWithOcr(content: Bytes, ocr: Bytes -> Option<seq<string>>) returns (text: string)
    ensures text == OcrText(ocr(content))
  {
    var recognised := ocr(content);
    if recognised.None? {
      return "";
    }
    text := AddPages("", recognised.value);
  }

  /** `extract_text_from_pdf(file_content)`, with the three extractors as parameters. */
  method ExtractTextFromPdf(content: Bytes, plumber: Bytes -> PageRun, pypdf: Bytes -> PageRun,
                            ocr: Bytes -> Option<seq<string>>) returns (text: string)
    ensures text == PdfText(plumber(content), pypdf(content), ocr(content))
  {
    var first := plumber(content);
    text := AddPages("", first.pages);
    assert text == FirstText(first);
    if !first.failed && text != "" && |Strip(text)| > TextMinimum {
      return;
    }
    var second := pypdf(content);
    text := AddPages(text, second.pages);
    assert text == SecondText(first, second);
    if !second.failed && text != "" && |Strip(text)| > TextMinimum {
      return;
    }
    if |Strip(text)| < TextMinimum {
      var ocrText := ExtractTextWithOcr(content, ocr);
      if ocrText != "" && |Strip(ocrText)| > OcrMinimum {
        return ocrText;
      }
    }
  }
}
