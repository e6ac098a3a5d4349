/** The text-extraction collaborators of both variants, reduced to what
    the program does with their output: `extractTextFromPDF` joins the
    trimmed text of the pages the PDF library hands back, and
    `extractTextViaOCR` joins what `tesseract` prints for each page image.
    The PDF library and the two external tools are inputs. */
module Extraction {
  import opened Outcomes
  import opened GoText

  datatype ExtractError =
    | OpenFailed(cause: string)             // "failed to open PDF: %w"
    | EmptyPdf                              // "PDF appears to be empty"
    | PageFailed(page: nat, cause: string)  // "page %d text extraction failed: %w"
    | NoExtractableText                     // "no extractable text found in PDF"
    | NoSpaces                              // "text extraction failed: no spaces found ..."
    | TempDirFailed(cause: string)          // "failed to create temp directory: %w"
    | PdftoppmFailed(cause: string)         // "pdftoppm failed: %w"
    | NoPagesConverted                      // "no pages converted from PDF"
    | TesseractFailed(cause: string)        // "tesseract failed: %w"
    | OcrNoText                             // "OCR extracted no text"
    | BelowMinimum(length: nat, minimum: int)  // "extracted content length (%d) is below ..."
    | AllFailed(last: ExtractError)         // "all text extraction methods failed: %w"
    | NothingExtracted                      // "no text could be extracted from the PDF"

  /** What the PDF library gives for one page: a null page object, the
      page's plain text, or the error of `GetPlainText`. */
  datatype Page = Null | Text(text: string) | Failed(cause: string)

  /** What one page adds to the content: its trimmed text. */
  function PageText(p: Page): string {
    if p.Text? then TrimSpace(p.text) else []
  }

  /** The content the page loop builds: the trimmed texts in page order. */
  function Assembled(pages: seq<Page>): string {
    if pages == [] then [] else PageText(pages[0]) + Assembled(pages[1..])
  }

  /** Index of the first page whose text extraction failed. */
  function FirstFailure(pages: seq<Page>): (r: Option<nat>)
    ensures r.Some? ==> r.value < |pages| && pages[r.value].Failed?
  {
    if pages == [] then None
    else if pages[0].Failed? then Some(0)
    else match FirstFailure(pages[1..])
      case None => None
      case Some(i) => Some(i + 1)
  }

  /** No page before the first failure failed, and without a first
      failure no page failed at all. */
  lemma {:induction false} FirstFailureShape(pages: seq<Page>)
    ensures var r := FirstFailure(pages);
      && (r.Some? ==> forall j :: 0 <= j < r.value ==> !pages[j].Failed?)
      && (r.None? ==> forall j :: 0 <= j < |pages| ==> !pages[j].Failed?)
  {
    if pages != [] && !pages[0].Failed? {
      FirstFailureShape(pages[1..]);
      assert forall j :: 1 <= j < |pages| ==> pages[j] == pages[1..][j - 1];
    }
  }

  /** The first failure is the failed page that no failed page precedes. */
  lemma {:induction false} FirstFailureAt(pages: seq<Page>, i: nat)
    requires i < |pages| && pages[i].Failed?
    requires forall j :: 0 <= j < i ==> !pages[j].Failed?
    ensures FirstFailure(pages) == Some(i)
  {
    if i > 0 {
      assert !pages[0].Failed?;
      assert forall j :: 0 <= j < i - 1 ==> pages[1..][j] == pages[j + 1];
      FirstFailureAt(pages[1..], i - 1);
    }
  }

  /** Without a failed page there is no first failure. */
  lemma {:induction false} NoFailure(pages: seq<Page>)
    requires forall j :: 0 <= j < |pages| ==> !pages[j].Failed?
    ensures FirstFailure(pages) == None
  {
    if pages != [] {
      assert forall j :: 0 <= j < |pages| - 1 ==> pages[1..][j] == pages[j + 1];
      NoFailure(pages[1..]);
    }
  }

  lemma {:induction false} AssembledAppend(pages: seq<Page>, p: Page)
    ensures Assembled(pages + [p]) == Assembled(pages) + PageText(p)
  {
    if pages == [] {
      assert [p][1..] == [];
    } else {
      assert (pages + [p])[1..] == pages[1..] + [p];
      AssembledAppend(pages[1..], p);
    }
  }

  /** One more page of the loop adds that page's text. */
  lemma AssembledPrefix(pages: seq<Page>, i: nat)
    requires i < |pages|
    ensures Assembled(pages[..i + 1]) == Assembled(pages[..i]) + PageText(pages[i])
  {
    assert pages[..i + 1] == pages[..i] + [pages[i]];
    AssembledAppend(pages[..i], pages[i]);
  }

  /** The assembled content never starts or ends with white space: each
      piece is trimmed, and empty pieces add nothing. */
  lemma {:induction false} AssembledIsTrimmed(pages: seq<Page>)
    ensures TrimSpace(Assembled(pages)) == Assembled(pages)
  {
    AssembledEnds(pages);
    TrimFuncShape(Assembled(pages), IsSpace);
  }

  /** The assembled content has white space at neither end. */
  lemma {:induction false} AssembledEnds(pages: seq<Page>)
    ensures Unpadded(Assembled(pages))
  {
    if pages != [] {
      AssembledEnds(pages[1..]);
      if pages[0].Text? {
        TrimFuncShape(pages[0].text, IsSpace);
      }
      UnpaddedConcat(PageText(pages[0]), Assembled(pages[1..]));
    }
  }

  /** Neither end of `s` is white space. */
  predicate Unpadded(s: string) {
    s == [] || (!IsSpace(s[0]) && !IsSpace(s[|s| - 1]))
  }

  lemma UnpaddedConcat(head: string, tail: string)
    requires Unpadded(head) && Unpadded(tail)
    ensures Unpadded(head + tail)
  {
    if head == [] {
      assert head + tail == tail;
    } else if tail == [] {
      assert head + tail == head;
    } else {
      assert (head + tail)[0] == head[0];
      assert (head + tail)[|head + tail| - 1] == tail[|tail| - 1];
    }
  }

  /** A failed page is the first failure when none came before it. */
  lemma FailedAfterPrefix(pages: seq<Page>, i: nat)
    requires i < |pages| && pages[i].Failed? && FirstFailure(pages[..i]) == None
    ensures FirstFailure(pages) == Some(i)
  {
    FirstFailureShape(pages[..i]);
    assert forall j :: 0 <= j < i ==> pages[..i][j] == pages[j];
    FirstFailureAt(pages, i);
  }

  /** Any other page leaves no failure among the pages read. */
  lemma ReadAfterPrefix(pages: seq<Page>, i: nat)
    requires i < |pages| && !pages[i].Failed? && FirstFailure(pages[..i]) == None
    ensures FirstFailure(pages[..i + 1]) == None
  {
    FirstFailureShape(pages[..i]);
    assert forall j :: 0 <= j < i ==> pages[..i][j] == pages[j];
    assert forall j :: 0 <= j < i + 1 ==> pages[..i + 1][j] == pages[j];
    NoFailure(pages[..i + 1]);
  }

  /** The loop has seen every page. */
  lemma PagesDone(pages: seq<Page>, i: nat)
    requires i == |pages|
    ensures FirstFailure(pages[..i]) == FirstFailure(pages)
    ensures Assembled(pages[..i]) == Assembled(pages)
  {
    assert pages[..i] == pages;
  }

  /** The page loop of `extractTextFromPDF`, which both variants share:
      `doc` is the outcome of `pdf.Open` with the pages it reads. */
  method AssemblePages(doc: Result<seq<Page>, string>) returns (r: Result<string, ExtractError>)
    ensures doc.Err? ==> r == Err(OpenFailed(doc.error))
    ensures doc == Ok([]) ==> r == Err(EmptyPdf)
    ensures doc.Ok? && doc.value != [] && FirstFailure(doc.value).Some? ==>
      var i := FirstFailure(doc.value).value;
      r == Err(PageFailed(i + 1, doc.value[i].cause))
    ensures doc.Ok? && doc.value != [] && FirstFailure(doc.value).None? ==>
      r == if Assembled(doc.value) == [] then Err(NoExtractableText) else Ok(Assembled(doc.value))
  {
    if doc.Err? {
      return Err(OpenFailed(doc.error));
    }
    if |doc.value| == 0 {
      return Err(EmptyPdf);
    }
    r := ReadPages(doc.value);
  }

  /** The loop over the pages of an opened, non-empty document: stop at
      the first failed page, otherwise join the trimmed texts. */
  method ReadPages(pages: seq<Page>) returns (r: Result<string, ExtractError>)
    ensures FirstFailure(pages).Some? ==>
      var i := FirstFailure(pages).value;
      r == Err(PageFailed(i + 1, pages[i].cause))
    ensures FirstFailure(pages).None? ==>
      r == if Assembled(pages) == [] then Err(NoExtractableText) else Ok(Assembled(pages))
  {
    var content := "";
    var i := 0;
    while i < |pages|
      invariant 0 <= i <= |pages|
      invariant FirstFailure(pages[..i]) == None
      invariant content == Assembled(pages[..i])
    {
      var page := pages[i];
      if page.Failed? {
        FailedAfterPrefix(pages, i);
        return Err(PageFailed(i + 1, page.cause));
      }
      ReadAfterPrefix(pages, i);
      AssembledPrefix(pages, i);
      if page.Text? {
        content := content + TrimSpace(page.text);
      } else {
        assert content + PageText(page) == content;
      }
      i := i + 1;
    }
    PagesDone(pages, i);
    if |content| == 0 {
      return Err(NoExtractableText);
    }
    return Ok(content);
  }

  /** What the OCR step sees: the temporary directory or `pdftoppm` fail,
      or the page images come back, each with `tesseract`'s output or its
      failure. */
  datatype OcrRun =
    | TempDirRefused(cause: string)
    | ConversionFailed(cause: string)
    | Converted(images: seq<Result<string, string>>)

  /** The OCR content of pages whose `tesseract` runs all succeeded: each
      page's output followed by a newline. */
  function OcrJoined(outputs: seq<Result<string, string>>): (r: string)
    requires forall k :: 0 <= k < |outputs| ==> outputs[k].Ok?
    ensures |r| >= |outputs|
  {
    if outputs == [] then []
    else outputs[0].value + "\n" + OcrJoined(outputs[1..])
  }

  lemma {:induction false} OcrJoinedAppend(outputs: seq<Result<string, string>>, o: Result<string, string>)
    requires forall k :: 0 <= k < |outputs| ==> outputs[k].Ok?
    requires o.Ok?
    ensures OcrJoined(outputs + [o]) == OcrJoined(outputs) + o.value + "\n"
  {
    if outputs == [] {
      assert [o][1..] == [];
    } else {
      assert (outputs + [o])[1..] == outputs[1..] + [o];
      OcrJoinedAppend(outputs[1..], o);
    }
  }

  /** `extractTextViaOCR` after the external calls.  Each page adds at
      least its newline, so "OCR extracted no text" cannot be reached. */
  method AssembleOcr(run: OcrRun) returns (r: Result<string, ExtractError>)
    ensures run.TempDirRefused? ==> r == Err(TempDirFailed(run.cause))
    ensures run.ConversionFailed? ==> r == Err(PdftoppmFailed(run.cause))
    ensures run == Converted([]) ==> r == Err(NoPagesConverted)
    ensures run.Converted? && run.images != [] ==>
      if exists j :: 0 <= j < |run.images| && run.images[j].Err? then
        exists j :: 0 <= j < |run.images| && run.images[j].Err? && r == Err(TesseractFailed(run.images[j].error)) &&
          forall k :: 0 <= k < j ==> run.images[k].Ok?
      else r == Ok(OcrJoined(run.images))
    ensures r != Err(OcrNoText)
  {
    match run {
      case TempDirRefused(cause) => return Err(TempDirFailed(cause));
      case ConversionFailed(cause) => return Err(PdftoppmFailed(cause));
      case Converted(images) =>
        if |images| == 0 {
          return Err(NoPagesConverted);
        }
        var content := "";
        var i := 0;
        while i < |images|
          invariant 0 <= i <= |images|
          invariant forall k :: 0 <= k < i ==> images[k].Ok?
          invariant content == OcrJoined(images[..i])
        {
          var out := images[i];
          if out.Err? {
            return Err(TesseractFailed(out.error));
          }
          OcrJoinedAppend(images[..i], out);
          assert images[..i + 1] == images[..i] + [out];
          content := content + out.value + "\n";
          i := i + 1;
        }
        assert images[..i] == images;
        if |content| == 0 {
          assert false;
          return Err(OcrNoText);
        }
        return Ok(content);
    }
  }
}
