/** The decision logic of nombra.go around its I/O: which extractor's text
    is used, when extracted text is good enough, what the page loop of
    `extractTextFromPDF` rejects, and what becomes of the reply of the
    title request.  The settings that nombra.go keeps in package-level
    variables (`maxContentLength`, `minContentLength`, `ocr`) are a `Config`
    value passed in. */
module Nombra {
  import opened Outcomes
  import opened GoText
  import opened Truncation
  import opened Extraction
  import opened NombraTitle

  /** The package-level settings the functions read; `-l`, `-n` and
      `--ocr` set them. */
  datatype Config = Config(maxContentLength: int, minContentLength: int, ocr: bool)

  /** The values the settings start with. */
  const Defaults: Config := Config(3000, 10, false)

  /** `validateContentLength`: `None` is success; the error carries the
      trimmed length and the minimum. */
  function ValidateContentLength(content: string, minimum: int): (r: Option<ExtractError>)
    ensures r.None? <==> |TrimSpace(content)| >= minimum
    ensures r.Some? ==> r.value == BelowMinimum(|TrimSpace(content)|, minimum)
  {
    var trimmedLength := |TrimSpace(content)|;
    if trimmedLength < minimum then Some(BelowMinimum(trimmedLength, minimum)) else None
  }

  /** An extractor outcome that the fall-through loop returns at once. */
  predicate Accepted(o: Result<string, ExtractError>, minimum: int) {
    o.Ok? && o.value != [] && ValidateContentLength(o.value, minimum).None?
  }

  /** What one extractor outcome records as the latest error: its own
      error, or the length error of a non-empty text that is too short.
      An empty text without an error records nothing. */
  function Rejection(o: Result<string, ExtractError>, minimum: int): Option<ExtractError> {
    if o.Err? then Some(o.error)
    else if o.value != [] then ValidateContentLength(o.value, minimum)
    else None
  }

  /** The error recorded last over a run of outcomes. */
  function LastRejection(outcomes: seq<Result<string, ExtractError>>, minimum: int): Option<ExtractError> {
    if outcomes == [] then None
    else
      var last := Rejection(outcomes[|outcomes| - 1], minimum);
      if last.Some? then last else LastRejection(outcomes[..|outcomes| - 1], minimum)
  }

  /** The error `extractPDFContent` reports when no outcome is accepted. */
  function FallThroughError(outcomes: seq<Result<string, ExtractError>>, minimum: int): ExtractError {
    var last := LastRejection(outcomes, minimum);
    if last.Some? then AllFailed(last.value) else NothingExtracted
  }

  /** The loop of `extractPDFContent` over its extractors, each given by
      its outcome: the first outcome that is a non-empty text of at least
      the minimum trimmed length is returned; otherwise the last error is
      wrapped, or, when none was recorded, "no text could be extracted". */
  method TryExtractors(outcomes: seq<Result<string, ExtractError>>, minimum: int)
    returns (r: Result<string, ExtractError>)
    ensures r.Ok? <==> exists i :: 0 <= i < |outcomes| && Accepted(outcomes[i], minimum)
    ensures r.Ok? ==> exists i :: 0 <= i < |outcomes| && Accepted(outcomes[i], minimum) && r == outcomes[i] &&
                        forall j :: 0 <= j < i ==> !Accepted(outcomes[j], minimum)
    ensures r.Err? ==> r.error == FallThroughError(outcomes, minimum)
  {
    var lastErr: Option<ExtractError> := None;
    var i := 0;
    while i < |outcomes|
      invariant 0 <= i <= |outcomes|
      invariant forall j :: 0 <= j < i ==> !Accepted(outcomes[j], minimum)
      invariant lastErr == LastRejection(outcomes[..i], minimum)
    {
      var o := outcomes[i];
      assert outcomes[..i + 1][..i] == outcomes[..i];
      if o.Err? {
        lastErr := Some(o.error);
      } else if o.value != [] {
        var invalid := ValidateContentLength(o.value, minimum);
        if invalid.Some? {
          lastErr := invalid;
        } else {
          r := o;
          return;
        }
      }
      i := i + 1;
    }
    assert outcomes[..i] == outcomes;
    if lastErr.Some? {
      r := Err(AllFailed(lastErr.value));
    } else {
      r := Err(NothingExtracted);
    }
  }

  /** `extractPDFContent`, given what the standard extractor and the OCR
      extractor produce for the file.  With `ocr` set only the OCR outcome
      is looked at, its error is passed on as it is, and its text must
      meet the minimum; otherwise the two go through the fall-through
      loop, standard first. */
  method ExtractPDFContent(cfg: Config, standard: Result<string, ExtractError>, ocrText: Result<string, ExtractError>)
    returns (r: Result<string, ExtractError>)
    ensures cfg.ocr && ocrText.Err? ==> r == ocrText
    ensures cfg.ocr && ocrText.Ok? ==>
      r == if |TrimSpace(ocrText.value)| < cfg.minContentLength
           then Err(BelowMinimum(|TrimSpace(ocrText.value)|, cfg.minContentLength))
           else ocrText
    ensures r.Ok? ==> |TrimSpace(r.value)| >= cfg.minContentLength
    ensures !cfg.ocr && Accepted(standard, cfg.minContentLength) ==> r == standard
    ensures !cfg.ocr && !Accepted(standard, cfg.minContentLength) && Accepted(ocrText, cfg.minContentLength) ==> r == ocrText
    ensures !cfg.ocr ==>
      (r.Ok? <==> Accepted(standard, cfg.minContentLength) || Accepted(ocrText, cfg.minContentLength))
    ensures !cfg.ocr && r.Ok? ==> r.value != []
    ensures !cfg.ocr && !Accepted(standard, cfg.minContentLength) && !Accepted(ocrText, cfg.minContentLength) ==>
      r == Err(FallThroughError([standard, ocrText], cfg.minContentLength))
  {
    if cfg.ocr {
      if ocrText.Err? {
        return ocrText;
      }
      var invalid := ValidateContentLength(ocrText.value, cfg.minContentLength);
      if invalid.Some? {
        return Err(invalid.value);
      }
      return ocrText;
    }
    var outcomes := [standard, ocrText];
    assert outcomes[0] == standard && outcomes[1] == ocrText;
    r := TryExtractors(outcomes, cfg.minContentLength);
    if r.Ok? {
      var i :| 0 <= i < |outcomes| && Accepted(outcomes[i], cfg.minContentLength) && r == outcomes[i] &&
               forall j :: 0 <= j < i ==> !Accepted(outcomes[j], cfg.minContentLength);
      assert i == 0 ==> r == standard;
      assert i == 1 ==> r == ocrText && !Accepted(standard, cfg.minContentLength);
    }
  }

  /** When neither extractor is accepted, the error wraps the OCR failure
      if there is one, else the standard one; an extractor that gave a
      short non-empty text counts as failing with the length error. */
  lemma FallThroughErrorOfTwo(standard: Result<string, ExtractError>, ocrText: Result<string, ExtractError>, minimum: int)
    ensures FallThroughError([standard, ocrText], minimum) ==
      if Rejection(ocrText, minimum).Some? then AllFailed(Rejection(ocrText, minimum).value)
      else if Rejection(standard, minimum).Some? then AllFailed(Rejection(standard, minimum).value)
      else NothingExtracted
  {
    var both := [standard, ocrText];
    assert both[..1] == [standard];
    assert [standard][..0] == [];
    assert LastRejection(both, minimum) ==
      if Rejection(ocrText, minimum).Some? then Rejection(ocrText, minimum) else LastRejection([standard], minimum);
    assert LastRejection([standard], minimum) ==
      if Rejection(standard, minimum).Some? then Rejection(standard, minimum) else LastRejection([], minimum);
  }

  /** `extractTextFromPDF`: the shared page loop, then the rejection of a
      long text with no space in it (a sign of a failed extraction). */
  method ExtractTextFromPDF(doc: Result<seq<Page>, string>) returns (r: Result<string, ExtractError>)
    ensures doc.Err? ==> r == Err(OpenFailed(doc.error))
    ensures doc == Ok([]) ==> r == Err(EmptyPdf)
    ensures doc.Ok? && doc.value != [] && FirstFailure(doc.value).Some? ==>
      var i := FirstFailure(doc.value).value;
      r == Err(PageFailed(i + 1, doc.value[i].cause))
    ensures doc.Ok? && doc.value != [] && FirstFailure(doc.value).None? ==>
      var content := Assembled(doc.value);
      r == if content == [] then Err(NoExtractableText)
           else if |content| > 500 && ' ' !in content then Err(NoSpaces)
           else Ok(content)
    ensures r.Ok? ==> r.value != [] && !(|r.value| > 500 && ' ' !in r.value)
    ensures r.Ok? ==> TrimSpace(r.value) == r.value
  {
    r := AssemblePages(doc);
    if r.Err? {
      return;
    }
    AssembledIsTrimmed(doc.value);
    var content := r.value;
    if |content| > 500 && ' ' !in content {
      r := Err(NoSpaces);
    }
  }

  datatype TitleError =
    | EmptyContent           // "empty content provided for title generation"
    | TruncationPanicked     // the slice in truncateContent panics
    | ApiError(cause: string)  // "OpenAI API error: %w"
    | EmptyResponse          // "empty response from OpenAI API"

  /** With the default budget the truncation of the request never panics
      and the request holds at most 3000 characters. */
  lemma DefaultRequestFits(content: string)
    ensures Truncate(content, Defaults.maxContentLength).Some?
    ensures |Truncate(content, Defaults.maxContentLength).value| <= 3000
  {
  }

  /** `generateOpenAITitle` around the network call: `reply` is the error
      of the call or the contents of the choices it returned. */
  function GenerateTitle(cfg: Config, content: string, reply: Result<seq<string>, string>): (r: Result<string, TitleError>)
    ensures content == [] ==> r == Err(EmptyContent)
    ensures content != [] && Truncate(content, cfg.maxContentLength).None? ==> r == Err(TruncationPanicked)
    ensures content != [] && Truncate(content, cfg.maxContentLength).Some? && reply.Err? ==>
      r == Err(ApiError(reply.error))
    ensures content != [] && Truncate(content, cfg.maxContentLength).Some? && reply.Ok? ==>
      (reply.value == [] || reply.value[0] == []) ==> r == Err(EmptyResponse)
    ensures content != [] && Truncate(content, cfg.maxContentLength).Some? && reply.Ok? ==>
      reply.value != [] && reply.value[0] != [] ==> r == Ok(CleanTitle(reply.value[0]))
    ensures r.Ok? ==> reply.Ok? && reply.value != [] && reply.value[0] != [] && r.value == CleanTitle(reply.value[0])
    ensures r.Ok? ==> HyphensSpaced(r.value) && AllPairs(r.value, NoCamel)
    ensures r.Ok? ==> forall i :: 0 <= i < |r.value| ==> r.value[i] != '\n'
  {
    if content == [] then Err(EmptyContent)
    else if Truncate(content, cfg.maxContentLength).None? then Err(TruncationPanicked)
    else if reply.Err? then Err(ApiError(reply.error))
    else if reply.value == [] || reply.value[0] == [] then Err(EmptyResponse)
    else
      var title := reply.value[0];
      CleanTitleSpacing(title);
      CleanTitleHyphens(title);
      CleanTitleNoCamel(title);
      Ok(CleanTitle(title))
  }
}
