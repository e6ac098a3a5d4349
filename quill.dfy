/** main.go, the earlier variant of the tool (named "quill"): a fixed
    3000-character budget, a title clean-up that only trims and joins
    lines, and an extraction that falls back to OCR without a length
    check.  Sanitising, unique names, renaming, the page loop and the OCR
    assembly are the shared definitions of `Naming` and `Extraction`. */
module Quill {
  import opened Outcomes
  import opened GoText
  import opened Truncation
  import opened Extraction

  const MaxContentLength: int := 3000

  /** `truncateContent` with the constant budget: never panics, and keeps
      the first 2977 characters of a longer text. */
  function TruncateContent(content: string): (r: string)
    ensures |content| <= MaxContentLength ==> r == content
    ensures |content| > MaxContentLength ==>
      && |r| == MaxContentLength
      && r[..2977] == content[..2977]
      && r[2977..] == TruncationSuffix
  {
    Truncate(content, MaxContentLength).value
  }

  /** The cutset of `cleanTitle`: straight and typographic quotes, space,
      tab and newline. */
  predicate InQuillCutset(c: char) {
    c == '"' || c == '\'' || c == '“' || c == '”' || c == '‘' || c == '’'
    || c == ' ' || c == '\t' || c == '\n'
  }

  /** `cleanTitle`: trim the cutset from both ends, then turn every
      newline into a space. */
  function CleanTitle(title: string): (r: string)
    ensures |r| <= |title|
    ensures forall i :: 0 <= i < |r| ==> r[i] != '\n'
    ensures r != [] ==> !InQuillCutset(r[0]) && !InQuillCutset(r[|r| - 1])
    ensures r == [] <==> forall i :: 0 <= i < |title| ==> InQuillCutset(title[i])
  {
    TrimFuncShape(title, InQuillCutset);
    NewlinesToSpaces(TrimFunc(title, InQuillCutset))
  }

  /** Cleaning a cleaned title changes nothing. */
  lemma CleanTitleIdempotent(title: string)
    ensures CleanTitle(CleanTitle(title)) == CleanTitle(title)
  {
    var r := CleanTitle(title);
    assert TrimFunc(r, InQuillCutset) == r;
    NewlinesToSpacesIdentity(r);
  }

  /** Padding made of cutset characters is dropped, and of the rest only
      the newlines change: they become spaces. */
  lemma CleanTitleOfPadded(left: string, middle: string, right: string)
    requires forall i :: 0 <= i < |left| ==> InQuillCutset(left[i])
    requires forall i :: 0 <= i < |right| ==> InQuillCutset(right[i])
    requires middle != [] && !InQuillCutset(middle[0]) && !InQuillCutset(middle[|middle| - 1])
    ensures |CleanTitle(left + middle + right)| == |middle|
    ensures forall i :: 0 <= i < |middle| ==>
      CleanTitle(left + middle + right)[i] == if middle[i] == '\n' then ' ' else middle[i]
  {
    TrimPadded(left, middle, right, InQuillCutset);
  }

  /** `extractPDFContent`: the standard text when it came without error
      and is not empty, otherwise whatever the OCR extractor gives, error
      or text, with no length check. */
  function ExtractPDFContent(standard: Result<string, ExtractError>, ocrText: Result<string, ExtractError>)
    : (r: Result<string, ExtractError>)
    ensures standard.Ok? && standard.value != [] ==> r == standard
    ensures !(standard.Ok? && standard.value != []) ==> r == ocrText
  {
    if standard.Ok? && standard.value != [] then standard else ocrText
  }

  /** An empty or error result of the standard extractor is never what
      comes back, and a short OCR text is not rejected. */
  lemma ExtractFallsBackToOcr(standard: Result<string, ExtractError>, ocrText: Result<string, ExtractError>)
    ensures var r := ExtractPDFContent(standard, ocrText);
      && (r.Ok? && r.value == [] ==> r == ocrText)
      && (r.Err? ==> r == ocrText)
      && (r == standard || r == ocrText)
  {
  }

  datatype TitleError =
    | EmptyContent           // "empty content provided for title generation"
    | ApiError(cause: string)  // "OpenAI API error: %w"
    | EmptyResponse          // "empty response from OpenAI API"

  /** `generateOpenAITitle` around the network call: `reply` is the error
      of the call or the contents of the choices it returned.  The request
      carries `TruncateContent(content)`, which cannot fail here. */
  function GenerateTitle(content: string, reply: Result<seq<string>, string>): (r: Result<string, TitleError>)
    ensures content == [] ==> r == Err(EmptyContent)
    ensures content != [] && reply.Err? ==> r == Err(ApiError(reply.error))
    ensures content != [] && reply.Ok? && (reply.value == [] || reply.value[0] == []) ==> r == Err(EmptyResponse)
    ensures content != [] && reply.Ok? && reply.value != [] && reply.value[0] != [] ==>
      r == Ok(CleanTitle(reply.value[0]))
    ensures r.Ok? ==> reply.Ok? && reply.value != [] && reply.value[0] != [] && r.value == CleanTitle(reply.value[0])
    ensures r.Ok? ==> forall i :: 0 <= i < |r.value| ==> r.value[i] != '\n'
  {
    if content == [] then Err(EmptyContent)
    else if reply.Err? then Err(ApiError(reply.error))
    else if reply.value == [] || reply.value[0] == [] then Err(EmptyResponse)
    else Ok(CleanTitle(reply.value[0]))
  }
}
