/** `truncateContent`, which both variants of the program share word for
    word: keep the head of an over-long document and mark the cut. */
module Truncation {
  import opened Outcomes

  /** The marker appended after the kept head (23 characters). */
  const TruncationSuffix: string := "... [content truncated]"

  /** `content[:maxLength-len(suffix)] + suffix` when `content` is longer
      than `maxLength`, else `content`.  `None` is the slice-bounds panic
      that a budget smaller than the suffix causes. */
  function Truncate(content: string, maxLength: int): (r: Option<string>)
    ensures |content| <= maxLength ==> r == Some(content)
    ensures r == None <==> |content| > maxLength && maxLength < |TruncationSuffix|
    ensures r.Some? ==> |r.value| <= maxLength
    ensures |content| > maxLength && r.Some? ==>
      && |r.value| == maxLength
      && r.value[..maxLength - |TruncationSuffix|] == content[..maxLength - |TruncationSuffix|]
      && r.value[maxLength - |TruncationSuffix|..] == TruncationSuffix
  {
    if |content| > maxLength then
      var keep := maxLength - |TruncationSuffix|;
      if keep < 0 then None else Some(content[..keep] + TruncationSuffix)
    else
      Some(content)
  }

  /** A truncated text is short enough to pass through again unchanged. */
  lemma TruncateIdempotent(content: string, maxLength: int)
    requires Truncate(content, maxLength).Some?
    ensures Truncate(Truncate(content, maxLength).value, maxLength) == Truncate(content, maxLength)
  {
  }
}
