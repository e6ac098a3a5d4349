# nombra in Dafny

nombra is a command-line tool that renames a PDF after its content. It
extracts the text, with the PDF library first and OCR (`pdftoppm` plus
`tesseract`) as a fallback. It asks a language model for a title, cleans
the title up, and turns it into a file name that is free of illegal
characters and does not collide with an existing file.

This project models the deterministic logic around that I/O, for both
versions of the tool. nombra.go is the current version. main.go is the
earlier version, called "quill": a fixed 3000-character budget, a simpler
title clean-up, and a two-step extraction with no length check.

Modules:

- `Outcomes`: `Option` and `Result`.
- `GoText`:
  - the parts of Go's `strings` and `unicode` packages the program uses: `TrimFunc`, `TrimSpace`, `Trim` with a cutset, `ReplaceAll` of newlines;
  - the RE2 class `\s`.
- `Truncation`: `truncateContent`, which is the same in both versions.
- `Naming`: the code both versions share word for word (main.go lines 78-139 match nombra.go lines 116-181).
  - `sanitizeFilename` and `generateUniqueName`.
  - The naming part of `safeRenameFile`, and the rename itself, over a `FileSystem` class. The file system is the set of paths that exist.
- `Extraction`: the page loop of `extractTextFromPDF` and the assembly in `extractTextViaOCR`, which are the same in both versions apart from nombra's no-space check (main.go lines 153-228). The pages and the OCR tool outputs are inputs.
- `NombraTitle`: nombra's `cleanTitle`.
  - The three regular-expression replacements are left-to-right scans with RE2's leftmost, greedy, non-overlapping matching.
  - Lemmas state what each step keeps and what shape its output has.
- `NombraTitleExamples`:
  - the three examples of nombra_test.go;
  - a title that a second clean-up still changes.
- `Nombra`:
  - the settings, kept here as a `Config` value;
  - `validateContentLength`;
  - the extractor fall-through loop of `extractPDFContent`;
  - the no-space check of `extractTextFromPDF`;
  - the handling of the title reply.
- `Quill`: main.go's versions of the constant budget, `cleanTitle`, `extractPDFContent` and the title reply.

A string is a sequence of `char`, one element per rune. A Go panic on a
slice bound is an explicit outcome (`None`, `Panicked`, `TruncationPanicked`),
not a precondition.

Facts about the code that a reader might not expect:

- Truncation keeps only the head of the text, followed by the suffix; nothing from the end of the text is kept.
- `cleanTitle` spaces hyphens before it splits camel case. It does not trim again at the end. nombra's cutset has no typographic quotes.
- nombra's `cleanTitle` is not idempotent: see `NombraTitleExamples.CleanTitleNotIdempotent`. Quill's `cleanTitle` is idempotent.
- "White space" in the `NombraTitle` rows means RE2's `\s` (tab, newline, form feed, carriage return, space). Other Unicode white space, such as a vertical tab, is not touched by the replacements and survives cleaning.

## Model

| member | source | states |
|---|---|---|
| GoText.TrimFuncShape | nombra.go:395 | `strings.Trim`: the result is empty exactly when every character is in the cutset; otherwise neither end of it is in the cutset; a string whose ends are outside the cutset is returned unchanged |
| GoText.TrimFunc | nombra.go:395 | `strings.TrimFunc` (and `strings.Trim` with a cutset): drops the longest prefix and the longest suffix of characters in the set; its contract bounds the length, and `TrimFuncShape`, `TrimPadded` and `TrimIdempotent` characterise the result |
| GoText.TrimSpace | nombra.go:155 | `strings.TrimSpace`: `TrimFunc` with Unicode white space; no contract of its own, characterised by the `TrimFunc` lemmas |
| GoText.TrimPadded | main.go:279 | trimming cutset padding from both sides of a middle whose ends are not in the cutset gives back exactly that middle |
| GoText.TrimIdempotent | nombra.go:155 | trimming twice is the same as trimming once |
| GoText.NewlinesToSpaces | nombra.go:398 | `strings.ReplaceAll(s, "\n", " ")`: same length, each newline becomes a space and every other character is kept in place |
| GoText.NewlinesToSpacesIdentity | main.go:280 | text with no newline passes unchanged |
| Truncation.Truncate | nombra.go:384-389 | text within the budget is returned as it is; a longer text comes back exactly at the budget, made of the head of the input followed by "... [content truncated]"; the result is a panic exactly when the text is over budget and the budget is below the suffix's 23 characters |
| Truncation.TruncateIdempotent | nombra.go:384-389 | truncating a truncated text changes nothing |
| Quill.TruncateContent | main.go:271-276 | with the fixed 3000 budget: identity up to 3000 characters, otherwise exactly 3000 characters, namely the first 2977 and the suffix; never panics |
| Naming.RemoveIllegal | nombra.go:151-152 | deleting the matches of `[<>:"\/\\|?*]` leaves no illegal character, keeps every other character that occurs, and leaves a clean string unchanged |
| Naming.RemoveIllegalConcat | nombra.go:151-152 | the deletion works piece by piece (the result for a concatenation is the concatenation of the results), so the legal characters keep their order and number |
| Naming.SanitizeFilename | nombra.go:149-166 | the name is never empty, has at most 120 characters and holds no illegal character; it is "untitled-document" when every character is white space or illegal; otherwise it is exactly the first min(120, length) characters of the title with the illegal characters deleted and white space trimmed |
| Naming.NothingUsableIffEmpty | nombra.go:151-163 | nothing is left after deletion and trimming exactly when every character is white space or illegal |
| Naming.SanitizeKeepsCleanName | nombra.go:149-166 | a non-empty name of at most 120 characters, with no illegal character and no white space at either end, passes unchanged |
| Naming.DecimalString | nombra.go:175 | the `%d` rendering of the counter is a non-empty string of digits that starts with 0 only for the counter 0 |
| Naming.DecimalRoundTrip | nombra.go:175 | reading the rendered digits back gives the counter |
| Naming.Candidate | nombra.go:172-175 | the path `dir/base-N.ext` that `generateUniqueName` tries for counter N; no contract of its own, characterised by `CandidateInjective`, `DecimalString` and `DecimalRoundTrip` |
| Naming.CandidateInjective | nombra.go:172-175 | different counters give different candidate paths |
| Naming.GenerateUniqueName | nombra.go:170-181 | the search ends on a finite set of existing paths and returns `dir/base-N.ext` that does not exist, for the least such N >= 1: every smaller counter's candidate exists |
| Naming.CappedBaseName | nombra.go:125-130 | title plus extension is kept when at most 120 characters; otherwise the title is cut to a prefix so that the whole is exactly 120 characters and still ends with the extension; it panics exactly when the extension alone is over 120 |
| Naming.ChooseTarget | nombra.go:116-137 | the target never exists; the "invalid filename" error cannot happen; without a collision the target is `dir/` plus the capped base name; on a collision it is the least free `dir/title-N.ext`, built from the uncapped title |
| Naming.FileSystem.Rename | nombra.go:140-142 | `os.Rename`: on success the source path is gone and the target exists; on refusal nothing changes and the cause is returned |
| Naming.SafeRenameFile | nombra.go:116-145 | it panics exactly when the capped base name panics; otherwise the file moves exactly when the operating system does not refuse, and a refusal comes back as the rename error with its cause. The new path did not exist before: it is `dir/` plus the capped name when that is free, else the least free `dir/title-N.ext`. On any error the file system is unchanged |
| Extraction.FirstFailure | nombra.go:261-270 | the index it reports is a page whose text extraction failed |
| Extraction.FirstFailureShape | nombra.go:261-270 | no page before the reported index failed; when none is reported, no page failed |
| Extraction.Assembled | nombra.go:271 | the content the page loop builds: the trimmed texts of the non-null pages, in page order; no contract of its own, characterised by `AssembledEnds`, `AssembledIsTrimmed` and the loop `ReadPages` proved equal to it |
| Extraction.AssembledIsTrimmed | nombra.go:271 | the joined trimmed page texts have no white space at either end, so trimming them again changes nothing |
| Extraction.AssembledEnds | nombra.go:271 | neither end of the joined text is white space |
| Extraction.ReadPages | nombra.go:261-276 | the first failed page aborts with its 1-based number and cause; otherwise the result is the in-order join of the trimmed texts of the non-null pages, or "no extractable text" when that is empty |
| Extraction.AssemblePages | nombra.go:248-276 | an open error and an empty PDF are reported first; then as `ReadPages` |
| Extraction.OcrJoined | nombra.go:321-322 | for pages whose `tesseract` runs all succeeded, each page adds its output and a newline, so the text has at least one character per page |
| Extraction.OcrJoinedAppend | nombra.go:310-323 | one more page appends its output and a newline |
| Extraction.AssembleOcr | nombra.go:288-330 | each setup failure maps to its error; no pages is an error; the first failing `tesseract` run aborts with its cause; otherwise the result is the joined outputs; "OCR extracted no text" is unreachable |
| Nombra.ValidateContentLength | nombra.go:184-190 | success exactly when the trimmed length reaches the minimum; the error carries the trimmed length and the minimum |
| Nombra.TryExtractors | nombra.go:217-243 | the result is a text exactly when some outcome is accepted, that is error-free, non-empty and long enough; it is the first accepted outcome; otherwise the error wraps the last recorded error, or is "no text could be extracted" when none was recorded |
| Nombra.ExtractPDFContent | nombra.go:195-244 | with `ocr` set, only the OCR outcome is used: its error passes through unchanged and its text must reach the minimum. Otherwise the result is a text exactly when one of the two outcomes is accepted: the standard text when it is accepted, else the OCR text; when neither is accepted, the error is the fall-through error of the two. Every returned text reaches the minimum trimmed length |
| Nombra.FallThroughErrorOfTwo | nombra.go:239-243 | when neither extractor is accepted, the error wraps the OCR rejection if there is one, else the standard one |
| Nombra.ExtractTextFromPDF | nombra.go:248-284 | as `AssemblePages`, then a text over 500 characters with no space is rejected; a returned text is non-empty, trimmed, and not both long and space-free |
| Nombra.DefaultRequestFits | nombra.go:384-389 | with the default 3000 budget the truncation never panics and the request holds at most 3000 characters |
| Nombra.GenerateTitle | nombra.go:335-380 | empty content is rejected; a budget that makes truncation panic is a failure; otherwise an API error is passed on, a missing or empty first choice is "empty response", and a non-empty first choice gives exactly its `cleanTitle`. That title has no newline, every hyphen in it is spaced, and it has no lower-case letter directly before an upper-case one |
| NombraTitle.DashSpacingShape | nombra.go:401 | after the `\s*-\s*` replacement no hyphen is at either end, and white space is next to every hyphen on both sides |
| NombraTitle.DashSpacing | nombra.go:401 | the `\s*-\s*` to `" - "` replacement as a left-to-right scan with leftmost greedy matches; no contract of its own, characterised by `DashSpacingShape`, `DashSpacingKeepsWords`, `DashSpacingPlain`, `DashSpacingHyphen` and `HyphenMatch` |
| NombraTitle.DashSpacingKeepsWords | nombra.go:401 | the hyphen step only changes `\s` characters: all other characters stay the same, in order |
| NombraTitle.DashSpacingPlain | nombra.go:401 | a piece with no hyphen that does not end in a `\s` character passes the hyphen step unchanged |
| NombraTitle.DashSpacingHyphen | nombra.go:401 | one hyphen with white space around it becomes exactly " - " |
| NombraTitle.HyphenMatch | nombra.go:401 | the greedy match `\s*-\s*` at the start of the text spans the white space before the hyphen, the hyphen, and all white space after it |
| NombraTitle.SplitCamelShape | nombra.go:404 | the `([a-z])([A-Z])` step never shortens the text, keeps both end characters, and leaves no lower-case letter right before an upper-case one |
| NombraTitle.SplitCamel | nombra.go:404 | the `([a-z])([A-Z])` to `"$1 $2"` replacement, non-overlapping from the left; no contract of its own, characterised by the `SplitCamel` lemmas |
| NombraTitle.SplitCamelKeepsWords | nombra.go:404 | the camel-case step only changes `\s` characters: all other characters stay the same, in order |
| NombraTitle.SplitCamelKeepsPairs | nombra.go:404 | a relation between neighbouring characters that holds throughout the text, and also holds for a lower-case letter followed by a space and for a space followed by an upper-case letter, still holds after the camel-case step |
| NombraTitle.SplitCamelIdentity | nombra.go:404 | text with no lower-case letter before an upper-case one passes unchanged |
| NombraTitle.SplitCamelConcat | nombra.go:404 | the camel-case step works piece by piece across a seam that is not such a pair |
| NombraTitle.SplitCamelPair | nombra.go:404 | a lower-case letter followed by an upper-case one gets one space between them |
| NombraTitle.CollapseSpaceShape | nombra.go:407 | the `\s+` step never lengthens the text, keeps it empty or non-empty, maps each end character to itself or to a space, and leaves only single plain spaces |
| NombraTitle.CollapseSpace | nombra.go:407 | the `\s+` to `" "` replacement with greedy runs; no contract of its own, characterised by the `CollapseSpace` lemmas |
| NombraTitle.CollapseSpaceKeepsWords | nombra.go:407 | the collapsing step only changes `\s` characters: all other characters stay the same, in order |
| NombraTitle.CollapseSpaceKeepsPairs | nombra.go:407 | a relation between neighbouring characters that holds throughout the text still holds after collapsing, provided it holds for a plain space wherever it holds for some white-space character |
| NombraTitle.CollapseSpaceIdentity | nombra.go:407 | text whose white space is single plain spaces passes unchanged, so collapsing is idempotent |
| NombraTitle.CollapseSpaceConcat | nombra.go:407 | collapsing works piece by piece across a seam that is not two white-space characters |
| NombraTitle.NewlinesKeepWords | nombra.go:398 | the newline step only changes `\s` characters: all other characters stay the same, in order |
| NombraTitle.CleanTitleSpacing | nombra.go:393-410 | the cleaned title has no newline; its `\s` white space is plain spaces only, never two in a row |
| NombraTitle.CleanTitleHyphens | nombra.go:393-410 | every hyphen in the cleaned title has a space right before it and right after it |
| NombraTitle.CleanTitleNoCamel | nombra.go:393-410 | no lower-case letter in the cleaned title is directly followed by an upper-case one |
| NombraTitle.CleanTitleKeepsWords | nombra.go:393-410 | apart from `\s` characters, the cleaned title is exactly the input with the quote and space cutset trimmed from both ends |
| NombraTitle.CleanTitle | nombra.go:393-410 | `cleanTitle`: trim, newlines to spaces, hyphen spacing, camel-case split, white-space collapse, in that order; no contract of its own, characterised by `CleanTitleSpacing`, `CleanTitleHyphens`, `CleanTitleNoCamel`, `CleanTitleKeepsWords`, the three test examples and `CleanTitleNotIdempotent` |
| NombraTitleExamples.CleanTitleDatedExample | nombra_test.go:7 | `" \"2024.03.31 -John Doe-Title\" \n"` cleans to `"2024.03.31 - John Doe - Title"` |
| NombraTitleExamples.CleanTitleCamelExample | nombra_test.go:8 | `"FooBar"` cleans to `"Foo Bar"` |
| NombraTitleExamples.CleanTitleHyphenExample | nombra_test.go:9 | `"  Something-Else  "` cleans to `"Something - Else"` |
| NombraTitleExamples.CleanTitleNotIdempotent | nombra.go:393-410 | `"\r\"a"` cleans to `" \"a"`, which cleans again to `"a"`: a carriage return is `\s` but is not in the trim cutset |
| Quill.CleanTitle | main.go:278-281 | the result is no longer than the input and has no newline; neither end is in the cutset, which includes the typographic quotes; it is empty exactly when every character is in the cutset |
| Quill.CleanTitleIdempotent | main.go:278-281 | cleaning a cleaned title changes nothing |
| Quill.CleanTitleOfPadded | main.go:278-281 | of a title padded with cutset characters, exactly the unpadded middle is kept, with its newlines turned into spaces |
| Quill.ExtractPDFContent | main.go:141-151 | a non-empty, error-free standard text is returned; otherwise exactly the OCR outcome, text or error, with no length check |
| Quill.ExtractFallsBackToOcr | main.go:141-151 | an empty or failed standard outcome is never returned unless OCR gives the same outcome; a short OCR text is not rejected |
| Quill.GenerateTitle | main.go:230-269 | empty content is rejected; an API error is passed on; a missing or empty first choice is "empty response"; a non-empty first choice gives exactly its `cleanTitle`, which has no newline |

## Left out

- The command line is left out: flag parsing, the API key lookup, printing and the exit status.
- Calls into other code are inputs to the model:
  - the PDF library: opening, page count, page objects, `GetPlainText`;
  - the OCR tools and the temporary directory;
  - the language-model request.
  
  The model covers only what the program does with their results.
- Lengths are counted in runes, while Go counts bytes. For non-ASCII text, `len`, the 120-character cut and the truncation cut can differ from Go's, and Go can split a multi-byte rune.
- `Naming.Candidate`: the title is part of the `fmt.Sprintf` pattern, so a `%` in a title would be read as a verb. The model builds the intended `dir/base-N.ext`.
- `Naming.ChooseTarget`: existence is modelled as one set of paths. Left out:
  - the difference between `err == nil` in `safeRenameFile` and `os.IsNotExist` in `generateUniqueName`, for other `Stat` errors;
  - the race between the check and the rename.
- `Naming.ChooseTarget`: on a collision the target is built from the uncapped title, exactly as the code does, so no 120-character bound is stated for that case.
- `filepath.Dir`, `filepath.Ext` and `filepath.Join` are left out. The directory and the extension are inputs, and joining is `dir + "/" + name`.
- Logging and verbose output are left out.
- `Nombra.ExtractPDFContent`: OCR runs only when the standard extractor is rejected. The model takes both outcomes as inputs, which is the same thing because the extractors have no effects the model sees.
- `Nombra.GenerateTitle`: a budget below 23 characters makes the truncation slice panic. This is the `TruncationPanicked` error, not a crash.
