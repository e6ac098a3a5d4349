/** Turning a title into a target path: `sanitizeFilename`,
    `generateUniqueName` and the naming part of `safeRenameFile`.  Both
    variants of the program carry these word for word.  The file system is
    the set of paths that exist; `filepath.Join` is `dir + "/" + name`, and
    `filepath.Dir` and `filepath.Ext` of the original path are inputs. */
module Naming {
  import opened Outcomes
  import opened GoText

  const MaxFilenameLength: nat := 120

  /** The name used when nothing usable is left of the title. */
  const FallbackName: string := "untitled-document"

  /** The characters of the pattern `[<>:"\/\\|?*]`. */
  predicate IsIllegal(c: char) {
    c == '<' || c == '>' || c == ':' || c == '"' || c == '/' || c == '\\' || c == '|' || c == '?' || c == '*'
  }

  /** Replacing every match of the illegal-character pattern with "". */
  function RemoveIllegal(s: string): (r: string)
    ensures |r| <= |s|
    ensures forall i :: 0 <= i < |r| ==> !IsIllegal(r[i])
    ensures forall c :: c in r <==> c in s && !IsIllegal(c)
    ensures (forall i :: 0 <= i < |s| ==> !IsIllegal(s[i])) ==> r == s
  {
    if s == [] then []
    else if IsIllegal(s[0]) then RemoveIllegal(s[1..])
    else [s[0]] + RemoveIllegal(s[1..])
  }

  /** The deletion works piece by piece, so it keeps the order and the
      number of the legal characters. */
  lemma {:induction false} RemoveIllegalConcat(a: string, b: string)
    ensures RemoveIllegal(a + b) == RemoveIllegal(a) + RemoveIllegal(b)
  {
    if a == [] {
      assert a + b == b;
    } else {
      assert (a + b)[0] == a[0];
      assert (a + b)[1..] == a[1..] + b;
      RemoveIllegalConcat(a[1..], b);
    }
  }

  /** True when every character is white space or illegal, so that
      nothing is left once both are removed. */
  predicate NothingUsable(s: string) {
    forall i :: 0 <= i < |s| ==> IsSpace(s[i]) || IsIllegal(s[i])
  }

  /** `sanitizeFilename`: delete the illegal characters, trim white space,
      cut to 120 characters, and fall back to "untitled-document" when
      nothing is left. */
  function SanitizeFilename(title: string): (r: string)
    ensures 0 < |r| <= MaxFilenameLength
    ensures forall i :: 0 <= i < |r| ==> !IsIllegal(r[i])
    ensures NothingUsable(title) ==> r == FallbackName
    ensures !NothingUsable(title) ==>
      var kept := TrimSpace(RemoveIllegal(title));
      r == kept[..if |kept| > MaxFilenameLength then MaxFilenameLength else |kept|]
  {
    var clean := TrimSpace(RemoveIllegal(title));
    NothingUsableIffEmpty(title);
    TrimmedIsLegal(title);
    var cut := if |clean| > MaxFilenameLength then clean[..MaxFilenameLength] else clean;
    if cut == [] then FallbackName else cut
  }

  /** No illegal character survives deletion and trimming. */
  lemma TrimmedIsLegal(title: string)
    ensures var kept := TrimSpace(RemoveIllegal(title));
      forall i :: 0 <= i < |kept| ==> !IsIllegal(kept[i])
  {
    var kept := TrimSpace(RemoveIllegal(title));
    TrimFuncSubset(RemoveIllegal(title), IsSpace);
    forall i | 0 <= i < |kept| ensures !IsIllegal(kept[i]) {
      assert kept[i] in kept;
    }
  }

  /** Nothing survives deletion and trimming exactly when every character
      is white space or illegal. */
  lemma NothingUsableIffEmpty(title: string)
    ensures NothingUsable(title) <==> TrimSpace(RemoveIllegal(title)) == []
  {
    var kept := RemoveIllegal(title);
    TrimFuncShape(kept, IsSpace);
    if NothingUsable(title) {
      forall i | 0 <= i < |kept| ensures IsSpace(kept[i]) {
        assert kept[i] in title;
      }
    } else {
      var i :| 0 <= i < |title| && !IsSpace(title[i]) && !IsIllegal(title[i]);
      assert title[i] in kept;
    }
  }

  /** A name that is already clean passes through unchanged. */
  lemma {:induction false} SanitizeKeepsCleanName(title: string)
    requires 0 < |title| <= MaxFilenameLength
    requires forall i :: 0 <= i < |title| ==> !IsIllegal(title[i])
    requires !IsSpace(title[0]) && !IsSpace(title[|title| - 1])
    ensures SanitizeFilename(title) == title
  {
    assert RemoveIllegal(title) == title;
    assert !NothingUsable(title);
  }

  /** `fmt.Sprintf("%d", n)`: decimal digits, no leading zero. */
  function DecimalString(n: nat): (r: string)
    ensures |r| >= 1
    ensures forall i :: 0 <= i < |r| ==> '0' <= r[i] <= '9'
    ensures r[0] == '0' ==> n == 0
  {
    if n < 10 then [(48 + n) as char]
    else DecimalString(n / 10) + [(48 + n % 10) as char]
  }

  /** The number a string of decimal digits denotes. */
  function DecimalValue(s: string): nat
    requires forall i :: 0 <= i < |s| ==> '0' <= s[i] <= '9'
  {
    if s == [] then 0 else DecimalValue(s[..|s| - 1]) * 10 + (s[|s| - 1] as int - 48)
  }

  lemma {:induction false} DecimalRoundTrip(n: nat)
    ensures DecimalValue(DecimalString(n)) == n
  {
    if n >= 10 {
      DecimalRoundTrip(n / 10);
      var s := DecimalString(n);
      assert s[..|s| - 1] == DecimalString(n / 10);
    }
  }

  /** `filepath.Join(dir, name)` for a clean directory and a plain name. */
  function Join(dir: string, name: string): string {
    dir + "/" + name
  }

  /** The candidate that `generateUniqueName` tries for counter `n`:
      `dir/base-n.ext`. */
  function Candidate(dir: string, base: string, ext: string, n: nat): string {
    Join(dir, base + "-" + DecimalString(n) + ext)
  }

  /** Different counters give different candidates. */
  lemma CandidateInjective(dir: string, base: string, ext: string, m: nat, n: nat)
    ensures m != n ==> Candidate(dir, base, ext, m) != Candidate(dir, base, ext, n)
  {
    var prefix := dir + "/" + base + "-";
    var dm, dn := DecimalString(m), DecimalString(n);
    if Candidate(dir, base, ext, m) == Candidate(dir, base, ext, n) {
      var s := Candidate(dir, base, ext, m);
      assert s == prefix + dm + ext;
      assert s == prefix + dn + ext;
      assert dm == s[|prefix|..|prefix| + |dm|];
      assert dn == s[|prefix|..|prefix| + |dn|];
      DecimalRoundTrip(m);
      DecimalRoundTrip(n);
    }
  }

  /** `generateUniqueName`: count up from 1 until `dir/base-N.ext` does not
      exist.  The search ends because only finitely many paths exist and
      each occupied candidate is a different one of them. */
  method GenerateUniqueName(dir: string, base: string, ext: string, existing: set<string>)
    returns (path: string, counter: nat)
    ensures counter >= 1 && path == Candidate(dir, base, ext, counter)
    ensures path !in existing
    ensures forall m :: 1 <= m < counter ==> Candidate(dir, base, ext, m) in existing
  {
    counter := 1;
    path := Candidate(dir, base, ext, counter);
    ghost var tried: set<string> := {};
    while path in existing
      invariant counter >= 1 && path == Candidate(dir, base, ext, counter)
      invariant tried <= existing
      invariant tried == set m | 1 <= m < counter :: Candidate(dir, base, ext, m)
      invariant forall m :: 1 <= m < counter ==> Candidate(dir, base, ext, m) in existing
      decreases existing - tried
    {
      forall m | 1 <= m < counter
        ensures Candidate(dir, base, ext, m) != path
      {
        CandidateInjective(dir, base, ext, m, counter);
      }
      tried := tried + {path};
      counter := counter + 1;
      path := Candidate(dir, base, ext, counter);
    }
  }

  /** The base name `safeRenameFile` tries first: title plus extension,
      cut back to 120 characters while keeping the extension.  `None` is
      the slice-bounds panic when the extension alone is over 120. */
  function CappedBaseName(clean: string, ext: string): (r: Option<string>)
    ensures r == None <==> |clean + ext| > MaxFilenameLength && |ext| > MaxFilenameLength
    ensures |clean + ext| <= MaxFilenameLength ==> r == Some(clean + ext)
    ensures |clean + ext| > MaxFilenameLength && r.Some? ==> |r.value| == MaxFilenameLength
    ensures r.Some? ==>
      && |r.value| <= MaxFilenameLength
      && |ext| <= |r.value| <= |clean| + |ext|
      && r.value == clean[..|r.value| - |ext|] + ext
  {
    var baseName := clean + ext;
    if |baseName| > MaxFilenameLength then
      var keep := MaxFilenameLength - |ext|;
      if keep < 0 then None
      else
        assert baseName[..keep] == clean[..keep];
        Some(baseName[..keep] + ext)
    else
      Some(baseName)
  }

  datatype RenameError =
    | InvalidFilename       // "generated title results in invalid filename"
    | Panicked              // the slice at the length cap panics
    | RenameFailed(cause: string)  // "could not rename file: %w"

  /** The target path `safeRenameFile` picks for `title`, given the
      directory and extension of the original and the paths that exist. */
  method ChooseTarget(dir: string, ext: string, title: string, existing: set<string>)
    returns (r: Result<string, RenameError>)
    ensures r.Err? ==> r.error == Panicked
    ensures r == Err(Panicked) <==> CappedBaseName(SanitizeFilename(title), ext) == None
    ensures r.Ok? ==> r.value !in existing
    ensures r.Ok? && Join(dir, CappedBaseName(SanitizeFilename(title), ext).value) !in existing ==>
      r.value == Join(dir, CappedBaseName(SanitizeFilename(title), ext).value)
    ensures r.Ok? && Join(dir, CappedBaseName(SanitizeFilename(title), ext).value) in existing ==>
      exists n :: n >= 1 && r.value == Candidate(dir, SanitizeFilename(title), ext, n) &&
        forall m :: 1 <= m < n ==> Candidate(dir, SanitizeFilename(title), ext, m) in existing
  {
    var clean := SanitizeFilename(title);
    if clean == "" {
      assert false;
      r := Err(InvalidFilename);
      return;
    }
    var baseName := CappedBaseName(clean, ext);
    if baseName.None? {
      r := Err(Panicked);
      return;
    }
    var newPath := Join(dir, baseName.value);
    if newPath in existing {
      var n;
      newPath, n := GenerateUniqueName(dir, clean, ext, existing);
    }
    r := Ok(newPath);
  }

  /** The file system as the set of paths that exist. */
  class FileSystem {
    var paths: set<string>

    constructor (initial: set<string>)
      ensures paths == initial
    {
      paths := initial;
    }

    /** `os.Rename`; whether the operating system refuses is an input. */
    method Rename(from: string, to: string, refusal: Option<string>) returns (err: Option<string>)
      modifies this
      ensures err == refusal
      ensures refusal.None? ==> paths == old(paths) - {from} + {to}
      ensures refusal.Some? ==> paths == old(paths)
    {
      err := refusal;
      if refusal.None? {
        paths := paths - {from} + {to};
      }
    }
  }

  /** `safeRenameFile`: pick the target and move the file there.  A file
      that already exists is never replaced. */
  method SafeRenameFile(fs: FileSystem, originalPath: string, dir: string, ext: string,
                        title: string, refusal: Option<string>)
    returns (r: Result<string, RenameError>)
    modifies fs
    ensures r != Err(InvalidFilename)
    ensures r == Err(Panicked) <==> CappedBaseName(SanitizeFilename(title), ext) == None
    ensures CappedBaseName(SanitizeFilename(title), ext).Some? && refusal.Some? ==> r == Err(RenameFailed(refusal.value))
    ensures CappedBaseName(SanitizeFilename(title), ext).Some? && refusal.None? ==> r.Ok?
    ensures r.Ok? ==> r.value !in old(fs.paths) && fs.paths == old(fs.paths) - {originalPath} + {r.value}
    ensures r.Err? ==> fs.paths == old(fs.paths)
    ensures r.Err? && r.error.RenameFailed? ==> refusal == Some(r.error.cause)
    ensures r.Ok? && Join(dir, CappedBaseName(SanitizeFilename(title), ext).value) !in old(fs.paths) ==>
      r.value == Join(dir, CappedBaseName(SanitizeFilename(title), ext).value)
    ensures r.Ok? && Join(dir, CappedBaseName(SanitizeFilename(title), ext).value) in old(fs.paths) ==>
      exists n :: n >= 1 && r.value == Candidate(dir, SanitizeFilename(title), ext, n) &&
        forall m :: 1 <= m < n ==> Candidate(dir, SanitizeFilename(title), ext, m) in old(fs.paths)
  {
    r := ChooseTarget(dir, ext, title, fs.paths);
    if r.Err? {
      return;
    }
    var err := fs.Rename(originalPath, r.value, refusal);
    if err.Some? {
      r := Err(RenameFailed(err.value));
    }
  }
}
