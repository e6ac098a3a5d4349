/** The parts of Go's `strings` and `unicode` packages and of RE2's `\s`
    class that the program relies on.  A string is a sequence of `char`,
    one element per rune; for ASCII text its length is Go's `len`. */
module GoText {

  /** `unicode.IsSpace`: the test behind `strings.TrimSpace`. */
  predicate IsSpace(c: char) {
    || c == '\t' || c == '\n' || c == '\U{000B}' || c == '\U{000C}' || c == '\r' || c == ' '
    || c == '\U{0085}' || c == '\U{00A0}' || c == '\U{1680}'
    || ('\U{2000}' <= c <= '\U{200A}')
    || c == '\U{2028}' || c == '\U{2029}' || c == '\U{202F}' || c == '\U{205F}' || c == '\U{3000}'
  }

  /** The RE2 class `\s`, which is ASCII only: tab, newline, form feed,
      carriage return and space (no vertical tab). */
  predicate IsReSpace(c: char) {
    c == '\t' || c == '\n' || c == '\U{000C}' || c == '\r' || c == ' '
  }

  /** Number of leading characters of `s` that satisfy `f`. */
  function LeadingCount(s: string, f: char -> bool): (n: nat)
    ensures n <= |s|
    ensures n < |s| ==> !f(s[n])
  {
    if s == [] || !f(s[0]) then 0 else 1 + LeadingCount(s[1..], f)
  }

  /** Number of trailing characters of `s` that satisfy `f`. */
  function TrailingCount(s: string, f: char -> bool): (n: nat)
    ensures n <= |s|
    ensures n < |s| ==> !f(s[|s| - 1 - n])
  {
    if s == [] || !f(s[|s| - 1]) then 0 else 1 + TrailingCount(s[..|s| - 1], f)
  }

  /** Every character the leading count covers satisfies `f`. */
  lemma {:induction false} LeadingCountShape(s: string, f: char -> bool)
    ensures forall i :: 0 <= i < LeadingCount(s, f) ==> f(s[i])
  {
    if s != [] && f(s[0]) {
      LeadingCountShape(s[1..], f);
      assert forall i :: 1 <= i < LeadingCount(s, f) ==> s[i] == s[1..][i - 1];
    }
  }

  /** Every character the trailing count covers satisfies `f`. */
  lemma {:induction false} TrailingCountShape(s: string, f: char -> bool)
    ensures forall i :: |s| - TrailingCount(s, f) <= i < |s| ==> f(s[i])
  {
    if s != [] && f(s[|s| - 1]) {
      var t := s[..|s| - 1];
      TrailingCountShape(t, f);
      assert forall i :: |s| - TrailingCount(s, f) <= i < |s| - 1 ==> s[i] == t[i];
    }
  }

  /** The leading count is the length of the run of `f` characters that
      the first other character ends. */
  lemma {:induction false} LeadingCountOf(s: string, f: char -> bool, k: nat)
    requires k <= |s|
    requires forall i :: 0 <= i < k ==> f(s[i])
    requires k == |s| || !f(s[k])
    ensures LeadingCount(s, f) == k
  {
    if k > 0 {
      assert f(s[0]);
      assert forall i :: 0 <= i < k - 1 ==> s[1..][i] == s[i + 1];
      LeadingCountOf(s[1..], f, k - 1);
    }
  }

  /** The trailing count is the length of the run of `f` characters that
      the last other character ends. */
  lemma {:induction false} TrailingCountOf(s: string, f: char -> bool, k: nat)
    requires k <= |s|
    requires forall i :: |s| - k <= i < |s| ==> f(s[i])
    requires k == |s| || !f(s[|s| - 1 - k])
    ensures TrailingCount(s, f) == k
  {
    if k > 0 {
      assert f(s[|s| - 1]);
      var t := s[..|s| - 1];
      assert forall i :: |t| - (k - 1) <= i < |t| ==> t[i] == s[i];
      TrailingCountOf(t, f, k - 1);
    }
  }

  /** `strings.TrimFunc`: drop the longest prefix and suffix whose
      characters satisfy `f`.  `strings.Trim(s, cutset)` is this with `f`
      testing membership in the cutset, `strings.TrimSpace` with `IsSpace`. */
  function TrimFunc(s: string, f: char -> bool): (r: string)
    ensures |r| <= |s|
  {
    var rest := s[LeadingCount(s, f)..];
    rest[..|rest| - TrailingCount(rest, f)]
  }

  /** What trimming leaves: nothing exactly when every character satisfies
      `f`, otherwise text whose two ends do not; text whose ends already
      do not satisfy `f` is left as it is. */
  lemma TrimFuncShape(s: string, f: char -> bool)
    ensures var r := TrimFunc(s, f);
      && (r == [] <==> forall i :: 0 <= i < |s| ==> f(s[i]))
      && (r != [] ==> !f(r[0]) && !f(r[|r| - 1]))
      && (s == [] || (!f(s[0]) && !f(s[|s| - 1])) ==> r == s)
  {
    var start := LeadingCount(s, f);
    var rest := s[start..];
    var n := TrailingCount(rest, f);
    LeadingCountShape(s, f);
    TrailingCountShape(rest, f);
    var r := TrimFunc(s, f);
    assert r == rest[..|rest| - n];
    if r == [] {
      assert start == |s|;
    } else {
      assert r[0] == s[start];
      assert r[|r| - 1] == rest[|rest| - 1 - n];
    }
    if s != [] && !f(s[0]) && !f(s[|s| - 1]) {
      assert start == 0;
      assert rest == s;
      assert n == 0;
    }
  }

  /** Trimming only drops characters: whatever is left occurs in the
      input. */
  lemma TrimFuncSubset(s: string, f: char -> bool)
    ensures forall c :: c in TrimFunc(s, f) ==> c in s
  {
    var lead := LeadingCount(s, f);
    var rest := s[lead..];
    var r := TrimFunc(s, f);
    assert r == rest[..|rest| - TrailingCount(rest, f)];
    forall c | c in r ensures c in s {
      var i :| 0 <= i < |r| && r[i] == c;
      assert c == s[lead + i];
    }
  }

  function TrimSpace(s: string): string {
    TrimFunc(s, IsSpace)
  }

  /** Trimming a string padded on both sides by characters satisfying `f`
      gives back the unpadded middle when its ends do not satisfy `f`. */
  lemma TrimPadded(left: string, middle: string, right: string, f: char -> bool)
    requires forall i :: 0 <= i < |left| ==> f(left[i])
    requires forall i :: 0 <= i < |right| ==> f(right[i])
    requires middle != [] && !f(middle[0]) && !f(middle[|middle| - 1])
    ensures TrimFunc(left + middle + right, f) == middle
  {
    var s := left + middle + right;
    assert forall i :: 0 <= i < |left| ==> s[i] == left[i];
    assert s[|left|] == middle[0];
    LeadingCountOf(s, f, |left|);
    var rest := s[|left|..];
    assert rest == middle + right;
    assert forall i :: |rest| - |right| <= i < |rest| ==> rest[i] == right[i - |middle|];
    assert rest[|rest| - 1 - |right|] == middle[|middle| - 1];
    TrailingCountOf(rest, f, |right|);
    assert rest[..|rest| - |right|] == middle;
  }

  /** Trimming is idempotent. */
  lemma TrimIdempotent(s: string, f: char -> bool)
    ensures TrimFunc(TrimFunc(s, f), f) == TrimFunc(s, f)
  {
    TrimFuncShape(s, f);
    TrimFuncShape(TrimFunc(s, f), f);
  }

  /** `strings.ReplaceAll(s, "\n", " ")`. */
  function NewlinesToSpaces(s: string): (r: string)
    ensures |r| == |s|
    ensures forall i :: 0 <= i < |s| ==> r[i] == if s[i] == '\n' then ' ' else s[i]
  {
    if s == [] then []
    else [if s[0] == '\n' then ' ' else s[0]] + NewlinesToSpaces(s[1..])
  }

  /** Text with no newline passes the newline step unchanged. */
  lemma NewlinesToSpacesIdentity(s: string)
    requires forall i :: 0 <= i < |s| ==> s[i] != '\n'
    ensures NewlinesToSpaces(s) == s
  {
    var r := NewlinesToSpaces(s);
    assert forall i :: 0 <= i < |s| ==> r[i] == s[i];
  }
}
