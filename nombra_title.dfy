/** `cleanTitle` of nombra.go: a fixed pipeline of one trim, one plain
    replacement and three RE2 replacements.  Each replacement is a
    left-to-right scan over the characters, as Go's `ReplaceAllString`
    performs it (leftmost match, greedy `\s*`, no overlapping matches). */
module NombraTitle {
  import opened GoText

  /** The cutset of the first trim: double quote, apostrophe, space, tab,
      newline (all ASCII). */
  predicate InTitleCutset(c: char) {
    c == '"' || c == '\'' || c == ' ' || c == '\t' || c == '\n'
  }

  predicate IsLower(c: char) { 'a' <= c <= 'z' }

  predicate IsUpper(c: char) { 'A' <= c <= 'Z' }

  // ---- Sequence plumbing ----

  /** The first `k` characters of `a + b` are those of `a`, and the rest
      is the rest of `a` followed by `b`. */
  lemma ConcatLayout(a: string, b: string, k: nat)
    requires k <= |a|
    ensures forall i :: 0 <= i < k ==> (a + b)[i] == a[i]
    ensures (a + b)[k..] == a[k..] + b
    ensures k < |a| ==> (a + b)[k] == a[k]
    ensures k == |a| && b != [] ==> (a + b)[k] == b[0]
  {
  }

  lemma AppendAssoc(a: string, b: string, c: string)
    ensures a + (b + c) == a + b + c
  {
  }

  // ---- The characters a title keeps ----

  /** `s` with every `\s` character removed: the part of a title that the
      three replacements never alter. */
  function Words(s: string): string {
    if s == [] then [] else (if IsReSpace(s[0]) then [] else [s[0]]) + Words(s[1..])
  }

  lemma {:induction false} WordsConcat(a: string, b: string)
    ensures Words(a + b) == Words(a) + Words(b)
  {
    if a == [] {
      assert a + b == b;
    } else {
      var head := if IsReSpace(a[0]) then [] else [a[0]];
      ConcatLayout(a, b, 1);
      assert Words(a + b) == head + Words(a[1..] + b);
      WordsConcat(a[1..], b);
      AppendAssoc(head, Words(a[1..]), Words(b));
    }
  }

  lemma {:induction false} WordsOfSpace(s: string)
    requires forall i :: 0 <= i < |s| ==> IsReSpace(s[i])
    ensures Words(s) == []
  {
    if s != [] {
      WordsOfSpace(s[1..]);
    }
  }

  /** Replacing everything after the first character by text with the
      same `Words` keeps the `Words`. */
  lemma WordsCons(s: string, t: string)
    requires s != [] && Words(t) == Words(s[1..])
    ensures Words([s[0]] + t) == Words(s)
  {
    assert ([s[0]] + t)[1..] == t;
  }

  /** Leading white space contributes nothing to `Words`. */
  lemma WordsSkip(s: string, k: nat)
    requires k <= |s|
    requires forall i :: 0 <= i < k ==> IsReSpace(s[i])
    ensures Words(s) == Words(s[k..])
  {
    assert s == s[..k] + s[k..];
    WordsConcat(s[..k], s[k..]);
    WordsOfSpace(s[..k]);
  }

  /** The white space a replacement writes contributes nothing. */
  lemma WordsOfPieces()
    ensures Words(" - ") == "-"
    ensures Words(" ") == []
  {
  }

  // ---- The greedy `\s*` ----

  /** Length of the greedy match of `\s*` at the start of `s`. */
  function SpaceRun(s: string): (n: nat)
    ensures n <= |s|
    ensures n < |s| ==> !IsReSpace(s[n])
  {
    if s == [] || !IsReSpace(s[0]) then 0 else 1 + SpaceRun(s[1..])
  }

  /** Everything before the end of the match is white space. */
  lemma {:induction false} SpaceRunAllSpace(s: string)
    ensures forall i :: 0 <= i < SpaceRun(s) ==> IsReSpace(s[i])
  {
    if s != [] && IsReSpace(s[0]) {
      SpaceRunAllSpace(s[1..]);
      assert forall i :: 1 <= i < SpaceRun(s) ==> s[i] == s[1..][i - 1];
    }
  }

  /** The match is exactly the white space before the first other
      character. */
  lemma {:induction false} SpaceRunOf(s: string, k: nat)
    requires k <= |s|
    requires forall i :: 0 <= i < k ==> IsReSpace(s[i])
    requires k == |s| || !IsReSpace(s[k])
    ensures SpaceRun(s) == k
  {
    if k > 0 {
      assert IsReSpace(s[0]);
      assert forall i :: 0 <= i < k - 1 ==> s[1..][i] == s[i + 1];
      SpaceRunOf(s[1..], k - 1);
    }
  }

  /** The greedy `\s*` match over two pieces. */
  lemma {:induction false} SpaceRunConcat(a: string, b: string)
    ensures SpaceRun(a + b) == if SpaceRun(a) < |a| then SpaceRun(a) else |a| + SpaceRun(b)
  {
    if a == [] {
      assert a + b == b;
    } else if IsReSpace(a[0]) {
      ConcatLayout(a, b, 1);
      SpaceRunConcat(a[1..], b);
    }
  }

  // ---- Neighbouring characters ----

  /** `p` holds of every two neighbouring characters of `s`. */
  ghost predicate AllPairs(s: string, p: (char, char) -> bool) {
    forall i :: 0 <= i < |s| - 1 ==> p(s[i], s[i + 1])
  }

  lemma AllPairsConcat(a: string, b: string, p: (char, char) -> bool)
    requires AllPairs(a, p) && AllPairs(b, p)
    requires a != [] && b != [] ==> p(a[|a| - 1], b[0])
    ensures AllPairs(a + b, p)
  {
    forall i | 0 <= i < |a + b| - 1
      ensures p((a + b)[i], (a + b)[i + 1])
    {
      if i < |a| - 1 {
        assert (a + b)[i] == a[i] && (a + b)[i + 1] == a[i + 1];
      } else if i == |a| - 1 {
        assert (a + b)[i] == a[|a| - 1] && (a + b)[i + 1] == b[0];
      } else {
        assert (a + b)[i] == b[i - |a|] && (a + b)[i + 1] == b[i - |a| + 1];
      }
    }
  }

  /** A property of all neighbours holds of the neighbours of a suffix. */
  lemma AllPairsSuffix(s: string, k: nat, p: (char, char) -> bool)
    requires k <= |s| && AllPairs(s, p)
    ensures AllPairs(s[k..], p)
  {
    assert forall i :: 0 <= i < |s| - k ==> s[k..][i] == s[k + i];
  }

  /** A hyphen is next to `\s` on each side that has a neighbour. */
  predicate DashPair(x: char, y: char) {
    (x == '-' ==> IsReSpace(y)) && (y == '-' ==> IsReSpace(x))
  }

  /** No lower-case letter directly followed by an upper-case one. */
  predicate NoCamel(x: char, y: char) {
    !(IsLower(x) && IsUpper(y))
  }

  // ---- The three replacements ----

  /** `regexp.MustCompile(`\s*-\s*`).ReplaceAllString(s, " - ")`: every
      hyphen, with the white space on both sides of it, becomes " - ". */
  function DashSpacing(s: string): string
    decreases |s|
  {
    if s == [] then []
    else
      var k := SpaceRun(s);
      if k < |s| && s[k] == '-' then
        " - " + DashSpacing(AfterHyphen(s))
      else
        [s[0]] + DashSpacing(s[1..])
  }

  /** What follows the match of `\s*-\s*` at the start of `s`: the white
      space after the hyphen belongs to the match. */
  function AfterHyphen(s: string): (r: string)
    requires SpaceRun(s) < |s|
    ensures |r| < |s|
  {
    var rest := s[SpaceRun(s) + 1..];
    rest[SpaceRun(rest)..]
  }

  /** Where a hyphen follows the leading white space, the hyphen step
      replaces the match by " - ". */
  lemma DashSpacingAtHyphen(s: string)
    requires SpaceRun(s) < |s| && s[SpaceRun(s)] == '-'
    ensures DashSpacing(s) == " - " + DashSpacing(AfterHyphen(s))
  {
  }

  /** Where no hyphen follows the leading white space, the hyphen step
      keeps the first character. */
  lemma DashSpacingNoHyphen(s: string)
    requires s != []
    requires SpaceRun(s) == |s| || s[SpaceRun(s)] != '-'
    ensures DashSpacing(s) == [s[0]] + DashSpacing(s[1..])
  {
  }

  /** `regexp.MustCompile(`([a-z])([A-Z])`).ReplaceAllString(s, "$1 $2")`:
      a space goes between each lower-case letter and the upper-case
      letter right after it. */
  function SplitCamel(s: string): string
  {
    if |s| >= 2 && IsLower(s[0]) && IsUpper(s[1]) then
      [s[0], ' ', s[1]] + SplitCamel(s[2..])
    else if s == [] then []
    else
      [s[0]] + SplitCamel(s[1..])
  }

  /** One step of the camel-case scan at a lower-case letter followed by
      an upper-case one. */
  lemma SplitCamelAtPair(s: string)
    requires |s| >= 2 && IsLower(s[0]) && IsUpper(s[1])
    ensures SplitCamel(s) == [s[0], ' ', s[1]] + SplitCamel(s[2..])
  {
  }

  /** One step of the camel-case scan anywhere else. */
  lemma SplitCamelAtOther(s: string)
    requires s != [] && !(|s| >= 2 && IsLower(s[0]) && IsUpper(s[1]))
    ensures SplitCamel(s) == [s[0]] + SplitCamel(s[1..])
  {
  }

  /** `regexp.MustCompile(`\s+`).ReplaceAllString(s, " ")`: each run of
      `\s` characters becomes one space. */
  function CollapseSpace(s: string): string
    decreases |s|
  {
    if s == [] then []
    else if IsReSpace(s[0]) then
      [' '] + CollapseSpace(s[SpaceRun(s)..])
    else
      [s[0]] + CollapseSpace(s[1..])
  }

  /** One step of the collapsing scan at white space. */
  lemma CollapseSpaceAtSpace(s: string)
    requires s != [] && IsReSpace(s[0])
    ensures CollapseSpace(s) == [' '] + CollapseSpace(s[SpaceRun(s)..])
  {
  }

  /** One step of the collapsing scan anywhere else. */
  lemma CollapseSpaceAtOther(s: string)
    requires s != [] && !IsReSpace(s[0])
    ensures CollapseSpace(s) == [s[0]] + CollapseSpace(s[1..])
  {
  }

  /** `cleanTitle` of nombra.go. */
  function CleanTitle(title: string): string {
    var oneLine := NewlinesToSpaces(TrimFunc(title, InTitleCutset));
    CollapseSpace(SplitCamel(DashSpacing(oneLine)))
  }

  // ---- The shape of each step's output ----

  /** No hyphen at either end, and white space next to every hyphen. */
  ghost predicate HyphensInside(r: string) {
    && (r != [] ==> r[0] != '-' && r[|r| - 1] != '-')
    && AllPairs(r, DashPair)
  }

  lemma HyphensInsideAfterMatch(t: string)
    requires HyphensInside(t)
    ensures HyphensInside(" - " + t)
  {
    AllPairsConcat(" - ", t, DashPair);
  }

  lemma HyphensInsideCons(c: char, t: string)
    requires c != '-' && HyphensInside(t)
    ensures HyphensInside([c] + t)
  {
    AllPairsConcat([c], t, DashPair);
  }

  /** After the hyphen step no hyphen is at either end and every hyphen
      has white space on both sides. */
  lemma {:induction false} DashSpacingShape(s: string)
    ensures HyphensInside(DashSpacing(s))
    decreases |s|, 1
  {
    if s != [] {
      if SpaceRun(s) < |s| && s[SpaceRun(s)] == '-' {
        ShapeAtHyphen(s);
      } else {
        ShapeNoHyphen(s);
      }
    }
  }

  /** `DashSpacingShape` at a hyphen match. */
  lemma {:induction false} ShapeAtHyphen(s: string)
    requires SpaceRun(s) < |s| && s[SpaceRun(s)] == '-'
    ensures HyphensInside(DashSpacing(s))
    decreases |s|, 0
  {
    DashSpacingShape(AfterHyphen(s));
    DashSpacingAtHyphen(s);
    HyphensInsideAfterMatch(DashSpacing(AfterHyphen(s)));
  }

  /** `DashSpacingShape` anywhere else. */
  lemma {:induction false} ShapeNoHyphen(s: string)
    requires s != [] && (SpaceRun(s) == |s| || s[SpaceRun(s)] != '-')
    ensures HyphensInside(DashSpacing(s))
    decreases |s|, 0
  {
    DashSpacingShape(s[1..]);
    DashSpacingNoHyphen(s);
    assert s[0] != '-';
    HyphensInsideCons(s[0], DashSpacing(s[1..]));
  }

  /** The camel-case step only inserts, keeps both ends, and leaves no
      lower-case letter directly before an upper-case one. */
  lemma {:induction false} SplitCamelShape(s: string)
    ensures var r := SplitCamel(s);
      && |r| >= |s|
      && (s != [] ==> r != [] && r[0] == s[0] && r[|r| - 1] == s[|s| - 1])
      && AllPairs(r, NoCamel)
  {
    if |s| >= 2 && IsLower(s[0]) && IsUpper(s[1]) {
      SplitCamelAtPair(s);
      SplitCamelShape(s[2..]);
      AllPairsConcat([s[0], ' ', s[1]], SplitCamel(s[2..]), NoCamel);
    } else if s != [] {
      SplitCamelAtOther(s);
      SplitCamelShape(s[1..]);
      AllPairsConcat([s[0]], SplitCamel(s[1..]), NoCamel);
    }
  }

  /** The collapsing step never lengthens, keeps emptiness, and maps each
      end character to itself or, if it is white space, to a space. */
  lemma {:induction false} CollapseSpaceEnds(s: string)
    ensures var r := CollapseSpace(s);
      && |r| <= |s|
      && (r == [] <==> s == [])
      && (s != [] ==> r[0] == if IsReSpace(s[0]) then ' ' else s[0])
      && (s != [] ==> r[|r| - 1] == if IsReSpace(s[|s| - 1]) then ' ' else s[|s| - 1])
    decreases |s|
  {
    if s != [] {
      if IsReSpace(s[0]) {
        var k := SpaceRun(s);
        CollapseSpaceAtSpace(s);
        SpaceRunAllSpace(s);
        CollapseSpaceEnds(s[k..]);
      } else {
        CollapseSpaceAtOther(s);
        CollapseSpaceEnds(s[1..]);
      }
    }
  }

  /** The only white space the collapsing step leaves is single spaces. */
  ghost predicate SingleSpaced(r: string) {
    && (forall i :: 0 <= i < |r| && IsReSpace(r[i]) ==> r[i] == ' ')
    && (forall i :: 0 <= i < |r| - 1 ==> !(IsReSpace(r[i]) && IsReSpace(r[i + 1])))
  }

  lemma SingleSpacedCons(c: char, t: string)
    requires SingleSpaced(t)
    requires IsReSpace(c) ==> c == ' ' && (t == [] || !IsReSpace(t[0]))
    ensures SingleSpaced([c] + t)
  {
    var r := [c] + t;
    assert forall i :: 1 <= i < |r| ==> r[i] == t[i - 1];
  }

  lemma {:induction false} CollapseSpaceSingle(s: string)
    ensures SingleSpaced(CollapseSpace(s))
    decreases |s|
  {
    if s != [] {
      if IsReSpace(s[0]) {
        var k := SpaceRun(s);
        CollapseSpaceAtSpace(s);
        CollapseSpaceSingle(s[k..]);
        CollapseSpaceEnds(s[k..]);
        SingleSpacedCons(' ', CollapseSpace(s[k..]));
      } else {
        CollapseSpaceAtOther(s);
        CollapseSpaceSingle(s[1..]);
        SingleSpacedCons(s[0], CollapseSpace(s[1..]));
      }
    }
  }

  /** The collapsing step never lengthens, maps each end character to
      itself or to a space, and leaves white space only as single spaces. */
  lemma CollapseSpaceShape(s: string)
    ensures var r := CollapseSpace(s);
      && |r| <= |s|
      && (r == [] <==> s == [])
      && (s != [] ==> r[0] == if IsReSpace(s[0]) then ' ' else s[0])
      && (s != [] ==> r[|r| - 1] == if IsReSpace(s[|s| - 1]) then ' ' else s[|s| - 1])
      && (forall i :: 0 <= i < |r| && IsReSpace(r[i]) ==> r[i] == ' ')
      && (forall i :: 0 <= i < |r| - 1 ==> !(IsReSpace(r[i]) && IsReSpace(r[i + 1])))
  {
    CollapseSpaceEnds(s);
    CollapseSpaceSingle(s);
  }

  // ---- What each step keeps ----

  /** A hyphen match contributes just its hyphen to `Words`. */
  lemma HyphenWords(s: string)
    requires SpaceRun(s) < |s| && s[SpaceRun(s)] == '-'
    ensures Words(s) == "-" + Words(AfterHyphen(s))
  {
    var k := SpaceRun(s);
    var rest := s[k + 1..];
    SpaceRunAllSpace(s);
    WordsSkip(s, k);
    var hyphen := s[k..];
    assert hyphen[1..] == rest;
    SpaceRunAllSpace(rest);
    WordsSkip(rest, SpaceRun(rest));
  }

  /** `Words` of a hyphen match's replacement and what follows it. */
  lemma WordsAfterMatch(t: string)
    ensures Words(" - " + t) == "-" + Words(t)
  {
    WordsConcat(" - ", t);
    WordsOfPieces();
  }

  lemma {:induction false} DashSpacingKeepsWords(s: string)
    ensures Words(DashSpacing(s)) == Words(s)
    decreases |s|, 1
  {
    if s != [] {
      if SpaceRun(s) < |s| && s[SpaceRun(s)] == '-' {
        KeepsWordsAtHyphen(s);
      } else {
        KeepsWordsNoHyphen(s);
      }
    }
  }

  /** `DashSpacingKeepsWords` at a hyphen match. */
  lemma {:induction false} KeepsWordsAtHyphen(s: string)
    requires SpaceRun(s) < |s| && s[SpaceRun(s)] == '-'
    ensures Words(DashSpacing(s)) == Words(s)
    decreases |s|, 0
  {
    DashSpacingKeepsWords(AfterHyphen(s));
    DashSpacingAtHyphen(s);
    WordsAfterMatch(DashSpacing(AfterHyphen(s)));
    HyphenWords(s);
  }

  /** `DashSpacingKeepsWords` anywhere else. */
  lemma {:induction false} KeepsWordsNoHyphen(s: string)
    requires s != [] && (SpaceRun(s) == |s| || s[SpaceRun(s)] != '-')
    ensures Words(DashSpacing(s)) == Words(s)
    decreases |s|, 0
  {
    DashSpacingKeepsWords(s[1..]);
    DashSpacingNoHyphen(s);
    WordsCons(s, DashSpacing(s[1..]));
  }

  lemma {:induction false} SplitCamelKeepsWords(s: string)
    ensures Words(SplitCamel(s)) == Words(s)
  {
    if |s| >= 2 && IsLower(s[0]) && IsUpper(s[1]) {
      SplitCamelAtPair(s);
      SplitCamelKeepsWords(s[2..]);
      assert s == [s[0], s[1]] + s[2..];
      WordsConcat([s[0], s[1]], s[2..]);
      WordsConcat([s[0], ' ', s[1]], SplitCamel(s[2..]));
    } else if s != [] {
      SplitCamelAtOther(s);
      SplitCamelKeepsWords(s[1..]);
      WordsCons(s, SplitCamel(s[1..]));
    }
  }

  lemma {:induction false} CollapseSpaceKeepsWords(s: string)
    ensures Words(CollapseSpace(s)) == Words(s)
    decreases |s|
  {
    if s != [] {
      if IsReSpace(s[0]) {
        var k := SpaceRun(s);
        CollapseSpaceAtSpace(s);
        CollapseSpaceKeepsWords(s[k..]);
        SpaceRunAllSpace(s);
        WordsSkip(s, k);
        WordsConcat(" ", CollapseSpace(s[k..]));
        WordsOfPieces();
      } else {
        CollapseSpaceAtOther(s);
        CollapseSpaceKeepsWords(s[1..]);
        WordsCons(s, CollapseSpace(s[1..]));
      }
    }
  }

  lemma {:induction false} NewlinesKeepWords(s: string)
    ensures Words(NewlinesToSpaces(s)) == Words(s)
  {
    if s != [] {
      NewlinesKeepWords(s[1..]);
      assert NewlinesToSpaces(s)[1..] == NewlinesToSpaces(s[1..]);
    }
  }

  /** Splitting camel case leaves the neighbourhood of every character
      other than the two letters it separates as it was. */
  lemma {:induction false} SplitCamelKeepsPairs(s: string, p: (char, char) -> bool)
    requires AllPairs(s, p)
    requires forall x :: IsLower(x) ==> p(x, ' ')
    requires forall y :: IsUpper(y) ==> p(' ', y)
    ensures AllPairs(SplitCamel(s), p)
  {
    if |s| >= 2 && IsLower(s[0]) && IsUpper(s[1]) {
      SplitCamelAtPair(s);
      AllPairsSuffix(s, 2, p);
      SplitCamelKeepsPairs(s[2..], p);
      PairsAfterSplit(s, p);
    } else if s != [] {
      SplitCamelAtOther(s);
      AllPairsSuffix(s, 1, p);
      SplitCamelKeepsPairs(s[1..], p);
      PairsAfterKept(s, p);
    }
  }

  /** The seams of one camel-case split. */
  lemma PairsAfterSplit(s: string, p: (char, char) -> bool)
    requires |s| >= 2 && IsLower(s[0]) && IsUpper(s[1])
    requires AllPairs(s, p) && AllPairs(SplitCamel(s[2..]), p)
    requires p(s[0], ' ') && p(' ', s[1])
    ensures AllPairs([s[0], ' ', s[1]] + SplitCamel(s[2..]), p)
  {
    SplitCamelShape(s[2..]);
    if |s| > 2 {
      assert p(s[1], s[2]);
    }
    AllPairsConcat([s[0], ' ', s[1]], SplitCamel(s[2..]), p);
  }

  /** The seam after a character the camel-case step keeps. */
  lemma PairsAfterKept(s: string, p: (char, char) -> bool)
    requires s != [] && AllPairs(s, p) && AllPairs(SplitCamel(s[1..]), p)
    ensures AllPairs([s[0]] + SplitCamel(s[1..]), p)
  {
    SplitCamelShape(s[1..]);
    if |s| > 1 {
      assert p(s[0], s[1]);
    }
    AllPairsConcat([s[0]], SplitCamel(s[1..]), p);
  }

  /** Collapsing white space keeps every neighbourhood property that
      cannot tell one white-space character from another. */
  lemma {:induction false} CollapseSpaceKeepsPairs(s: string, p: (char, char) -> bool)
    requires AllPairs(s, p)
    requires forall x, w :: IsReSpace(w) && p(x, w) ==> p(x, ' ')
    requires forall x, w :: IsReSpace(w) && p(w, x) ==> p(' ', x)
    ensures AllPairs(CollapseSpace(s), p)
    decreases |s|
  {
    if s != [] {
      if IsReSpace(s[0]) {
        var k := SpaceRun(s);
        CollapseSpaceAtSpace(s);
        AllPairsSuffix(s, k, p);
        CollapseSpaceKeepsPairs(s[k..], p);
        PairsAfterRun(s, p);
      } else {
        CollapseSpaceAtOther(s);
        AllPairsSuffix(s, 1, p);
        CollapseSpaceKeepsPairs(s[1..], p);
        PairsAfterOther(s, p);
      }
    }
  }

  /** The seam after a run of white space collapsed to one space. */
  lemma PairsAfterRun(s: string, p: (char, char) -> bool)
    requires s != [] && IsReSpace(s[0])
    requires AllPairs(s, p) && AllPairs(CollapseSpace(s[SpaceRun(s)..]), p)
    requires forall x, w :: IsReSpace(w) && p(w, x) ==> p(' ', x)
    ensures AllPairs([' '] + CollapseSpace(s[SpaceRun(s)..]), p)
  {
    var k := SpaceRun(s);
    CollapseSpaceEnds(s[k..]);
    SpaceRunAllSpace(s);
    if k < |s| {
      assert p(s[k - 1], s[k]);
    }
    AllPairsConcat([' '], CollapseSpace(s[k..]), p);
  }

  /** The seam after a character the collapsing step keeps. */
  lemma PairsAfterOther(s: string, p: (char, char) -> bool)
    requires s != [] && !IsReSpace(s[0])
    requires AllPairs(s, p) && AllPairs(CollapseSpace(s[1..]), p)
    requires forall x, w :: IsReSpace(w) && p(x, w) ==> p(x, ' ')
    ensures AllPairs([s[0]] + CollapseSpace(s[1..]), p)
  {
    CollapseSpaceEnds(s[1..]);
    if |s| > 1 {
      assert p(s[0], s[1]);
    }
    AllPairsConcat([s[0]], CollapseSpace(s[1..]), p);
  }

  // ---- What `cleanTitle` promises ----

  /** Every hyphen of `s` has a space right before and right after it. */
  predicate HyphensSpaced(s: string) {
    forall i :: 0 <= i < |s| && s[i] == '-' ==> 0 < i < |s| - 1 && s[i - 1] == ' ' && s[i + 1] == ' '
  }

  /** White space in `cleanTitle`'s output is single spaces only, so it
      holds no newline and no two spaces in a row. */
  lemma CleanTitleSpacing(title: string)
    ensures var r := CleanTitle(title);
      && (forall i :: 0 <= i < |r| ==> r[i] != '\n')
      && (forall i :: 0 <= i < |r| && IsReSpace(r[i]) ==> r[i] == ' ')
      && (forall i :: 0 <= i < |r| - 1 ==> !(r[i] == ' ' && r[i + 1] == ' '))
  {
    CollapseSpaceSingle(SplitCamel(DashSpacing(NewlinesToSpaces(TrimFunc(title, InTitleCutset)))));
  }

  /** Every hyphen in `cleanTitle`'s output stands between two spaces
      (so a hyphen at either end of the title leaves a space there). */
  lemma CleanTitleHyphens(title: string)
    ensures HyphensSpaced(CleanTitle(title))
  {
    var oneLine := NewlinesToSpaces(TrimFunc(title, InTitleCutset));
    DashSpacingShape(oneLine);
    SplitCamelKeepsHyphens(DashSpacing(oneLine));
    CollapseSpaceSpacesHyphens(SplitCamel(DashSpacing(oneLine)));
  }

  /** The camel-case step keeps hyphens off both ends and next to white
      space. */
  lemma SplitCamelKeepsHyphens(s: string)
    requires HyphensInside(s)
    ensures HyphensInside(SplitCamel(s))
  {
    SplitCamelShape(s);
    SplitCamelKeepsPairs(s, DashPair);
  }

  /** After the collapsing step, hyphens that were off both ends and next
      to white space are spaced. */
  lemma CollapseSpaceSpacesHyphens(s: string)
    requires HyphensInside(s)
    ensures HyphensSpaced(CollapseSpace(s))
  {
    CollapseSpaceEnds(s);
    CollapseSpaceSingle(s);
    CollapseSpaceKeepsPairs(s, DashPair);
    SpacedFromPairs(CollapseSpace(s));
  }

  /** Hyphens away from both ends, each next to white space that is a
      plain space, are spaced. */
  lemma SpacedFromPairs(r: string)
    requires HyphensInside(r)
    requires forall i :: 0 <= i < |r| && IsReSpace(r[i]) ==> r[i] == ' '
    ensures HyphensSpaced(r)
  {
    forall i | 0 <= i < |r| && r[i] == '-'
      ensures 0 < i < |r| - 1 && r[i - 1] == ' ' && r[i + 1] == ' '
    {
      assert DashPair(r[i - 1], r[i]);
      assert DashPair(r[i], r[i + 1]);
    }
  }

  /** No lower-case letter in `cleanTitle`'s output is directly followed
      by an upper-case one. */
  lemma CleanTitleNoCamel(title: string)
    ensures AllPairs(CleanTitle(title), NoCamel)
  {
    var dashed := DashSpacing(NewlinesToSpaces(TrimFunc(title, InTitleCutset)));
    SplitCamelShape(dashed);
    CollapseSpaceKeepsPairs(SplitCamel(dashed), NoCamel);
  }

  /** Apart from white space, `cleanTitle`'s output is exactly the input
      with the cutset trimmed from both ends. */
  lemma CleanTitleKeepsWords(title: string)
    ensures Words(CleanTitle(title)) == Words(TrimFunc(title, InTitleCutset))
  {
    var trimmed := TrimFunc(title, InTitleCutset);
    var oneLine := NewlinesToSpaces(trimmed);
    var dashed := DashSpacing(oneLine);
    var split := SplitCamel(dashed);
    NewlinesKeepWords(trimmed);
    DashSpacingKeepsWords(oneLine);
    SplitCamelKeepsWords(dashed);
    CollapseSpaceKeepsWords(split);
  }

  // ---- Pieces the steps leave alone, for the examples of nombra_test.go ----

  /** Text with no hyphen that does not end in white space passes the
      hyphen step unchanged. */
  lemma {:induction false} DashSpacingPlain(w: string, rest: string)
    requires forall i :: 0 <= i < |w| ==> w[i] != '-'
    requires w != [] ==> !IsReSpace(w[|w| - 1])
    ensures DashSpacing(w + rest) == w + DashSpacing(rest)
  {
    if w == [] {
      assert w + rest == rest;
    } else {
      PlainStep(w, rest);
      DashSpacingPlain(w[1..], rest);
      AppendAssoc([w[0]], w[1..], DashSpacing(rest));
      assert w == [w[0]] + w[1..];
    }
  }

  /** One step of `DashSpacingPlain`: the first character is kept. */
  lemma PlainStep(w: string, rest: string)
    requires w != [] && forall i :: 0 <= i < |w| ==> w[i] != '-'
    requires !IsReSpace(w[|w| - 1])
    ensures DashSpacing(w + rest) == [w[0]] + DashSpacing(w[1..] + rest)
  {
    PlainRun(w, rest);
    DashSpacingNoHyphen(w + rest);
    ConcatLayout(w, rest, 1);
  }

  /** The leading white space of `w + rest` ends inside `w`, at a
      character that is not a hyphen. */
  lemma PlainRun(w: string, rest: string)
    requires w != [] && forall i :: 0 <= i < |w| ==> w[i] != '-'
    requires !IsReSpace(w[|w| - 1])
    ensures SpaceRun(w + rest) < |w| && (w + rest)[SpaceRun(w + rest)] != '-'
  {
    var s := w + rest;
    SpaceRunAllSpace(s);
    assert s[|w| - 1] == w[|w| - 1];
    assert SpaceRun(s) < |w|;
    assert s[SpaceRun(s)] == w[SpaceRun(s)];
  }

  /** One hyphen with white space around it becomes " - ". */
  lemma DashSpacingHyphen(left: string, right: string, rest: string)
    requires forall i :: 0 <= i < |left| ==> IsReSpace(left[i])
    requires forall i :: 0 <= i < |right| ==> IsReSpace(right[i])
    requires rest == [] || !IsReSpace(rest[0])
    ensures DashSpacing(left + "-" + right + rest) == " - " + DashSpacing(rest)
  {
    HyphenLayout(left, right, rest);
    DashSpacingHyphenAt(left + "-" + right + rest, |left|, |left| + 1 + |right|);
  }

  /** Where the hyphen and the white space around it sit in
      `left + "-" + right + rest`. */
  lemma HyphenLayout(left: string, right: string, rest: string)
    requires forall i :: 0 <= i < |left| ==> IsReSpace(left[i])
    requires forall i :: 0 <= i < |right| ==> IsReSpace(right[i])
    requires rest == [] || !IsReSpace(rest[0])
    ensures var s, i, j := left + "-" + right + rest, |left|, |left| + 1 + |right|;
      && i < j <= |s| && s[i] == '-'
      && (forall m :: 0 <= m < i ==> IsReSpace(s[m]))
      && (forall m :: i < m < j ==> IsReSpace(s[m]))
      && (j == |s| || !IsReSpace(s[j]))
      && s[j..] == rest
  {
    var s, i, j := left + "-" + right + rest, |left|, |left| + 1 + |right|;
    assert forall m :: 0 <= m < i ==> s[m] == left[m];
    assert forall m :: i < m < j ==> s[m] == right[m - i - 1];
    assert s[j..] == rest;
  }

  /** The same, on positions: the hyphen at `i` and the white space
      around it up to `j` become " - ". */
  lemma DashSpacingHyphenAt(s: string, i: nat, j: nat)
    requires i < j <= |s| && s[i] == '-'
    requires forall m :: 0 <= m < i ==> IsReSpace(s[m])
    requires forall m :: i < m < j ==> IsReSpace(s[m])
    requires j == |s| || !IsReSpace(s[j])
    ensures DashSpacing(s) == " - " + DashSpacing(s[j..])
  {
    HyphenMatch(s, i, j);
    DashSpacingAtHyphen(s);
  }

  /** The match of `\s*-\s*` at the start of `s`, on positions. */
  lemma HyphenMatch(s: string, i: nat, j: nat)
    requires i < j <= |s| && s[i] == '-'
    requires forall m :: 0 <= m < i ==> IsReSpace(s[m])
    requires forall m :: i < m < j ==> IsReSpace(s[m])
    requires j == |s| || !IsReSpace(s[j])
    ensures SpaceRun(s) == i
    ensures AfterHyphen(s) == s[j..]
  {
    SpaceRunOf(s, i);
    var rest := s[i + 1..];
    assert forall m :: 0 <= m < j - i - 1 ==> rest[m] == s[m + i + 1];
    SpaceRunOf(rest, j - i - 1);
  }

  /** Text with no lower-case letter before an upper-case one passes the
      camel-case step unchanged. */
  lemma {:induction false} SplitCamelIdentity(s: string)
    requires AllPairs(s, NoCamel)
    ensures SplitCamel(s) == s
  {
    if s != [] {
      assert |s| >= 2 ==> NoCamel(s[0], s[1]);
      SplitCamelAtOther(s);
      AllPairsSuffix(s, 1, NoCamel);
      SplitCamelIdentity(s[1..]);
    }
  }

  /** Text whose white space is single spaces passes the collapsing step
      unchanged: collapsing is idempotent. */
  lemma {:induction false} CollapseSpaceIdentity(s: string)
    requires SingleSpaced(s)
    ensures CollapseSpace(s) == s
  {
    if s != [] {
      if IsReSpace(s[0]) {
        assert |s| > 1 ==> !IsReSpace(s[1]);
        SpaceRunOf(s, 1);
        CollapseSpaceAtSpace(s);
      } else {
        CollapseSpaceAtOther(s);
      }
      assert forall i :: 0 <= i < |s| - 1 ==> s[1..][i] == s[i + 1];
      CollapseSpaceIdentity(s[1..]);
    }
  }

  /** The camel-case step works piece by piece when the seam is not a
      lower-case letter followed by an upper-case one. */
  lemma {:induction false} SplitCamelConcat(a: string, b: string)
    requires a == [] || b == [] || NoCamel(a[|a| - 1], b[0])
    ensures SplitCamel(a + b) == SplitCamel(a) + SplitCamel(b)
  {
    if a == [] {
      assert a + b == b;
    } else if |a| >= 2 && IsLower(a[0]) && IsUpper(a[1]) {
      ConcatLayout(a, b, 2);
      SplitCamelAtPair(a + b);
      SplitCamelAtPair(a);
      SplitCamelConcat(a[2..], b);
      AppendAssoc([a[0], ' ', a[1]], SplitCamel(a[2..]), SplitCamel(b));
    } else {
      ConcatLayout(a, b, 1);
      if |a| == 1 {
        assert a[1..] == [];
      }
      SplitCamelAtOther(a + b);
      SplitCamelAtOther(a);
      SplitCamelConcat(a[1..], b);
      AppendAssoc([a[0]], SplitCamel(a[1..]), SplitCamel(b));
    }
  }

  /** A lower-case letter followed by an upper-case one gets a space
      between them. */
  lemma SplitCamelPair(x: char, y: char, rest: string)
    requires IsLower(x) && IsUpper(y)
    ensures SplitCamel([x, y] + rest) == [x, ' ', y] + SplitCamel(rest)
  {
    assert ([x, y] + rest)[2..] == rest;
  }

  /** The collapsing step works piece by piece when the seam is not
      between two white-space characters. */
  lemma {:induction false} CollapseSpaceConcat(a: string, b: string)
    requires a == [] || b == [] || !(IsReSpace(a[|a| - 1]) && IsReSpace(b[0]))
    ensures CollapseSpace(a + b) == CollapseSpace(a) + CollapseSpace(b)
    decreases |a|, 1
  {
    if a == [] {
      assert a + b == b;
    } else if IsReSpace(a[0]) {
      CollapseSpaceConcatRun(a, b);
    } else {
      ConcatLayout(a, b, 1);
      CollapseSpaceAtOther(a + b);
      CollapseSpaceAtOther(a);
      CollapseSpaceConcat(a[1..], b);
      AppendAssoc([a[0]], CollapseSpace(a[1..]), CollapseSpace(b));
    }
  }

  /** `CollapseSpaceConcat` when `a` starts with white space. */
  lemma {:induction false} CollapseSpaceConcatRun(a: string, b: string)
    requires a != [] && IsReSpace(a[0])
    requires b == [] || !(IsReSpace(a[|a| - 1]) && IsReSpace(b[0]))
    ensures CollapseSpace(a + b) == CollapseSpace(a) + CollapseSpace(b)
    decreases |a|, 0
  {
    var k := SpaceRun(a);
    assert a[k..] != [] ==> a[k..][|a[k..]| - 1] == a[|a| - 1];
    CollapseSpaceConcat(a[k..], b);
    ConcatRunStep(a, b);
  }

  /** One step of `CollapseSpaceConcatRun`: the leading run becomes one
      space on both sides. */
  lemma ConcatRunStep(a: string, b: string)
    requires a != [] && IsReSpace(a[0])
    requires b == [] || !(IsReSpace(a[|a| - 1]) && IsReSpace(b[0]))
    requires CollapseSpace(a[SpaceRun(a)..] + b) == CollapseSpace(a[SpaceRun(a)..]) + CollapseSpace(b)
    ensures CollapseSpace(a + b) == CollapseSpace(a) + CollapseSpace(b)
  {
    var k := SpaceRun(a);
    RunLayout(a, b);
    CollapseSpaceAtSpace(a + b);
    CollapseSpaceAtSpace(a);
    AppendAssoc([' '], CollapseSpace(a[k..]), CollapseSpace(b));
  }

  /** The leading white space of `a + b` is that of `a` when the seam is
      not between two white-space characters. */
  lemma RunLayout(a: string, b: string)
    requires a != []
    requires b == [] || !(IsReSpace(a[|a| - 1]) && IsReSpace(b[0]))
    ensures SpaceRun(a + b) == SpaceRun(a)
    ensures (a + b)[SpaceRun(a)..] == a[SpaceRun(a)..] + b
  {
    var k := SpaceRun(a);
    SpaceRunConcat(a, b);
    ConcatLayout(a, b, k);
    if k == |a| {
      SpaceRunAllSpace(a);
      assert IsReSpace(a[|a| - 1]);
      assert SpaceRun(b) == 0;
    }
  }
}
