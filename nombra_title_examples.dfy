/** The examples of nombra_test.go, proved one pipeline step at a time.
    Each title is given by its pieces, so that every step is a small
    lemma about those pieces and no recursive function has to be unrolled
    along a whole string literal. */
module NombraTitleExamples {
  import opened GoText
  import opened NombraTitle

  /** Text that both space-adjusting steps leave alone. */
  predicate Settled(s: string) {
    SplitCamel(s) == s && CollapseSpace(s) == s
  }

  /** Two settled pieces whose seam is neither a camel-case pair nor two
      white-space characters make a settled whole. */
  lemma SettledConcat(a: string, b: string)
    requires Settled(a) && Settled(b)
    requires a == [] || b == [] || (NoCamel(a[|a| - 1], b[0]) && !(IsReSpace(a[|a| - 1]) && IsReSpace(b[0])))
    ensures Settled(a + b)
  {
    SplitCamelConcat(a, b);
    CollapseSpaceConcat(a, b);
  }

  /** A short piece with single spaces and no camel-case pair is settled. */
  lemma SettledPiece(s: string)
    requires AllPairs(s, NoCamel)
    requires forall i :: 0 <= i < |s| && IsReSpace(s[i]) ==> s[i] == ' '
    requires forall i :: 0 <= i < |s| - 1 ==> !(IsReSpace(s[i]) && IsReSpace(s[i + 1]))
    ensures Settled(s)
  {
    SplitCamelIdentity(s);
    CollapseSpaceIdentity(s);
  }

  /** A word of an example title: not empty, no hyphen, its ends neither
      white space nor in the trim cutset, its white space single plain
      spaces, and no camel-case pair. */
  ghost predicate Word(w: string) {
    && w != []
    && !IsReSpace(w[0]) && !IsReSpace(w[|w| - 1])
    && !InTitleCutset(w[0]) && !InTitleCutset(w[|w| - 1])
    && (forall i :: 0 <= i < |w| ==> w[i] != '-' && (IsReSpace(w[i]) ==> w[i] == ' '))
    && (forall i :: 0 <= i < |w| - 1 ==> !(IsReSpace(w[i]) && IsReSpace(w[i + 1])))
    && AllPairs(w, NoCamel)
  }

  /** No newline anywhere. */
  predicate NoNewline(s: string) {
    forall i :: 0 <= i < |s| ==> s[i] != '\n'
  }

  lemma NoNewlineConcat(a: string, b: string)
    requires NoNewline(a) && NoNewline(b)
    ensures NoNewline(a + b)
  {
    forall i | 0 <= i < |a + b|
      ensures (a + b)[i] != '\n'
    {
      if i < |a| {
        assert (a + b)[i] == a[i];
      } else {
        assert (a + b)[i] == b[i - |a|];
      }
    }
  }

  lemma WordNoNewline(w: string)
    requires Word(w)
    ensures NoNewline(w)
  {
    forall i | 0 <= i < |w|
      ensures w[i] != '\n'
    {
      assert IsReSpace(w[i]) ==> w[i] == ' ';
    }
  }

  lemma WordSettled(w: string)
    requires Word(w)
    ensures Settled(w)
  {
    SettledPiece(w);
  }

  lemma SeparatorSettled(sep: string)
    requires sep == " - "
    ensures Settled(sep)
  {
    SettledPiece(sep);
  }

  /** A word passes the hyphen step unchanged. */
  lemma DashSpacingWord(w: string)
    requires Word(w)
    ensures DashSpacing(w) == w
  {
    var e: string := [];
    DashSpacingPlain(w, e);
    assert w + e == w;
  }

  /** A word, then white space and a hyphen: the hyphen step writes the
      word and " - ", and goes on after the hyphen. */
  lemma DashSpacingJoin(a: string, gap: string, b: string)
    requires Word(a)
    requires forall i :: 0 <= i < |gap| ==> IsReSpace(gap[i])
    requires b == [] || !IsReSpace(b[0])
    ensures DashSpacing(a + gap + "-" + b) == a + " - " + DashSpacing(b)
  {
    JoinLayout(a, gap, b);
    DashSpacingPlain(a, gap + "-" + [] + b);
    DashSpacingHyphen(gap, [], b);
    AppendAssoc(a, " - ", DashSpacing(b));
  }

  lemma JoinLayout(a: string, gap: string, b: string)
    ensures a + gap + "-" + b == a + (gap + "-" + [] + b)
  {
  }

  /** A settled word, a separator and a settled rest make a settled
      whole. */
  lemma SettledAfterWord(w: string, sep: string, rest: string)
    requires Word(w) && sep == " - " && Settled(rest)
    requires rest != [] && !IsReSpace(rest[0])
    ensures Settled(w + sep + rest)
  {
    WordSettled(w);
    SeparatorSettled(sep);
    SettledConcat(w, sep);
    SettledConcat(w + sep, rest);
  }

  // ---- " \"2024.03.31 -John Doe-Title\" \n" ----

  lemma DatedWords(date: string, name: string, last: string)
    requires date == "2024.03.31" && name == "John Doe" && last == "Title"
    ensures Word(date) && Word(name) && Word(last)
  {
  }

  lemma DatedTrim(pre: string, date: string, name: string, last: string, post: string)
    requires pre == " \"" && post == "\" \n"
    requires Word(date) && Word(name) && Word(last)
    ensures NewlinesToSpaces(TrimFunc(pre + (date + " -" + name + "-" + last) + post, InTitleCutset))
         == date + " -" + name + "-" + last
  {
    var middle := date + " -" + name + "-" + last;
    assert middle[0] == date[0];
    assert middle[|middle| - 1] == last[|last| - 1];
    TrimPadded(pre, middle, post, InTitleCutset);
    WordNoNewline(date);
    WordNoNewline(name);
    WordNoNewline(last);
    NoNewlineConcat(date, " -");
    NoNewlineConcat(date + " -", name);
    NoNewlineConcat(date + " -" + name, "-");
    NoNewlineConcat(date + " -" + name + "-", last);
    NewlinesToSpacesIdentity(middle);
  }

  lemma DatedDash(date: string, name: string, last: string)
    requires Word(date) && Word(name) && Word(last)
    ensures DashSpacing(date + " -" + name + "-" + last) == date + " - " + name + " - " + last
  {
    DatedLayout(date, name, last);
    DashSpacingJoin(date, " ", name + "-" + last);
    DashSpacingJoin(name, [], last);
    DashSpacingWord(last);
  }

  lemma DatedLayout(date: string, name: string, last: string)
    requires name != []
    ensures date + " -" + name + "-" + last == date + " " + "-" + (name + "-" + last)
    ensures (name + "-" + last)[0] == name[0]
    ensures name + [] + "-" + last == name + "-" + last
    ensures date + " - " + (name + " - " + last) == date + " - " + name + " - " + last
  {
  }

  lemma DatedSpacing(date: string, name: string, last: string)
    requires Word(date) && Word(name) && Word(last)
    ensures Settled(date + " - " + name + " - " + last)
  {
    WordSettled(last);
    SettledAfterWord(name, " - ", last);
    var rest := name + " - " + last;
    assert rest[0] == name[0];
    SettledAfterWord(date, " - ", rest);
    assert date + " - " + rest == date + " - " + name + " - " + last;
  }

  lemma DatedPieces(title: string, pre: string, date: string, name: string, last: string, post: string)
    requires title == " \"2024.03.31 -John Doe-Title\" \n"
    requires pre == " \"" && date == "2024.03.31" && name == "John Doe" && last == "Title" && post == "\" \n"
    ensures title == pre + (date + " -" + name + "-" + last) + post
  {
    DatedMiddle(date, name, last);
    DatedPadding(title, pre, post);
  }

  lemma DatedMiddle(date: string, name: string, last: string)
    requires date == "2024.03.31" && name == "John Doe" && last == "Title"
    ensures date + " -" + name + "-" + last == "2024.03.31 -John Doe-Title"
  {
  }

  lemma DatedPadding(title: string, pre: string, post: string)
    requires title == " \"2024.03.31 -John Doe-Title\" \n"
    requires pre == " \"" && post == "\" \n"
    ensures title == pre + "2024.03.31 -John Doe-Title" + post
  {
  }

  lemma DatedJoined(date: string, name: string, last: string)
    requires date == "2024.03.31" && name == "John Doe" && last == "Title"
    ensures date + " - " + name + " - " + last == "2024.03.31 - John Doe - Title"
  {
  }

  lemma DatedExample(title: string, pre: string, date: string, name: string, last: string, post: string)
    requires title == " \"2024.03.31 -John Doe-Title\" \n"
    requires pre == " \"" && date == "2024.03.31" && name == "John Doe" && last == "Title" && post == "\" \n"
    ensures CleanTitle(title) == "2024.03.31 - John Doe - Title"
  {
    DatedPieces(title, pre, date, name, last, post);
    DatedJoined(date, name, last);
    DatedWords(date, name, last);
    DatedTrim(pre, date, name, last, post);
    DatedDash(date, name, last);
    DatedSpacing(date, name, last);
  }

  /** nombra_test.go: the quotes, the outer white space and the newline go,
      and both hyphens get one space on each side. */
  lemma CleanTitleDatedExample()
    ensures CleanTitle(" \"2024.03.31 -John Doe-Title\" \n") == "2024.03.31 - John Doe - Title"
  {
    DatedExample(" \"2024.03.31 -John Doe-Title\" \n", " \"", "2024.03.31", "John Doe", "Title", "\" \n");
  }

  // ---- "FooBar" ----

  lemma CamelTrim(title: string)
    requires title == "FooBar"
    ensures NewlinesToSpaces(TrimFunc(title, InTitleCutset)) == title
  {
    NewlinesToSpacesIdentity(title);
  }

  lemma CamelDash(title: string)
    requires title == "FooBar"
    ensures DashSpacing(title) == title
  {
    var e: string := [];
    assert title + e == title;
    DashSpacingPlain(title, e);
  }

  lemma CamelSplit(title: string, pre: string, post: string)
    requires title == "FooBar" && pre == "Fo" && post == "ar"
    ensures SplitCamel(title) == pre + "o B" + post
  {
    assert title == pre + (['o', 'B'] + post);
    SplitCamelConcat(pre, ['o', 'B'] + post);
    SplitCamelIdentity(pre);
    SplitCamelPair('o', 'B', post);
    SplitCamelIdentity(post);
    assert pre + (['o', ' ', 'B'] + post) == pre + "o B" + post;
  }

  lemma CamelPieces(pre: string, post: string)
    requires pre == "Fo" && post == "ar"
    ensures pre + "o B" + post == "Foo Bar"
  {
  }

  lemma CamelCollapse(s: string)
    requires s == "Foo Bar"
    ensures CollapseSpace(s) == s
  {
    CollapseSpaceIdentity(s);
  }

  lemma CamelExample(title: string, pre: string, post: string)
    requires title == "FooBar" && pre == "Fo" && post == "ar"
    ensures CleanTitle(title) == "Foo Bar"
  {
    CamelTrim(title);
    CamelDash(title);
    CamelSplit(title, pre, post);
    CamelPieces(pre, post);
    CamelCollapse("Foo Bar");
  }

  /** nombra_test.go: a space goes between a lower-case and an upper-case
      letter. */
  lemma CleanTitleCamelExample()
    ensures CleanTitle("FooBar") == "Foo Bar"
  {
    CamelExample("FooBar", "Fo", "ar");
  }

  // ---- "  Something-Else  " ----

  lemma SomethingElseWords(first: string, second: string)
    requires first == "Something" && second == "Else"
    ensures Word(first) && Word(second)
  {
  }

  lemma HyphenTrim(pad: string, first: string, second: string)
    requires pad == "  "
    requires Word(first) && Word(second)
    ensures NewlinesToSpaces(TrimFunc(pad + (first + "-" + second) + pad, InTitleCutset)) == first + "-" + second
  {
    var middle := first + "-" + second;
    assert middle[0] == first[0];
    assert middle[|middle| - 1] == second[|second| - 1];
    TrimPadded(pad, middle, pad, InTitleCutset);
    WordNoNewline(first);
    WordNoNewline(second);
    NoNewlineConcat(first, "-");
    NoNewlineConcat(first + "-", second);
    NewlinesToSpacesIdentity(middle);
  }

  lemma HyphenDash(first: string, second: string)
    requires Word(first) && Word(second)
    ensures DashSpacing(first + "-" + second) == first + " - " + second
  {
    assert first + [] + "-" + second == first + "-" + second;
    DashSpacingJoin(first, [], second);
    DashSpacingWord(second);
  }

  lemma HyphenPieces(title: string, pad: string, first: string, second: string)
    requires title == "  Something-Else  "
    requires pad == "  " && first == "Something" && second == "Else"
    ensures title == pad + (first + "-" + second) + pad
    ensures first + " - " + second == "Something - Else"
  {
  }

  lemma HyphenExample(title: string, pad: string, first: string, second: string)
    requires title == "  Something-Else  "
    requires pad == "  " && first == "Something" && second == "Else"
    ensures CleanTitle(title) == "Something - Else"
  {
    HyphenPieces(title, pad, first, second);
    SomethingElseWords(first, second);
    HyphenTrim(pad, first, second);
    HyphenDash(first, second);
    WordSettled(second);
    SettledAfterWord(first, " - ", second);
  }

  /** nombra_test.go: the outer spaces go and the hyphen gets one space on
      each side. */
  lemma CleanTitleHyphenExample()
    ensures CleanTitle("  Something-Else  ") == "Something - Else"
  {
    HyphenExample("  Something-Else  ", "  ", "Something", "Else");
  }

  // ---- A title that a second clean-up still changes ----

  /** A carriage return is `\s` but not in the trim cutset: it survives the
      trim and becomes a space. */
  lemma CarriageReturnFirst(title: string, rest: string)
    requires title == "\r\"a" && rest == "\"a"
    ensures CleanTitle(title) == " " + rest
  {
    CarriageReturnKept(title);
    CarriageReturnCollapsed(title, rest);
  }

  /** The first four steps leave "\r\"a" alone. */
  lemma CarriageReturnKept(title: string)
    requires title == "\r\"a"
    ensures SplitCamel(DashSpacing(NewlinesToSpaces(TrimFunc(title, InTitleCutset)))) == title
  {
    TrimFuncShape(title, InTitleCutset);
    NewlinesToSpacesIdentity(title);
    var e: string := [];
    assert title + e == title;
    DashSpacingPlain(title, e);
    SplitCamelIdentity(title);
  }

  /** The last step turns the carriage return into a space. */
  lemma CarriageReturnCollapsed(title: string, rest: string)
    requires title == "\r\"a" && rest == "\"a"
    ensures CollapseSpace(title) == " " + rest
  {
    assert title[1..] == rest;
    SpaceRunOf(title, 1);
    CollapseSpaceAtSpace(title);
    CollapseSpaceIdentity(rest);
  }

  /** That space and the quote after it are now at the start, so the next
      trim removes them. */
  lemma QuoteAfterSpace(pad: string, word: string)
    requires pad == " \"" && word == "a"
    ensures CleanTitle(pad + word) == word
  {
    var e: string := [];
    TrimPadded(pad, word, e, InTitleCutset);
    assert pad + word + e == pad + word;
    NewlinesToSpacesIdentity(word);
    assert word + e == word;
    DashSpacingPlain(word, e);
    SplitCamelIdentity(word);
    CollapseSpaceIdentity(word);
  }

  /** `cleanTitle` is not idempotent: cleaning "\r\"a" gives " \"a", and
      cleaning that gives "a". */
  lemma CleanTitleNotIdempotent()
    ensures CleanTitle("\r\"a") == " \"a"
    ensures CleanTitle(CleanTitle("\r\"a")) == "a"
  {
    CarriageReturnFirst("\r\"a", "\"a");
    QuoteAfterSpace(" \"", "a");
    assert " " + "\"a" == " \"" + "a";
  }
}
