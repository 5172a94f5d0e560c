/** The output file name for an extracted post: the post ID, an underscore,
    a sanitised and truncated form of the title, and ".json". The title is
    rewritten in four steps: runs of separators become one '_', every other
    non-word character is dropped, runs of '_' collapse to one and outer '_'
    are stripped, and an empty result becomes "untitled". */
module OutputFormatter {
  import opened Wrappers
  import opened Text

  const MaxTitleLength: nat := 50

  /** The characters the first rewrite replaces: backslash, slash, colon,
      star, question mark, double quote, angle brackets, bar, and whitespace. */
  predicate IsSeparator(c: char) {
    c in "\\/:*?\"<>|" || IsSpace(c)
  }

  predicate IsUnderscore(c: char) {
    c == '_'
  }

  /** No two underscores stand next to each other. */
  predicate NoDoubleUnderscore(s: string) {
    forall i :: 0 <= i < |s| - 1 ==> !(s[i] == '_' && s[i + 1] == '_')
  }

  predicate AllWord(s: string) {
    forall i :: 0 <= i < |s| ==> IsWordChar(s[i])
  }

  /** What a sanitised title looks like: a non-empty run of word characters
      with no doubled underscore and no underscore at either end. */
  predicate Clean(s: string) {
    && s != []
    && AllWord(s)
    && NoDoubleUnderscore(s)
    && s[0] != '_'
    && s[|s| - 1] != '_'
  }

  /** Step 1: every maximal run of separators becomes a single '_'. */
  function ReplaceSeparatorRuns(s: string): (r: string)
    ensures forall i :: 0 <= i < |r| ==> !IsSeparator(r[i])
    ensures forall c :: c in r ==> c in s || c == '_'
    decreases |s|
  {
    if s == [] then []
    else if IsSeparator(s[0]) then
      var rest := TrimStart(s, IsSeparator);
      "_" + ReplaceSeparatorRuns(rest)
    else [s[0]] + ReplaceSeparatorRuns(s[1..])
  }

  /** Step 2: every character that is not a word character is dropped. */
  function KeepWordChars(s: string): (r: string)
    ensures AllWord(r)
    ensures forall c :: c in r ==> c in s
  {
    if s == [] then []
    else if IsWordChar(s[0]) then [s[0]] + KeepWordChars(s[1..])
    else KeepWordChars(s[1..])
  }

  /** Step 3, first half: every run of '_' becomes a single '_'. */
  function CollapseUnderscores(s: string): (r: string)
    ensures NoDoubleUnderscore(r)
    ensures forall c :: c in r ==> c in s
    ensures r == [] <==> s == []
    ensures r != [] ==> (r[0] == '_' <==> s[0] == '_')
    decreases |s|
  {
    if s == [] then []
    else if s[0] == '_' then
      var rest := TrimStart(s, IsUnderscore);
      "_" + CollapseUnderscores(rest)
    else [s[0]] + CollapseUnderscores(s[1..])
  }

  /** Step 3, second half: Python's `strip('_')`. */
  function StripUnderscores(s: string): (r: string)
    ensures r != [] ==> r[0] != '_' && r[|r| - 1] != '_'
    ensures AllWord(s) ==> AllWord(r)
    ensures NoDoubleUnderscore(s) ==> NoDoubleUnderscore(r)
  {
    var a := TrimStart(s, IsUnderscore);
    var b := TrimEnd(a, IsUnderscore);
    var i := |s| - |a|;
    assert b == s[i..i + |b|];
    SliceKeepsAllWord(s, i, i + |b|);
    SliceKeepsNoDouble(s, i, i + |b|);
    b
  }

  /** The title rewritten by steps 1 to 4. */
  function SanitiseTitle(title: string): string {
    var s := StripUnderscores(CollapseUnderscores(KeepWordChars(ReplaceSeparatorRuns(Strip(title)))));
    if s == [] then "untitled" else s
  }

  /** The title part of the name before truncation: "untitled" for a missing
      or empty title. */
  function TitlePart(title: Option<string>): string {
    if title.None? || title.value == [] then "untitled" else SanitiseTitle(title.value)
  }

  /** `generate_filename`. */
  function GenerateFilename(postId: string, title: Option<string>): (r: string)
    ensures StartsWith(r, postId + "_") && EndsWith(r, ".json")
    ensures |postId| + 7 <= |r| <= |postId| + 6 + MaxTitleLength
    ensures r == postId + "_" + Truncate(TitlePart(title)) + ".json"
  {
    var part := TitlePart(title);
    CleanTitlePart(title);
    var t := Truncate(part);
    var r := postId + "_" + t + ".json";
    assert r[..|postId| + 1] == postId + "_";
    assert r[|r| - 5..] == ".json";
    r
  }

  /** Python's `s[:50]`. */
  function Truncate(s: string): (t: string)
    ensures |t| == if |s| <= MaxTitleLength then |s| else MaxTitleLength
    ensures StartsWith(s, t)
  {
    if |s| <= MaxTitleLength then s else s[..MaxTitleLength]
  }

  // ---------------------------------------------------------------------
  // What the rewrite guarantees

  /** A sub-slice of a text without doubled underscores has none either. */
  lemma SliceKeepsNoDouble(s: string, i: nat, j: nat)
    requires i <= j <= |s|
    ensures NoDoubleUnderscore(s) ==> NoDoubleUnderscore(s[i..j])
  {
    if NoDoubleUnderscore(s) {
      forall k | 0 <= k < j - i - 1
        ensures !(s[i..j][k] == '_' && s[i..j][k + 1] == '_')
      {
        assert s[i..j][k] == s[i + k] && s[i..j][k + 1] == s[i + k + 1];
      }
    }
  }

  /** A sub-slice of a text of word characters is one too. */
  lemma SliceKeepsAllWord(s: string, i: nat, j: nat)
    requires i <= j <= |s|
    ensures AllWord(s) ==> AllWord(s[i..j])
  {
    if AllWord(s) {
      forall k | 0 <= k < j - i
        ensures IsWordChar(s[i..j][k])
      {
        assert s[i..j][k] == s[i + k];
      }
    }
  }

  /** Collapsing underscores keeps a text of word characters one. */
  lemma CollapseKeepsAllWord(s: string)
    requires AllWord(s)
    ensures AllWord(CollapseUnderscores(s))
  {
    var r := CollapseUnderscores(s);
    forall k | 0 <= k < |r|
      ensures IsWordChar(r[k])
    {
      assert r[k] in r;
      var c := r[k];
      assert c in s;
      var i :| 0 <= i < |s| && s[i] == c;
    }
  }

  /** The placeholder title is itself clean. */
  lemma UntitledClean()
    ensures Clean("untitled")
  {
    assert AllWord("untitled");
  }

  /** The sanitised title is clean: only word characters, no doubled
      underscore, none at either end, and never empty. */
  lemma SanitisedIsClean(title: string)
    ensures Clean(SanitiseTitle(title))
  {
    var k := KeepWordChars(ReplaceSeparatorRuns(Strip(title)));
    CollapseKeepsAllWord(k);
    UntitledClean();
  }

  /** The title part is clean, whatever the title. */
  lemma CleanTitlePart(title: Option<string>)
    ensures Clean(TitlePart(title))
  {
    if title.Some? && title.value != [] {
      SanitisedIsClean(title.value);
    }
  }

  /** A missing or empty title gives "<id>_untitled.json". */
  lemma MissingTitle(postId: string, title: Option<string>)
    requires title.None? || title == Some("")
    ensures GenerateFilename(postId, title) == postId + "_untitled.json"
  {
    assert postId + "_" + "untitled" + ".json" == postId + "_untitled.json";
  }

  /** Between the ID's '_' and ".json" stand one to fifty word characters. */
  lemma FilenameChars(postId: string, title: Option<string>)
    ensures var r := GenerateFilename(postId, title);
      |postId| + 1 < |r| - 5 && AllWord(r[|postId| + 1..|r| - 5])
  {
    var part := TitlePart(title);
    CleanTitlePart(title);
    var t := Truncate(part);
    SliceKeepsAllWord(part, 0, |t|);
    var r := postId + "_" + t + ".json";
    assert r[|postId| + 1..|r| - 5] == t;
  }

  // ---------------------------------------------------------------------
  // Titles without word characters

  /** Step 1 brings in no character but '_'. */
  lemma ReplaceKeepsNoWord(s: string)
    requires forall c :: c in s ==> !IsWordChar(c)
    ensures forall c :: c in ReplaceSeparatorRuns(s) ==> c == '_' || !IsWordChar(c)
  {
  }

  /** What is left of a title without word characters is underscores only. */
  lemma KeepOnlyUnderscores(s: string)
    requires forall c :: c in s ==> c == '_' || !IsWordChar(c)
    ensures forall c :: c in KeepWordChars(s) ==> c == '_'
  {
  }

  /** Stripping '_' from a text of underscores leaves nothing. */
  lemma StripAllUnderscores(s: string)
    requires forall c :: c in s ==> c == '_'
    ensures StripUnderscores(s) == []
  {
    TrimAllUnderscores(s);
  }

  lemma {:induction false} TrimAllUnderscores(s: string)
    requires forall c :: c in s ==> c == '_'
    ensures TrimStart(s, IsUnderscore) == []
    decreases |s|
  {
    if s != [] {
      assert s[0] in s;
      assert forall c :: c in s[1..] ==> c in s;
      TrimAllUnderscores(s[1..]);
    }
  }

  /** A title with no word character, such as "*&^%", becomes "untitled". */
  lemma NoWordCharsUntitled(title: string)
    requires forall c :: c in title ==> !IsWordChar(c)
    ensures SanitiseTitle(title) == "untitled"
  {
    var s := Strip(title);
    ReplaceKeepsNoWord(s);
    var r := ReplaceSeparatorRuns(s);
    KeepOnlyUnderscores(r);
    var k := KeepWordChars(r);
    var c := CollapseUnderscores(k);
    StripAllUnderscores(c);
  }

  /** The symbols-only sample title. */
  lemma SymbolsOnlyTitle(postId: string)
    ensures GenerateFilename(postId, Some("*&^%")) == postId + "_untitled.json"
  {
    SymbolsTitlePart();
    UntitledName(postId, Some("*&^%"));
  }

  lemma SymbolsTitlePart()
    ensures TitlePart(Some("*&^%")) == "untitled"
  {
    assert forall c :: c in "*&^%" ==> !IsWordChar(c);
    NoWordCharsUntitled("*&^%");
  }

  /** A title that sanitises to "untitled" names the file like a missing one. */
  lemma UntitledName(postId: string, title: Option<string>)
    requires TitlePart(title) == "untitled"
    ensures GenerateFilename(postId, title) == postId + "_untitled.json"
  {
    assert postId + "_" + "untitled" + ".json" == postId + "_untitled.json";
  }

  // ---------------------------------------------------------------------
  // Runs of separators

  /** Dropping a leading run of separators leaves what follows it. */
  lemma {:induction false} TrimSeparatorRun(run: string, b: string)
    requires forall i :: 0 <= i < |run| ==> IsSeparator(run[i])
    requires b == [] || !IsSeparator(b[0])
    ensures TrimStart(run + b, IsSeparator) == b
    decreases |run|
  {
    if run != [] {
      assert (run + b)[1..] == run[1..] + b;
      TrimSeparatorRun(run[1..], b);
    } else {
      assert run + b == b;
    }
  }

  /** A run of separators becomes exactly one '_'. */
  lemma SeparatorRun(run: string, b: string)
    requires run != [] && forall i :: 0 <= i < |run| ==> IsSeparator(run[i])
    requires b == [] || !IsSeparator(b[0])
    ensures ReplaceSeparatorRuns(run + b) == "_" + ReplaceSeparatorRuns(b)
  {
    TrimSeparatorRun(run, b);
    assert (run + b)[0] == run[0];
  }

  /** Text without separators passes step 1 unchanged. */
  lemma {:induction false} NoSeparatorKept(w: string, b: string)
    requires forall i :: 0 <= i < |w| ==> !IsSeparator(w[i])
    ensures ReplaceSeparatorRuns(w + b) == w + ReplaceSeparatorRuns(b)
    decreases |w|
  {
    if w != [] {
      assert (w + b)[0] == w[0] && (w + b)[1..] == w[1..] + b;
      NoSeparatorKept(w[1..], b);
      assert w == [w[0]] + w[1..];
    } else {
      assert w + b == b;
    }
  }

  // ---------------------------------------------------------------------
  // A clean title is left as it is

  /** Step 2 keeps a text of word characters. */
  lemma {:induction false} KeepAllWord(s: string)
    requires AllWord(s)
    ensures KeepWordChars(s) == s
    decreases |s|
  {
    if s != [] {
      KeepAllWord(s[1..]);
    }
  }

  /** Dropping leading underscores from a text that has one at most. */
  lemma TrimOneUnderscore(s: string)
    requires s != [] && s[0] == '_' && (|s| == 1 || s[1] != '_')
    ensures TrimStart(s, IsUnderscore) == s[1..]
  {
    assert TrimStart(s, IsUnderscore) == TrimStart(s[1..], IsUnderscore);
  }

  /** Collapsing keeps a text without doubled underscores. */
  lemma {:induction false} CollapseKeepsSingle(s: string)
    requires NoDoubleUnderscore(s)
    ensures CollapseUnderscores(s) == s
    decreases |s|
  {
    if s != [] {
      assert NoDoubleUnderscore(s[1..]) by {
        forall i | 0 <= i < |s[1..]| - 1
          ensures !(s[1..][i] == '_' && s[1..][i + 1] == '_')
        {
          assert s[1..][i] == s[i + 1] && s[1..][i + 1] == s[i + 2];
        }
      }
      CollapseKeepsSingle(s[1..]);
      if s[0] == '_' {
        TrimOneUnderscore(s);
      }
      assert s == [s[0]] + s[1..];
    }
  }

  /** Stripping keeps a text with no underscore at either end. */
  lemma StripKeepsInner(s: string)
    requires s != [] && s[0] != '_' && s[|s| - 1] != '_'
    ensures StripUnderscores(s) == s
  {
  }

  /** Steps 1 and 2 keep a clean title. */
  lemma CleanSteps12(s: string)
    requires Clean(s)
    ensures KeepWordChars(ReplaceSeparatorRuns(Strip(s))) == s
  {
    assert IsWordChar(s[0]) && IsWordChar(s[|s| - 1]);
    StripUnchanged(s);
    NoSeparatorKept(s, []);
    assert s + [] == s;
    KeepAllWord(s);
  }

  /** A clean title is a fixed point of the rewrite. */
  lemma CleanFixedPoint(s: string)
    requires Clean(s)
    ensures SanitiseTitle(s) == s
  {
    CleanSteps12(s);
    CollapseKeepsSingle(s);
    StripKeepsInner(s);
  }

  /** Sanitising twice is sanitising once. */
  lemma SanitiseIdempotent(title: string)
    ensures SanitiseTitle(SanitiseTitle(title)) == SanitiseTitle(title)
  {
    SanitisedIsClean(title);
    CleanFixedPoint(SanitiseTitle(title));
  }

  // ---------------------------------------------------------------------
  // A whole title of words and separator runs

  /** `ws[0] + seps[0] + ws[1] + seps[1] + ... + last`: words with what
      stands between them. */
  function Interleave(ws: seq<string>, seps: seq<string>, last: string): string
    requires |ws| == |seps|
  {
    if ws == [] then last else ws[0] + seps[0] + Interleave(ws[1..], seps[1..], last)
  }

  predicate NoSeparators(w: string) {
    forall i :: 0 <= i < |w| ==> !IsSeparator(w[i])
  }

  /** A non-empty run of separators. */
  predicate SeparatorsOnly(w: string) {
    w != [] && forall i :: 0 <= i < |w| ==> IsSeparator(w[i])
  }

  function Underscores(n: nat): (r: seq<string>)
    ensures |r| == n && forall i :: 0 <= i < n ==> r[i] == "_"
  {
    if n == 0 then [] else ["_"] + Underscores(n - 1)
  }

  /** A word, a run of separators and the rest: the run becomes one '_'. */
  lemma WordThenRun(w: string, run: string, b: string)
    requires NoSeparators(w) && SeparatorsOnly(run)
    requires b == [] || !IsSeparator(b[0])
    ensures ReplaceSeparatorRuns(w + run + b) == w + "_" + ReplaceSeparatorRuns(b)
  {
    assert w + run + b == w + (run + b);
    NoSeparatorKept(w, run + b);
    SeparatorRun(run, b);
  }

  /** Step 1 on a whole title: words free of separators, joined by runs of
      whitespace or separators, come out joined by single underscores, as
      the module's self-test title "This is a Test Post! With Punctuation &
      Stuff?*~" becomes "This_is_a_Test_Post!_With_Punctuation_&_Stuff_~". */
  lemma {:induction false} JoinedRuns(ws: seq<string>, seps: seq<string>, last: string)
    requires |ws| == |seps|
    requires forall i :: 0 <= i < |ws| ==> NoSeparators(ws[i]) && SeparatorsOnly(seps[i])
    requires forall i :: 0 < i < |ws| ==> ws[i] != []
    requires NoSeparators(last) && (ws != [] ==> last != [])
    ensures ReplaceSeparatorRuns(Interleave(ws, seps, last)) == Interleave(ws, Underscores(|ws|), last)
    decreases |ws|
  {
    if ws == [] {
      NoSeparatorKept(last, []);
      assert last + [] == last;
    } else {
      var b := Interleave(ws[1..], seps[1..], last);
      JoinedRuns(ws[1..], seps[1..], last);
      assert b == [] || !IsSeparator(b[0]);
      WordThenRun(ws[0], seps[0], b);
      assert Underscores(|ws|)[1..] == Underscores(|ws| - 1);
    }
  }

  // ---------------------------------------------------------------------
  // What each step keeps

  /** Step 2 works character by character: it distributes over concatenation. */
  lemma {:induction false} KeepAppend(a: string, b: string)
    ensures KeepWordChars(a + b) == KeepWordChars(a) + KeepWordChars(b)
    decreases |a|
  {
    if a != [] {
      assert (a + b)[0] == a[0] && (a + b)[1..] == a[1..] + b;
      KeepAppend(a[1..], b);
    } else {
      assert a + b == b;
    }
  }

  /** Step 2 drops a text without word characters entirely. */
  lemma {:induction false} KeepNoWord(s: string)
    requires forall i :: 0 <= i < |s| ==> !IsWordChar(s[i])
    ensures KeepWordChars(s) == []
    decreases |s|
  {
    if s != [] {
      assert forall i :: 0 <= i < |s[1..]| ==> s[1..][i] == s[i + 1];
      KeepNoWord(s[1..]);
    }
  }

  /** The characters of a text other than '_', in order. */
  function NonUnderscores(s: string): (r: string)
    ensures '_' !in r
    ensures |r| <= |s|
  {
    if s == [] then []
    else if s[0] == '_' then NonUnderscores(s[1..])
    else [s[0]] + NonUnderscores(s[1..])
  }

  lemma {:induction false} NonUnderscoresAppend(a: string, b: string)
    ensures NonUnderscores(a + b) == NonUnderscores(a) + NonUnderscores(b)
    decreases |a|
  {
    if a != [] {
      assert (a + b)[0] == a[0] && (a + b)[1..] == a[1..] + b;
      NonUnderscoresAppend(a[1..], b);
    } else {
      assert a + b == b;
    }
  }

  /** A text of underscores has no other character. */
  lemma {:induction false} NonUnderscoresOfRun(u: string)
    requires forall i :: 0 <= i < |u| ==> u[i] == '_'
    ensures NonUnderscores(u) == []
    decreases |u|
  {
    if u != [] {
      assert forall i :: 0 <= i < |u[1..]| ==> u[1..][i] == u[i + 1];
      NonUnderscoresOfRun(u[1..]);
    }
  }

  /** Collapsing underscores keeps every other character, in order. */
  lemma {:induction false} CollapseKeepsOrder(s: string)
    ensures NonUnderscores(CollapseUnderscores(s)) == NonUnderscores(s)
    decreases |s|
  {
    if s != [] {
      if s[0] == '_' {
        var rest := TrimStart(s, IsUnderscore);
        var u := s[..|s| - |rest|];
        assert s == u + rest;
        NonUnderscoresOfRun(u);
        NonUnderscoresAppend(u, rest);
        CollapseKeepsOrder(rest);
        NonUnderscoresAppend("_", CollapseUnderscores(rest));
      } else {
        CollapseKeepsOrder(s[1..]);
        NonUnderscoresAppend([s[0]], CollapseUnderscores(s[1..]));
        NonUnderscoresAppend([s[0]], s[1..]);
        assert s == [s[0]] + s[1..];
      }
    }
  }

  /** Stripping removes underscores at the two ends and nothing else: the
      text is the result with runs of '_' before and after it. */
  lemma StripOnlyOuter(s: string) returns (u1: string, u2: string)
    ensures s == u1 + StripUnderscores(s) + u2
    ensures forall i :: 0 <= i < |u1| ==> u1[i] == '_'
    ensures forall i :: 0 <= i < |u2| ==> u2[i] == '_'
  {
    var a := TrimStart(s, IsUnderscore);
    u1 := TrimStartSplit(s, IsUnderscore);
    u2 := TrimEndSplit(a, IsUnderscore);
    assert StripUnderscores(s) == TrimEnd(a, IsUnderscore);
  }

  /** Stripping keeps every character other than '_', in order. */
  lemma StripKeepsOrder(s: string)
    ensures NonUnderscores(StripUnderscores(s)) == NonUnderscores(s)
  {
    var u1, u2 := StripOnlyOuter(s);
    var r := StripUnderscores(s);
    NonUnderscoresAppend(u1 + r, u2);
    NonUnderscoresAppend(u1, r);
    NonUnderscoresOfRun(u1);
    NonUnderscoresOfRun(u2);
    assert [] + NonUnderscores(r) + [] == NonUnderscores(r);
  }

  // ---------------------------------------------------------------------
  // Steps 2 and 3 on a whole title

  /** Concatenating words, what stands between them and a tail, split after `k` words. */
  lemma {:induction false} InterleaveSplit(ws: seq<string>, seps: seq<string>, last: string, k: nat)
    requires |ws| == |seps| && k <= |ws|
    ensures Interleave(ws, seps, last) == Interleave(ws[..k], seps[..k], Interleave(ws[k..], seps[k..], last))
    decreases k
  {
    if k > 0 {
      InterleaveSplit(ws[1..], seps[1..], last, k - 1);
      assert ws[1..][..k - 1] == ws[..k][1..] && seps[1..][..k - 1] == seps[..k][1..];
      assert ws[1..][k - 1..] == ws[k..] && seps[1..][k - 1..] == seps[k..];
    }
  }

  /** Appending to the tail appends to the whole. */
  lemma {:induction false} InterleaveTail(ws: seq<string>, seps: seq<string>, a: string, b: string)
    requires |ws| == |seps|
    ensures Interleave(ws, seps, a + b) == Interleave(ws, seps, a) + b
    decreases |ws|
  {
    if ws != [] {
      var x := Interleave(ws[1..], seps[1..], a);
      InterleaveTail(ws[1..], seps[1..], a, b);
      assert ws[0] + seps[0] + (x + b) == (ws[0] + seps[0] + x) + b;
    }
  }

  /** Step 2 on a whole title: each word and each separator is filtered on its own. */
  lemma {:induction false} KeepInterleave(ws: seq<string>, seps: seq<string>, last: string, kept: seq<string>)
    requires |ws| == |seps| == |kept|
    requires forall i :: 0 <= i < |ws| ==> KeepWordChars(ws[i]) == kept[i] && AllWord(seps[i])
    ensures KeepWordChars(Interleave(ws, seps, last)) == Interleave(kept, seps, KeepWordChars(last))
    decreases |ws|
  {
    if ws != [] {
      var rest := Interleave(ws[1..], seps[1..], last);
      KeepInterleave(ws[1..], seps[1..], last, kept[1..]);
      KeepAppend(ws[0] + seps[0], rest);
      KeepAppend(ws[0], seps[0]);
      KeepAllWord(seps[0]);
    }
  }

  /** Text without '_' passes step 3's collapse unchanged. */
  lemma {:induction false} NoUnderscoreKept(w: string, b: string)
    requires '_' !in w
    ensures CollapseUnderscores(w + b) == w + CollapseUnderscores(b)
    decreases |w|
  {
    if w != [] {
      assert (w + b)[0] == w[0] && (w + b)[1..] == w[1..] + b;
      assert w[0] in w;
      NoUnderscoreKept(w[1..], b);
      assert w == [w[0]] + w[1..];
    } else {
      assert w + b == b;
    }
  }

  /** Dropping a leading run of '_' leaves what follows it. */
  lemma {:induction false} TrimUnderscoreRun(run: string, b: string)
    requires forall i :: 0 <= i < |run| ==> run[i] == '_'
    requires b == [] || b[0] != '_'
    ensures TrimStart(run + b, IsUnderscore) == b
    decreases |run|
  {
    if run != [] {
      assert (run + b)[1..] == run[1..] + b;
      TrimUnderscoreRun(run[1..], b);
    } else {
      assert run + b == b;
    }
  }

  /** A non-empty run of '_'. */
  predicate UnderscoresOnly(w: string) {
    w != [] && forall i :: 0 <= i < |w| ==> w[i] == '_'
  }

  /** A word, a run of '_' and the rest: the run becomes one '_'. */
  lemma WordThenUnderscores(w: string, run: string, b: string)
    requires '_' !in w && UnderscoresOnly(run)
    requires b == [] || b[0] != '_'
    ensures CollapseUnderscores(w + run + b) == w + "_" + CollapseUnderscores(b)
  {
    assert w + run + b == w + (run + b);
    NoUnderscoreKept(w, run + b);
    TrimUnderscoreRun(run, b);
    assert (run + b)[0] == '_';
  }

  /** Step 3 on a whole title: words without '_', joined by runs of '_',
      come out joined by single underscores. */
  lemma {:induction false} CollapsedRuns(ws: seq<string>, runs: seq<string>, last: string)
    requires |ws| == |runs|
    requires forall i :: 0 <= i < |ws| ==> '_' !in ws[i] && UnderscoresOnly(runs[i])
    requires forall i :: 0 < i < |ws| ==> ws[i] != []
    requires '_' !in last
    ensures CollapseUnderscores(Interleave(ws, runs, last)) == Interleave(ws, Underscores(|ws|), last)
    decreases |ws|
  {
    if ws == [] {
      NoUnderscoreKept(last, []);
      assert last + [] == last;
    } else {
      var b := Interleave(ws[1..], runs[1..], last);
      CollapsedRuns(ws[1..], runs[1..], last);
      assert b == [] || b[0] != '_' by {
        if |ws| > 1 {
          assert ws[1] != [] && ws[1][0] in ws[1];
        } else if last != [] {
          assert last[0] in last;
        }
      }
      WordThenUnderscores(ws[0], runs[0], b);
      assert Underscores(|ws|)[1..] == Underscores(|ws| - 1);
    }
  }

  // ---------------------------------------------------------------------
  // The module's self-test title

  /** "This is a Test Post! With Punctuation & Stuff?*~" cut into its words
      and what stands between them. */
  const TitleWords: seq<string> := ["This", "is", "a", "Test", "Post!", "With", "Punctuation", "&", "Stuff"]
  const TitleGaps: seq<string> := [" ", " ", " ", " ", " ", " ", " ", " ", "?*"]
  /** The words after step 2. */
  const KeptWords: seq<string> := ["This", "is", "a", "Test", "Post", "With", "Punctuation", "", "Stuff"]
  /** The same text with the emptied word folded into the runs of '_' around it. */
  const CleanWords: seq<string> := ["This", "is", "a", "Test", "Post", "With", "Punctuation", "Stuff"]
  const CleanRuns: seq<string> := ["_", "_", "_", "_", "_", "_", "__", "_"]

  lemma TitleHalves()
    ensures Interleave(TitleWords, TitleGaps, "~")
         == Interleave(["This", "is", "a", "Test", "Post!"], [" ", " ", " ", " ", " "], Interleave(["With", "Punctuation", "&", "Stuff"], [" ", " ", " ", "?*"], "~"))
  {
    InterleaveSplit(TitleWords, TitleGaps, "~", 5);
    assert TitleWords[..5] == ["This", "is", "a", "Test", "Post!"] && TitleGaps[..5] == [" ", " ", " ", " ", " "];
    assert TitleWords[5..] == ["With", "Punctuation", "&", "Stuff"] && TitleGaps[5..] == [" ", " ", " ", "?*"];
  }

  lemma TitleFirstHalf()
    ensures Interleave(["This", "is", "a", "Test", "Post!"], [" ", " ", " ", " ", " "], "") == "This is a Test Post! "
  {
  }

  lemma TitleSecondHalf()
    ensures Interleave(["With", "Punctuation", "&", "Stuff"], [" ", " ", " ", "?*"], "~") == "With Punctuation & Stuff?*~"
  {
  }

  /** The title is its words and gaps put back together. */
  lemma TitleText()
    ensures Interleave(TitleWords, TitleGaps, "~") == "This is a Test Post! " + "With Punctuation & Stuff?*~"
  {
    TitleHalves();
    TitleSecondHalf();
    InterleaveTail(["This", "is", "a", "Test", "Post!"], [" ", " ", " ", " ", " "], "", "With Punctuation & Stuff?*~");
    TitleFirstHalf();
  }

  lemma TitleEnds()
    ensures var t := Interleave(TitleWords, TitleGaps, "~"); t != [] && t[0] == 'T' && t[|t| - 1] == '~'
  {
  }

  lemma TitlePieces()
    ensures forall i :: 0 <= i < 9 ==> NoSeparators(TitleWords[i]) && SeparatorsOnly(TitleGaps[i])
  {
    forall i | 0 <= i < 9
      ensures NoSeparators(TitleWords[i]) && SeparatorsOnly(TitleGaps[i])
    {
    }
  }

  /** Step 1: the gaps become single underscores. */
  lemma TitleStep1()
    ensures ReplaceSeparatorRuns(Strip(Interleave(TitleWords, TitleGaps, "~"))) == Interleave(TitleWords, Underscores(9), "~")
  {
    TitleEnds();
    StripUnchanged(Interleave(TitleWords, TitleGaps, "~"));
    TitlePieces();
    JoinedRuns(TitleWords, TitleGaps, "~");
  }

  lemma KeptPieces()
    ensures forall i :: 0 <= i < 9 ==> KeepWordChars(TitleWords[i]) == KeptWords[i] && AllWord(Underscores(9)[i])
  {
    forall i | 0 <= i < 9
      ensures KeepWordChars(TitleWords[i]) == KeptWords[i] && AllWord(Underscores(9)[i])
    {
      if i == 4 {
        assert TitleWords[i] == "Post" + "!";
        KeepAppend("Post", "!");
        KeepAllWord("Post");
        KeepNoWord("!");
      } else if i == 7 {
        KeepNoWord("&");
      } else {
        KeepAllWord(TitleWords[i]);
      }
      assert Underscores(9)[i] == "_";
    }
  }

  /** Step 2: "!", "&" and "~" are dropped. */
  lemma TitleStep2()
    ensures KeepWordChars(Interleave(TitleWords, Underscores(9), "~")) == Interleave(KeptWords, Underscores(9), "")
  {
    KeptPieces();
    KeepInterleave(TitleWords, Underscores(9), "~", KeptWords);
    TildeDropped();
  }

  lemma TildeDropped()
    ensures KeepWordChars("~") == []
  {
    KeepNoWord("~");
  }

  lemma KeptTail()
    ensures Interleave(["Punctuation", "", "Stuff"], ["_", "_", "_"], "") == "Punctuation__Stuff_"
  {
  }

  lemma CleanTail()
    ensures Interleave(["Punctuation", "Stuff"], ["__", "_"], "") == "Punctuation__Stuff_"
  {
  }

  lemma KeptSplit()
    ensures Interleave(KeptWords, Underscores(9), "")
         == Interleave(KeptWords[..6], Underscores(9)[..6], Interleave(["Punctuation", "", "Stuff"], ["_", "_", "_"], ""))
  {
    InterleaveSplit(KeptWords, Underscores(9), "", 6);
    assert KeptWords[6..] == ["Punctuation", "", "Stuff"] && Underscores(9)[6..] == ["_", "_", "_"];
  }

  lemma CleanSplit()
    ensures Interleave(CleanWords, CleanRuns, "")
         == Interleave(CleanWords[..6], CleanRuns[..6], Interleave(["Punctuation", "Stuff"], ["__", "_"], ""))
  {
    InterleaveSplit(CleanWords, CleanRuns, "", 6);
    assert CleanWords[6..] == ["Punctuation", "Stuff"] && CleanRuns[6..] == ["__", "_"];
  }

  lemma KeptRegroup()
    ensures Interleave(KeptWords, Underscores(9), "") == Interleave(CleanWords, CleanRuns, "")
  {
    KeptSplit();
    CleanSplit();
    KeptTail();
    CleanTail();
    assert KeptWords[..6] == CleanWords[..6];
    assert Underscores(9)[..6] == CleanRuns[..6];
  }

  lemma CleanPieces()
    ensures forall i :: 0 <= i < 8 ==> '_' !in CleanWords[i] && UnderscoresOnly(CleanRuns[i]) && CleanWords[i] != []
  {
    forall i | 0 <= i < 8
      ensures '_' !in CleanWords[i] && UnderscoresOnly(CleanRuns[i]) && CleanWords[i] != []
    {
    }
  }

  /** Step 3, first half: "__" where "&" stood collapses. */
  lemma TitleStep3()
    ensures CollapseUnderscores(Interleave(KeptWords, Underscores(9), "")) == Interleave(CleanWords, Underscores(8), "")
  {
    KeptRegroup();
    CleanPieces();
    CollapsedRuns(CleanWords, CleanRuns, "");
  }

  /** Stripping a text that only has one '_' too many at its end. */
  lemma StripTrailingUnderscore(x: string)
    requires x != [] && x[0] != '_' && x[|x| - 1] != '_'
    ensures StripUnderscores(x + "_") == x
  {
    assert TrimStart(x + "_", IsUnderscore) == x + "_";
    assert (x + "_")[..|x|] == x;
    assert TrimEnd(x + "_", IsUnderscore) == TrimEnd(x, IsUnderscore);
  }

  lemma CleanLast()
    ensures Interleave(CleanWords, Underscores(8), "")
         == Interleave(["This", "is", "a", "Test", "Post", "With", "Punctuation"], ["_", "_", "_", "_", "_", "_", "_"], "Stuff") + "_"
  {
    InterleaveSplit(CleanWords, Underscores(8), "", 7);
    assert CleanWords[..7] == ["This", "is", "a", "Test", "Post", "With", "Punctuation"];
    assert Underscores(8)[..7] == ["_", "_", "_", "_", "_", "_", "_"];
    assert CleanWords[7..] == ["Stuff"] && Underscores(8)[7..] == ["_"];
    assert Interleave(["Stuff"], ["_"], "") == "Stuff" + "_";
    InterleaveTail(CleanWords[..7], Underscores(8)[..7], "Stuff", "_");
  }

  lemma CleanHalves()
    ensures Interleave(["This", "is", "a", "Test", "Post", "With", "Punctuation"], ["_", "_", "_", "_", "_", "_", "_"], "Stuff")
         == Interleave(["This", "is", "a", "Test", "Post"], ["_", "_", "_", "_", "_"], Interleave(["With", "Punctuation"], ["_", "_"], "Stuff"))
  {
    var ws := ["This", "is", "a", "Test", "Post", "With", "Punctuation"];
    var us := ["_", "_", "_", "_", "_", "_", "_"];
    InterleaveSplit(ws, us, "Stuff", 5);
    assert ws[..5] == ["This", "is", "a", "Test", "Post"] && us[..5] == ["_", "_", "_", "_", "_"];
    assert ws[5..] == ["With", "Punctuation"] && us[5..] == ["_", "_"];
  }

  lemma CleanFirstHalf()
    ensures Interleave(["This", "is", "a", "Test", "Post"], ["_", "_", "_", "_", "_"], "") == "This_is_a_Test_Post_"
  {
  }

  lemma CleanSecondHalf()
    ensures Interleave(["With", "Punctuation"], ["_", "_"], "Stuff") == "With_Punctuation_Stuff"
  {
  }

  lemma CleanText()
    ensures Interleave(["This", "is", "a", "Test", "Post", "With", "Punctuation"], ["_", "_", "_", "_", "_", "_", "_"], "Stuff")
         == "This_is_a_Test_Post_" + "With_Punctuation_Stuff"
  {
    CleanHalves();
    CleanSecondHalf();
    InterleaveTail(["This", "is", "a", "Test", "Post"], ["_", "_", "_", "_", "_"], "", "With_Punctuation_Stuff");
    CleanFirstHalf();
  }

  /** Step 3, second half: the trailing '_' left by "?*~" goes. */
  lemma TitleStep4()
    ensures StripUnderscores(Interleave(CleanWords, Underscores(8), "")) == "This_is_a_Test_Post_" + "With_Punctuation_Stuff"
  {
    CleanLast();
    CleanText();
    var x := "This_is_a_Test_Post_" + "With_Punctuation_Stuff";
    assert x[0] == 'T' && x[|x| - 1] == 'f';
    StripTrailingUnderscore(x);
  }

  /** The self-test title sanitises to the words joined by single underscores. */
  lemma SampleSanitised()
    ensures SanitiseTitle("This is a Test Post! " + "With Punctuation & Stuff?*~") == "This_is_a_Test_Post_" + "With_Punctuation_Stuff"
  {
    TitleText();
    TitleStep1();
    TitleStep2();
    TitleStep3();
    TitleStep4();
  }

  /** The self-test title fits the length limit unchanged, so it is the file name's title part. */
  lemma SampleTitlePart()
    ensures Truncate(TitlePart(Some("This is a Test Post! " + "With Punctuation & Stuff?*~"))) == "This_is_a_Test_Post_" + "With_Punctuation_Stuff"
  {
    SampleSanitised();
  }

  /** The self-test's expected file name for post "testpost123". */
  lemma SampleFilename()
    ensures GenerateFilename("testpost123", Some("This is a Test Post! " + "With Punctuation & Stuff?*~"))
         == "testpost123_" + "This_is_a_Test_Post_" + "With_Punctuation_Stuff" + ".json"
  {
    SampleTitlePart();
    var x := "This_is_a_Test_Post_" + "With_Punctuation_Stuff";
    assert "testpost123" + "_" + x + ".json" == "testpost123_" + "This_is_a_Test_Post_" + "With_Punctuation_Stuff" + ".json";
  }
}
