/** `generateSlug` of the post editor: lower-case the title, strip accents, turn every run of
    characters outside [a-z0-9] into one '-', and drop a '-' at either end. Its partner is a
    reference definition: the slug is the title's words (maximal runs of [a-z0-9] once accents
    are stripped) joined by '-'. */
module Slug {
  import opened Seqs
  import opened Text

  /** Combining diacritical marks, U+0300..U+036F, which `generateSlug` deletes after `NFD`. */
  predicate IsMark(c: char) { '\U{0300}' <= c <= '\U{036F}' }

  /** The base letter canonical decomposition leaves of a lower-case Latin-1 letter, its
      combining mark being deleted afterwards; other characters, marks included, are
      unchanged. */
  function FoldChar(c: char): (d: char)
    ensures IsLowerAlnum(c) ==> d == c
    ensures IsMark(d) <==> IsMark(c)
    ensures ('\U{00E0}' <= c <= '\U{00FF}' && c !in "\U{00E6}\U{00F0}\U{00F7}\U{00F8}\U{00FE}") ==> 'a' <= d <= 'z'
  {
    if '\U{00E0}' <= c <= '\U{00E5}' then 'a'
    else if c == '\U{00E7}' then 'c'
    else if '\U{00E8}' <= c <= '\U{00EB}' then 'e'
    else if '\U{00EC}' <= c <= '\U{00EF}' then 'i'
    else if c == '\U{00F1}' then 'n'
    else if '\U{00F2}' <= c <= '\U{00F6}' then 'o'
    else if '\U{00F9}' <= c <= '\U{00FC}' then 'u'
    else if c == '\U{00FD}' || c == '\U{00FF}' then 'y'
    else c
  }

  /** The characters of `s` folded one by one. */
  function Fold(s: string): (r: string)
    ensures |r| == |s|
  {
    seq(|s|, i requires 0 <= i < |s| => FoldChar(s[i]))
  }

  /** `title.toLowerCase().normalize('NFD').replace(/[\u0300-\u036f]/g, '')`. */
  function Prepare(title: string): (r: string)
    ensures |r| <= |title|
    ensures forall c :: c in r ==> !IsMark(c)
  {
    Filter((c: char) => !IsMark(c), Fold(Lower(title)))
  }

  lemma LowerAppend(a: string, b: string)
    ensures Lower(a + b) == Lower(a) + Lower(b)
  {
  }

  lemma FoldAppend(a: string, b: string)
    ensures Fold(a + b) == Fold(a) + Fold(b)
  {
  }

  /** Preparing works character by character: a text prepares to its parts prepared. */
  lemma PrepareAppend(a: string, b: string)
    ensures Prepare(a + b) == Prepare(a) + Prepare(b)
  {
    LowerAppend(a, b);
    FoldAppend(Lower(a), Lower(b));
    FilterAppend((c: char) => !IsMark(c), Fold(Lower(a)), Fold(Lower(b)));
  }

  lemma PrepareMark(m: char)
    requires IsMark(m)
    ensures Prepare([m]) == []
  {
    assert Fold(Lower([m])) == [m];
  }

  /** A combining mark is deleted wherever it stands. */
  lemma PrepareDropsMark(a: string, m: char, b: string)
    requires IsMark(m)
    ensures Prepare(a + [m] + b) == Prepare(a + b)
  {
    hide Prepare, Lower, Fold, Filter;
    PrepareMark(m);
    PrepareAppend(a + [m], b);
    PrepareAppend(a, [m]);
    PrepareAppend(a, b);
  }

  /** "é" and "e\u0301" both prepare to "e". */
  lemma PrepareAccentedE()
    ensures Prepare(['\U{00E9}']) == "e"
    ensures Prepare(['e', '\U{0301}']) == "e"
  {
    assert Fold(Lower(['\U{00E9}'])) == ['e'];
    assert Fold(Lower(['e', '\U{0301}'])) == ['e', '\U{0301}'];
  }

  /** A letter typed precomposed and the same letter typed as a base letter followed by its
      combining accent give the same slug, as `NFD` makes them: "é" and "e\u0301". */
  lemma ComposedAndDecomposedAgree(a: string, b: string)
    ensures GenerateSlug(a + ['\U{00E9}'] + b) == GenerateSlug(a + ['e', '\U{0301}'] + b)
  {
    hide Prepare, Lower, Fold, Filter, Collapse, StripDashes;
    PrepareAccentedE();
    PrepareAppend(a + ['\U{00E9}'], b);
    PrepareAppend(a, ['\U{00E9}']);
    PrepareAppend(a + ['e', '\U{0301}'], b);
    PrepareAppend(a, ['e', '\U{0301}']);
  }

  /** A title typed in decomposed form, "e\u0301s", gives the slug "es". */
  lemma DecomposedTitle()
    ensures GenerateSlug(['e', '\U{0301}', 's']) == "es"
  {
    hide Prepare, Lower, Fold, Filter;
    PrepareDropsMark("e", '\U{0301}', "s");
    assert ['e', '\U{0301}', 's'] == "e" + ['\U{0301}'] + "s";
    assert "e" + "s" == "es";
    PrepareSlugChars("es");
    assert Collapse("s") == "s";
    assert Collapse("es") == "es";
  }

  /** Length of the longest prefix of `s` whose characters are all word characters
      (`word`) or all separators (`!word`). */
  function Run(s: string, word: bool): (n: nat)
    ensures n <= |s|
  {
    if s == [] || IsLowerAlnum(s[0]) != word then 0 else 1 + Run(s[1..], word)
  }

  /** The run is maximal: its characters are of the kind asked for, and the next one is not. */
  lemma {:induction false} RunMaximal(s: string, word: bool)
    ensures forall i :: 0 <= i < Run(s, word) ==> IsLowerAlnum(s[i]) == word
    ensures Run(s, word) < |s| ==> IsLowerAlnum(s[Run(s, word)]) != word
  {
    if s != [] && IsLowerAlnum(s[0]) == word {
      RunMaximal(s[1..], word);
      forall i | 1 <= i < Run(s, word) ensures IsLowerAlnum(s[i]) == word {
        assert s[i] == s[1..][i - 1];
      }
    }
  }

  /** `s.replace(/[^a-z0-9]+/g, '-')`. */
  function Collapse(s: string): string
    decreases |s|
  {
    if s == [] then []
    else if IsLowerAlnum(s[0]) then [s[0]] + Collapse(s[1..])
    else "-" + Collapse(s[Run(s, false)..])
  }

  /** `s.replace(/(^-|-$)/g, '')`: one '-' at the start and one at the end are dropped. */
  function StripDashes(s: string): string
  {
    var t := if |s| > 0 && s[0] == '-' then s[1..] else s;
    if |t| > 0 && t[|t| - 1] == '-' then t[..|t| - 1] else t
  }

  /** `generateSlug(title)`. */
  function GenerateSlug(title: string): string
  {
    StripDashes(Collapse(Prepare(title)))
  }

  // ---------------------------------------------------------------- the reference

  /** The maximal runs of [a-z0-9] in `s`, in order. */
  function Words(s: string): (ws: seq<string>)
    decreases |s|
  {
    if s == [] then []
    else if !IsLowerAlnum(s[0]) then Words(s[Run(s, false)..])
    else [s[..Run(s, true)]] + Words(s[Run(s, true)..])
  }

  /** A non-empty run of [a-z0-9]. */
  predicate IsWord(w: string)
  {
    w != [] && forall i :: 0 <= i < |w| ==> IsLowerAlnum(w[i])
  }

  /** A well-formed slug: only [a-z0-9-], no '-' at either end and no "--". */
  predicate IsSlug(s: string)
  {
    && (forall i :: 0 <= i < |s| ==> IsLowerAlnum(s[i]) || s[i] == '-')
    && (|s| > 0 ==> s[0] != '-' && s[|s| - 1] != '-')
    && (forall i :: 0 <= i < |s| - 1 ==> !(s[i] == '-' && s[i + 1] == '-'))
  }

  lemma {:induction false} WordsAreWords(s: string)
    ensures forall k :: 0 <= k < |Words(s)| ==> IsWord(Words(s)[k])
    decreases |s|
  {
    if s != [] {
      if !IsLowerAlnum(s[0]) {
        WordsAreWords(s[Run(s, false)..]);
      } else {
        var n := Run(s, true);
        RunMaximal(s, true);
        WordsAreWords(s[n..]);
        assert Words(s)[0] == s[..n];
        forall k | 1 <= k < |Words(s)| ensures IsWord(Words(s)[k]) {
          assert Words(s)[k] == Words(s[n..])[k - 1];
        }
      }
    }
  }

  /** A string has no words exactly when it has no [a-z0-9] character. */
  lemma {:induction false} NoWords(s: string)
    ensures Words(s) == [] <==> forall i :: 0 <= i < |s| ==> !IsLowerAlnum(s[i])
    decreases |s|
  {
    if s != [] && !IsLowerAlnum(s[0]) {
      var m := Run(s, false);
      RunMaximal(s, false);
      NoWords(s[m..]);
    }
  }

  /** A run of word characters passes through `Collapse` unchanged. */
  lemma {:induction false} CollapseWord(s: string, n: nat)
    requires n <= |s| && forall i :: 0 <= i < n ==> IsLowerAlnum(s[i])
    ensures Collapse(s) == s[..n] + Collapse(s[n..])
    decreases n
  {
    if n > 0 {
      CollapseWord(s[1..], n - 1);
      assert s[1..][..n - 1] == s[1..n];
      assert s[1..][n - 1..] == s[n..];
      assert s[..n] == [s[0]] + s[1..n];
    }
  }

  /** '-' when `s` starts with a separator. */
  function Lead(s: string): string
  {
    if s != [] && !IsLowerAlnum(s[0]) then "-" else ""
  }

  /** '-' when `s` has a word and ends with a separator. */
  function Trail(s: string): string
  {
    if Words(s) != [] && !IsLowerAlnum(s[|s| - 1]) then "-" else ""
  }

  /** `Collapse` writes the words joined by '-', with one more '-' for leading and for
      trailing separators. */
  lemma SepStep(s: string)
    requires s != [] && !IsLowerAlnum(s[0])
    ensures var rest := s[Run(s, false)..];
            && Collapse(s) == "-" + Collapse(rest) && Words(s) == Words(rest)
            && Lead(s) == "-" && Lead(rest) == "" && Trail(s) == Trail(rest)
  {
    var rest := s[Run(s, false)..];
    RunMaximal(s, false);
    if rest != [] {
      assert s[|s| - 1] == rest[|rest| - 1];
    }
  }

  lemma WordStep(s: string)
    requires s != [] && IsLowerAlnum(s[0])
    ensures var n := Run(s, true); var rest := s[n..];
            && Collapse(s) == s[..n] + Collapse(rest) && Words(s) == [s[..n]] + Words(rest) && Lead(s) == ""
            && (rest == [] ==> Trail(s) == "" && Words(rest) == [] && Collapse(rest) == [] && s[..n] == s)
            && (rest != [] ==> Lead(rest) == "-")
            && (rest != [] && Words(rest) == [] ==> Trail(s) == "-" && Trail(rest) == "")
            && (rest != [] && Words(rest) != [] ==> Trail(s) == Trail(rest))
  {
    var n := Run(s, true);
    RunMaximal(s, true);
    CollapseWord(s, n);
    WordTrail(s, n);
  }

  lemma WordTrail(s: string, n: nat)
    requires s != [] && IsLowerAlnum(s[0]) && n == Run(s, true)
    requires forall i :: 0 <= i < n ==> IsLowerAlnum(s[i])
    requires n < |s| ==> !IsLowerAlnum(s[n])
    ensures var rest := s[n..];
            && Words(s) == [s[..n]] + Words(rest)
            && (rest == [] ==> Trail(s) == "")
            && (rest != [] && Words(rest) == [] ==> Trail(s) == "-" && Trail(rest) == "")
            && (rest != [] && Words(rest) != [] ==> Trail(s) == Trail(rest))
  {
    hide *;
    var rest := s[n..];
    WordsAtWord(s);
    TrailForm(s);
    if rest != [] {
      TrailForm(rest);
      assert s[|s| - 1] == rest[|rest| - 1];
      if Words(rest) == [] {
        NoWords(rest);
        assert !IsLowerAlnum(rest[|rest| - 1]);
      }
    } else {
      assert s[|s| - 1] == s[n - 1];
    }
  }

  /** How `Words` reads a text that starts with a word character. */
  lemma WordsAtWord(s: string)
    requires s != [] && IsLowerAlnum(s[0])
    ensures Words(s) == [s[..Run(s, true)]] + Words(s[Run(s, true)..])
  {
    hide Run;
  }

  lemma WordsEmpty()
    ensures Words([]) == []
  {
  }

  lemma TrailForm(s: string)
    ensures Trail(s) == if Words(s) != [] && !IsLowerAlnum(s[|s| - 1]) then "-" else ""
  {
    hide Words;
  }

  /** `Collapse` writes the words joined by '-', with one more '-' for leading and for
      trailing separators. */
  lemma {:induction false} CollapseIsWords(s: string)
    ensures Collapse(s) == Lead(s) + Join(Words(s), "-") + Trail(s)
    decreases |s|
  {
    if s == [] {
    } else if !IsLowerAlnum(s[0]) {
      CollapseIsWords(s[Run(s, false)..]);
      SepCase(s);
    } else if Run(s, true) < |s| {
      CollapseIsWords(s[Run(s, true)..]);
      WordCase(s);
    } else {
      LastWordCase(s);
    }
  }

  lemma SepCase(s: string)
    requires s != [] && !IsLowerAlnum(s[0])
    requires var rest := s[Run(s, false)..];
             Collapse(rest) == Lead(rest) + Join(Words(rest), "-") + Trail(rest)
    ensures Collapse(s) == Lead(s) + Join(Words(s), "-") + Trail(s)
  {
    hide *;
    SepStep(s);
    var rest := s[Run(s, false)..];
    var j := Join(Words(rest), "-");
    assert Collapse(s) == "-" + ("" + j + Trail(rest));
    assert "-" + ("" + j + Trail(rest)) == "-" + j + Trail(rest);
  }

  lemma LastWordCase(s: string)
    requires s != [] && IsLowerAlnum(s[0]) && Run(s, true) == |s|
    ensures Collapse(s) == Lead(s) + Join(Words(s), "-") + Trail(s)
  {
    hide *;
    WordStep(s);
    assert s[..|s|] == s;
    assert Words(s) == [s];
    assert Collapse(s) == s + [];
    JoinCons([s], "-");
  }

  lemma WordCase(s: string)
    requires s != [] && IsLowerAlnum(s[0]) && Run(s, true) < |s|
    requires var rest := s[Run(s, true)..];
             Collapse(rest) == Lead(rest) + Join(Words(rest), "-") + Trail(rest)
    ensures Collapse(s) == Lead(s) + Join(Words(s), "-") + Trail(s)
  {
    hide *;
    WordStep(s);
    if Words(s[Run(s, true)..]) == [] {
      WordCaseLast(s);
    } else {
      WordCaseMore(s);
    }
  }

  /** A word followed only by separators. */
  lemma WordCaseLast(s: string)
    requires s != [] && IsLowerAlnum(s[0]) && Run(s, true) < |s|
    requires var rest := s[Run(s, true)..];
             && Collapse(rest) == Lead(rest) + Join(Words(rest), "-") + Trail(rest)
             && Words(rest) == []
    ensures Collapse(s) == Lead(s) + Join(Words(s), "-") + Trail(s)
  {
    hide *;
    WordStep(s);
    var n := Run(s, true);
    var w := s[..n];
    var rest := s[n..];
    JoinCons(Words(s), "-");
    JoinCons(Words(rest), "-");
    assert Words(s) == [w];
    assert Collapse(rest) == "-";
    assert Collapse(s) == w + "-";
  }

  /** A word followed by more words. */
  lemma WordCaseMore(s: string)
    requires s != [] && IsLowerAlnum(s[0]) && Run(s, true) < |s|
    requires var rest := s[Run(s, true)..];
             && Collapse(rest) == Lead(rest) + Join(Words(rest), "-") + Trail(rest)
             && Words(rest) != []
    ensures Collapse(s) == Lead(s) + Join(Words(s), "-") + Trail(s)
  {
    hide *;
    WordStep(s);
    var n := Run(s, true);
    var w := s[..n];
    var rest := s[n..];
    var j := Join(Words(rest), "-");
    JoinCons(Words(s), "-");
    assert Words(s)[1..] == Words(rest);
    assert Lead(rest) == "-" && Trail(s) == Trail(rest) && Lead(s) == "";
    assert Collapse(s) == w + Collapse(rest);
    assert Join(Words(s), "-") == w + "-" + j;
    Regroup(w, j, Trail(s));
  }

  lemma Regroup(w: string, j: string, t: string)
    ensures w + ("-" + j + t) == "" + (w + "-" + j) + t
  {
  }

  /** Words joined by '-' start and end with a word character. */
  lemma {:induction false} JoinedWordsEnds(ws: seq<string>)
    requires ws != [] && forall k :: 0 <= k < |ws| ==> IsWord(ws[k])
    ensures var j := Join(ws, "-"); |j| > 0 && IsLowerAlnum(j[0]) && IsLowerAlnum(j[|j| - 1])
  {
    if |ws| > 1 {
      JoinedWordsEnds(ws[1..]);
      assert Join(ws, "-") == ws[0] + ("-" + Join(ws[1..], "-"));
    }
  }

  /** Reference definition: the slug is the words of the prepared title joined by '-'. */
  lemma SlugIsJoinedWords(title: string)
    ensures GenerateSlug(title) == Join(Words(Prepare(title)), "-")
  {
    var p := Prepare(title);
    var j := Join(Words(p), "-");
    CollapseIsWords(p);
    WordsAreWords(p);
    JoinCons(Words(p), "-");
    if Words(p) != [] {
      JoinedWordsEnds(Words(p));
    }
    StripAround(Lead(p), j, Trail(p));
  }

  /** Dropping the dashes around a text that neither starts nor ends with '-' gives the text. */
  lemma StripAround(lead: string, j: string, trail: string)
    requires lead == "" || lead == "-"
    requires trail == "" || trail == "-"
    requires j == [] ==> trail == ""
    requires j != [] ==> j[0] != '-' && j[|j| - 1] != '-'
    ensures StripDashes(lead + j + trail) == j
  {
    var c := lead + j + trail;
    var t := if |c| > 0 && c[0] == '-' then c[1..] else c;
    assert t == j + trail;
    if trail == "-" {
      assert t[..|t| - 1] == j;
    }
  }

  /** Words joined by '-' form a well-formed slug. */
  lemma {:induction false} JoinedWordsIsSlug(ws: seq<string>)
    requires forall k :: 0 <= k < |ws| ==> IsWord(ws[k])
    ensures IsSlug(Join(ws, "-"))
  {
    if |ws| > 1 {
      JoinedWordsIsSlug(ws[1..]);
      JoinedWordsEnds(ws[1..]);
      var r := Join(ws[1..], "-");
      var j := Join(ws, "-");
      assert j == ws[0] + "-" + r;
      forall i | 0 <= i < |j| - 1 ensures !(j[i] == '-' && j[i + 1] == '-') {
        if i < |ws[0]| {
          assert j[i] == ws[0][i];
        } else if i > |ws[0]| {
          assert j[i] == r[i - |ws[0]| - 1] && j[i + 1] == r[i - |ws[0]|];
        }
      }
      forall i | 0 <= i < |j| ensures IsLowerAlnum(j[i]) || j[i] == '-' {
        if i < |ws[0]| {
          assert j[i] == ws[0][i];
        } else if i > |ws[0]| {
          assert j[i] == r[i - |ws[0]| - 1];
        }
      }
    }
  }

  /** Every generated slug is well formed: only [a-z0-9-], no '-' at either end, no "--". */
  lemma SlugWellFormed(title: string)
    ensures IsSlug(GenerateSlug(title))
  {
    SlugIsJoinedWords(title);
    WordsAreWords(Prepare(title));
    JoinedWordsIsSlug(Words(Prepare(title)));
  }

  /** A word followed by nothing or by '-' is read as one word. */
  lemma {:induction false} WordRun(w: string, rest: string)
    requires IsWord(w) && (rest == [] || rest[0] == '-')
    ensures Run(w + rest, true) == |w|
    decreases |w|
  {
    var s := w + rest;
    assert s[0] == w[0];
    if |w| == 1 {
      assert s[1..] == rest;
    } else {
      assert s[1..] == w[1..] + rest;
      assert IsWord(w[1..]) by {
        forall i | 0 <= i < |w| - 1 ensures IsLowerAlnum(w[1..][i]) {
          assert w[1..][i] == w[i + 1];
        }
      }
      WordRun(w[1..], rest);
    }
  }

  /** Splitting words joined by '-' gives the words back. */
  lemma {:induction false} WordsOfJoined(ws: seq<string>)
    requires forall k :: 0 <= k < |ws| ==> IsWord(ws[k])
    ensures Words(Join(ws, "-")) == ws
  {
    if |ws| == 1 {
      WordRun(ws[0], "");
      assert ws[0] + "" == ws[0];
      assert ws[0][|ws[0]|..] == [];
    } else if |ws| > 1 {
      WordsOfJoined(ws[1..]);
      WordsOfJoinedStep(ws);
    }
  }

  /** The first word of several joined by '-' is read, then the '-', then the rest. */
  lemma WordsOfJoinedStep(ws: seq<string>)
    requires |ws| > 1 && forall k :: 0 <= k < |ws| ==> IsWord(ws[k])
    requires Words(Join(ws[1..], "-")) == ws[1..]
    ensures Words(Join(ws, "-")) == ws
  {
    hide *;
    var r := Join(ws[1..], "-");
    var j := Join(ws, "-");
    JoinCons(ws, "-");
    assert j == ws[0] + ("-" + r);
    assert IsWord(ws[0]);
    assert ("-" + r)[0] == '-';
    WordRun(ws[0], "-" + r);
    assert forall k :: 0 <= k < |ws[1..]| ==> IsWord(ws[1..][k]) by {
      forall k | 0 <= k < |ws[1..]| ensures IsWord(ws[1..][k]) {
        assert ws[1..][k] == ws[k + 1];
      }
    }
    JoinedWordsEnds(ws[1..]);
    SkipDash(r);
    WordThenRest(j, ws[0], "-" + r);
    assert [ws[0]] + ws[1..] == ws;
  }

  /** A '-' before text that starts with a word character is skipped as one separator. */
  lemma SkipDash(r: string)
    requires |r| > 0 && IsLowerAlnum(r[0])
    ensures Words("-" + r) == Words(r)
  {
    DashThenWord("-" + r);
    assert ("-" + r)[1..] == r;
  }

  /** A text that starts with a maximal word `w` has `w` as its first word. */
  lemma WordThenRest(j: string, w: string, after: string)
    requires j == w + after && IsWord(w) && Run(j, true) == |w|
    ensures Words(j) == [w] + Words(after)
  {
    assert j[..|w|] == w;
    assert j[|w|..] == after;
  }

  /** Preparing text that is already [a-z0-9-] leaves it unchanged. */
  lemma PrepareSlugChars(s: string)
    requires forall i :: 0 <= i < |s| ==> IsLowerAlnum(s[i]) || s[i] == '-'
    ensures Prepare(s) == s
  {
    assert Fold(Lower(s)) == s;
    FilterAll((c: char) => !IsMark(c), s);
  }

  /** `generateSlug` is idempotent. */
  lemma SlugIdempotent(title: string)
    ensures GenerateSlug(GenerateSlug(title)) == GenerateSlug(title)
  {
    var s := GenerateSlug(title);
    SlugIsJoinedWords(title);
    SlugWellFormed(title);
    PrepareSlugChars(s);
    SlugIsJoinedWords(s);
    WordsAreWords(Prepare(title));
    WordsOfJoined(Words(Prepare(title)));
  }

  /** A string is its own slug exactly when it is a well-formed slug. */
  lemma SlugFixedPoints(s: string)
    ensures GenerateSlug(s) == s <==> IsSlug(s)
  {
    SlugWellFormed(s);
    if IsSlug(s) {
      PrepareSlugChars(s);
      SlugIsJoinedWords(s);
      SlugWordsJoin(s);
    }
  }

  /** A '-' followed by a word character is one separator. */
  lemma DashThenWord(t: string)
    requires |t| >= 2 && t[0] == '-' && IsLowerAlnum(t[1])
    ensures Words(t) == Words(t[1..])
  {
    assert Run(t[1..], false) == 0;
    assert Run(t, false) == 1;
  }

  /** The tail of a well-formed slug after a '-' is a well-formed slug starting with a word character. */
  lemma SlugAfterDash(s: string, n: nat)
    requires IsSlug(s) && n < |s| && s[n] == '-'
    ensures n + 1 < |s| && IsLowerAlnum(s[n + 1]) && IsSlug(s[n + 1..])
  {
    assert n + 1 < |s|;
    assert !(s[n] == '-' && s[n + 1] == '-');
    var rest := s[n + 1..];
    forall i | 0 <= i < |rest| - 1 ensures !(rest[i] == '-' && rest[i + 1] == '-') {
      assert rest[i] == s[n + 1 + i] && rest[i + 1] == s[n + 2 + i];
    }
  }

  /** A well-formed slug is its words joined by '-'. */
  lemma {:induction false} SlugWordsJoin(s: string)
    requires IsSlug(s)
    ensures Join(Words(s), "-") == s
    decreases |s|
  {
    hide *;
    if s != [] {
      var n := Run(s, true);
      RunMaximal(s, true);
      SlugChars(s);
      WordsAtWord(s);
      if n == |s| {
        assert s[..n] == s && s[n..] == [];
        WordsEmpty();
        assert Words(s) == [s];
        JoinCons([s], "-");
      } else {
        SlugAfterDash(s, n);
        var rest := s[n + 1..];
        DashThenWord(s[n..]);
        assert s[n..][1..] == rest;
        SlugWordsJoin(rest);
        NoWords(rest);
        JoinCons(Words(s), "-");
        assert Words(s)[1..] == Words(rest);
        assert s == s[..n] + "-" + rest;
      }
    } else {
      WordsEmpty();
      JoinCons([], "-");
    }
  }

  /** A well-formed slug starts with a word character, and any other character is '-'. */
  lemma SlugChars(s: string)
    requires IsSlug(s)
    ensures s != [] ==> IsLowerAlnum(s[0])
    ensures forall i :: 0 <= i < |s| && !IsLowerAlnum(s[i]) ==> s[i] == '-'
  {
  }
}
