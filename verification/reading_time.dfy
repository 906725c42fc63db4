/** `calculateReadingTime` of the article page: every tag becomes a space, white space runs
    become one space, the trimmed text is split on spaces and the non-empty pieces counted;
    the estimate is that count over 200 words a minute, rounded up, and at least one minute.
    Its partner is an independent word count: the number of maximal runs of non-white
    characters once tags are replaced. */
module ReadingTime {
  import opened Seqs
  import opened Text
  import opened Wrappers

  const WordsPerMinute: nat := 200

  /** `s.replace(/<[^>]*>/g, ' ')`: a '<' with a '>' somewhere after it opens a tag that
      ends at the first such '>'; a '<' with none is kept. */
  function StripTags(s: string): string
    decreases |s|
  {
    if s == [] then []
    else if s[0] == '<' && '>' in s[1..] then " " + StripTags(s[1 + IndexOf(s[1..], '>') + 1..])
    else [s[0]] + StripTags(s[1..])
  }

  /** Position of the first `c` in `s`. */
  function IndexOf(s: string, c: char): (i: nat)
    requires c in s
    ensures i < |s| && s[i] == c && c !in s[..i]
  {
    if s[0] == c then 0 else 1 + IndexOf(s[1..], c)
  }

  /** Length of the run of white space `s` starts with. */
  function WhiteRun(s: string): (n: nat)
    ensures n <= |s|
  {
    if s == [] || !IsWhite(s[0]) then 0 else 1 + WhiteRun(s[1..])
  }

  /** `s.replace(/\s+/g, ' ')`. */
  function Squash(s: string): string
    decreases |s|
  {
    if s == [] then []
    else if IsWhite(s[0]) then " " + Squash(s[WhiteRun(s)..])
    else [s[0]] + Squash(s[1..])
  }

  /** `s.split(' ')`. */
  function Split(s: string): (r: seq<string>)
    ensures |r| >= 1
  {
    if s == [] then [""]
    else if s[0] == ' ' then [""] + Split(s[1..])
    else var rest := Split(s[1..]); [[s[0]] + rest[0]] + rest[1..]
  }

  function NonEmpty(pieces: seq<string>): seq<string>
  {
    Filter((w: string) => |w| > 0, pieces)
  }

  /** The word count of the source. */
  function WordCount(html: string): nat
  {
    |NonEmpty(Split(Trim(Squash(StripTags(html)))))|
  }

  /** `Math.ceil(n / 200)` for a natural `n`. */
  function CeilDiv(n: nat, d: nat): nat
    requires d > 0
  {
    (n + d - 1) / d
  }

  /** `calculateReadingTime(html)`. */
  function ReadingTime(html: string): nat
  {
    var m := CeilDiv(WordCount(html), WordsPerMinute);
    if m < 1 then 1 else m
  }

  /** `post?.body ? calculateReadingTime(post.body) : 0`: a missing or empty body shows 0. */
  function DisplayedReadingTime(body: Option<string>): nat
  {
    match body
    case Some(b) => if b == "" then 0 else ReadingTime(b)
    case None => 0
  }

  /** `{readingTime > 0 && …}`: whether the reading-time badge is shown. */
  predicate ShowsBadge(body: Option<string>)
  {
    DisplayedReadingTime(body) > 0
  }

  // ---------------------------------------------------------------- the reference count

  /** Number of maximal runs of non-white characters, counted at their last character. */
  function Runs(s: string): nat
  {
    if s == [] then 0
    else (if !IsWhite(s[0]) && (|s| == 1 || IsWhite(s[1])) then 1 else 0) + Runs(s[1..])
  }

  lemma {:induction false} RunsWhitePrefix(w: string, a: string)
    requires forall i :: 0 <= i < |w| ==> IsWhite(w[i])
    ensures Runs(w + a) == Runs(a)
  {
    if w != [] {
      assert (w + a)[0] == w[0];
      assert (w + a)[1..] == w[1..] + a;
      assert forall i :: 0 <= i < |w[1..]| ==> IsWhite(w[1..][i]) by {
        forall i | 0 <= i < |w[1..]| ensures IsWhite(w[1..][i]) {
          assert w[1..][i] == w[i + 1];
        }
      }
      RunsWhitePrefix(w[1..], a);
      assert Runs(w + a) == Runs((w + a)[1..]);
    } else {
      assert w + a == a;
    }
  }

  lemma {:induction false} RunsWhiteSuffix(a: string, w: string)
    requires forall i :: 0 <= i < |w| ==> IsWhite(w[i])
    ensures Runs(a + w) == Runs(a)
  {
    if a == [] {
      assert a + w == w;
      RunsWhitePrefix(w, []);
      assert w + [] == w;
    } else {
      assert (a + w)[1..] == a[1..] + w;
      RunsWhiteSuffix(a[1..], w);
      if |a| == 1 && w != [] {
        assert (a + w)[1] == w[0];
      }
    }
  }

  /** Text before a white character and text after it count their runs separately. */
  lemma {:induction false} RunsSplitAtWhite(a: string, c: char, b: string)
    requires IsWhite(c)
    ensures Runs(a + [c] + b) == Runs(a) + Runs(b)
  {
    if a == [] {
      assert a + [c] + b == [c] + b;
      assert ([c] + b)[1..] == b;
    } else {
      assert (a + [c] + b)[1..] == a[1..] + [c] + b;
      RunsSplitAtWhite(a[1..], c, b);
      if |a| == 1 {
        assert (a + [c] + b)[1] == c;
      }
    }
  }

  /** White space around a text adds no run. */
  lemma RunsAround(p: string, m: string, q: string)
    requires forall k :: 0 <= k < |p| ==> IsWhite(p[k])
    requires forall k :: 0 <= k < |q| ==> IsWhite(q[k])
    ensures Runs(p + (m + q)) == Runs(m)
  {
    RunsWhitePrefix(p, m + q);
    RunsWhiteSuffix(m, q);
  }

  /** Trimming does not change the number of runs. */
  lemma RunsTrim(s: string)
    ensures Runs(Trim(s)) == Runs(s)
  {
    hide *;
    var t := s[LeadingWhite(s)..];
    var n := |t| - TrailingWhite(t);
    TrimParts(s, t, n);
    RunsAround(s[..LeadingWhite(s)], t[..n], t[n..]);
  }

  lemma SquashHead(s: string)
    ensures Squash(s) == [] <==> s == []
    ensures s != [] ==> (IsWhite(Squash(s)[0]) <==> IsWhite(s[0]))
  {
  }

  /** Squashing white space keeps the runs. */
  lemma {:induction false} RunsSquash(s: string)
    ensures Runs(Squash(s)) == Runs(s)
    decreases |s|
  {
    if s != [] {
      if IsWhite(s[0]) {
        var n := WhiteRun(s);
        WhiteRunAllWhite(s);
        RunsSquash(s[n..]);
        assert s == s[..n] + s[n..];
        RunsWhitePrefix(s[..n], s[n..]);
        RunsWhitePrefix(" ", Squash(s[n..]));
      } else {
        RunsSquash(s[1..]);
        SquashHead(s[1..]);
        var q := Squash(s);
        assert q[1..] == Squash(s[1..]);
      }
    }
  }

  lemma {:induction false} WhiteRunAllWhite(s: string)
    ensures forall i :: 0 <= i < WhiteRun(s) ==> IsWhite(s[i])
  {
    if s != [] && IsWhite(s[0]) {
      WhiteRunAllWhite(s[1..]);
      forall i | 1 <= i < WhiteRun(s) ensures IsWhite(s[i]) {
        assert s[i] == s[1..][i - 1];
      }
    }
  }

  /** Text whose only white character is the space. */
  predicate SpaceOnly(s: string)
  {
    forall i :: 0 <= i < |s| ==> (IsWhite(s[i]) <==> s[i] == ' ')
  }

  lemma {:induction false} SquashSpaceOnly(s: string)
    ensures SpaceOnly(Squash(s))
    decreases |s|
  {
    if s != [] {
      if IsWhite(s[0]) {
        SquashSpaceOnly(s[WhiteRun(s)..]);
        var q := Squash(s);
        forall i | 1 <= i < |q| ensures IsWhite(q[i]) <==> q[i] == ' ' {
          assert q[i] == Squash(s[WhiteRun(s)..])[i - 1];
        }
      } else {
        SquashSpaceOnly(s[1..]);
        var q := Squash(s);
        forall i | 1 <= i < |q| ensures IsWhite(q[i]) <==> q[i] == ' ' {
          assert q[i] == Squash(s[1..])[i - 1];
        }
      }
    }
  }

  lemma SplitHead(s: string)
    ensures Split(s)[0] == [] <==> s == [] || s[0] == ' '
  {
  }

  /** On text whose only white character is the space, the non-empty pieces of the split are
      the runs. */
  lemma {:induction false} SplitCountsRuns(s: string)
    requires SpaceOnly(s)
    ensures |NonEmpty(Split(s))| == Runs(s)
  {
    if s != [] {
      assert SpaceOnly(s[1..]) by {
        forall i | 0 <= i < |s| - 1 ensures IsWhite(s[1..][i]) <==> s[1..][i] == ' ' {
          assert s[1..][i] == s[i + 1];
        }
      }
      SplitCountsRuns(s[1..]);
      var rest := Split(s[1..]);
      if s[0] == ' ' {
        FilterAppend((w: string) => |w| > 0, [""], rest);
      } else {
        SplitHead(s[1..]);
        assert rest == [rest[0]] + rest[1..];
        FilterAppend((w: string) => |w| > 0, [rest[0]], rest[1..]);
        FilterAppend((w: string) => |w| > 0, [[s[0]] + rest[0]], rest[1..]);
        if |s| > 1 {
          assert IsWhite(s[1]) <==> s[1] == ' ';
        }
      }
    }
  }

  /** Trimming keeps text space-only. */
  lemma TrimSpaceOnly(s: string)
    requires SpaceOnly(s)
    ensures SpaceOnly(Trim(s))
  {
    TrimDropsOnlyWhite(s);
    var i, j :| 0 <= i <= j <= |s| && Trim(s) == s[i..j];
    forall k | 0 <= k < j - i ensures IsWhite(Trim(s)[k]) <==> Trim(s)[k] == ' ' {
      assert Trim(s)[k] == s[i + k];
    }
  }

  /** Reference definition: the source counts the maximal runs of non-white characters of
      the text with its tags replaced by spaces. */
  lemma WordCountIsRuns(html: string)
    ensures WordCount(html) == Runs(StripTags(html))
  {
    var t := StripTags(html);
    SquashSpaceOnly(t);
    TrimSpaceOnly(Squash(t));
    SplitCountsRuns(Trim(Squash(t)));
    RunsTrim(Squash(t));
    RunsSquash(t);
  }

  // ---------------------------------------------------------------- properties

  /** The estimate is at least one minute; with `w > 0` words it is the least `m` with
      `200 · m >= w`. */
  lemma ReadingTimeBounds(html: string)
    ensures ReadingTime(html) >= 1
    ensures var w := WordCount(html); var m := ReadingTime(html);
            w > 0 ==> (m - 1) * WordsPerMinute < w <= m * WordsPerMinute
    ensures WordCount(html) == 0 ==> ReadingTime(html) == 1
  {
  }

  /** Text with no '<' before a tag is kept as it is. */
  lemma {:induction false} StripTagsPlain(a: string, rest: string)
    requires '<' !in a
    ensures StripTags(a + rest) == a + StripTags(rest)
  {
    if a != [] {
      assert (a + rest)[0] == a[0];
      assert (a + rest)[1..] == a[1..] + rest;
      StripTagsPlain(a[1..], rest);
      assert [a[0]] + a[1..] == a;
    } else {
      assert a + rest == rest;
    }
  }

  /** A tag becomes one space. */
  lemma StripTagsTag(t: string, rest: string)
    requires '>' !in t
    ensures StripTags("<" + t + ">" + rest) == " " + StripTags(rest)
  {
    var s := "<" + t + ">" + rest;
    assert s[1..] == t + ">" + rest;
    assert s[1..][|t|] == '>';
    assert s[1..][..|t|] == t;
    var k := IndexOf(s[1..], '>');
    assert s[1 + k + 1..] == rest;
  }

  /** Text separated only by a tag counts as separate words: the words of the two sides add up. */
  lemma TagSeparatesWords(a: string, t: string, b: string)
    requires '<' !in a && '>' !in t
    ensures WordCount(a + "<" + t + ">" + b) == WordCount(a) + WordCount(b)
  {
    assert IsWhite(' ');
    hide *;
    var tag := "<" + t + ">" + b;
    StripTagsPlain(a, tag);
    assert a + "<" + t + ">" + b == a + tag;
    StripTagsTag(t, b);
    StripTagsPlain(a, []);
    StripTagsEmpty();
    assert a + [] == a;
    WordCountIsRuns(a + tag);
    WordCountIsRuns(a);
    WordCountIsRuns(b);
    RunsSplitAtWhite(a, ' ', StripTags(b));
    assert a + (" " + StripTags(b)) == a + [' '] + StripTags(b);
  }

  lemma StripTagsEmpty()
    ensures StripTags([]) == []
  {
  }

  /** A body made of one tag and nothing else still reads in one minute. */
  lemma MarkupOnly(t: string)
    requires '>' !in t
    ensures WordCount("<" + t + ">") == 0 && ReadingTime("<" + t + ">") == 1
  {
    StripTagsTag(t, []);
    assert "<" + t + ">" + [] == "<" + t + ">";
    WordCountIsRuns("<" + t + ">");
    assert StripTags([]) == [];
    assert Runs(" ") == 0;
  }

  /** More words never give a shorter estimate. */
  lemma ReadingTimeMonotone(a: string, b: string)
    requires WordCount(a) <= WordCount(b)
    ensures ReadingTime(a) <= ReadingTime(b)
  {
  }

  /** The page shows 0 exactly for a missing or empty body, and the badge only then is hidden. */
  lemma DisplayedZero(body: Option<string>)
    ensures DisplayedReadingTime(body) == 0 <==> body == None || body == Some("")
    ensures ShowsBadge(body) <==> body.Some? && body.value != ""
  {
    if body.Some? && body.value != "" {
      ReadingTimeBounds(body.value);
    }
  }
}
