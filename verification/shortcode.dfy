/** How an article body is cut at its `{{lead-capture}}` shortcodes, matched without regard
    to the case of ASCII letters, and a capture widget placed between consecutive parts. */
module Shortcode {
  import opened Text
  import opened Seqs
  import opened Wrappers

  const Code: string := "{{lead-capture}}"

  /** Case folding of a regular expression with the `i` flag on the shortcode's characters:
      only ASCII letters fold. */
  function Fold(c: char): char
  {
    if 'A' <= c <= 'Z' then (c as int + 32) as char else c
  }

  /** The shortcode, in any letter case, starts at `i`. */
  predicate MatchAt(s: string, i: nat)
  {
    i + |Code| <= |s| && forall k :: 0 <= k < |Code| ==> Fold(s[i + k]) == Code[k]
  }

  /** `htmlContent.split(/\{\{lead-capture\}\}/gi)`. */
  function Split(s: string): (parts: seq<string>)
    ensures |parts| >= 1
    decreases |s|
  {
    if s == [] then [""]
    else if MatchAt(s, 0) then [""] + Split(s[|Code|..])
    else
      var rest := Split(s[1..]);
      [[s[0]] + rest[0]] + rest[1..]
  }

  /** The number of places the shortcode starts at. */
  function Occurrences(s: string): nat
  {
    if s == [] then 0 else (if MatchAt(s, 0) then 1 else 0) + Occurrences(s[1..])
  }

  /** The body with every shortcode written in lower case. */
  function Normalize(s: string): string
    decreases |s|
  {
    if s == [] then []
    else if MatchAt(s, 0) then Code + Normalize(s[|Code|..])
    else [s[0]] + Normalize(s[1..])
  }

  // ---------------------------------------------------------------- matching

  lemma MatchShift(s: string, i: nat)
    requires s != []
    ensures MatchAt(s[1..], i) <==> MatchAt(s, i + 1)
  {
    if MatchAt(s, i + 1) {
      forall k | 0 <= k < |Code| ensures Fold(s[1..][i + k]) == Code[k] {
        assert s[1..][i + k] == s[i + 1 + k];
      }
    }
    if MatchAt(s[1..], i) {
      forall k | 0 <= k < |Code| ensures Fold(s[i + 1 + k]) == Code[k] {
        assert s[1..][i + k] == s[i + 1 + k];
      }
    }
  }

  /** Two occurrences cannot overlap: nothing in the shortcode after its first character
      starts it again. */
  lemma NoOverlap(s: string, k: nat)
    requires MatchAt(s, 0) && 1 <= k < |Code|
    ensures !MatchAt(s, k)
  {
    assert Code[0] == '{' && Code[1] == '{' && Code[2] == 'l';
    assert forall j :: 2 <= j < |Code| ==> Code[j] != '{';
    if k == 1 {
      assert Fold(s[0 + 2]) == Code[2];
      assert !(Fold(s[1 + 1]) == Code[1]);
    } else {
      assert Fold(s[0 + k]) == Code[k];
      assert !(Fold(s[k + 0]) == Code[0]);
    }
  }

  /** Positions that start no shortcode add nothing to the count. */
  lemma {:induction false} OccurrencesFrom(s: string, n: nat)
    requires n <= |s|
    requires forall k :: 0 <= k < n ==> !MatchAt(s, k)
    ensures Occurrences(s) == Occurrences(s[n..])
  {
    if n > 0 {
      forall k | 0 <= k < n - 1 ensures !MatchAt(s[1..], k) {
        MatchShift(s, k);
      }
      OccurrencesFrom(s[1..], n - 1);
      assert s[1..][n - 1..] == s[n..];
    }
  }

  lemma OccurrencesAtMatch(s: string)
    requires MatchAt(s, 0)
    ensures Occurrences(s) == 1 + Occurrences(s[|Code|..])
  {
    forall k | 0 <= k < |Code| - 1 ensures !MatchAt(s[1..], k) {
      MatchShift(s, k);
      NoOverlap(s, k + 1);
    }
    OccurrencesFrom(s[1..], |Code| - 1);
    assert s[1..][|Code| - 1..] == s[|Code|..];
  }

  // ---------------------------------------------------------------- the parts

  /** There is one part more than there are shortcodes. */
  lemma {:induction false} PartsCount(s: string)
    ensures |Split(s)| == Occurrences(s) + 1
    decreases |s|
  {
    if s != [] {
      if MatchAt(s, 0) {
        PartsCount(s[|Code|..]);
        OccurrencesAtMatch(s);
      } else {
        PartsCount(s[1..]);
      }
    }
  }

  /** The first part is where the body starts. */
  lemma {:induction false} FirstPartPrefix(s: string)
    ensures Split(s)[0] <= s
    decreases |s|
  {
    if s != [] && !MatchAt(s, 0) {
      FirstPartPrefix(s[1..]);
      assert s == [s[0]] + s[1..];
    }
  }

  lemma MatchInPrefix(p: string, s: string, i: nat)
    requires p <= s && MatchAt(p, i)
    ensures MatchAt(s, i)
  {
    forall k | 0 <= k < |Code| ensures Fold(s[i + k]) == Code[k] {
      assert s[i + k] == p[i + k];
    }
  }

  /** No part holds a shortcode. */
  lemma {:induction false} PartsHaveNoCode(s: string)
    ensures forall j, i :: 0 <= j < |Split(s)| && 0 <= i ==> !MatchAt(Split(s)[j], i)
    decreases |s|
  {
    hide *;
    var parts := Split(s);
    if s == [] {
      SplitEmpty();
      forall j, i | 0 <= j < |parts| && 0 <= i ensures !MatchAt(parts[j], i) {
        EmptyHasNoMatch(i);
      }
    } else if MatchAt(s, 0) {
      SplitAtMatch(s);
      PartsHaveNoCode(s[|Code|..]);
      forall j, i | 0 <= j < |parts| && 0 <= i ensures !MatchAt(parts[j], i) {
        if j > 0 {
          assert parts[j] == Split(s[|Code|..])[j - 1];
        } else {
          EmptyHasNoMatch(i);
        }
      }
    } else {
      SplitNoMatch(s);
      PartsHaveNoCode(s[1..]);
      FirstPartPrefix(s);
      var rest := Split(s[1..]);
      forall j, i | 0 <= j < |parts| && 0 <= i ensures !MatchAt(parts[j], i) {
        if j > 0 {
          assert parts[j] == rest[j];
        } else if i > 0 {
          MatchShift(parts[0], i - 1);
          assert parts[0][1..] == rest[0];
        } else if MatchAt(parts[0], 0) {
          MatchInPrefix(parts[0], s, 0);
        }
      }
    }
  }

  lemma EmptyHasNoMatch(i: nat)
    ensures !MatchAt("", i)
  {
  }

  /** Joining the parts with the shortcode gives back the body, with each shortcode in lower
      case. */
  lemma {:induction false} JoinParts(s: string)
    ensures Join(Split(s), Code) == Normalize(s)
    decreases |s|
  {
    hide *;
    if s == [] {
      SplitEmpty();
      JoinCons([""], Code);
    } else if MatchAt(s, 0) {
      SplitAtMatch(s);
      JoinParts(s[|Code|..]);
      JoinCons(Split(s), Code);
      assert Split(s)[1..] == Split(s[|Code|..]);
    } else {
      SplitNoMatch(s);
      JoinParts(s[1..]);
      var rest := Split(s[1..]);
      JoinCons(rest, Code);
      JoinCons(Split(s), Code);
      assert Split(s)[1..] == rest[1..];
    }
  }

  lemma SplitEmpty()
    ensures Split([]) == [""] && Normalize([]) == []
  {
  }

  /** How `Split` and `Normalize` take apart a body that starts with the shortcode. */
  lemma SplitAtMatch(s: string)
    requires MatchAt(s, 0)
    ensures |Code| <= |s|
    ensures Split(s) == [""] + Split(s[|Code|..]) && Normalize(s) == Code + Normalize(s[|Code|..])
  {
  }

  /** How `Split` and `Normalize` take apart a body that does not start with the shortcode. */
  lemma SplitNoMatch(s: string)
    requires s != [] && !MatchAt(s, 0)
    ensures Split(s) == [[s[0]] + Split(s[1..])[0]] + Split(s[1..])[1..]
    ensures Normalize(s) == [s[0]] + Normalize(s[1..])
  {
  }

  /** Lower-casing the shortcodes changes nothing but their letter case. */
  lemma {:induction false} NormalizeOnlyCase(s: string)
    ensures |Normalize(s)| == |s|
    ensures forall i :: 0 <= i < |s| ==> Fold(Normalize(s)[i]) == Fold(s[i])
    ensures Occurrences(s) == 0 ==> Normalize(s) == s
    decreases |s|
  {
    hide *;
    if s == [] {
      SplitEmpty();
    } else if MatchAt(s, 0) {
      SplitAtMatch(s);
      var t := s[|Code|..];
      OccurrencesAtMatch(s);
      NormalizeOnlyCase(t);
      var n := Normalize(s);
      forall i | 0 <= i < |s| ensures Fold(n[i]) == Fold(s[i]) {
        if i < |Code| {
          MatchAtChar(s, i);
          FoldCode(i);
          assert n[i] == Code[i];
        } else {
          assert n[i] == Normalize(t)[i - |Code|] && s[i] == t[i - |Code|];
        }
      }
    } else {
      SplitNoMatch(s);
      OccurrencesNoMatch(s);
      NormalizeOnlyCase(s[1..]);
      var n := Normalize(s);
      forall i | 0 <= i < |s| ensures Fold(n[i]) == Fold(s[i]) {
        if i > 0 {
          assert n[i] == Normalize(s[1..])[i - 1] && s[i] == s[1..][i - 1];
        }
      }
      if Occurrences(s) == 0 {
        assert n == [s[0]] + s[1..] == s;
      }
    }
  }

  lemma MatchAtChar(s: string, i: nat)
    requires MatchAt(s, 0) && i < |Code|
    ensures Fold(s[i]) == Code[i]
  {
    assert Fold(s[0 + i]) == Code[i];
  }

  /** The shortcode is already in lower case. */
  lemma FoldCode(i: nat)
    requires i < |Code|
    ensures Fold(Code[i]) == Code[i]
  {
  }

  lemma OccurrencesNoMatch(s: string)
    requires s != [] && !MatchAt(s, 0)
    ensures Occurrences(s) == Occurrences(s[1..])
  {
  }

  // ---------------------------------------------------------------- rendering

  /** What the article shows: a piece of the body (which the sanitiser then cleans), or a
      capture widget told the article's address. */
  datatype Block = Html(html: string) | Capture(articleUrl: Option<string>)

  /** Each part followed by a widget, except the last. */
  function Blocks(parts: seq<string>, articleUrl: Option<string>): seq<Block>
    requires |parts| >= 1
  {
    if |parts| == 1 then [Html(parts[0])]
    else [Html(parts[0]), Capture(articleUrl)] + Blocks(parts[1..], articleUrl)
  }

  /** `ArticleContent`: a body without shortcodes is shown whole. */
  function Render(content: string, articleUrl: Option<string>): seq<Block>
  {
    var parts := Split(content);
    if |parts| == 1 then [Html(content)] else Blocks(parts, articleUrl)
  }

  lemma {:induction false} BlocksLayout(parts: seq<string>, articleUrl: Option<string>)
    requires |parts| >= 1
    ensures var b := Blocks(parts, articleUrl);
            && |b| == 2 * |parts| - 1
            && (forall i :: 0 <= i < |parts| ==> b[2 * i] == Html(parts[i]))
            && (forall i :: 0 <= i < |parts| - 1 ==> b[2 * i + 1] == Capture(articleUrl))
            && Count(IsCapture, b) == |parts| - 1
  {
    hide *;
    if |parts| == 1 {
      BlocksStep(parts, articleUrl);
    } else {
      BlocksLayout(parts[1..], articleUrl);
      BlocksStep(parts, articleUrl);
      var b := Blocks(parts, articleUrl);
      var t := Blocks(parts[1..], articleUrl);
      forall i | 1 <= i < |parts| ensures b[2 * i] == Html(parts[i]) {
        assert b[2 * i] == t[2 * (i - 1)];
        assert parts[1..][i - 1] == parts[i];
      }
      forall i | 1 <= i < |parts| - 1 ensures b[2 * i + 1] == Capture(articleUrl) {
        assert b[2 * i + 1] == t[2 * (i - 1) + 1];
      }
    }
  }

  predicate IsCapture(x: Block)
  {
    x.Capture?
  }

  /** How `Blocks` takes apart its parts, with the widgets it adds. */
  lemma BlocksStep(parts: seq<string>, articleUrl: Option<string>)
    requires |parts| >= 1
    ensures |parts| == 1 ==> Blocks(parts, articleUrl) == [Html(parts[0])] && Count(IsCapture, Blocks(parts, articleUrl)) == 0
    ensures |parts| > 1 ==> Blocks(parts, articleUrl) == [Html(parts[0]), Capture(articleUrl)] + Blocks(parts[1..], articleUrl)
    ensures |parts| > 1 ==> Count(IsCapture, Blocks(parts, articleUrl)) == 1 + Count(IsCapture, Blocks(parts[1..], articleUrl))
  {
    if |parts| > 1 {
      FilterAppend(IsCapture, [Html(parts[0]), Capture(articleUrl)], Blocks(parts[1..], articleUrl));
    }
  }

  /** The article shows every part in order with a widget after each but the last, so there
      are as many widgets as shortcodes; a body without shortcodes is shown whole. */
  lemma RenderLayout(content: string, articleUrl: Option<string>)
    ensures var parts, b := Split(content), Render(content, articleUrl);
            && |b| == 2 * |parts| - 1
            && (forall i :: 0 <= i < |parts| ==> b[2 * i] == Html(parts[i]))
            && (forall i :: 0 <= i < |parts| - 1 ==> b[2 * i + 1] == Capture(articleUrl))
            && Count(IsCapture, b) == Occurrences(content)
    ensures Occurrences(content) == 0 ==> Render(content, articleUrl) == [Html(content)]
  {
    var parts := Split(content);
    PartsCount(content);
    BlocksLayout(parts, articleUrl);
    if |parts| == 1 {
      JoinParts(content);
      JoinCons(parts, Code);
      NormalizeOnlyCase(content);
      assert parts[0] == content;
    }
  }
}
