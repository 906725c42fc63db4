/** String primitives with the meaning JavaScript gives them: white space as `\s` and
    `trim` see it, case mapping, `includes`, `endsWith`, `join`, and UTF-16 length. */
module Text {
  import opened Seqs

  /** The white space and line terminators of ECMAScript (the `\s` class and `trim`). */
  predicate IsWhite(c: char)
  {
    || c == '\t' || c == '\n' || c == '\U{000B}' || c == '\U{000C}' || c == '\r' || c == ' '
    || c == '\U{00A0}' || c == '\U{1680}' || ('\U{2000}' <= c <= '\U{200A}')
    || c == '\U{2028}' || c == '\U{2029}' || c == '\U{202F}' || c == '\U{205F}'
    || c == '\U{3000}' || c == '\U{FEFF}'
  }

  predicate IsDigit(c: char) { '0' <= c <= '9' }

  predicate IsLowerAlnum(c: char) { 'a' <= c <= 'z' || IsDigit(c) }

  /** Number of leading white-space characters. */
  function LeadingWhite(s: string): (n: nat)
    ensures n <= |s|
    ensures forall i :: 0 <= i < n ==> IsWhite(s[i])
    ensures n < |s| ==> !IsWhite(s[n])
  {
    if s == [] || !IsWhite(s[0]) then 0 else 1 + LeadingWhite(s[1..])
  }

  /** Number of trailing white-space characters. */
  function TrailingWhite(s: string): (n: nat)
    ensures n <= |s|
    ensures forall i :: |s| - n <= i < |s| ==> IsWhite(s[i])
    ensures n < |s| ==> !IsWhite(s[|s| - n - 1])
  {
    if s == [] || !IsWhite(s[|s| - 1]) then 0 else 1 + TrailingWhite(s[..|s| - 1])
  }

  /** `String.prototype.trim`. */
  function Trim(s: string): (r: string)
    ensures |r| <= |s|
    ensures r != [] ==> !IsWhite(r[0]) && !IsWhite(r[|r| - 1])
    ensures forall c :: c in r ==> c in s
  {
    var t := s[LeadingWhite(s)..];
    t[..|t| - TrailingWhite(t)]
  }

  /** Where `Trim` cuts: white space, the trimmed text, white space. */
  lemma TrimParts(s: string, t: string, n: int)
    requires t == s[LeadingWhite(s)..] && n == |t| - TrailingWhite(t)
    ensures 0 <= n <= |t|
    ensures s == s[..LeadingWhite(s)] + (t[..n] + t[n..]) && Trim(s) == t[..n]
    ensures forall k :: 0 <= k < |s[..LeadingWhite(s)]| ==> IsWhite(s[..LeadingWhite(s)][k])
    ensures forall k :: 0 <= k < |t[n..]| ==> IsWhite(t[n..][k])
  {
    hide *;
    TrimCut(s, t, n);
    LeadingPart(s);
    TrailingPart(t, n);
  }

  lemma TrimCut(s: string, t: string, n: int)
    requires t == s[LeadingWhite(s)..] && n == |t| - TrailingWhite(t)
    ensures 0 <= n <= |t|
    ensures s == s[..LeadingWhite(s)] + (t[..n] + t[n..]) && Trim(s) == t[..n]
  {
    hide IsWhite;
    assert t[..n] + t[n..] == t;
  }

  lemma LeadingPart(s: string)
    ensures forall k :: 0 <= k < |s[..LeadingWhite(s)]| ==> IsWhite(s[..LeadingWhite(s)][k])
  {
    hide IsWhite;
    forall k | 0 <= k < |s[..LeadingWhite(s)]| ensures IsWhite(s[..LeadingWhite(s)][k]) {
      assert s[..LeadingWhite(s)][k] == s[k];
    }
  }

  lemma TrailingPart(t: string, n: int)
    requires n == |t| - TrailingWhite(t)
    ensures 0 <= n <= |t|
    ensures forall k :: 0 <= k < |t[n..]| ==> IsWhite(t[n..][k])
  {
    hide IsWhite;
    forall k | 0 <= k < |t[n..]| ensures IsWhite(t[n..][k]) {
      assert t[n..][k] == t[n + k];
    }
  }

  /** Trimming removes only white space: what it drops is white, and a string with
      no white space at either end is its own trim. */
  lemma TrimDropsOnlyWhite(s: string)
    ensures exists i, j :: 0 <= i <= j <= |s| && Trim(s) == s[i..j]
              && (forall k :: 0 <= k < i ==> IsWhite(s[k]))
              && (forall k :: j <= k < |s| ==> IsWhite(s[k]))
  {
    var i := LeadingWhite(s);
    var t := s[i..];
    var j := i + |t| - TrailingWhite(t);
    assert Trim(s) == s[i..j];
    forall k | j <= k < |s| ensures IsWhite(s[k]) {
      assert s[k] == t[k - i];
    }
  }

  /** A string that is blank (`!s.trim()` in the source) is exactly one made of white space. */
  lemma {:induction false} TrimEmptyIffBlank(s: string)
    ensures Trim(s) == [] <==> forall k :: 0 <= k < |s| ==> IsWhite(s[k])
  {
    var i := LeadingWhite(s);
    if i < |s| {
      var t := s[i..];
      assert !IsWhite(t[0]);
      assert TrailingWhite(t) < |t|;
    }
  }

  /** ASCII and Latin-1 upper-case letters map to their lower-case partners
      (the multiplication sign U+00D7 is not a letter). */
  function LowerChar(c: char): (d: char)
  {
    if 'A' <= c <= 'Z' || ('\U{00C0}' <= c <= '\U{00DE}' && c != '\U{00D7}')
    then (c as int + 32) as char
    else c
  }

  /** `String.prototype.toLowerCase`, character by character. */
  function Lower(s: string): (r: string)
    ensures |r| == |s|
    ensures forall i :: 0 <= i < |s| ==> r[i] == LowerChar(s[i])
  {
    seq(|s|, i requires 0 <= i < |s| => LowerChar(s[i]))
  }

  /** `String.prototype.includes`. */
  predicate Contains(s: string, q: string)
  {
    exists i: nat :: i <= |s| && OccursAt(s, q, i)
  }

  /** Every string contains the empty string. */
  lemma ContainsEmpty(s: string)
    ensures Contains(s, "")
  {
    assert OccursAt(s, "", 0);
  }

  /** Containment is transitive. */
  lemma ContainsTransitive(a: string, b: string, c: string)
    requires Contains(b, a) && Contains(c, b)
    ensures Contains(c, a)
  {
    var i: nat :| i <= |b| && OccursAt(b, a, i);
    var j: nat :| j <= |c| && OccursAt(c, b, j);
    forall k | 0 <= k < |a| ensures c[j + i + k] == a[k] {
      assert c[j + i + k] == c[j..j + |b|][i + k] == b[i + k];
      assert b[i + k] == b[i..i + |a|][k];
    }
    assert OccursAt(c, a, j + i);
  }

  /** Lower-casing both sides preserves containment. */
  lemma LowerPreservesContains(s: string, q: string)
    requires Contains(s, q)
    ensures Contains(Lower(s), Lower(q))
  {
    var i: nat :| i <= |s| && OccursAt(s, q, i);
    assert Lower(s)[i..i + |q|] == Lower(q);
    assert OccursAt(Lower(s), Lower(q), i);
  }

  /** `String.prototype.endsWith`. */
  predicate EndsWith(s: string, suffix: string)
  {
    |suffix| <= |s| && s[|s| - |suffix|..] == suffix
  }

  /** `String.prototype.startsWith`. */
  predicate StartsWith(s: string, prefix: string)
  {
    |prefix| <= |s| && s[..|prefix|] == prefix
  }

  /** `Array.prototype.join`. */
  function Join(parts: seq<string>, sep: string): string
  {
    if parts == [] then ""
    else if |parts| == 1 then parts[0]
    else parts[0] + sep + Join(parts[1..], sep)
  }

  /** How `Join` takes apart a list: no parts give the empty string, a single part is itself, and a longer list is its head,
      the separator, and the rest joined. */
  lemma JoinCons(parts: seq<string>, sep: string)
    ensures parts == [] ==> Join(parts, sep) == ""
    ensures |parts| == 1 ==> Join(parts, sep) == parts[0]
    ensures |parts| > 1 ==> Join(parts, sep) == parts[0] + sep + Join(parts[1..], sep)
  {
  }

  /** Length in UTF-16 code units (`String.prototype.length`): characters beyond the
      Basic Multilingual Plane take two. */
  function Utf16Length(s: string): (n: nat)
    ensures |s| <= n <= 2 * |s|
  {
    if s == [] then 0 else (if s[0] as int >= 0x10000 then 2 else 1) + Utf16Length(s[1..])
  }

  /** On text inside the Basic Multilingual Plane, UTF-16 length is the character count. */
  lemma {:induction false} Utf16LengthBmp(s: string)
    requires forall i :: 0 <= i < |s| ==> s[i] as int < 0x10000
    ensures Utf16Length(s) == |s|
  {
    if s != [] {
      Utf16LengthBmp(s[1..]);
    }
  }

  /** `s.replace(/[…]/g, '')`: delete every character in the class `drop`. */
  function Remove(s: string, drop: char -> bool): (r: string)
    ensures |r| <= |s|
    ensures forall c :: c in r <==> c in s && !drop(c)
  {
    Filter(c => !drop(c), s)
  }

  /** Removing a class keeps exactly what any predicate that is its complement on `s` keeps. */
  lemma {:induction false} RemoveIsFilter(s: string, drop: char -> bool, keep: char -> bool)
    requires forall c :: c in s ==> keep(c) == !drop(c)
    ensures Remove(s, drop) == Filter(keep, s)
  {
    if s != [] {
      RemoveIsFilter(s[1..], drop, keep);
      assert s[0] in s;
    }
  }

  /** Trimming twice is trimming once. */
  lemma TrimIdempotent(s: string)
    ensures Trim(Trim(s)) == Trim(s)
  {
    var r := Trim(s);
    if r != [] {
      assert LeadingWhite(r) == 0;
      assert TrailingWhite(r) == 0;
      assert r[0..] == r && r[..|r|] == r;
    }
  }
}
