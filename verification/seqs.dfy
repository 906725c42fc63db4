/** Order-preserving filters and subsequences, the shape shared by every list filter of the site. */
module Seqs {

  /** `Array.prototype.filter`: the elements of `s` satisfying `p`, in their original order. */
  function Filter<T(!new)>(p: T -> bool, s: seq<T>): (r: seq<T>)
    ensures |r| <= |s|
    ensures forall x :: x in r <==> x in s && p(x)
  {
    if s == [] then [] else (if p(s[0]) then [s[0]] else []) + Filter(p, s[1..])
  }

  /** `a` is obtained from `b` by deleting elements, without reordering. */
  predicate IsSubseq<T(==)>(a: seq<T>, b: seq<T>)
    decreases |b|
  {
    if a == [] then true
    else if b == [] then false
    else (a[0] == b[0] && IsSubseq(a[1..], b[1..])) || IsSubseq(a, b[1..])
  }

  /** Every element of a subsequence occurs in the sequence it was taken from. */
  lemma {:induction false} SubseqMembers<T(!new)>(a: seq<T>, b: seq<T>)
    requires IsSubseq(a, b)
    ensures forall x :: x in a ==> x in b
    decreases |b|
  {
    if a != [] {
      if a[0] == b[0] && IsSubseq(a[1..], b[1..]) {
        SubseqMembers(a[1..], b[1..]);
        forall x | x in a ensures x in b {
          if x != a[0] {
            assert x in a[1..];
          }
        }
      } else {
        SubseqMembers(a, b[1..]);
      }
    }
  }

  /** A filter result is an order-preserving subsequence of its input. */
  lemma {:induction false} FilterIsSubseq<T(!new)>(p: T -> bool, s: seq<T>)
    ensures IsSubseq(Filter(p, s), s)
  {
    if s != [] {
      FilterIsSubseq(p, s[1..]);
      var r := Filter(p, s);
      if p(s[0]) {
        assert r[0] == s[0] && r[1..] == Filter(p, s[1..]);
      } else {
        assert r == Filter(p, s[1..]);
        assert IsSubseq(r, s[1..]);
      }
    }
  }

  /** A filter that keeps everything returns its input unchanged. */
  lemma {:induction false} FilterAll<T(!new)>(p: T -> bool, s: seq<T>)
    requires forall x :: x in s ==> p(x)
    ensures Filter(p, s) == s
  {
    if s != [] {
      assert forall x :: x in s[1..] ==> x in s;
      FilterAll(p, s[1..]);
    }
  }

  /** A filter that keeps nothing returns the empty sequence. */
  lemma {:induction false} FilterNone<T(!new)>(p: T -> bool, s: seq<T>)
    requires forall x :: x in s ==> !p(x)
    ensures Filter(p, s) == []
  {
    if s != [] {
      assert forall x :: x in s[1..] ==> x in s;
      FilterNone(p, s[1..]);
    }
  }

  /** Two predicates that agree on the elements of `s` filter it the same way. */
  lemma {:induction false} FilterExt<T(!new)>(p: T -> bool, q: T -> bool, s: seq<T>)
    requires forall x :: x in s ==> p(x) == q(x)
    ensures Filter(p, s) == Filter(q, s)
  {
    if s != [] {
      assert forall x :: x in s[1..] ==> x in s;
      FilterExt(p, q, s[1..]);
    }
  }

  /** A stronger predicate keeps a subsequence of what a weaker one keeps. */
  lemma {:induction false} FilterMonotone<T(!new)>(strong: T -> bool, weak: T -> bool, s: seq<T>)
    requires forall x :: x in s && strong(x) ==> weak(x)
    ensures IsSubseq(Filter(strong, s), Filter(weak, s))
  {
    if s != [] {
      assert forall x :: x in s[1..] ==> x in s;
      FilterMonotone(strong, weak, s[1..]);
      var a, b := Filter(strong, s), Filter(weak, s);
      if strong(s[0]) {
        assert a[0] == s[0] && a[1..] == Filter(strong, s[1..]);
        assert b[0] == s[0] && b[1..] == Filter(weak, s[1..]);
      } else if weak(s[0]) {
        assert a == Filter(strong, s[1..]);
        assert b[1..] == Filter(weak, s[1..]);
        assert IsSubseq(a, b[1..]);
        if a != [] {
          assert b != [];
        }
      } else {
        assert a == Filter(strong, s[1..]) && b == Filter(weak, s[1..]);
      }
    }
  }

  /** Filtering distributes over concatenation. */
  lemma {:induction false} FilterAppend<T(!new)>(p: T -> bool, s: seq<T>, t: seq<T>)
    ensures Filter(p, s + t) == Filter(p, s) + Filter(p, t)
  {
    if s != [] {
      assert (s + t)[1..] == s[1..] + t;
      FilterAppend(p, s[1..], t);
    } else {
      assert s + t == t;
    }
  }

  /** Number of elements of `s` satisfying `p` (`s.filter(p).length`). */
  function Count<T(!new)>(p: T -> bool, s: seq<T>): nat
  {
    |Filter(p, s)|
  }

  /** Concatenation of a list of parts, as `new Blob(parts)` lays them out. */
  function Flatten<T>(parts: seq<seq<T>>): seq<T>
  {
    if parts == [] then [] else Flatten(parts[..|parts| - 1]) + parts[|parts| - 1]
  }

  /** Flattening a longer list of parts only appends. */
  lemma {:induction false} FlattenPrefix<T>(parts: seq<seq<T>>, j: nat, k: nat)
    requires j <= k <= |parts|
    ensures Flatten(parts[..j]) <= Flatten(parts[..k])
    decreases k
  {
    if j < k {
      FlattenPrefix(parts, j, k - 1);
      assert parts[..k][..k - 1] == parts[..k - 1];
    }
  }

  /** Part `k` sits in the flattened sequence right after the parts before it. */
  lemma FlattenAt<T>(parts: seq<seq<T>>, k: nat, p: nat)
    requires k < |parts| && p == |Flatten(parts[..k])|
    ensures p + |parts[k]| <= |Flatten(parts)|
    ensures Flatten(parts)[p..p + |parts[k]|] == parts[k]
  {
    assert parts[..k + 1][..k] == parts[..k];
    assert Flatten(parts[..k + 1]) == Flatten(parts[..k]) + parts[k];
    FlattenPrefix(parts, k + 1, |parts|);
    assert parts[..|parts|] == parts;
  }

  /** Flattening distributes over concatenation of part lists. */
  lemma {:induction false} FlattenAppend<T>(ps: seq<seq<T>>, qs: seq<seq<T>>)
    ensures Flatten(ps + qs) == Flatten(ps) + Flatten(qs)
    decreases |qs|
  {
    if qs == [] {
      assert ps + qs == ps;
    } else {
      var n := |qs| - 1;
      assert (ps + qs)[..|ps + qs| - 1] == ps + qs[..n];
      FlattenAppend(ps, qs[..n]);
    }
  }

  /** A slice of a prefix is the same slice of the whole. */
  lemma SliceOfPrefix<T>(whole: seq<T>, prefix: seq<T>, p: nat, part: seq<T>)
    requires prefix <= whole && p + |part| <= |prefix| && prefix[p..p + |part|] == part
    ensures whole[p..p + |part|] == part
  {
    assert whole[..|prefix|] == prefix;
    assert whole[p..p + |part|] == whole[..|prefix|][p..p + |part|];
  }

  /** A slice holding `x + y` holds `x` and then `y`. */
  lemma SliceSplit<T>(whole: seq<T>, p: nat, x: seq<T>, y: seq<T>)
    requires p + |x| + |y| <= |whole| && whole[p..p + |x| + |y|] == x + y
    ensures whole[p..p + |x|] == x
    ensures whole[p + |x|..p + |x| + |y|] == y
  {
    assert whole[p..p + |x|] == whole[p..p + |x| + |y|][..|x|];
    assert whole[p + |x|..p + |x| + |y|] == whole[p..p + |x| + |y|][|x|..];
  }

  /** `q` occurs in `s` starting at index `i`. */
  predicate OccursAt<T(==)>(s: seq<T>, q: seq<T>, i: nat)
  {
    i + |q| <= |s| && s[i..i + |q|] == q
  }

  /** A slice of a part placed at `p` is the corresponding slice of the whole. */
  lemma SliceOfSlice<T>(whole: seq<T>, p: nat, part: seq<T>, i: nat, j: nat)
    requires p + |part| <= |whole| && whole[p..p + |part|] == part && i <= j <= |part|
    ensures whole[p + i..p + j] == part[i..j]
  {
    forall m | 0 <= m < j - i ensures whole[p + i..p + j][m] == part[i..j][m] {
      assert whole[p + i + m] == whole[p..p + |part|][i + m];
    }
  }
}
