/** The admin dashboard's post list: the category choices, the search, category and date
    filters, clearing them, and the status counts. */
module AdminFilters {
  import opened Text
  import opened Seqs
  import opened Wrappers
  import opened Posts

  // ---------------------------------------------------------------- the category choices

  /** The order `Array.prototype.sort` puts strings in: character by character, a proper
      prefix first. */
  predicate Before(a: string, b: string)
  {
    if a == [] then b != []
    else if b == [] then false
    else if a[0] != b[0] then a[0] < b[0]
    else Before(a[1..], b[1..])
  }

  lemma BeforeIrreflexive(a: string)
    ensures !Before(a, a)
  {
  }

  lemma {:induction false} BeforeTotal(a: string, b: string)
    ensures a == b || Before(a, b) || Before(b, a)
  {
    if a != [] && b != [] && a[0] == b[0] {
      BeforeTotal(a[1..], b[1..]);
      if a[1..] == b[1..] {
        assert a == [a[0]] + a[1..] && b == [b[0]] + b[1..];
      }
    }
  }

  lemma {:induction false} BeforeTransitive(a: string, b: string, c: string)
    requires Before(a, b) && Before(b, c)
    ensures Before(a, c)
  {
    if a != [] && a[0] == b[0] && b[0] == c[0] {
      BeforeTransitive(a[1..], b[1..], c[1..]);
    }
  }

  /** Strictly ascending, so also free of duplicates. */
  predicate Ascending(s: seq<string>)
  {
    forall i, j :: 0 <= i < j < |s| ==> Before(s[i], s[j])
  }

  predicate Distinct(s: seq<string>)
  {
    forall i, j :: 0 <= i < j < |s| ==> s[i] != s[j]
  }

  lemma AscendingDistinct(s: seq<string>)
    requires Ascending(s)
    ensures Distinct(s)
  {
    forall i, j | 0 <= i < j < |s| ensures s[i] != s[j] {
      BeforeIrreflexive(s[i]);
    }
  }

  /** Insertion of `x` in front of the first element it comes before. */
  function Insert(x: string, s: seq<string>): (r: seq<string>)
    ensures |r| == |s| + 1
    ensures forall y :: y in r <==> y == x || y in s
  {
    if s == [] then [x]
    else if Before(x, s[0]) then [x] + s
    else [s[0]] + Insert(x, s[1..])
  }

  lemma {:induction false} InsertAscending(x: string, s: seq<string>)
    requires Ascending(s) && x !in s
    ensures Ascending(Insert(x, s))
  {
    if s != [] {
      var r := Insert(x, s);
      if Before(x, s[0]) {
        forall i, j | 0 <= i < j < |r| ensures Before(r[i], r[j]) {
          if i == 0 && j > 1 {
            BeforeTransitive(x, s[0], s[j - 1]);
          }
        }
      } else {
        InsertAscending(x, s[1..]);
        BeforeTotal(x, s[0]);
        var t := Insert(x, s[1..]);
        assert r == [s[0]] + t;
        forall i, j | 0 <= i < j < |r| ensures Before(r[i], r[j]) {
          if i == 0 {
            assert r[j] == t[j - 1] && t[j - 1] in t;
            if r[j] != x {
              var k :| 0 <= k < |s[1..]| && s[1..][k] == r[j];
              assert s[k + 1] == r[j];
            }
          } else {
            assert r[i] == t[i - 1] && r[j] == t[j - 1];
          }
        }
      }
    }
  }

  /** Insertion sort. */
  function Sort(s: seq<string>): (r: seq<string>)
    ensures |r| == |s|
    ensures forall y :: y in r <==> y in s
  {
    if s == [] then [] else Insert(s[0], Sort(s[1..]))
  }

  lemma {:induction false} SortAscending(s: seq<string>)
    requires Distinct(s)
    ensures Ascending(Sort(s))
  {
    if s != [] {
      assert Distinct(s[1..]) by {
        forall i, j | 0 <= i < j < |s| - 1 ensures s[1..][i] != s[1..][j] {
          assert s[1..][i] == s[i + 1] && s[1..][j] == s[j + 1];
        }
      }
      SortAscending(s[1..]);
      assert s[0] !in s[1..] by {
        forall k | 0 <= k < |s| - 1 ensures s[1..][k] != s[0] {
          assert s[1..][k] == s[k + 1];
        }
      }
      InsertAscending(s[0], Sort(s[1..]));
    }
  }

  /** `[...new Set(s)]`: each value once, where it first occurs. */
  function Unique(s: seq<string>): (r: seq<string>)
    ensures forall y :: y in r <==> y in s
  {
    if s == [] then []
    else
      var u := Unique(s[..|s| - 1]);
      assert s == s[..|s| - 1] + [s[|s| - 1]];
      if s[|s| - 1] in u then u else u + [s[|s| - 1]]
  }

  lemma {:induction false} UniqueDistinct(s: seq<string>)
    ensures Distinct(Unique(s))
  {
    if s != [] {
      UniqueDistinct(s[..|s| - 1]);
    }
  }

  function CategoryList(posts: seq<Post>): (r: seq<string>)
    ensures |r| == |posts|
    ensures forall i :: 0 <= i < |posts| ==> r[i] == posts[i].category
  {
    seq(|posts|, i requires 0 <= i < |posts| => posts[i].category)
  }

  /** `categories`: nothing before the posts load. */
  function Categories(posts: Option<seq<Post>>): seq<string>
  {
    match posts
    case None => []
    case Some(ps) => Sort(Unique(CategoryList(ps)))
  }

  /** The category choices are the categories the posts use, each once, in ascending order. */
  lemma CategoriesSpec(posts: Option<seq<Post>>)
    ensures Ascending(Categories(posts)) && Distinct(Categories(posts))
    ensures forall c :: c in Categories(posts) <==> posts.Some? && exists p :: p in posts.value && p.category == c
  {
    if posts.Some? {
      var ps := posts.value;
      UniqueDistinct(CategoryList(ps));
      SortAscending(Unique(CategoryList(ps)));
      forall c ensures c in CategoryList(ps) <==> exists p :: p in ps && p.category == c {
        if c in CategoryList(ps) {
          var i :| 0 <= i < |ps| && CategoryList(ps)[i] == c;
          assert ps[i] in ps;
        }
        if exists p :: p in ps && p.category == c {
          var p :| p in ps && p.category == c;
          var i :| 0 <= i < |ps| && ps[i] == p;
          assert CategoryList(ps)[i] == c;
        }
      }
    }
    AscendingDistinct(Categories(posts));
  }

  // ---------------------------------------------------------------- the filters

  /** The choices of the date filter. */
  datatype DateRange = AnyDate | Today | LastWeek | LastMonth | LastYear

  /** One day in milliseconds. */
  const DayMs: int := 24 * 60 * 60 * 1000

  /** The state of the three filters; the category is "all" or a category name. */
  datatype Filters = Filters(search: string, category: string, date: DateRange)

  const AllCategories: string := "all"

  predicate MatchesSearch(p: Post, query: string)
  {
    query == "" || Contains(Lower(p.title), Lower(query))
  }

  predicate MatchesCategory(p: Post, category: string)
  {
    category == AllCategories || p.category == category
  }

  /** The date filter at time `now` (milliseconds); `dayOf` gives the local calendar day of a
      time, which is what `toDateString` compares. */
  predicate MatchesDate(p: Post, date: DateRange, now: int, dayOf: int -> int)
  {
    match date
    case AnyDate => true
    case Today => dayOf(p.createdAt) == dayOf(now)
    case LastWeek => p.createdAt >= now - 7 * DayMs
    case LastMonth => p.createdAt >= now - 30 * DayMs
    case LastYear => p.createdAt >= now - 365 * DayMs
  }

  predicate Matches(p: Post, f: Filters, now: int, dayOf: int -> int)
  {
    MatchesSearch(p, f.search) && MatchesCategory(p, f.category) && MatchesDate(p, f.date, now, dayOf)
  }

  /** `filteredPosts`. */
  function FilteredPosts(posts: Option<seq<Post>>, f: Filters, now: int, dayOf: int -> int): (r: seq<Post>)
    ensures posts == None ==> r == []
    ensures posts.Some? ==> IsSubseq(r, posts.value)
    ensures forall p :: p in r <==> posts.Some? && p in posts.value && Matches(p, f, now, dayOf)
  {
    match posts
    case None => []
    case Some(ps) =>
      FilterIsSubseq(p => Matches(p, f, now, dayOf), ps);
      Filter(p => Matches(p, f, now, dayOf), ps)
  }

  /** `clearFilters`. */
  function ClearFilters(f: Filters): (r: Filters)
    ensures !HasActiveFilters(r)
  {
    Filters("", AllCategories, AnyDate)
  }

  /** `hasActiveFilters`. */
  predicate HasActiveFilters(f: Filters)
  {
    f.search != "" || f.category != AllCategories || f.date != AnyDate
  }

  /** Filters are inactive exactly in the cleared state, and then every post is listed, in
      its order. */
  lemma InactiveKeepsAll(posts: seq<Post>, f: Filters, now: int, dayOf: int -> int)
    ensures !HasActiveFilters(f) <==> f == ClearFilters(f)
    ensures !HasActiveFilters(f) ==> FilteredPosts(Some(posts), f, now, dayOf) == posts
  {
    if !HasActiveFilters(f) {
      FilterAll(p => Matches(p, f, now, dayOf), posts);
    }
  }

  /** The date windows are the last 7, 30 and 365 days in milliseconds, and each lies inside
      the next. */
  lemma DateWindowsNest(p: Post, now: int, dayOf: int -> int)
    ensures MatchesDate(p, LastWeek, now, dayOf) <==> p.createdAt >= now - 604_800_000
    ensures MatchesDate(p, LastMonth, now, dayOf) <==> p.createdAt >= now - 2_592_000_000
    ensures MatchesDate(p, LastYear, now, dayOf) <==> p.createdAt >= now - 31_536_000_000
    ensures MatchesDate(p, LastWeek, now, dayOf) ==> MatchesDate(p, LastMonth, now, dayOf)
    ensures MatchesDate(p, LastMonth, now, dayOf) ==> MatchesDate(p, LastYear, now, dayOf)
  {
  }

  /** Typing more of a title narrows the list: what a longer query keeps, the shorter one it
      extends keeps too. */
  lemma SearchNarrows(posts: seq<Post>, f: Filters, longer: string, now: int, dayOf: int -> int)
    requires Contains(longer, f.search)
    ensures IsSubseq(FilteredPosts(Some(posts), f.(search := longer), now, dayOf),
                     FilteredPosts(Some(posts), f, now, dayOf))
  {
    var g := f.(search := longer);
    forall p | p in posts && Matches(p, g, now, dayOf) ensures Matches(p, f, now, dayOf) {
      if f.search != "" {
        LowerPreservesContains(longer, f.search);
        ContainsTransitive(Lower(f.search), Lower(longer), Lower(p.title));
      }
    }
    FilterMonotone(p => Matches(p, g, now, dayOf), p => Matches(p, f, now, dayOf), posts);
  }

  // ---------------------------------------------------------------- the counts

  /** `posts?.filter(p => p.status === s).length || 0`. */
  function StatusCount(posts: Option<seq<Post>>, s: Status): nat
  {
    match posts
    case None => 0
    case Some(ps) => Count((p: Post) => p.status == s, ps)
  }

  lemma {:induction false} StatusCountsAddUp(ps: seq<Post>)
    ensures Count((p: Post) => p.status == Draft, ps) + Count((p: Post) => p.status == Scheduled, ps)
            + Count((p: Post) => p.status == Published, ps) == |ps|
  {
    if ps != [] {
      StatusCountsAddUp(ps[1..]);
    }
  }

  /** Drafts, scheduled and published posts add up to all posts. */
  lemma CountsAddUp(posts: Option<seq<Post>>)
    ensures StatusCount(posts, Draft) + StatusCount(posts, Scheduled) + StatusCount(posts, Published)
            == if posts.Some? then |posts.value| else 0
  {
    if posts.Some? {
      StatusCountsAddUp(posts.value);
    }
  }
}
