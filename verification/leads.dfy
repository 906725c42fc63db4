/** The leads the community form collects, the page window the admin table asks the store
    for, the page count it derives, and the table's page navigation. */
module Leads {
  import opened Wrappers
  import opened Seqs

  /** A stored lead. */
  datatype Lead = Lead(id: string, name: string, whatsapp: string, articleUrl: Option<string>, createdAt: string)

  /** An optional field of a JavaScript object: left out, `null`, or given. */
  datatype Field<T> = Absent | Null | Given(value: T)

  /** What a form hands to `useCreateLead`. */
  datatype LeadInput = LeadInput(name: string, whatsapp: string, articleUrl: Field<string>)

  /** The row inserted for a new lead. */
  datatype LeadRow = LeadRow(name: string, whatsapp: string, articleUrl: Option<string>)

  /** The insert of `useCreateLead`, with `article_url ?? null`. */
  function CreateRow(input: LeadInput): (r: LeadRow)
    ensures r.name == input.name && r.whatsapp == input.whatsapp
    ensures r.articleUrl == None <==> !input.articleUrl.Given?
    ensures input.articleUrl.Given? ==> r.articleUrl == Some(input.articleUrl.value)
  {
    LeadRow(input.name, input.whatsapp,
      match input.articleUrl
      case Given(u) => Some(u)
      case _ => None)
  }

  // ---------------------------------------------------------------- the page window

  /** First row index of `page` (`from`). */
  function From(page: int, pageSize: int): int
  {
    (page - 1) * pageSize
  }

  /** Last row index of `page`, inclusive (`to`). */
  function To(page: int, pageSize: int): int
  {
    From(page, pageSize) + pageSize - 1
  }

  /** The window holds `pageSize` rows and the first page starts at row 0. */
  lemma WindowSize(page: int, pageSize: int)
    requires pageSize >= 1
    ensures To(page, pageSize) - From(page, pageSize) + 1 == pageSize
    ensures From(1, pageSize) == 0 && To(1, pageSize) == pageSize - 1
    ensures page >= 1 ==> From(page, pageSize) >= 0
  {
  }

  /** Consecutive pages tile: each page starts right after the previous one ends. */
  lemma PagesTile(page: int, pageSize: int)
    ensures To(page, pageSize) + 1 == From(page + 1, pageSize)
  {
    assert (page + 1 - 1) * pageSize == (page - 1) * pageSize + pageSize;
  }

  /** `count || 0`: a missing count is zero. */
  function Total(count: Option<nat>): (t: nat)
    ensures count.Some? ==> t == count.value
    ensures count == None ==> t == 0
  {
    count.GetOr(0)
  }

  /** `Math.ceil(total / pageSize)`. */
  function TotalPages(total: nat, pageSize: nat): nat
    requires pageSize >= 1
  {
    (total + pageSize - 1) / pageSize
  }

  /** The page count is the least number of pages that hold every row. */
  lemma TotalPagesBounds(total: nat, pageSize: nat)
    requires pageSize >= 1
    ensures var tp := TotalPages(total, pageSize);
            total > 0 ==> (tp - 1) * pageSize < total <= tp * pageSize
    ensures total == 0 ==> TotalPages(total, pageSize) == 0
    ensures total > 0 ==> TotalPages(total, pageSize) >= 1
  {
    var tp := TotalPages(total, pageSize);
    var r := (total + pageSize - 1) % pageSize;
    assert total + pageSize - 1 == tp * pageSize + r;
    assert (tp - 1) * pageSize == tp * pageSize - pageSize;
    if total == 0 {
      assert pageSize - 1 == tp * pageSize + r;
      if tp >= 1 {
        MulAtLeast(tp, pageSize);
        assert false;
      }
    }
  }

  lemma MulAtLeast(a: nat, b: nat)
    requires a >= 1
    ensures a * b >= b
  {
    assert a * b == (a - 1) * b + b;
  }

  /** What the table gets back for one page. */
  datatype LeadsPage = LeadsPage(leads: seq<Lead>, total: nat, totalPages: nat)

  /** The store's answer to `range(from, to)` over the leads, newest first: the rows of the
      window that exist. */
  function Window(all: seq<Lead>, page: int, pageSize: int): (r: seq<Lead>)
    requires page >= 1 && pageSize >= 1
    ensures |r| <= pageSize
  {
    var lo := From(page, pageSize);
    var hi := To(page, pageSize) + 1;
    WindowSize(page, pageSize);
    if lo >= |all| then [] else all[lo..if hi <= |all| then hi else |all|]
  }

  /** `n` capped at `bound`, for a window that runs past the last row. */
  function Clip(n: int, bound: nat): (r: int)
    ensures r <= bound && (r == n || r == bound)
  {
    if n <= bound then n else bound
  }

  /** The window is the slice of rows from `(page - 1) · pageSize` up to `page · pageSize`,
      both cut at the last row. */
  lemma WindowSlice(all: seq<Lead>, page: int, pageSize: int)
    requires page >= 1 && pageSize >= 1
    ensures var lo, hi := Clip((page - 1) * pageSize, |all|), Clip(page * pageSize, |all|);
            0 <= lo <= hi && Window(all, page, pageSize) == all[lo..hi]
  {
    PagesTile(page - 1, pageSize);
    assert To(page, pageSize) + 1 == page * pageSize;
    assert From(page, pageSize) == (page - 1) * pageSize;
    MulAtLeast(page, pageSize);
  }

  /** `useAdminLeads(page, pageSize)` over the store's rows `all`, the count being exact: the
      rows `(page - 1) · pageSize` up to `page · pageSize` that exist, the total, and the least
      number of pages that hold every row. */
  function FetchPage(all: seq<Lead>, page: int, pageSize: int): (r: LeadsPage)
    requires page >= 1 && pageSize >= 1
    ensures r.total == |all|
    ensures |r.leads| <= pageSize
    ensures var lo, hi := Clip((page - 1) * pageSize, |all|), Clip(page * pageSize, |all|);
            0 <= lo <= hi && r.leads == all[lo..hi]
    ensures r.total == 0 ==> r.totalPages == 0
    ensures r.total > 0 ==> (r.totalPages - 1) * pageSize < r.total <= r.totalPages * pageSize
  {
    hide *;
    var total := Total(Some(|all|));
    TotalPagesBounds(total, pageSize);
    WindowSlice(all, page, pageSize);
    LeadsPage(Window(all, page, pageSize), total, TotalPages(total, pageSize))
  }

  /** The rows of pages `1..n`, read in order. */
  function PagesUpTo(all: seq<Lead>, n: nat, pageSize: int): seq<Lead>
    requires pageSize >= 1
  {
    if n == 0 then [] else PagesUpTo(all, n - 1, pageSize) + Window(all, n, pageSize)
  }

  lemma PagesUpToStep(all: seq<Lead>, n: nat, pageSize: int)
    requires pageSize >= 1 && n > 0
    ensures PagesUpTo(all, n, pageSize) == PagesUpTo(all, n - 1, pageSize) + Window(all, n, pageSize)
  {
  }

  /** Reading pages `1..n` in order gives the first `n · pageSize` rows, without gap or repeat. */
  lemma {:induction false} PagesUpToPrefix(all: seq<Lead>, n: nat, pageSize: int)
    requires pageSize >= 1
    ensures var m := n * pageSize; PagesUpTo(all, n, pageSize) == all[..if m <= |all| then m else |all|]
  {
    if n > 0 {
      hide *;
      PagesUpToStep(all, n, pageSize);
      PagesUpToPrefix(all, n - 1, pageSize);
      WindowSlice(all, n, pageSize);
      ClipIsMin((n - 1) * pageSize, |all|);
      ClipIsMin(n * pageSize, |all|);
      PrefixJoin(all, Clip((n - 1) * pageSize, |all|), Clip(n * pageSize, |all|));
    }
  }

  lemma ClipIsMin(n: int, bound: nat)
    ensures Clip(n, bound) == if n <= bound then n else bound
  {
  }

  lemma PrefixJoin<T>(s: seq<T>, a: int, b: int)
    requires 0 <= a <= b <= |s|
    ensures s[..a] + s[a..b] == s[..b]
  {
  }

  /** Reading every page in order gives back all the leads exactly once. */
  lemma AllPagesCoverLeads(all: seq<Lead>, pageSize: int)
    requires pageSize >= 1
    ensures PagesUpTo(all, FetchPage(all, 1, pageSize).totalPages, pageSize) == all
  {
    var tp := TotalPages(|all|, pageSize);
    TotalPagesBounds(|all|, pageSize);
    PagesUpToPrefix(all, tp, pageSize);
    assert all[..|all|] == all;
  }

  // ---------------------------------------------------------------- the admin table

  /** The table's page size. */
  const PageSize: nat := 20

  /** The page the table opens on. */
  const FirstPage: int := 1

  /** `handlePrevious`. */
  function Previous(page: int): int
  {
    if page > 1 then page - 1 else page
  }

  /** `handleNext`; `data` is the loaded page, if any. */
  function Next(page: int, data: Option<LeadsPage>): int
  {
    if data.Some? && page < data.value.totalPages then page + 1 else page
  }

  /** The page stays within the pages there are (at least one). */
  predicate PageInRange(page: int, totalPages: nat)
  {
    1 <= page <= (if totalPages < 1 then 1 else totalPages)
  }

  /** The table opens in range, whatever the page count. */
  lemma FirstPageInRange(totalPages: nat)
    ensures PageInRange(FirstPage, totalPages)
  {
  }

  /** Previous moves back exactly when not on page 1, and keeps the page in range. */
  lemma PreviousStep(page: int, totalPages: nat)
    ensures Previous(page) == page - 1 <==> page > 1
    ensures Previous(page) != page - 1 ==> Previous(page) == page
    ensures PageInRange(page, totalPages) ==> PageInRange(Previous(page), totalPages)
  {
  }

  /** Next moves forward exactly when a page is loaded and it is not the last, and keeps the
      page in range of the loaded page count. */
  lemma NextStep(page: int, data: Option<LeadsPage>)
    ensures Next(page, data) == page + 1 <==> data.Some? && page < data.value.totalPages
    ensures Next(page, data) != page + 1 ==> Next(page, data) == page
    ensures data.Some? && PageInRange(page, data.value.totalPages) ==>
              PageInRange(Next(page, data), data.value.totalPages)
  {
  }

  /** `data && data.totalPages > 1`: whether the pager is shown. */
  predicate ShowsPager(data: Option<LeadsPage>)
  {
    data.Some? && data.value.totalPages > 1
  }

  /** `disabled={page === 1}`. */
  predicate PreviousDisabled(page: int) { page == 1 }

  /** `disabled={page === data.totalPages}`. */
  predicate NextDisabled(page: int, data: LeadsPage) { page == data.totalPages }

  /** While the pager is shown and the page is in range, a button is disabled exactly when
      pressing it would do nothing. */
  lemma DisabledMeansNoMove(page: int, data: LeadsPage)
    requires ShowsPager(Some(data)) && PageInRange(page, data.totalPages)
    ensures PreviousDisabled(page) <==> Previous(page) == page
    ensures NextDisabled(page, data) <==> Next(page, Some(data)) == page
  {
  }
}
