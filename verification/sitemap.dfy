/** The sitemap the site serves (sitemaps.org protocol 0.9): three fixed pages, then one entry
    per published post, as the text the function writes. A reader of that text is the
    partner the writer is checked against. */
module Sitemap {
  import opened Text
  import opened Wrappers

  function SiteUrl(): string { "https://www.kleverson.xyz" }

  /** One `<url>` element. */
  datatype Url = Url(loc: string, lastmod: string, changefreq: string, priority: string)

  /** A fixed page of the site. */
  datatype StaticPage = StaticPage(loc: string, priority: string, changefreq: string)

  const StaticPages: seq<StaticPage> := [
    StaticPage("/", "1.0", "weekly"),
    StaticPage("/cartas", "0.9", "daily"),
    StaticPage("/sobre", "0.7", "monthly")
  ]

  /** The columns the function reads of a published post. */
  datatype PostRow = PostRow(slug: string, updatedAt: Option<string>, publishedAt: Option<string>)

  function Header(): string { "<?xml version=\"1.0\" encoding=\"UTF-8\"?>\n<urlset xmlns=\"http://www.sitemaps.org/schemas/sitemap/0.9\">" }

  function Footer(): string { "\n</urlset>" }

  // The fixed text around the four fields of an entry.
  function OpenUrl(): string { "\n  <url>\n    <loc>" }
  function AfterLoc(): string { "</loc>\n    <lastmod>" }
  function AfterLastmod(): string { "</lastmod>\n    <changefreq>" }
  function AfterChangefreq(): string { "</changefreq>\n    <priority>" }
  function CloseUrl(): string { "</priority>\n  </url>" }

  /** `s.split("T")[0]`: everything before the first 'T'. */
  function BeforeT(s: string): (r: string)
    ensures r <= s && 'T' !in r
    ensures 'T' !in s ==> r == s
    ensures |r| < |s| ==> s[|r|] == 'T'
  {
    if s == [] || s[0] == 'T' then [] else [s[0]] + BeforeT(s[1..])
  }

  /** `x || y` on optional text: a missing or empty value gives way. */
  function Or(x: Option<string>, otherwise: string): string
  {
    if x.Some? && x.value != "" then x.value else otherwise
  }

  /** A post's `lastmod`. */
  function LastMod(p: PostRow, today: string): string
  {
    BeforeT(Or(p.updatedAt, Or(p.publishedAt, today)))
  }

  function StaticUrl(page: StaticPage, today: string): Url
  {
    Url(SiteUrl() + page.loc, today, page.changefreq, page.priority)
  }

  function PostUrl(p: PostRow, today: string): Url
  {
    Url(SiteUrl() + "/artigo/" + p.slug, LastMod(p, today), "monthly", "0.8")
  }

  function PostUrls(posts: seq<PostRow>, today: string): (r: seq<Url>)
    ensures |r| == |posts|
    ensures forall i :: 0 <= i < |posts| ==> r[i] == PostUrl(posts[i], today)
  {
    seq(|posts|, i requires 0 <= i < |posts| => PostUrl(posts[i], today))
  }

  /** The entries in the order they are written; no posts when the query returned none. */
  function Urls(posts: Option<seq<PostRow>>, today: string): seq<Url>
  {
    [StaticUrl(StaticPages[0], today), StaticUrl(StaticPages[1], today), StaticUrl(StaticPages[2], today)]
    + PostUrls(posts.GetOr([]), today)
  }

  /** The text of one entry. */
  function Entry(u: Url): string
  {
    OpenUrl() + u.loc + AfterLoc() + u.lastmod + AfterLastmod() + u.changefreq + AfterChangefreq() + u.priority + CloseUrl()
  }

  function Entries(urls: seq<Url>): string
  {
    if urls == [] then "" else Entry(urls[0]) + Entries(urls[1..])
  }

  /** The document the function returns; `isoNow` is the current time in ISO form. */
  function Build(posts: Option<seq<PostRow>>, isoNow: string): string
  {
    Header() + Entries(Urls(posts, BeforeT(isoNow))) + Footer()
  }

  // ---------------------------------------------------------------- what the entries hold

  /** The fixed pages come first, dated today; then one entry per post, in order, pointing at
      the article, monthly, at priority 0.8, dated by its last update, else its publication,
      else today, cut before the time. */
  lemma UrlsLayout(posts: Option<seq<PostRow>>, isoNow: string)
    ensures var today, urls, ps := BeforeT(isoNow), Urls(posts, BeforeT(isoNow)), posts.GetOr([]);
            && |urls| == 3 + |ps|
            && urls[0].loc == SiteUrl() + "/" && urls[1].loc == SiteUrl() + "/cartas" && urls[2].loc == SiteUrl() + "/sobre"
            && (forall i :: 0 <= i < 3 ==> urls[i].lastmod == today)
            && (forall i :: 0 <= i < |ps| ==>
                  && urls[3 + i].loc == SiteUrl() + "/artigo/" + ps[i].slug
                  && urls[3 + i].changefreq == "monthly" && urls[3 + i].priority == "0.8")
  {
    hide *;
    var today, ps := BeforeT(isoNow), posts.GetOr([]);
    UrlsForm(posts, today);
    StaticUrls(today);
    forall i | 0 <= i < |ps| ensures PostUrl(ps[i], today).loc == SiteUrl() + "/artigo/" + ps[i].slug
      && PostUrl(ps[i], today).changefreq == "monthly" && PostUrl(ps[i], today).priority == "0.8"
    {
      PostUrlFields(ps[i], today);
    }
  }

  lemma PostUrlFields(p: PostRow, today: string)
    ensures PostUrl(p, today).loc == SiteUrl() + "/artigo/" + p.slug
    ensures PostUrl(p, today).changefreq == "monthly" && PostUrl(p, today).priority == "0.8"
    ensures PostUrl(p, today).lastmod == LastMod(p, today)
  {
    hide SiteUrl, LastMod;
  }

  lemma UrlsForm(posts: Option<seq<PostRow>>, today: string)
    ensures var urls, ps := Urls(posts, today), posts.GetOr([]);
            && |urls| == 3 + |ps|
            && urls[0] == StaticUrl(StaticPages[0], today)
            && urls[1] == StaticUrl(StaticPages[1], today)
            && urls[2] == StaticUrl(StaticPages[2], today)
            && (forall i :: 0 <= i < |ps| ==> urls[3 + i] == PostUrl(ps[i], today))
  {
    hide SiteUrl, StaticUrl, PostUrl, PostUrls, LastMod, BeforeT;
    var statics := [StaticUrl(StaticPages[0], today), StaticUrl(StaticPages[1], today), StaticUrl(StaticPages[2], today)];
    assert Urls(posts, today) == statics + PostUrls(posts.GetOr([]), today);
  }

  lemma StaticUrls(today: string)
    ensures StaticUrl(StaticPages[0], today).loc == SiteUrl() + "/"
    ensures StaticUrl(StaticPages[1], today).loc == SiteUrl() + "/cartas"
    ensures StaticUrl(StaticPages[2], today).loc == SiteUrl() + "/sobre"
    ensures StaticUrl(StaticPages[0], today).lastmod == today
    ensures StaticUrl(StaticPages[1], today).lastmod == today
    ensures StaticUrl(StaticPages[2], today).lastmod == today
  {
    hide SiteUrl;
  }

  /** The date of a post entry is the first of its update date, its publication date and
      today that is set, cut just before its first 'T': the longest prefix without one. */
  lemma LastModChoice(p: PostRow, today: string)
    ensures var d, updated, published := LastMod(p, today),
              p.updatedAt.Some? && p.updatedAt.value != "", p.publishedAt.Some? && p.publishedAt.value != "";
            var chosen := if updated then p.updatedAt.value else if published then p.publishedAt.value else today;
            && d <= chosen
            && 'T' !in d
            && (|d| < |chosen| ==> chosen[|d|] == 'T')
  {
  }

  /** The document starts with the XML declaration and the 0.9 namespace and ends by closing
      the set. */
  lemma BuildFrame(posts: Option<seq<PostRow>>, isoNow: string)
    ensures StartsWith(Build(posts, isoNow), Header())
    ensures EndsWith(Build(posts, isoNow), Footer())
  {
    hide SiteUrl, Header, Footer, OpenUrl, AfterLoc, AfterLastmod, AfterChangefreq, CloseUrl;
    var x := Build(posts, isoNow);
    assert x[..|Header()|] == Header();
    assert x[|x| - |Footer()|..] == Footer();
  }

  // ---------------------------------------------------------------- reading it back

  /** Text up to the next '<', and what follows. */
  function Field(s: string): (r: (string, string))
    ensures r.0 + r.1 == s && '<' !in r.0
  {
    if s == [] || s[0] == '<' then ([], s)
    else
      var f := Field(s[1..]);
      assert [s[0]] + f.0 + f.1 == [s[0]] + (f.0 + f.1);
      ([s[0]] + f.0, f.1)
  }

  /** What follows `prefix`, if `s` starts with it. */
  function After(s: string, prefix: string): (r: Option<string>)
    ensures r.Some? ==> |r.value| == |s| - |prefix|
  {
    if StartsWith(s, prefix) then Some(s[|prefix|..]) else None
  }

  /** One entry, and what follows it. */
  function ReadEntry(s: string): (r: Option<(Url, string)>)
    ensures r.Some? ==> |r.value.1| < |s|
  {
    match After(s, OpenUrl())
    case None => None
    case Some(s0) =>
      var loc := Field(s0);
      match After(loc.1, AfterLoc())
      case None => None
      case Some(s1) =>
        var lastmod := Field(s1);
        match After(lastmod.1, AfterLastmod())
        case None => None
        case Some(s2) =>
          var changefreq := Field(s2);
          match After(changefreq.1, AfterChangefreq())
          case None => None
          case Some(s3) =>
            var priority := Field(s3);
            match After(priority.1, CloseUrl())
            case None => None
            case Some(s4) => Some((Url(loc.0, lastmod.0, changefreq.0, priority.0), s4))
  }

  /** Entries up to the closing of the set. */
  function ReadEntries(s: string): Option<seq<Url>>
    decreases |s|
  {
    if s == Footer() then Some([])
    else match ReadEntry(s)
      case None => None
      case Some(e) =>
        match ReadEntries(e.1)
        case None => None
        case Some(rest) => Some([e.0] + rest)
  }

  /** A sitemap's entries, if it is one. */
  function Read(xml: string): Option<seq<Url>>
  {
    match After(xml, Header())
    case None => None
    case Some(body) => ReadEntries(body)
  }

  /** A field without '<' is read up to the '<' that follows it. */
  lemma {:induction false} FieldOf(f: string, rest: string)
    requires '<' !in f && rest != [] && rest[0] == '<'
    ensures Field(f + rest) == (f, rest)
  {
    if f != [] {
      assert (f + rest)[1..] == f[1..] + rest;
      FieldOf(f[1..], rest);
      assert [f[0]] + f[1..] == f;
    } else {
      assert f + rest == rest;
    }
  }

  lemma AfterOf(prefix: string, rest: string)
    ensures After(prefix + rest, prefix) == Some(rest)
  {
    assert (prefix + rest)[..|prefix|] == prefix;
    assert (prefix + rest)[|prefix|..] == rest;
  }

  predicate Plain(u: Url)
  {
    '<' !in u.loc && '<' !in u.lastmod && '<' !in u.changefreq && '<' !in u.priority
  }

  /** An entry whose fields hold no '<' reads back as itself. */
  lemma ReadEntryOf(u: Url, rest: string)
    requires Plain(u)
    ensures ReadEntry(Entry(u) + rest) == Some((u, rest))
  {
    var t4 := CloseUrl() + rest;
    var t3 := AfterChangefreq() + (u.priority + t4);
    var t2 := AfterLastmod() + (u.changefreq + t3);
    var t1 := AfterLoc() + (u.lastmod + t2);
    hide SiteUrl, Header, Footer, OpenUrl, AfterLoc, AfterLastmod, AfterChangefreq, CloseUrl, ReadEntry, Entry, Field, After;
    EntryAssoc(u, rest, t1, t2, t3, t4);
    MarkupStartsWithLt();
    AfterOf(OpenUrl(), u.loc + t1);
    FieldOf(u.loc, t1);
    AfterOf(AfterLoc(), u.lastmod + t2);
    FieldOf(u.lastmod, t2);
    AfterOf(AfterLastmod(), u.changefreq + t3);
    FieldOf(u.changefreq, t3);
    AfterOf(AfterChangefreq(), u.priority + t4);
    FieldOf(u.priority, t4);
    AfterOf(CloseUrl(), rest);
    ReadEntryUnfold(u, rest, t1, t2, t3, t4);
  }

  /** Every piece of markup after a field starts with '<'. */
  lemma MarkupStartsWithLt()
    ensures |AfterLoc()| > 0 && AfterLoc()[0] == '<'
    ensures |AfterLastmod()| > 0 && AfterLastmod()[0] == '<'
    ensures |AfterChangefreq()| > 0 && AfterChangefreq()[0] == '<'
    ensures |CloseUrl()| > 0 && CloseUrl()[0] == '<'
  {
  }

  lemma EntryAssoc(u: Url, rest: string, t1: string, t2: string, t3: string, t4: string)
    requires t4 == CloseUrl() + rest && t3 == AfterChangefreq() + (u.priority + t4)
    requires t2 == AfterLastmod() + (u.changefreq + t3) && t1 == AfterLoc() + (u.lastmod + t2)
    ensures Entry(u) + rest == OpenUrl() + (u.loc + t1)
  {
    hide OpenUrl, AfterLoc, AfterLastmod, AfterChangefreq, CloseUrl;
  }

  /** An entry starts with a line break and two spaces, the closing text with a line break
      and '<'. */
  lemma EntryNotFooter(u: Url, rest: string)
    ensures Entry(u) + rest != Footer()
  {
    hide SiteUrl, Header, AfterLoc, AfterLastmod, AfterChangefreq, CloseUrl;
    assert (Entry(u) + rest)[1] == OpenUrl()[1] == ' ';
    assert Footer()[1] == '<';
  }

  /** The reading steps of one entry, one field at a time. */
  lemma ReadEntryUnfold(u: Url, rest: string, t1: string, t2: string, t3: string, t4: string)
    requires After(OpenUrl() + (u.loc + t1), OpenUrl()) == Some(u.loc + t1)
    requires Field(u.loc + t1) == (u.loc, t1) && After(t1, AfterLoc()) == Some(u.lastmod + t2)
    requires Field(u.lastmod + t2) == (u.lastmod, t2) && After(t2, AfterLastmod()) == Some(u.changefreq + t3)
    requires Field(u.changefreq + t3) == (u.changefreq, t3) && After(t3, AfterChangefreq()) == Some(u.priority + t4)
    requires Field(u.priority + t4) == (u.priority, t4) && After(t4, CloseUrl()) == Some(rest)
    ensures ReadEntry(OpenUrl() + (u.loc + t1)) == Some((u, rest))
  {
  }

  /** The closing text does not start an entry. */
  lemma FooterIsNoEntry(s: string)
    requires s == Footer()
    ensures ReadEntries(s) == Some([])
  {
  }

  /** Entries whose fields hold no '<', followed by the closing text, read back as written. */
  lemma {:induction false} ReadEntriesOf(urls: seq<Url>)
    requires forall i :: 0 <= i < |urls| ==> Plain(urls[i])
    ensures ReadEntries(Entries(urls) + Footer()) == Some(urls)
  {
    hide *;
    if urls == [] {
      EntriesEmpty();
      FooterIsNoEntry(Footer());
    } else {
      var rest := Entries(urls[1..]) + Footer();
      ReadEntriesOf(urls[1..]);
      EntriesCons(urls);
      ReadEntryOf(urls[0], rest);
      EntryNotFooter(urls[0], rest);
      ReadEntriesStep(Entry(urls[0]) + rest, urls[0], rest, urls[1..]);
      assert [urls[0]] + urls[1..] == urls;
    }
  }

  lemma EntriesEmpty()
    ensures Entries([]) + Footer() == Footer()
  {
  }

  lemma EntriesCons(urls: seq<Url>)
    requires urls != []
    ensures Entries(urls) + Footer() == Entry(urls[0]) + (Entries(urls[1..]) + Footer())
  {
    hide SiteUrl, Header, Footer, OpenUrl, AfterLoc, AfterLastmod, AfterChangefreq, CloseUrl, Entry;
  }

  lemma ReadEntriesStep(s: string, u: Url, rest: string, us: seq<Url>)
    requires s != Footer() && ReadEntry(s) == Some((u, rest)) && ReadEntries(rest) == Some(us)
    ensures ReadEntries(s) == Some([u] + us)
  {
    hide SiteUrl, Header, Footer, OpenUrl, AfterLoc, AfterLastmod, AfterChangefreq, CloseUrl, ReadEntry;
  }

  /** Reading the document back gives every entry as written, as long as no slug or date
      holds a '<'; so it holds exactly three entries more than there are posts. */
  lemma ReadBuild(posts: Option<seq<PostRow>>, isoNow: string)
    requires '<' !in isoNow
    requires forall p | p in posts.GetOr([]) :: PlainRow(p)
    ensures Read(Build(posts, isoNow)) == Some(Urls(posts, BeforeT(isoNow)))
  {
    hide *;
    var urls := Urls(posts, BeforeT(isoNow));
    UrlsPlain(posts, BeforeT(isoNow));
    ReadEntriesOf(urls);
    BuildSplit(posts, isoNow);
    AfterOf(Header(), Entries(urls) + Footer());
    ReadAfterHeader(Build(posts, isoNow), Entries(urls) + Footer());
  }

  lemma UrlsPlain(posts: Option<seq<PostRow>>, today: string)
    requires '<' !in today
    requires forall p | p in posts.GetOr([]) :: PlainRow(p)
    ensures forall i :: 0 <= i < |Urls(posts, today)| ==> Plain(Urls(posts, today)[i])
  {
    hide SiteUrl, Header, Footer, OpenUrl, AfterLoc, AfterLastmod, AfterChangefreq, CloseUrl;
    var urls := Urls(posts, today);
    var ps := posts.GetOr([]);
    forall i | 0 <= i < |urls| ensures Plain(urls[i]) {
      if i >= 3 {
        PostPlain(ps[i - 3], today);
      } else {
        StaticPlain(StaticPages[i], today);
      }
    }
  }

  lemma BuildSplit(posts: Option<seq<PostRow>>, isoNow: string)
    ensures Build(posts, isoNow) == Header() + (Entries(Urls(posts, BeforeT(isoNow))) + Footer())
  {
    hide SiteUrl, Header, Footer, OpenUrl, AfterLoc, AfterLastmod, AfterChangefreq, CloseUrl, Entries, Urls;
  }

  lemma ReadAfterHeader(xml: string, body: string)
    requires After(xml, Header()) == Some(body)
    ensures Read(xml) == ReadEntries(body)
  {
    hide Header, ReadEntries;
  }

  /** A post whose slug and dates hold no '<'. */
  predicate PlainRow(p: PostRow)
  {
    && '<' !in p.slug
    && (p.updatedAt.Some? ==> '<' !in p.updatedAt.value)
    && (p.publishedAt.Some? ==> '<' !in p.publishedAt.value)
  }

  lemma PostPlain(p: PostRow, today: string)
    requires '<' !in today && PlainRow(p)
    ensures Plain(PostUrl(p, today))
  {
    hide SiteUrl;
    NoLtInPrefix(LastMod(p, today), Or(p.updatedAt, Or(p.publishedAt, today)));
    SiteUrlPlain();
  }

  lemma StaticPlain(page: StaticPage, today: string)
    requires page in StaticPages && '<' !in today
    ensures Plain(StaticUrl(page, today))
  {
    hide SiteUrl;
    SiteUrlPlain();
  }

  lemma SiteUrlPlain()
    ensures '<' !in SiteUrl()
  {
  }

  lemma NoLtInPrefix(p: string, s: string)
    requires p <= s && '<' !in s
    ensures '<' !in p
  {
    forall k | 0 <= k < |p| ensures p[k] != '<' {
      assert p[k] == s[k];
    }
  }
}
