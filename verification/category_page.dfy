/** The letters page: every published post, or those of the category named in the page's
    `categoria` query parameter. */
module CategoryPage {
  import opened Seqs
  import opened Wrappers
  import opened Posts

  /** The page's query parameters, in order. */
  type Params = seq<(string, string)>

  const CategoryParam: string := "categoria"

  /** `searchParams.get(key)`: the first value given for `key`. */
  function Get(params: Params, key: string): (r: Option<string>)
    ensures r.Some? ==> exists k :: 0 <= k < |params| && params[k] == (key, r.value)
                                    && forall j :: 0 <= j < k ==> params[j].0 != key
    ensures r == None ==> forall i :: 0 <= i < |params| ==> params[i].0 != key
  {
    if params == [] then None
    else if params[0].0 == key then Some(params[0].1)
    else Get(params[1..], key)
  }

  /** `filteredPosts`: an empty category counts as none. */
  function Shown(posts: Option<seq<Post>>, active: Option<string>): seq<Post>
  {
    match posts
    case None => []
    case Some(ps) =>
      if active.Some? && active.value != "" then Filter((p: Post) => p.category == active.value, ps)
      else ps
  }

  /** `handleCategoryClick`: the new query parameters. */
  function CategoryClick(category: Option<string>): Params
  {
    if category.Some? && category.value != "" then [(CategoryParam, category.value)] else []
  }

  /** Before the posts load nothing is shown; without a category every post is shown as it
      comes. */
  lemma ShownWithout(posts: Option<seq<Post>>, active: Option<string>)
    ensures posts == None ==> Shown(posts, active) == []
    ensures posts.Some? && (active == None || active == Some("")) ==> Shown(posts, active) == posts.value
  {
  }

  /** With a category, the page shows exactly that category's posts, in their order. */
  lemma ShownCategory(ps: seq<Post>, c: string)
    requires c != ""
    ensures IsSubseq(Shown(Some(ps), Some(c)), ps)
    ensures forall p :: p in Shown(Some(ps), Some(c)) <==> p in ps && p.category == c
  {
    FilterIsSubseq((p: Post) => p.category == c, ps);
  }

  /** Clicking a category and reading the parameter back gives that category; clicking
      "all" removes the parameter. */
  lemma ClickRoundTrip(category: Option<string>)
    ensures Get(CategoryClick(category), CategoryParam) ==
              if category.Some? && category.value != "" then category else None
  {
  }

  /** After a click the page shows the clicked category's posts, or all of them for "all". */
  lemma ClickThenShown(ps: seq<Post>, category: Option<string>)
    ensures var shown := Shown(Some(ps), Get(CategoryClick(category), CategoryParam));
            && (category.Some? && category.value != "" ==>
                  forall p :: p in shown <==> p in ps && p.category == category.value)
            && (category == None ==> shown == ps)
  {
    ClickRoundTrip(category);
    if category.Some? && category.value != "" {
      ShownCategory(ps, category.value);
    }
  }
}
