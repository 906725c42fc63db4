/** The search dialog of the public site: the posts whose title, description or category
    contain the query, ignoring case. */
module PostSearch {
  import opened Text
  import opened Seqs
  import opened Wrappers
  import opened Posts

  /** Whether a post matches the already lower-cased query; an empty description is skipped. */
  predicate Matches(p: Post, lowerQuery: string)
  {
    || Contains(Lower(p.title), lowerQuery)
    || (p.description.Some? && p.description.value != "" && Contains(Lower(p.description.value), lowerQuery))
    || Contains(Lower(p.category), lowerQuery)
  }

  /** `filteredPosts`: nothing while the posts load or the query is empty. */
  function Results(posts: Option<seq<Post>>, query: string): (r: seq<Post>)
    ensures posts.Some? ==> IsSubseq(r, posts.value)
  {
    if posts == None || query == "" then []
    else
      FilterIsSubseq(p => Matches(p, Lower(query)), posts.value);
      Filter(p => Matches(p, Lower(query)), posts.value)
  }

  /** An empty query finds nothing, and otherwise a post is found exactly when the query,
      ignoring case, occurs in its title, its description or its category. */
  lemma ResultsSpec(posts: Option<seq<Post>>, query: string)
    ensures query == "" ==> Results(posts, query) == []
    ensures forall p :: p in Results(posts, query) <==>
              && query != "" && posts.Some? && p in posts.value
              && (|| Contains(Lower(p.title), Lower(query))
                  || (p.description.Some? && p.description.value != ""
                      && Contains(Lower(p.description.value), Lower(query)))
                  || Contains(Lower(p.category), Lower(query)))
  {
  }

  /** Typing more narrows the results: a query that extends a non-empty one finds a
      subsequence of what that one finds. */
  lemma ResultsNarrow(posts: Option<seq<Post>>, shorter: string, longer: string)
    requires shorter != "" && Contains(longer, shorter)
    ensures IsSubseq(Results(posts, longer), Results(posts, shorter))
  {
    if posts.Some? {
      var ps := posts.value;
      assert longer != "" by {
        var i: nat :| i <= |longer| && OccursAt(longer, shorter, i);
      }
      var lq, sq := Lower(longer), Lower(shorter);
      LowerPreservesContains(longer, shorter);
      forall p | p in ps && Matches(p, lq) ensures Matches(p, sq) {
        if Contains(Lower(p.title), lq) {
          ContainsTransitive(sq, lq, Lower(p.title));
        } else if p.description.Some? && p.description.value != "" && Contains(Lower(p.description.value), lq) {
          ContainsTransitive(sq, lq, Lower(p.description.value));
        } else {
          ContainsTransitive(sq, lq, Lower(p.category));
        }
      }
      FilterMonotone(p => Matches(p, lq), p => Matches(p, sq), ps);
    }
  }

  /** The dialog: whether it is open, and the query typed. */
  datatype Dialog = Dialog(isOpen: bool, query: string)

  /** The effect on `isOpen`: closing the dialog empties the query. */
  function SetOpen(d: Dialog, isOpen: bool): (r: Dialog)
    ensures r.isOpen == isOpen
    ensures !isOpen ==> r.query == ""
    ensures isOpen ==> r.query == d.query
  {
    if isOpen then d.(isOpen := true) else Dialog(false, "")
  }

  /** A dialog that was closed shows no results until something is typed again. */
  lemma ClosedShowsNothing(d: Dialog, posts: Option<seq<Post>>)
    ensures Results(posts, SetOpen(d, false).query) == []
  {
  }
}
