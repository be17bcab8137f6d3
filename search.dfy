/** The search dialog (`src/components/SearchModal.tsx`): queries and post
    fields are normalised, and a post matches when one of its fields
    contains the normalised query. */
module Search {
  import opened Wrappers
  import opened Seqs
  import opened Text
  import opened Posts

  /** How many posts the dialog lists before anything is typed. */
  const DefaultResults: nat := 20

  /** `normalize`: lower-cased, each whitespace run replaced by one space. */
  function Normalize(s: string): (r: string)
    ensures |r| <= |s|
    ensures r == [] <==> s == []
    ensures forall i :: 0 <= i < |r| ==> NotUpper(r[i])
    ensures SingleSpaced(r, ' ')
  {
    var lowered := LowerStr(s);
    ReplaceSpaceRunsKeeps(lowered, " ", NotUpper);
    ReplaceSpaceRunsSingle(lowered, ' ');
    ReplaceSpaceRuns(lowered, " ")
  }

  /** Normalising twice is normalising once. */
  lemma NormalizeIdempotent(s: string)
    ensures Normalize(Normalize(s)) == Normalize(s)
  {
    var r := Normalize(s);
    LowerStrFixed(r);
    ReplaceSpaceRunsFixed(r, ' ');
  }

  /** Normalisation does not see letter case. */
  lemma NormalizeIgnoresCase(s: string)
    ensures Normalize(LowerStr(s)) == Normalize(s)
  {
    LowerStrIdempotent(s);
  }

  /** The tags of a post joined by spaces. */
  function TagText(m: Meta): string
  {
    JoinWith(m.tags.GetOr([]), " ")
  }

  /** `matchPost`: an empty query matches everything; otherwise the
      normalised query must occur in the normalised title, description,
      content or category, or in the date or the space-joined tags as they
      are. */
  predicate MatchPost(q: string, post: Post)
  {
    var nq := Normalize(q);
    var m := post.meta;
    nq == [] ||
    Contains(Normalize(m.title), nq) ||
    Contains(Normalize(m.description.GetOr("")), nq) ||
    Contains(Normalize(post.content), nq) ||
    Contains(m.date, nq) ||
    Contains(TagText(m), nq) ||
    Contains(Normalize(m.category.GetOr("")), nq)
  }

  /** A query matches exactly as its normalised form does, so in
      particular letter case in the query is irrelevant. */
  lemma MatchPostNormalized(q: string, post: Post)
    ensures MatchPost(Normalize(q), post) == MatchPost(q, post)
    ensures MatchPost(LowerStr(q), post) == MatchPost(q, post)
  {
    NormalizeIdempotent(q);
    NormalizeIgnoresCase(q);
  }

  /** The empty query matches every post, and a post whose title, content
      or category contains the query, in any letter case, matches. */
  lemma MatchPostFields(q: string, post: Post)
    ensures q == [] ==> MatchPost(q, post)
    ensures Contains(Normalize(post.meta.title), Normalize(q)) ==> MatchPost(q, post)
    ensures Contains(Normalize(post.content), Normalize(q)) ==> MatchPost(q, post)
  {
  }

  /** `results`: a blank query lists the first 20 posts; otherwise the
      posts that match, in their original order. */
  function Results(query: string, posts: seq<Post>): (r: seq<Post>)
    ensures IsSubseq(r, posts)
    ensures IsBlank(query) ==> r == Take(posts, DefaultResults)
    ensures !IsBlank(query) ==>
      (forall i :: 0 <= i < |r| ==> MatchPost(query, r[i])) &&
      (forall i :: 0 <= i < |posts| && MatchPost(query, posts[i]) ==> posts[i] in r)
  {
    if IsBlank(query) then
      var r := Take(posts, DefaultResults);
      PrefixIsSubseq(posts, |r|);
      r
    else
      FilterIsSubseq(posts, p => MatchPost(query, p));
      FilterElements(posts, p => MatchPost(query, p));
      FilterKeeps(posts, p => MatchPost(query, p));
      Filter(posts, p => MatchPost(query, p))
  }
}
