/** The tag page (`src/pages/TagPosts.tsx`): the posts that list a tag. */
module TagPage {
  import opened Wrappers
  import opened Seqs
  import opened Records
  import opened Tables
  import opened Posts
  import opened Facets
  import opened Archive

  /** `posts.filter(p => (p.meta.tags ?? []).includes(decoded))`; the
      decoded route parameter is given. */
  function TagPosts(posts: seq<Post>, decoded: string): seq<Post>
  {
    Filter(posts, (p: Post) => decoded in PostTags(p))
  }

  /** The tag page keeps the order of the posts, returns only posts that
      list the tag and every post that lists it; a post without tags is
      never returned. */
  lemma TagPostsSpec(posts: seq<Post>, decoded: string, p: Post)
    ensures IsSubseq(TagPosts(posts, decoded), posts)
    ensures p in TagPosts(posts, decoded) <==> p in posts && decoded in PostTags(p)
    ensures p.meta.tags.None? ==> p !in TagPosts(posts, decoded)
  {
    FilterIsSubseq(posts, (p: Post) => decoded in PostTags(p));
    FilterMember(posts, (p: Post) => decoded in PostTags(p), p);
  }

  /** When no post lists a tag twice, the tag page shows exactly the
      bucket of that tag on the archive page, in the same order. */
  lemma TagPageIsBucket(posts: seq<Post>, tag: string)
    requires forall p :: p in posts ==> Distinct(PostTags(p))
    ensures TagPosts(posts, tag) == Lookup(BucketTable(TagPairs(posts)), tag).GetOr([])
  {
    var e := TagPairs(posts);
    TagPairsSelect(posts, tag);
    GroupKeys(e);
    GroupLookup(e, tag);
    EntriesSpec(Group(e));
    LookupPerm(Group(e), BucketTable(e), tag);
    if tag !in Keys(e) {
      SelectAbsent(e, tag);
    }
  }
}
