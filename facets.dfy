/** The category and tags under which the pages file and count a post. */
module Facets {
  import opened Wrappers
  import opened Seqs
  import opened Posts

  /** The bucket of the posts that have no category, and of the posts
      that have no date. */
  const Unsorted: string := "未分类"

  /** `post.meta.category || "未分类"`: a missing or empty category files
      the post as uncategorised. */
  function CategoryKey(p: Post): (k: string)
    ensures k != []
  {
    if p.meta.category.Some? && p.meta.category.value != [] then p.meta.category.value else Unsorted
  }

  /** `post.meta.tags ?? []`. */
  function PostTags(p: Post): seq<string> { p.meta.tags.GetOr([]) }

  /** Every tag occurrence of the posts, in order. */
  function TagStream(posts: seq<Post>): seq<string>
  {
    if posts == [] then [] else TagStream(posts[..|posts| - 1]) + PostTags(posts[|posts| - 1])
  }

  /** A tag occurs in the stream exactly when some post lists it. */
  lemma {:induction false} TagStreamMember(posts: seq<Post>, tag: string)
    ensures tag in TagStream(posts) <==> exists p :: p in posts && tag in PostTags(p)
  {
    if posts != [] {
      var init, last := posts[..|posts| - 1], posts[|posts| - 1];
      TagStreamMember(init, tag);
      if exists p :: p in posts && tag in PostTags(p) {
        var p :| p in posts && tag in PostTags(p);
        SnocMember(posts, p);
      }
      if exists p :: p in init && tag in PostTags(p) {
        var p :| p in init && tag in PostTags(p);
        SnocMember(posts, p);
      }
    }
  }

  /** One entry per tag occurrence: a tag listed twice by a post counts
      twice, and a post without tags counts nothing. */
  lemma {:induction false} TagStreamSize(posts: seq<Post>)
    ensures |TagStream(posts)| == Sum(Map(posts, (p: Post) => |PostTags(p)|))
  {
    if posts != [] {
      var init, last := posts[..|posts| - 1], posts[|posts| - 1];
      TagStreamSize(init);
      MapSnoc(posts, (p: Post) => |PostTags(p)|);
      SumAppend(Map(init, (p: Post) => |PostTags(p)|), [|PostTags(last)|]);
    }
  }
}
