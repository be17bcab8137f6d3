/** The visit ranking (`src/components/HeatRanking.tsx`): the list of tags
    offered as a filter, and the posts ranked by their visit counts. */
module Heat {
  import opened Wrappers
  import opened Seqs
  import opened Sorting
  import opened Text
  import opened Records
  import opened Posts
  import opened Facets
  import opened TagPage

  /** `sorted.slice(0, 15)`: the number of rows shown. */
  const ShownRows: nat := 15

  // ---------------------------------------------------------------- tags

  /** `set.add(x)` on a set held as its insertion-ordered elements. */
  function AddTo(seen: seq<string>, x: string): seq<string>
  {
    if x in seen then seen else seen + [x]
  }

  /** The set after adding every non-empty tag of `ts`, in order. */
  function TagSet(ts: seq<string>): seq<string>
  {
    if ts == [] then []
    else if ts[|ts| - 1] != [] then AddTo(TagSet(ts[..|ts| - 1]), ts[|ts| - 1])
    else TagSet(ts[..|ts| - 1])
  }

  /** The set holds each non-empty tag once. */
  lemma {:induction false} TagSetSpec(ts: seq<string>, t: string)
    ensures Distinct(TagSet(ts))
    ensures t in TagSet(ts) <==> t in ts && t != []
  {
    if ts != [] {
      var init, last := ts[..|ts| - 1], ts[|ts| - 1];
      TagSetSpec(init, t);
      SnocMember(ts, t);
      if last != [] && last !in TagSet(init) {
        DistinctAppend(TagSet(init), [last]);
      }
    }
  }

  lemma TagSetStep(before: seq<string>, tags: seq<string>, j: nat)
    requires j < |tags|
    ensures TagSet(before + tags[..j + 1]) ==
      if tags[j] != [] then AddTo(TagSet(before + tags[..j]), tags[j]) else TagSet(before + tags[..j])
  {
    assert before + tags[..j + 1] == (before + tags[..j]) + [tags[j]];
  }

  /** `getTags`: the distinct non-empty tags, sorted. */
  method TagList(posts: seq<Post>) returns (tags: seq<string>)
    ensures tags == SortBy(TagSet(TagStream(posts)), Ident, LexLe)
  {
    var seen: seq<string> := [];
    for i := 0 to |posts|
      invariant seen == TagSet(TagStream(posts[..i]))
    {
      var post := posts[i];
      var ts := post.meta.tags.GetOr([]);
      ghost var before := TagStream(posts[..i]);
      assert before + ts[..0] == before;
      for j := 0 to |ts|
        invariant seen == TagSet(before + ts[..j])
      {
        var tag := ts[j];
        TagSetStep(before, ts, j);
        if tag != [] {
          seen := if tag in seen then seen else seen + [tag];
        }
      }
      assert ts[..|ts|] == ts;
      assert posts[..i + 1][..i] == posts[..i];
    }
    assert posts[..|posts|] == posts;
    tags := SortBy(seen, Ident, LexLe);
  }

  /** The tag list is strictly increasing and holds exactly the non-empty
      tags that some post lists. */
  lemma TagListSpec(posts: seq<Post>, t: string)
    ensures var tags := SortBy(TagSet(TagStream(posts)), Ident, LexLe);
      && (forall i, j :: 0 <= i < j < |tags| ==> LexLe(tags[i], tags[j]) && tags[i] != tags[j])
      && (t in tags <==> t != [] && exists p :: p in posts && t in PostTags(p))
  {
    var seen := TagSet(TagStream(posts));
    var tags := SortBy(seen, Ident, LexLe);
    TagSetSpec(TagStream(posts), t);
    TagStreamMember(posts, t);
    LexOrders();
    SortBySorted(seen, Ident, LexLe);
    DistinctPerm(seen, tags);
    assert t in tags <==> t in multiset(seen);
  }

  // ------------------------------------------------------------- ranking

  /** A row `{ post, count }`. */
  datatype Ranked = Ranked(post: Post, count: int)

  function RankCount(e: Ranked): int { e.count }

  function RankPost(e: Ranked): Post { e.post }

  /** `visits[slug] ?? 0`. */
  function VisitCount(visits: Record<int>, slug: string): int
  {
    Lookup(visits, slug).GetOr(0)
  }

  function WithVisits(visits: Record<int>): Post -> Ranked
  {
    (p: Post) => Ranked(p, VisitCount(visits, p.slug))
  }

  /** The rows before sorting: every post with its visit count, kept only
      when it lists `tagFilter`, if one is chosen. */
  function Rows(posts: seq<Post>, visits: Record<int>, tagFilter: string): seq<Ranked>
  {
    var list := Map(posts, WithVisits(visits));
    if tagFilter != [] then Filter(list, (e: Ranked) => tagFilter in PostTags(e.post)) else list
  }

  /** `sorted`: the rows, most visited first. */
  function Ranking(posts: seq<Post>, visits: Record<int>, tagFilter: string): seq<Ranked>
  {
    SortBy(Rows(posts, visits, tagFilter), RankCount, IntGe)
  }

  /** Every row carries its post's visit count (0 for a post never
      visited); without a filter the rows are all the posts, with one
      they are the posts of the tag page of that tag, in order. */
  lemma RowsSpec(posts: seq<Post>, visits: Record<int>, tagFilter: string)
    ensures forall i :: 0 <= i < |Rows(posts, visits, tagFilter)| ==>
      Rows(posts, visits, tagFilter)[i].count == VisitCount(visits, Rows(posts, visits, tagFilter)[i].post.slug)
    ensures Map(Rows(posts, visits, tagFilter), RankPost) ==
      if tagFilter == [] then posts else TagPosts(posts, tagFilter)
  {
    var list := Map(posts, WithVisits(visits));
    RowPosts(posts, visits);
    if tagFilter != [] {
      RowsFilter(posts, visits, tagFilter);
    }
  }

  lemma {:induction false} RowPosts(posts: seq<Post>, visits: Record<int>)
    ensures Map(Map(posts, WithVisits(visits)), RankPost) == posts
  {
    if posts != [] {
      RowPosts(posts[1..], visits);
      assert Map(posts, WithVisits(visits))[1..] == Map(posts[1..], WithVisits(visits));
    }
  }

  lemma {:induction false} RowsFilter(posts: seq<Post>, visits: Record<int>, tag: string)
    ensures Map(Filter(Map(posts, WithVisits(visits)), (e: Ranked) => tag in PostTags(e.post)), RankPost)
      == TagPosts(posts, tag)
    ensures forall e :: e in Filter(Map(posts, WithVisits(visits)), (e: Ranked) => tag in PostTags(e.post)) ==>
      e.count == VisitCount(visits, e.post.slug)
  {
    if posts != [] {
      RowsFilter(posts[1..], visits, tag);
      var list := Map(posts, WithVisits(visits));
      assert list[1..] == Map(posts[1..], WithVisits(visits));
      var head := if tag in PostTags(posts[0]) then [list[0]] else [];
      MapAppend(head, Filter(list[1..], (e: Ranked) => tag in PostTags(e.post)), RankPost);
    }
  }

  /** The ranking reorders the rows without losing or adding any, by
      non-increasing count, and rows with equal counts keep their order. */
  lemma RankingSpec(posts: seq<Post>, visits: Record<int>, tagFilter: string, c: int)
    ensures multiset(Ranking(posts, visits, tagFilter)) == multiset(Rows(posts, visits, tagFilter))
    ensures SortedBy(Ranking(posts, visits, tagFilter), RankCount, IntGe)
    ensures WithKey(Ranking(posts, visits, tagFilter), RankCount, c) == WithKey(Rows(posts, visits, tagFilter), RankCount, c)
  {
    IntOrders();
    SortBySorted(Rows(posts, visits, tagFilter), RankCount, IntGe);
    SortByStable(Rows(posts, visits, tagFilter), RankCount, IntGe, c);
  }

  /** The rows shown: the first fifteen, each with its rank `i + 1`. */
  function Shown(ranking: seq<Ranked>): seq<(int, Ranked)>
  {
    var top := Take(ranking, ShownRows);
    seq(|top|, i requires 0 <= i < |top| => (i + 1, top[i]))
  }

  /** At most fifteen rows are shown, the leading rows of the ranking,
      numbered from 1. */
  lemma ShownSpec(ranking: seq<Ranked>)
    ensures |Shown(ranking)| == if |ranking| < ShownRows then |ranking| else ShownRows
    ensures forall i :: 0 <= i < |Shown(ranking)| ==> Shown(ranking)[i] == (i + 1, ranking[i])
  {
  }
}
