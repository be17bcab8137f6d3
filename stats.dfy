/** The count tables of the about page (`src/pages/About.tsx`), the
    categories page (`src/pages/Categories.tsx`) and the tags page
    (`src/pages/Tags.tsx`). A row `{ name, count }` is the pair
    `(name, count)`. */
module Stats {
  import opened Wrappers
  import opened Seqs
  import opened Sorting
  import opened Text
  import opened Records
  import opened Tables
  import opened Posts
  import opened Facets
  import opened Calendar
  import opened Archive

  /** One more post in the tally of `key`. */
  lemma TallyStep(posts: seq<Post>, i: nat, key: Post -> string)
    requires i < |posts|
    ensures Tally(Map(posts[..i + 1], key)) == Bump(Tally(Map(posts[..i], key)), key(posts[i]))
  {
    MapSnoc(posts[..i + 1], key);
    assert posts[..i + 1][..i] == posts[..i];
    TallySnoc(Map(posts[..i], key), key(posts[i]));
  }

  /** One more tag in the tally of the tag stream. */
  lemma TagTallyStep(ks: seq<string>, tags: seq<string>, j: nat)
    requires j < |tags|
    ensures Tally(ks + tags[..j + 1]) == Bump(Tally(ks + tags[..j]), tags[j])
  {
    assert ks + tags[..j + 1] == (ks + tags[..j]) + [tags[j]];
    TallySnoc(ks + tags[..j], tags[j]);
  }

  /** `getCategoryStats` of the about page, and `getCategories` of the
      categories page, whose code is the same: a tally of the categories,
      enumerated, largest count first. */
  method CategoryStats(posts: seq<Post>) returns (stats: Record<int>)
    ensures stats == CountTable(Map(posts, CategoryKey))
  {
    var counts: Record<int> := [];
    for i := 0 to |posts|
      invariant counts == Tally(Map(posts[..i], CategoryKey))
    {
      var post := posts[i];
      var cat := if post.meta.category.Some? && post.meta.category.value != [] then post.meta.category.value else Unsorted;
      TallyStep(posts, i, CategoryKey);
      counts := Bump(counts, cat);
    }
    assert posts[..|posts|] == posts;
    stats := SortBy(Entries(counts), Count, IntGe);
  }

  /** The category counts: one row per category (the posts without one
      under 未分类), counting its posts; the counts add up to the number
      of posts; largest count first. */
  lemma CategoryStatsSpec(posts: seq<Post>, k: string)
    ensures Valid(CountTable(Map(posts, CategoryKey)))
    ensures Lookup(CountTable(Map(posts, CategoryKey)), k) ==
      if k in Map(posts, CategoryKey) then Some(|WithKey(posts, CategoryKey, k)|) else None
    ensures Sum(Values(CountTable(Map(posts, CategoryKey)))) == |posts|
    ensures SortedBy(CountTable(Map(posts, CategoryKey)), Count, IntGe)
  {
    var ks := Map(posts, CategoryKey);
    CountTableSpec(ks);
    TallySpec(ks);
    var t := CountTable(ks);
    EntriesSpec(Tally(ks));
    LookupPerm(Tally(ks), t, k);
    WithKeyCount(posts, CategoryKey, k);
  }

  /** The number of elements with key `v` is the number of occurrences of
      `v` among the keys. */
  lemma {:induction false} WithKeyCount(s: seq<Post>, key: Post -> string, v: string)
    ensures |WithKey(s, key, v)| == multiset(Map(s, key))[v]
  {
    if s != [] {
      WithKeyCount(s[1..], key, v);
      assert Map(s, key) == [key(s[0])] + Map(s[1..], key);
    }
  }

  lemma TagStreamStep(posts: seq<Post>, i: nat)
    requires i < |posts|
    ensures TagStream(posts[..i + 1]) == TagStream(posts[..i]) + PostTags(posts[i])
  {
    assert posts[..i + 1][..i] == posts[..i];
  }

  /** `getTagStats` of the about page, and `getTags` of the tags page,
      whose code is the same: a tally of every tag occurrence, enumerated,
      largest count first. */
  method TagStats(posts: seq<Post>) returns (stats: Record<int>)
    ensures stats == CountTable(TagStream(posts))
  {
    var counts: Record<int> := [];
    for i := 0 to |posts|
      invariant counts == Tally(TagStream(posts[..i]))
    {
      var tags := posts[i].meta.tags.GetOr([]);
      ghost var before := TagStream(posts[..i]);
      assert before + tags[..0] == before;
      for j := 0 to |tags|
        invariant counts == Tally(before + tags[..j])
      {
        var tag := tags[j];
        TagTallyStep(before, tags, j);
        counts := Bump(counts, tag);
      }
      assert tags[..|tags|] == tags;
      TagStreamStep(posts, i);
    }
    assert posts[..|posts|] == posts;
    stats := SortBy(Entries(counts), Count, IntGe);
  }

  /** The tag counts: one row per tag some post lists, its count the
      number of its occurrences; the counts add up to the number of tag
      occurrences; largest count first. */
  lemma TagStatsSpec(posts: seq<Post>, tag: string)
    ensures Valid(CountTable(TagStream(posts)))
    ensures Lookup(CountTable(TagStream(posts)), tag).Some? <==> exists p :: p in posts && tag in PostTags(p)
    ensures Lookup(CountTable(TagStream(posts)), tag).GetOr(0) == multiset(TagStream(posts))[tag]
    ensures Sum(Values(CountTable(TagStream(posts)))) == Sum(Map(posts, (p: Post) => |PostTags(p)|))
    ensures SortedBy(CountTable(TagStream(posts)), Count, IntGe)
  {
    var ks := TagStream(posts);
    CountTableSpec(ks);
    TallySpec(ks);
    EntriesSpec(Tally(ks));
    LookupPerm(Tally(ks), CountTable(ks), tag);
    TagStreamMember(posts, tag);
    TagStreamSize(posts);
  }

  /** `getTimeStats`' rows: the years in reverse order, each with the
      number of posts of that year. */
  function YearCount(counts: Record<int>): string -> (string, int)
  {
    y => (y, Lookup(counts, y).GetOr(0))
  }

  function TimeRows(posts: seq<Post>): Record<int>
  {
    Map(SortedKeys(Tally(Map(posts, PostYear))), YearCount(Tally(Map(posts, PostYear))))
  }

  /** `getTimeStats`. */
  method TimeStats(posts: seq<Post>) returns (stats: Record<int>)
    ensures stats == TimeRows(posts)
  {
    var counts: Record<int> := [];
    for i := 0 to |posts|
      invariant counts == Tally(Map(posts[..i], PostYear))
    {
      var post := posts[i];
      var year := YearKey(post.meta.date);
      TallyStep(posts, i, PostYear);
      counts := Bump(counts, year);
    }
    assert posts[..|posts|] == posts;
    var years := SortedKeys(counts);
    stats := Map(years, YearCount(counts));
  }

  /** The year counts: the years of the posts, strictly decreasing, each
      with its number of posts; the counts add up to the number of
      posts. */
  lemma TimeStatsSpec(posts: seq<Post>, y: string)
    ensures Descending(Keys(TimeRows(posts)))
    ensures Lookup(TimeRows(posts), y) ==
      if y in Map(posts, PostYear) then Some(|WithKey(posts, PostYear, y)|) else None
    ensures Sum(Values(TimeRows(posts))) == |posts|
  {
    var ks := Map(posts, PostYear);
    var t := Tally(ks);
    var r := TimeRows(posts);
    TallySpec(ks);
    SortedKeysSpec(t);
    MappedLookup(SortedKeys(t), YearCount(t), y);
    WithKeyCount(posts, PostYear, y);
    TimeRowsPerm(posts);
    PermSum(t, r);
  }

  /** The rows are the pairs of the tally, reordered. */
  lemma TimeRowsPerm(posts: seq<Post>)
    ensures multiset(TimeRows(posts)) == multiset(Tally(Map(posts, PostYear)))
  {
    var t := Tally(Map(posts, PostYear));
    TallyKeys(Map(posts, PostYear));
    EntriesSpec(t);
    PermValid(t, Entries(t));
    forall x | x in Entries(t)
      ensures YearCount(t)(x.0) == x
    {
      assert x in multiset(t);
      EntryLookup(t, x);
    }
    KeysMapBack(Entries(t), YearCount(t));
    MapPerm(ObjectKeys(t), SortedKeys(t), YearCount(t));
  }

  lemma {:induction false} TagPairsKeys(posts: seq<Post>)
    ensures Keys(TagPairs(posts)) == TagStream(posts)
  {
    if posts != [] {
      var init, last := posts[..|posts| - 1], posts[|posts| - 1];
      TagPairsKeys(init);
      KeysAppend(TagPairs(init), Map(PostTags(last), TagEntry(last)));
      TagEntriesKeys(PostTags(last), last);
    }
  }

  /** The tags page and the archive agree: the count shown for a tag is
      the size of its archive bucket (both count a post once per listing
      of the tag), and a tag has a row exactly when it has a bucket. */
  lemma TagCountIsBucketSize(posts: seq<Post>, tag: string)
    ensures Lookup(CountTable(TagStream(posts)), tag).Some? <==> Lookup(BucketTable(TagPairs(posts)), tag).Some?
    ensures Lookup(CountTable(TagStream(posts)), tag).GetOr(0) == |Lookup(BucketTable(TagPairs(posts)), tag).GetOr([])|
  {
    var e := TagPairs(posts);
    TagPairsKeys(posts);
    SelectCount(e, tag);
    TallyLookup(TagStream(posts), tag);
    EntriesSpec(Tally(TagStream(posts)));
    TallyKeys(TagStream(posts));
    LookupPerm(Tally(TagStream(posts)), CountTable(TagStream(posts)), tag);
    GroupKeys(e);
    GroupLookup(e, tag);
    EntriesSpec(Group(e));
    LookupPerm(Group(e), BucketTable(e), tag);
  }
}
