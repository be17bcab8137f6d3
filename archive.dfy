/** The archive page (`src/pages/Archive.tsx`): the posts grouped by
    category, by tag, and by year and month, and the collapse state of
    the groups. */
module Archive {
  import opened Wrappers
  import opened Seqs
  import opened Sorting
  import opened Text
  import opened Records
  import opened Tables
  import opened Posts
  import opened Calendar
  import opened Facets
  import opened Toggles

  /** The size of the bucket of `k`, as the comparator
      `map[b].length - map[a].length` reads it. */
  function BucketSize<T>(index: Record<seq<T>>): string -> int
  {
    k => |Lookup(index, k).GetOr([])|
  }

  /** The pair `result[k] = map[k]` stores. */
  function BucketOf<T>(index: Record<seq<T>>): string -> (string, seq<T>)
  {
    k => (k, Lookup(index, k).GetOr([]))
  }

  /** Sorting the keys by bucket size and copying the buckets in that order
      is sorting the enumerated buckets by size. */
  lemma SortedCopy<T>(index: Record<seq<T>>)
    requires Valid(index)
    ensures Distinct(SortBy(ObjectKeys(index), BucketSize(index), IntGe))
    ensures Map(SortBy(ObjectKeys(index), BucketSize(index), IntGe), BucketOf(index))
         == SortBy(Entries(index), Size, IntGe)
  {
    EntriesSpec(index);
    PermValid(index, Entries(index));
    DistinctPerm(ObjectKeys(index), SortBy(ObjectKeys(index), BucketSize(index), IntGe));
    SortByMap(ObjectKeys(index), BucketOf(index), BucketSize(index), Size, IntGe);
    forall x | x in Entries(index)
      ensures BucketOf(index)(x.0) == x
    {
      assert x in multiset(index);
      EntryLookup(index, x);
    }
    KeysMapBack(Entries(index), BucketOf(index));
  }

  /** The tail shared by `groupByCategory` and `groupByTag`: the keys
      sorted by bucket size, largest first, then `result[k] = map[k]` for
      each key in that order. */
  method SortBuckets<T>(index: Record<seq<T>>) returns (result: Record<seq<T>>)
    requires Valid(index)
    ensures result == SortBy(Entries(index), Size, IntGe)
  {
    var keys := SortBy(ObjectKeys(index), BucketSize(index), IntGe);
    SortedCopy(index);
    result := [];
    for j := 0 to |keys|
      invariant result == Map(keys[..j], BucketOf(index))
    {
      CopyStep(keys, j, BucketOf(index));
      result := Put(result, keys[j], Lookup(index, keys[j]).GetOr([]));
    }
    assert keys[..|keys|] == keys;
  }

  // ---------------------------------------------------------------- categories

  function CategoryEntry(p: Post): (string, Post) { (CategoryKey(p), p) }

  /** The pushes `groupByCategory` makes, in order. */
  function CategoryPairs(posts: seq<Post>): seq<(string, Post)>
  {
    Map(posts, CategoryEntry)
  }

  lemma CategoryStep(posts: seq<Post>, i: nat)
    requires i < |posts|
    ensures Group(CategoryPairs(posts[..i + 1]))
         == Push(Group(CategoryPairs(posts[..i])), CategoryKey(posts[i]), posts[i])
  {
    MapSnoc(posts[..i + 1], CategoryEntry);
    assert posts[..i + 1][..i] == posts[..i];
    GroupSnoc(CategoryPairs(posts[..i]), CategoryKey(posts[i]), posts[i]);
  }

  /** `groupByCategory`. */
  method GroupByCategory(posts: seq<Post>) returns (result: Record<seq<Post>>)
    ensures result == BucketTable(CategoryPairs(posts))
  {
    var index: Record<seq<Post>> := [];
    for i := 0 to |posts|
      invariant index == Group(CategoryPairs(posts[..i]))
    {
      var post := posts[i];
      var cat := if post.meta.category.Some? && post.meta.category.value != [] then post.meta.category.value else Unsorted;
      CategoryStep(posts, i);
      index := Push(index, cat, post);
    }
    assert posts[..|posts|] == posts;
    GroupKeys(CategoryPairs(posts));
    result := SortBuckets(index);
  }

  lemma {:induction false} CategoryPairsKeys(posts: seq<Post>, k: string)
    ensures Keys(CategoryPairs(posts)) == Map(posts, CategoryKey)
    ensures Select(CategoryPairs(posts), k) == WithKey(posts, CategoryKey, k)
  {
    if posts != [] {
      CategoryPairsKeys(posts[1..], k);
      assert CategoryPairs(posts)[1..] == CategoryPairs(posts[1..]);
    }
  }

  /** The category table has one bucket per category of the posts (the
      posts without one, or with an empty one, under 未分类); the bucket
      holds the posts of that category in their original order, every post
      is in exactly one bucket, and larger buckets come first. */
  lemma CategoriesSpec(posts: seq<Post>, k: string)
    ensures Valid(BucketTable(CategoryPairs(posts)))
    ensures Lookup(BucketTable(CategoryPairs(posts)), k) ==
      if k in Map(posts, CategoryKey) then Some(WithKey(posts, CategoryKey, k)) else None
    ensures TotalSize(BucketTable(CategoryPairs(posts))) == |posts|
    ensures SortedBy(BucketTable(CategoryPairs(posts)), Size, IntGe)
  {
    BucketTableSpec(CategoryPairs(posts));
    CategoryPairsKeys(posts, k);
  }

  /** A post is in the bucket of `k` exactly when its category is `k`. */
  lemma CategoryMember(posts: seq<Post>, k: string, p: Post)
    ensures p in Lookup(BucketTable(CategoryPairs(posts)), k).GetOr([])
        <==> p in posts && CategoryKey(p) == k
  {
    CategoriesSpec(posts, k);
    WithKeyMember(posts, CategoryKey, k, p);
    if p in posts && CategoryKey(p) == k {
      MapMember(posts, CategoryKey, p);
    }
  }

  // ---------------------------------------------------------------- tags

  function TagEntry(p: Post): string -> (string, Post) { t => (t, p) }

  /** The pushes `groupByTag` makes, in order: one per tag of each post. */
  function TagPairs(posts: seq<Post>): seq<(string, Post)>
  {
    if posts == [] then []
    else TagPairs(posts[..|posts| - 1]) + Map(PostTags(posts[|posts| - 1]), TagEntry(posts[|posts| - 1]))
  }

  lemma TagStep(e: seq<(string, Post)>, tags: seq<string>, j: nat, p: Post)
    requires j < |tags|
    ensures Group(e + Map(tags[..j + 1], TagEntry(p))) == Push(Group(e + Map(tags[..j], TagEntry(p))), tags[j], p)
  {
    MapSnoc(tags[..j + 1], TagEntry(p));
    assert tags[..j + 1][..j] == tags[..j];
    assert e + Map(tags[..j + 1], TagEntry(p)) == (e + Map(tags[..j], TagEntry(p))) + [(tags[j], p)];
    GroupSnoc(e + Map(tags[..j], TagEntry(p)), tags[j], p);
  }

  /** `groupByTag`. */
  method GroupByTag(posts: seq<Post>) returns (result: Record<seq<Post>>)
    ensures result == BucketTable(TagPairs(posts))
  {
    var index: Record<seq<Post>> := [];
    for i := 0 to |posts|
      invariant index == Group(TagPairs(posts[..i]))
    {
      var post := posts[i];
      var tags := post.meta.tags.GetOr([]);
      assert TagPairs(posts[..i]) + Map(tags[..0], TagEntry(post)) == TagPairs(posts[..i]);
      for j := 0 to |tags|
        invariant index == Group(TagPairs(posts[..i]) + Map(tags[..j], TagEntry(post)))
      {
        TagStep(TagPairs(posts[..i]), tags, j, post);
        index := Push(index, tags[j], post);
      }
      assert tags[..|tags|] == tags;
      TagPairsStep(posts, i);
    }
    assert posts[..|posts|] == posts;
    GroupKeys(TagPairs(posts));
    result := SortBuckets(index);
  }

  lemma {:induction false} TagEntriesKeys(tags: seq<string>, p: Post)
    ensures Keys(Map(tags, TagEntry(p))) == tags
  {
    if tags != [] {
      TagEntriesKeys(tags[1..], p);
      assert Map(tags, TagEntry(p))[1..] == Map(tags[1..], TagEntry(p));
    }
  }

  /** The tags of one post push that post for each occurrence of `tag`. */
  lemma {:induction false} TagEntriesSelect(tags: seq<string>, p: Post, tag: string)
    ensures p in Select(Map(tags, TagEntry(p)), tag) <==> tag in tags
    ensures forall x :: x in Select(Map(tags, TagEntry(p)), tag) ==> x == p
  {
    if tags != [] {
      TagEntriesSelect(tags[1..], p, tag);
      assert Map(tags, TagEntry(p))[1..] == Map(tags[1..], TagEntry(p));
      assert tags == [tags[0]] + tags[1..];
    }
  }

  /** Tags listed once push the post at most once. */
  lemma {:induction false} TagEntriesSelectOnce(tags: seq<string>, p: Post, tag: string)
    requires Distinct(tags)
    ensures Select(Map(tags, TagEntry(p)), tag) == if tag in tags then [p] else []
  {
    if tags != [] {
      HeadNotInTail(tags);
      assert Distinct(tags[1..]);
      TagEntriesSelectOnce(tags[1..], p, tag);
      assert Map(tags, TagEntry(p))[1..] == Map(tags[1..], TagEntry(p));
      assert tags == [tags[0]] + tags[1..];
    }
  }

  lemma TagPairsStep(posts: seq<Post>, i: nat)
    requires i < |posts|
    ensures TagPairs(posts[..i + 1]) == TagPairs(posts[..i]) + Map(PostTags(posts[i]), TagEntry(posts[i]))
  {
    assert posts[..i + 1][..i] == posts[..i];
  }

  /** A post is in the bucket of a tag exactly when it lists the tag. */
  lemma {:induction false} TagPairsMember(posts: seq<Post>, tag: string, p: Post)
    ensures tag in Keys(TagPairs(posts)) <==> exists q :: q in posts && tag in PostTags(q)
    ensures p in Select(TagPairs(posts), tag) <==> p in posts && tag in PostTags(p)
  {
    if posts != [] {
      var init, last := posts[..|posts| - 1], posts[|posts| - 1];
      assert posts == init + [last];
      TagPairsMember(init, tag, p);
      var e := Map(PostTags(last), TagEntry(last));
      KeysAppend(TagPairs(init), e);
      SelectAppend(TagPairs(init), e, tag);
      TagEntriesKeys(PostTags(last), last);
      TagEntriesSelect(PostTags(last), last, tag);
      if exists q :: q in posts && tag in PostTags(q) {
        var q :| q in posts && tag in PostTags(q);
        if q != last {
          assert q in init;
        }
      }
    }
  }

  /** When no post lists a tag twice, the bucket of a tag holds exactly
      the posts that list it, in their original order. */
  lemma {:induction false} TagPairsSelect(posts: seq<Post>, tag: string)
    requires forall p :: p in posts ==> Distinct(PostTags(p))
    ensures Select(TagPairs(posts), tag) == Filter(posts, (p: Post) => tag in PostTags(p))
  {
    if posts != [] {
      var init, last := posts[..|posts| - 1], posts[|posts| - 1];
      assert posts == init + [last];
      TagPairsSelect(init, tag);
      SelectAppend(TagPairs(init), Map(PostTags(last), TagEntry(last)), tag);
      TagEntriesSelectOnce(PostTags(last), last, tag);
      FilterAppend(init, [last], (p: Post) => tag in PostTags(p));
    }
  }

  /** One push per tag occurrence. */
  lemma {:induction false} TagPairsSize(posts: seq<Post>)
    ensures |TagPairs(posts)| == Sum(Map(posts, (p: Post) => |PostTags(p)|))
  {
    if posts != [] {
      var init, last := posts[..|posts| - 1], posts[|posts| - 1];
      TagPairsSize(init);
      MapSnoc(posts, (p: Post) => |PostTags(p)|);
      SumAppend(Map(init, (p: Post) => |PostTags(p)|), [|PostTags(last)|]);
    }
  }

  /** The tag table has one bucket per tag that some post lists; a post is
      in the bucket of every tag it lists and of no other (so a post
      without tags is in none); the buckets hold one entry per tag
      occurrence; larger buckets come first. */
  lemma TagsSpec(posts: seq<Post>, tag: string, p: Post)
    ensures Valid(BucketTable(TagPairs(posts)))
    ensures Lookup(BucketTable(TagPairs(posts)), tag).Some? <==> exists q :: q in posts && tag in PostTags(q)
    ensures p in Lookup(BucketTable(TagPairs(posts)), tag).GetOr([]) <==> p in posts && tag in PostTags(p)
    ensures TotalSize(BucketTable(TagPairs(posts))) == Sum(Map(posts, (q: Post) => |PostTags(q)|))
    ensures SortedBy(BucketTable(TagPairs(posts)), Size, IntGe)
  {
    BucketTableSpec(TagPairs(posts));
    TagPairsMember(posts, tag, p);
    TagPairsSize(posts);
  }

  // ---------------------------------------------------------------- time

  /** The copy of one month's posts, sorted by
      `(b.meta.date || "").localeCompare(a.meta.date || "")`: newest first. */
  function SortedCell(g: Record<seq<Post>>): string -> (string, seq<Post>)
  {
    m => (m, SortBy(Lookup(g, m).GetOr([]), PostDate, LexGe))
  }

  /** The months of one year, latest first, each with its sorted posts. */
  function SortedMonths(g: Record<seq<Post>>): Record<seq<Post>>
  {
    Map(SortedKeys(g), SortedCell(g))
  }

  function YearRow(n: Record<Record<seq<Post>>>): string -> (string, Record<seq<Post>>)
  {
    y => (y, SortedMonths(Lookup(n, y).GetOr([])))
  }

  /** What `groupByTime` returns for `posts`. */
  function TimeTable(posts: seq<Post>): Record<Record<seq<Post>>>
  {
    Map(SortedKeys(Nest(posts)), YearRow(Nest(posts)))
  }

  /** The inner loop of `groupByTime`: the months of one year sorted in
      reverse, each with a sorted copy of its posts. */
  method SortMonths(g: Record<seq<Post>>) returns (sorted: Record<seq<Post>>)
    requires Valid(g)
    ensures sorted == SortedMonths(g)
  {
    var months := SortedKeys(g);
    SortedKeysSpec(g);
    sorted := [];
    for j := 0 to |months|
      invariant sorted == Map(months[..j], SortedCell(g))
    {
      var m := months[j];
      var list := SortBy(Lookup(g, m).GetOr([]), PostDate, LexGe);
      CopyStep(months, j, SortedCell(g));
      sorted := Put(sorted, m, list);
    }
    assert months[..|months|] == months;
  }

  lemma NestYearValid(posts: seq<Post>, y: string)
    ensures Valid(Lookup(Nest(posts), y).GetOr([]))
  {
    NestSpec(posts, y, y);
  }

  /** The first loop of `groupByTime`: each post filed under the year and
      month of its date. */
  method IndexByTime(posts: seq<Post>) returns (index: Record<Record<seq<Post>>>)
    ensures index == Nest(posts)
  {
    index := [];
    for i := 0 to |posts|
      invariant index == Nest(posts[..i])
    {
      var post := posts[i];
      var date := post.meta.date;
      var year := YearKey(date);
      var month := MonthKey(date);
      AddPostNest(posts, i);
      index := AddPost(index, year, month, post);
    }
    assert posts[..|posts|] == posts;
  }

  lemma YearsDistinct(posts: seq<Post>)
    ensures Distinct(SortedKeys(Nest(posts)))
  {
    NestKeys(posts);
    SortedKeysSpec(Nest(posts));
  }

  /** The second loop of `groupByTime`: the years sorted in reverse, each
      with its months sorted. */
  method SortYears(posts: seq<Post>, index: Record<Record<seq<Post>>>) returns (result: Record<Record<seq<Post>>>)
    requires index == Nest(posts)
    ensures result == Map(SortedKeys(index), YearRow(index))
  {
    var years := SortedKeys(index);
    YearsDistinct(posts);
    result := [];
    for j := 0 to |years|
      invariant result == Map(years[..j], YearRow(index))
    {
      var y := years[j];
      NestYearValid(posts, y);
      var sorted := SortMonths(Lookup(index, y).GetOr([]));
      assert YearRow(index)(y) == (y, sorted);
      CopyStep(years, j, YearRow(index));
      result := Put(result, y, sorted);
    }
    assert years[..|years|] == years;
  }

  /** `groupByTime`. */
  method GroupByTime(posts: seq<Post>) returns (result: Record<Record<seq<Post>>>)
    ensures result == TimeTable(posts)
  {
    var index := IndexByTime(posts);
    result := SortYears(posts, index);
  }

  /** The time table lists the years of the posts, strictly decreasing,
      each once. */
  lemma TimeYears(posts: seq<Post>, y: string)
    ensures Valid(TimeTable(posts))
    ensures Descending(Keys(TimeTable(posts)))
    ensures Lookup(TimeTable(posts), y).Some? <==> y in Map(posts, PostYear)
  {
    var n := Nest(posts);
    NestKeys(posts);
    SortedKeysSpec(n);
    MappedLookup(SortedKeys(n), YearRow(n), y);
  }

  /** The row of a year of the posts holds that year's months, sorted. */
  lemma TimeTableRow(posts: seq<Post>, y: string)
    requires y in Map(posts, PostYear)
    ensures Lookup(TimeTable(posts), y) == Some(SortedMonths(Lookup(Nest(posts), y).GetOr([])))
  {
    var n := Nest(posts);
    NestKeys(posts);
    SortedKeysSpec(n);
    MappedLookup(SortedKeys(n), YearRow(n), y);
  }

  /** Sorting the months of a year keeps every month and sorts its posts. */
  lemma SortedMonthsLookup(g: Record<seq<Post>>, m: string)
    requires Valid(g)
    ensures Valid(SortedMonths(g))
    ensures Descending(Keys(SortedMonths(g)))
    ensures Lookup(SortedMonths(g), m) ==
      if m in Keys(g) then Some(SortBy(Lookup(g, m).GetOr([]), PostDate, LexGe)) else None
  {
    SortedKeysSpec(g);
    MappedLookup(SortedKeys(g), SortedCell(g), m);
  }

  /** Under a year of the posts, the time table lists the months in which
      that year has posts, strictly decreasing, each once. */
  lemma TimeMonths(posts: seq<Post>, y: string, m: string)
    requires y in Map(posts, PostYear)
    ensures Valid(Lookup(TimeTable(posts), y).GetOr([]))
    ensures Descending(Keys(Lookup(TimeTable(posts), y).GetOr([])))
    ensures Lookup(Lookup(TimeTable(posts), y).GetOr([]), m).Some? <==> m in MonthsIn(posts, y)
  {
    TimeTableRow(posts, y);
    NestSpec(posts, y, m);
    var g := Lookup(Nest(posts), y).value;
    SortedMonthsLookup(g, m);
  }

  /** A month's list holds the posts of that year and month, newest first;
      posts with the same date keep their order in `posts`. */
  lemma TimeCell(posts: seq<Post>, y: string, m: string)
    requires m in MonthsIn(posts, y)
    ensures var list := Lookup(Lookup(TimeTable(posts), y).GetOr([]), m).GetOr([]);
      && multiset(list) == multiset(Cell(posts, y, m))
      && SortedBy(list, PostDate, LexGe)
      && forall d :: WithKey(list, PostDate, d) == WithKey(Cell(posts, y, m), PostDate, d)
  {
    var x := WithKey(posts, PostYear, y)[0];
    WithKeyMember(posts, PostYear, y, x);
    MapMember(posts, PostYear, x);
    TimeTableRow(posts, y);
    NestSpec(posts, y, m);
    var g := Lookup(Nest(posts), y).value;
    SortedMonthsLookup(g, m);
    var c := Cell(posts, y, m);
    var list := SortBy(c, PostDate, LexGe);
    assert Lookup(Lookup(TimeTable(posts), y).GetOr([]), m).GetOr([]) == list;
    LexOrders();
    SortBySorted(c, PostDate, LexGe);
    forall d ensures WithKey(list, PostDate, d) == WithKey(c, PostDate, d) {
      SortByStable(c, PostDate, LexGe, d);
    }
  }

  /** The page sorts the years again (`Object.keys(byTime).sort(...)`) and
      the months of each year again (`Object.entries(months).sort(...)`);
      both find the order `groupByTime` already produced. */
  lemma ShownTimeOrder(posts: seq<Post>, y: string)
    ensures SortedKeys(TimeTable(posts)) == Keys(TimeTable(posts))
    ensures var months := Lookup(TimeTable(posts), y).GetOr([]);
      SortBy(Entries(months), Fst, LexGe) == months
  {
    TimeYears(posts, y);
    SortedKeysFixed(TimeTable(posts));
    if y in Map(posts, PostYear) {
      TimeMonths(posts, y, y);
      SortedEntries(Lookup(TimeTable(posts), y).GetOr([]));
    }
  }

  // ---------------------------------------------------------------- display order

  /** `Object.entries` lists a pair whose key is an array index before
      every pair whose key is not. */
  lemma IndexBeforeNamed<V>(t: Record<V>, e1: (string, V), e2: (string, V)) returns (x: nat, z: nat)
    requires e1 in t && e2 in t
    requires IsArrayIndex(e1.0) && !IsArrayIndex(e2.0)
    ensures x < z < |Entries(t)|
    ensures Entries(t)[x] == e1 && Entries(t)[z] == e2
  {
    var a := SortBy(Filter(t, IsIndexEntry), IndexValue, IntLe);
    var b := Filter(t, IsNamedEntry);
    FilterMember(t, IsIndexEntry, e1);
    FilterMember(t, IsNamedEntry, e2);
    assert e1 in a by {
      assert e1 in multiset(Filter(t, IsIndexEntry));
    }
    assert e2 in b;
    var i :| 0 <= i < |a| && a[i] == e1;
    var j :| 0 <= j < |b| && b[j] == e2;
    x, z := i, |a| + j;
    assert Entries(t) == a + b;
  }

  /** `Object.entries` of a bucket table lists an array-index key before
      every other key, so when such a key has the smaller bucket the listing
      is not sorted by size. */
  lemma EntriesNotBySize<T>(t: Record<seq<T>>, k1: string, k2: string)
    requires Valid(t)
    requires IsArrayIndex(k1) && !IsArrayIndex(k2)
    requires Lookup(t, k1).Some? && Lookup(t, k2).Some?
    requires |Lookup(t, k1).value| < |Lookup(t, k2).value|
    ensures !SortedBy(Entries(t), Size, IntGe)
  {
    LookupFound(t, k1);
    LookupFound(t, k2);
    var x, z := IndexBeforeNamed(t, (k1, Lookup(t, k1).value), (k2, Lookup(t, k2).value));
    assert !IntGe(Size(Entries(t)[x]), Size(Entries(t)[z]));
  }

  /** What the category list shows, as written:
      `Object.entries(byCategory)`, the buckets in enumeration order. */
  function ShownCategoriesAsWritten(posts: seq<Post>): (r: Record<seq<Post>>)
    ensures multiset(r) == multiset(BucketTable(CategoryPairs(posts)))
  {
    EntriesSpec(BucketTable(CategoryPairs(posts)));
    Entries(BucketTable(CategoryPairs(posts)))
  }

  /** A category named like an array index ("2024", "1", ...) is listed
      first even when another category has more posts. */
  lemma CategoriesShownOutOfOrder(posts: seq<Post>, c1: string, c2: string)
    requires IsArrayIndex(c1) && !IsArrayIndex(c2)
    requires c1 in Map(posts, CategoryKey)
    requires |WithKey(posts, CategoryKey, c1)| < |WithKey(posts, CategoryKey, c2)|
    ensures !SortedBy(ShownCategoriesAsWritten(posts), Size, IntGe)
  {
    var x := WithKey(posts, CategoryKey, c2)[0];
    WithKeyMember(posts, CategoryKey, c2, x);
    MapMember(posts, CategoryKey, x);
    CategoriesSpec(posts, c1);
    CategoriesSpec(posts, c2);
    EntriesNotBySize(BucketTable(CategoryPairs(posts)), c1, c2);
  }

  /** The category list in the order `groupByCategory` built: the same
      buckets, largest first. */
  function ShownCategories(posts: seq<Post>): (r: Record<seq<Post>>)
    ensures SortedBy(r, Size, IntGe)
    ensures multiset(r) == multiset(ShownCategoriesAsWritten(posts))
  {
    CategoriesSpec(posts, []);
    BucketTable(CategoryPairs(posts))
  }

  /** What the tag list shows, as written: `Object.entries(byTag)`. */
  function ShownTagsAsWritten(posts: seq<Post>): (r: Record<seq<Post>>)
    ensures multiset(r) == multiset(BucketTable(TagPairs(posts)))
  {
    EntriesSpec(BucketTable(TagPairs(posts)));
    Entries(BucketTable(TagPairs(posts)))
  }

  /** A tag named like an array index is listed first even when another
      tag has more posts. */
  lemma TagsShownOutOfOrder(posts: seq<Post>, t1: string, t2: string)
    requires IsArrayIndex(t1) && !IsArrayIndex(t2)
    requires t1 in Keys(TagPairs(posts))
    requires |Select(TagPairs(posts), t1)| < |Select(TagPairs(posts), t2)|
    ensures !SortedBy(ShownTagsAsWritten(posts), Size, IntGe)
  {
    var e := TagPairs(posts);
    BucketTableSpec(e);
    if t2 !in Keys(e) {
      SelectAbsent(e, t2);
    }
    EntriesNotBySize(BucketTable(e), t1, t2);
  }

  /** The tag list in the order `groupByTag` built: the same buckets,
      largest first. */
  function ShownTags(posts: seq<Post>): (r: Record<seq<Post>>)
    ensures SortedBy(r, Size, IntGe)
    ensures multiset(r) == multiset(ShownTagsAsWritten(posts))
  {
    BucketTableSpec(TagPairs(posts));
    BucketTable(TagPairs(posts))
  }

  // ---------------------------------------------------------------- collapse state

  /** `toggleArchive`. */
  function ToggleArchive(collapsed: set<string>, key: string): (r: set<string>)
    ensures key in r <==> key !in collapsed
    ensures r - {key} == collapsed - {key}
  {
    Toggle(collapsed, key)
  }

  function CategoryToggleKey(name: string): string { "cat:" + name }

  function TagToggleKey(name: string): string { "tag:" + name }

  function YearToggleKey(year: string): string { "time:" + year }

  function MonthToggleKey(year: string, month: string): string { "time:" + year + ":" + month }

  /** A category, a tag and a year or month never share a collapse key, so
      toggling one never toggles a group of another kind. */
  lemma ToggleKeysDistinct(c: string, t: string, y: string, m: string)
    ensures CategoryToggleKey(c) != TagToggleKey(t)
    ensures CategoryToggleKey(c) != YearToggleKey(y) && CategoryToggleKey(c) != MonthToggleKey(y, m)
    ensures TagToggleKey(t) != YearToggleKey(y) && TagToggleKey(t) != MonthToggleKey(y, m)
  {
    assert CategoryToggleKey(c)[0] == 'c';
    assert TagToggleKey(t)[0] == 't' && TagToggleKey(t)[1] == 'a';
    assert YearToggleKey(y)[0] == 't' && YearToggleKey(y)[1] == 'i';
    assert MonthToggleKey(y, m)[0] == 't' && MonthToggleKey(y, m)[1] == 'i';
  }
}
