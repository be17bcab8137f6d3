/** The sidebar (`src/components/Sidebar.tsx`): the posts grouped by year
    and month, newest first, a search box that prunes the grouping, and
    the collapse state of years and months. */
module Sidebar {
  import opened Wrappers
  import opened Seqs
  import opened Sorting
  import opened Text
  import opened Records
  import opened Posts
  import opened Calendar
  import opened Toggles
  import opened Markdown

  datatype MonthGroup = MonthGroup(month: string, list: seq<Post>)

  datatype YearGroup = YearGroup(year: string, months: seq<MonthGroup>)

  function YearOf(g: YearGroup): string { g.year }

  function MonthOf(m: MonthGroup): string { m.month }

  /** The months of one year, latest first, each with its posts. */
  function MonthGroups(g: Record<seq<Post>>): seq<MonthGroup>
  {
    Map(SortedKeys(g), m => MonthGroup(m, Lookup(g, m).GetOr([])))
  }

  /** The years, latest first, each with its months. */
  function YearGroups(n: Record<Record<seq<Post>>>): seq<YearGroup>
  {
    Map(SortedKeys(n), y => YearGroup(y, MonthGroups(Lookup(n, y).GetOr([]))))
  }

  /** The sidebar's grouping of `posts`. */
  function ByYearMonth(posts: seq<Post>): seq<YearGroup>
  {
    YearGroups(Nest(posts))
  }

  /** `months` are the months of year `y` of `posts`, strictly decreasing,
      each with the posts of that year and month in their original order. */
  ghost predicate MonthsOfYear(months: seq<MonthGroup>, posts: seq<Post>, y: string)
  {
    && Descending(Map(months, MonthOf))
    && (forall m :: m in Map(months, MonthOf) <==> m in MonthsIn(posts, y))
    && (forall j :: 0 <= j < |months| ==> months[j].list == Cell(posts, y, months[j].month))
  }

  /** `groups` is the year-and-month grouping of `posts`: the years of the
      posts, strictly decreasing, each with its months. */
  ghost predicate Grouping(groups: seq<YearGroup>, posts: seq<Post>)
  {
    && Descending(Map(groups, YearOf))
    && (forall y :: y in Map(groups, YearOf) <==> y in Map(posts, PostYear))
    && (forall i :: 0 <= i < |groups| ==> MonthsOfYear(groups[i].months, posts, groups[i].year))
  }

  lemma MonthGroupsAt(g: Record<seq<Post>>)
    ensures Map(MonthGroups(g), MonthOf) == SortedKeys(g)
    ensures forall j :: 0 <= j < |SortedKeys(g)| ==>
      MonthGroups(g)[j].list == Lookup(g, SortedKeys(g)[j]).GetOr([])
  {
  }

  lemma YearGroupsAt(n: Record<Record<seq<Post>>>)
    ensures Map(YearGroups(n), YearOf) == SortedKeys(n)
    ensures forall i :: 0 <= i < |SortedKeys(n)| ==>
      YearGroups(n)[i].months == MonthGroups(Lookup(n, SortedKeys(n)[i]).GetOr([]))
  {
  }

  /** The months listed under a year of the posts. */
  lemma MonthKeysOfYear(posts: seq<Post>, y: string)
    requires y in Map(posts, PostYear)
    ensures var ms := MonthGroups(Lookup(Nest(posts), y).GetOr([]));
      && Descending(Map(ms, MonthOf))
      && forall m :: m in Map(ms, MonthOf) <==> m in MonthsIn(posts, y)
  {
    NestSpec(posts, y, y);
    var g := Lookup(Nest(posts), y).value;
    SortedKeysSpec(g);
    MonthGroupsAt(g);
  }

  /** The posts listed under a year and month of the posts. */
  lemma MonthListsOfYear(posts: seq<Post>, y: string)
    requires y in Map(posts, PostYear)
    ensures var ms := MonthGroups(Lookup(Nest(posts), y).GetOr([]));
      forall j :: 0 <= j < |ms| ==> ms[j].list == Cell(posts, y, ms[j].month)
  {
    var g := Lookup(Nest(posts), y).GetOr([]);
    var ms := MonthGroups(g);
    MonthGroupsAt(g);
    forall j | 0 <= j < |ms|
      ensures ms[j].list == Cell(posts, y, ms[j].month)
    {
      var m := SortedKeys(g)[j];
      NestSpec(posts, y, m);
      SortedKeysSpec(g);
      assert m in Keys(g);
    }
  }

  lemma YearSpec(posts: seq<Post>, y: string)
    requires y in Map(posts, PostYear)
    ensures MonthsOfYear(MonthGroups(Lookup(Nest(posts), y).GetOr([])), posts, y)
  {
    MonthKeysOfYear(posts, y);
    MonthListsOfYear(posts, y);
  }

  /** The grouping the sidebar computes is the year-and-month grouping. */
  lemma ByYearMonthSpec(posts: seq<Post>)
    ensures Grouping(ByYearMonth(posts), posts)
  {
    var n := Nest(posts);
    var gs := ByYearMonth(posts);
    NestKeys(posts);
    SortedKeysSpec(n);
    YearGroupsAt(n);
    forall i | 0 <= i < |gs|
      ensures MonthsOfYear(gs[i].months, posts, gs[i].year)
    {
      var y := SortedKeys(n)[i];
      assert y in Keys(n);
      YearSpec(posts, y);
    }
  }

  /** `groupPostsByYearMonth`: each post is filed under the year and month
      of its date cut to ten characters, then the years and, within each
      year, the months are listed latest first. */
  method GroupPostsByYearMonth(posts: seq<Post>) returns (groups: seq<YearGroup>)
    ensures groups == ByYearMonth(posts)
    ensures Grouping(groups, posts)
  {
    var index: Record<Record<seq<Post>>> := [];
    for i := 0 to |posts|
      invariant index == Nest(posts[..i])
    {
      var post := posts[i];
      var date := Take(post.meta.date, 10);
      var year := YearKey(date);
      var month := MonthKey(date);
      TruncationKeepsKeys(post.meta.date);
      AddPostNest(posts, i);
      index := AddPost(index, year, month, post);
    }
    assert posts[..|posts|] == posts;
    groups := YearGroups(index);
    ByYearMonthSpec(posts);
  }

  /** Every post is listed once: under its own year and month, and under
      no other. */
  lemma Placement(groups: seq<YearGroup>, posts: seq<Post>, p: Post)
    requires Grouping(groups, posts)
    ensures p in posts ==>
      exists i, j :: 0 <= i < |groups| && 0 <= j < |groups[i].months|
        && groups[i].year == PostYear(p) && groups[i].months[j].month == PostMonth(p)
        && p in groups[i].months[j].list
    ensures forall i, j :: 0 <= i < |groups| && 0 <= j < |groups[i].months| && p in groups[i].months[j].list ==>
      groups[i].year == PostYear(p) && groups[i].months[j].month == PostMonth(p)
  {
    if p in posts {
      PostKeys(posts, p);
      var i :| 0 <= i < |groups| && Map(groups, YearOf)[i] == PostYear(p);
      var ms := groups[i].months;
      var j :| 0 <= j < |ms| && Map(ms, MonthOf)[j] == PostMonth(p);
      assert ms[j].list == Cell(posts, PostYear(p), PostMonth(p));
    }
    forall i, j | 0 <= i < |groups| && 0 <= j < |groups[i].months| && p in groups[i].months[j].list
      ensures groups[i].year == PostYear(p) && groups[i].months[j].month == PostMonth(p)
    {
      CellMember(posts, groups[i].year, groups[i].months[j].month, p);
    }
  }

  /** No month of a grouping is empty, and neither is any year. */
  lemma NoEmptyCells(groups: seq<YearGroup>, posts: seq<Post>)
    requires Grouping(groups, posts)
    ensures forall i :: 0 <= i < |groups| ==> groups[i].months != []
    ensures forall i, j :: 0 <= i < |groups| && 0 <= j < |groups[i].months| ==> groups[i].months[j].list != []
  {
    forall i | 0 <= i < |groups|
      ensures groups[i].months != []
    {
      var y := groups[i].year;
      assert y in Map(groups, YearOf);
      var k :| 0 <= k < |posts| && Map(posts, PostYear)[k] == y;
      PostKeys(posts, posts[k]);
      assert PostMonth(posts[k]) in Map(groups[i].months, MonthOf);
    }
    forall i, j | 0 <= i < |groups| && 0 <= j < |groups[i].months|
      ensures groups[i].months[j].list != []
    {
      var m := groups[i].months[j].month;
      assert m in Map(groups[i].months, MonthOf);
      CellNonEmpty(posts, groups[i].year, m);
    }
  }

  /** `matchPost`: a blank query matches every post; otherwise the trimmed,
      lower-cased query must occur in the lower-cased title or date. */
  predicate MatchPost(p: Post, q: string)
  {
    IsBlank(q) ||
    (var lower := LowerStr(Trim(q));
     Contains(LowerStr(p.meta.title), lower) || Contains(LowerStr(p.meta.date), lower))
  }

  function Matcher(q: string): Post -> bool
  {
    p => MatchPost(p, q)
  }

  /** Surrounding whitespace and letter case in the query are irrelevant. */
  lemma MatchQuery(p: Post, q: string)
    ensures IsBlank(q) ==> MatchPost(p, q)
    ensures MatchPost(p, Trim(q)) == MatchPost(p, q)
    ensures MatchPost(p, LowerStr(q)) == MatchPost(p, q)
  {
    TrimSpec(q);
    TrimLower(q);
    LowerStrIdempotent(Trim(q));
  }

  /** A title or date that contains the query, in whatever letter case,
      makes the post match. */
  lemma MatchTitleOrDate(p: Post, q: string)
    requires Contains(p.meta.title, q) || Contains(p.meta.date, q)
    ensures MatchPost(p, q)
  {
    TrimSpec(q);
    assert Contains(q, Trim(q)) by {
      var k := |TrimStart(q)|;
      assert Trim(q) == q[|q| - k..][..|Trim(q)|];
      assert IsPrefix(Trim(q), q[|q| - k..]);
    }
    if Contains(p.meta.title, q) {
      ContainsTrans(p.meta.title, q, Trim(q));
      ContainsLower(p.meta.title, Trim(q));
    } else {
      ContainsTrans(p.meta.date, q, Trim(q));
      ContainsLower(p.meta.date, Trim(q));
    }
  }

  lemma ContainsLower(s: string, sub: string)
    requires Contains(s, sub)
    ensures Contains(LowerStr(s), LowerStr(sub))
  {
    var i :| 0 <= i <= |s| && IsPrefix(sub, s[i..]);
    assert LowerStr(s)[i..][..|sub|] == LowerStr(sub);
  }

  function PruneMonth(m: MonthGroup, q: string): MonthGroup
  {
    MonthGroup(m.month, Filter(m.list, Matcher(q)))
  }

  function MonthPruner(q: string): MonthGroup -> MonthGroup
  {
    m => PruneMonth(m, q)
  }

  predicate HasPosts(m: MonthGroup) { m.list != [] }

  function PruneYear(g: YearGroup, q: string): YearGroup
  {
    YearGroup(g.year, Filter(Map(g.months, MonthPruner(q)), HasPosts))
  }

  function YearPruner(q: string): YearGroup -> YearGroup
  {
    g => PruneYear(g, q)
  }

  predicate HasMonths(g: YearGroup) { g.months != [] }

  /** `filtered`: a blank search shows the grouping as it is; otherwise
      each month keeps its matching posts, and months and then years left
      empty are dropped. */
  function Filtered(groups: seq<YearGroup>, q: string): seq<YearGroup>
  {
    if IsBlank(q) then groups
    else Filter(Map(groups, YearPruner(q)), HasMonths)
  }

  /** Filtering keeps a strictly decreasing order of keys. */
  lemma {:induction false} DescendingFilter<T>(s: seq<T>, key: T -> string, f: T -> bool)
    requires Descending(Map(s, key))
    ensures Descending(Map(Filter(s, f), key))
  {
    if s != [] {
      var ks := Map(s, key);
      assert Map(s[1..], key) == ks[1..];
      DescendingFilter(s[1..], key, f);
      var rest := Filter(s[1..], f);
      var r := Filter(s, f);
      if f(s[0]) {
        assert r == [s[0]] + rest;
        forall i, j | 0 <= i < j < |r|
          ensures LexGe(Map(r, key)[i], Map(r, key)[j]) && Map(r, key)[i] != Map(r, key)[j]
        {
          if i == 0 {
            FilterMember(s[1..], f, rest[j - 1]);
            assert r[j] == rest[j - 1] && rest[j - 1] in s[1..];
            var k :| 0 <= k < |s[1..]| && s[1..][k] == rest[j - 1];
            assert ks[k + 1] == key(r[j]);
          } else {
            assert Map(r, key)[i] == Map(rest, key)[i - 1] && Map(r, key)[j] == Map(rest, key)[j - 1];
          }
        }
      } else {
        assert r == rest;
      }
    }
  }

  lemma DescendingMap<T>(s: seq<T>, key: T -> string, g: T -> T)
    requires Descending(Map(s, key))
    requires forall x :: key(g(x)) == key(x)
    ensures Descending(Map(Map(s, g), key))
  {
    assert Map(Map(s, g), key) == Map(s, key);
  }

  /** The posts of one cell that match, in order, are the cell of the
      matching posts. */
  lemma CellFilter(posts: seq<Post>, y: string, m: string, f: Post -> bool)
    ensures Cell(Filter(posts, f), y, m) == Filter(Cell(posts, y, m), f)
  {
    WithKeyFilter(posts, PostYear, y, f);
    WithKeyFilter(WithKey(posts, PostYear, y), PostMonth, m, f);
  }

  /** A month occurs in year `y` exactly when some post of that year and
      month exists. */
  lemma MonthsInMember(posts: seq<Post>, y: string, m: string)
    ensures m in MonthsIn(posts, y) <==> exists x :: x in posts && PostYear(x) == y && PostMonth(x) == m
  {
    var s := WithKey(posts, PostYear, y);
    if m in MonthsIn(posts, y) {
      var j :| 0 <= j < |s| && MonthsIn(posts, y)[j] == m;
      WithKeyMember(posts, PostYear, y, s[j]);
    }
    if exists x :: x in posts && PostYear(x) == y && PostMonth(x) == m {
      var x :| x in posts && PostYear(x) == y && PostMonth(x) == m;
      PostKeys(posts, x);
    }
  }

  lemma YearsMember(posts: seq<Post>, y: string)
    ensures y in Map(posts, PostYear) <==> exists x :: x in posts && PostYear(x) == y
  {
    if exists x :: x in posts && PostYear(x) == y {
      var x :| x in posts && PostYear(x) == y;
      PostKeys(posts, x);
    }
  }

  /** Each month left after pruning holds the matching posts of its cell. */
  lemma PrunedLists(g: YearGroup, posts: seq<Post>, q: string)
    requires MonthsOfYear(g.months, posts, g.year)
    ensures var ms := PruneYear(g, q).months;
      forall j :: 0 <= j < |ms| ==> ms[j].list == Cell(Filter(posts, Matcher(q)), g.year, ms[j].month)
  {
    var pruned := Map(g.months, MonthPruner(q));
    var ms := PruneYear(g, q).months;
    forall j | 0 <= j < |ms|
      ensures ms[j].list == Cell(Filter(posts, Matcher(q)), g.year, ms[j].month)
    {
      FilterMember(pruned, HasPosts, ms[j]);
      var k := MapPreimage(g.months, MonthPruner(q), ms[j]);
      CellFilter(posts, g.year, g.months[k].month, Matcher(q));
    }
  }

  /** A month left after pruning has a matching post. */
  lemma PrunedMonthKept(g: YearGroup, posts: seq<Post>, q: string, m: string)
    requires MonthsOfYear(g.months, posts, g.year)
    requires m in Map(PruneYear(g, q).months, MonthOf)
    ensures m in MonthsIn(Filter(posts, Matcher(q)), g.year)
  {
    var fs := Filter(posts, Matcher(q));
    var ms := PruneYear(g, q).months;
    PrunedLists(g, posts, q);
    var j :| 0 <= j < |ms| && Map(ms, MonthOf)[j] == m;
    FilterMember(Map(g.months, MonthPruner(q)), HasPosts, ms[j]);
    assert HasPosts(ms[j]);
    var x := ms[j].list[0];
    assert x in Cell(fs, g.year, m);
    CellMember(fs, g.year, m, x);
    MonthsInMember(fs, g.year, m);
  }

  /** A month with a matching post survives pruning. */
  lemma PrunedMonthFound(g: YearGroup, posts: seq<Post>, q: string, m: string)
    requires MonthsOfYear(g.months, posts, g.year)
    requires m in MonthsIn(Filter(posts, Matcher(q)), g.year)
    ensures m in Map(PruneYear(g, q).months, MonthOf)
  {
    var f := Matcher(q);
    var y := g.year;
    var pruned := Map(g.months, MonthPruner(q));
    var ms := PruneYear(g, q).months;
    MonthsInMember(Filter(posts, f), y, m);
    var x :| x in Filter(posts, f) && PostYear(x) == y && PostMonth(x) == m;
    FilterMember(posts, f, x);
    MonthsInMember(posts, y, m);
    var k := MapPreimage(g.months, MonthOf, m);
    var mk := g.months[k];
    CellMember(posts, y, m, x);
    assert x in mk.list;
    assert pruned[k] == PruneMonth(mk, q);
    FilterMember(mk.list, f, x);
    assert HasPosts(pruned[k]) && pruned[k].month == m;
    FilterMember(pruned, HasPosts, pruned[k]);
    MapMember(ms, MonthOf, pruned[k]);
  }

  /** Pruning the months of one year of a grouping of `posts` gives the
      months of that year of the matching posts. */
  lemma PruneYearSpec(g: YearGroup, posts: seq<Post>, q: string)
    requires MonthsOfYear(g.months, posts, g.year)
    ensures MonthsOfYear(PruneYear(g, q).months, Filter(posts, Matcher(q)), g.year)
  {
    var pruned := Map(g.months, MonthPruner(q));
    var ms := PruneYear(g, q).months;
    DescendingMap(g.months, MonthOf, MonthPruner(q));
    DescendingFilter(pruned, MonthOf, HasPosts);
    PrunedLists(g, posts, q);
    forall m
      ensures m in Map(ms, MonthOf) <==> m in MonthsIn(Filter(posts, Matcher(q)), g.year)
    {
      if m in Map(ms, MonthOf) {
        PrunedMonthKept(g, posts, q, m);
      }
      if m in MonthsIn(Filter(posts, Matcher(q)), g.year) {
        PrunedMonthFound(g, posts, q, m);
      }
    }
  }

  /** A year left after the search has a matching post. */
  lemma FilteredYearKept(groups: seq<YearGroup>, posts: seq<Post>, q: string, y: string)
    requires forall k :: 0 <= k < |groups| ==> MonthsOfYear(groups[k].months, posts, groups[k].year)
    requires !IsBlank(q)
    requires y in Map(Filtered(groups, q), YearOf)
    ensures y in Map(Filter(posts, Matcher(q)), PostYear)
  {
    var fs := Filter(posts, Matcher(q));
    var pruned := Map(groups, YearPruner(q));
    var r := Filter(pruned, HasMonths);
    assert Filtered(groups, q) == r;
    var i :| 0 <= i < |r| && Map(r, YearOf)[i] == y;
    FilterMember(pruned, HasMonths, r[i]);
    var k := MapPreimage(groups, YearPruner(q), r[i]);
    assert r[i] == PruneYear(groups[k], q);
    PrunedYearKept(groups[k], posts, q);
  }

  lemma PrunedYearKept(g: YearGroup, posts: seq<Post>, q: string)
    requires MonthsOfYear(g.months, posts, g.year)
    requires HasMonths(PruneYear(g, q))
    ensures g.year in Map(Filter(posts, Matcher(q)), PostYear)
  {
    var fs := Filter(posts, Matcher(q));
    var ms := PruneYear(g, q).months;
    PruneYearSpec(g, posts, q);
    var m := Map(ms, MonthOf)[0];
    assert m in MonthsIn(fs, g.year);
    var x := WithKey(fs, PostYear, g.year)[0];
    WithKeyMember(fs, PostYear, g.year, x);
    MapMember(fs, PostYear, x);
  }

  /** A year with a matching post survives the search. */
  lemma FilteredYearFound(groups: seq<YearGroup>, posts: seq<Post>, q: string, y: string)
    requires Grouping(groups, posts)
    requires !IsBlank(q)
    requires y in Map(Filter(posts, Matcher(q)), PostYear)
    ensures y in Map(Filtered(groups, q), YearOf)
  {
    var fs := Filter(posts, Matcher(q));
    var pruned := Map(groups, YearPruner(q));
    var r := Filtered(groups, q);
    YearsMember(fs, y);
    var x :| x in fs && PostYear(x) == y;
    FilterMember(posts, Matcher(q), x);
    PostKeys(posts, x);
    var k :| 0 <= k < |groups| && Map(groups, YearOf)[k] == y;
    PruneYearSpec(groups[k], posts, q);
    PostKeys(fs, x);
    assert PostMonth(x) in Map(pruned[k].months, MonthOf);
    assert HasMonths(pruned[k]);
    FilterMember(pruned, HasMonths, pruned[k]);
    MapMember(r, YearOf, pruned[k]);
  }

  /** Searching a grouping of `posts` gives the grouping of the matching
      posts: every month keeps exactly its matching posts in order, no
      month or year is left empty, and years and months keep their order. */
  lemma FilteredSpec(groups: seq<YearGroup>, posts: seq<Post>, q: string)
    requires Grouping(groups, posts)
    requires !IsBlank(q)
    ensures Grouping(Filtered(groups, q), Filter(posts, Matcher(q)))
  {
    var fs := Filter(posts, Matcher(q));
    var pruned := Map(groups, YearPruner(q));
    var r := Filtered(groups, q);
    DescendingMap(groups, YearOf, YearPruner(q));
    DescendingFilter(pruned, YearOf, HasMonths);
    forall i | 0 <= i < |r|
      ensures MonthsOfYear(r[i].months, fs, r[i].year)
    {
      FilterMember(pruned, HasMonths, r[i]);
      var k := MapPreimage(groups, YearPruner(q), r[i]);
      PruneYearSpec(groups[k], posts, q);
    }
    forall y ensures y in Map(r, YearOf) <==> y in Map(fs, PostYear) {
      if y in Map(r, YearOf) {
        FilteredYearKept(groups, posts, q, y);
      }
      if y in Map(fs, PostYear) {
        FilteredYearFound(groups, posts, q, y);
      }
    }
  }

  /** A grouping is determined by its posts. */
  lemma GroupingUnique(a: seq<YearGroup>, b: seq<YearGroup>, posts: seq<Post>)
    requires Grouping(a, posts) && Grouping(b, posts)
    ensures a == b
  {
    DescendingUnique(Map(a, YearOf), Map(b, YearOf));
    assert |a| == |b|;
    forall i | 0 <= i < |a|
      ensures a[i] == b[i]
    {
      assert a[i].year == Map(a, YearOf)[i] == Map(b, YearOf)[i] == b[i].year;
      var ma, mb := a[i].months, b[i].months;
      DescendingUnique(Map(ma, MonthOf), Map(mb, MonthOf));
      assert |ma| == |mb|;
      forall j | 0 <= j < |ma|
        ensures ma[j] == mb[j]
      {
        assert ma[j].month == Map(ma, MonthOf)[j] == Map(mb, MonthOf)[j] == mb[j].month;
      }
    }
  }

  /** A blank search shows the grouping unchanged; any other search shows
      exactly what grouping the matching posts would show. */
  lemma SearchGrouping(posts: seq<Post>, q: string)
    ensures IsBlank(q) ==> Filtered(ByYearMonth(posts), q) == ByYearMonth(posts)
    ensures !IsBlank(q) ==> Filtered(ByYearMonth(posts), q) == ByYearMonth(Filter(posts, Matcher(q)))
  {
    if !IsBlank(q) {
      ByYearMonthSpec(posts);
      FilteredSpec(ByYearMonth(posts), posts, q);
      ByYearMonthSpec(Filter(posts, Matcher(q)));
      GroupingUnique(Filtered(ByYearMonth(posts), q), ByYearMonth(Filter(posts, Matcher(q))), Filter(posts, Matcher(q)));
    }
  }

  /** `toggleYear`. */
  function ToggleYear(collapsed: set<string>, year: string): (r: set<string>)
    ensures year in r <==> year !in collapsed
    ensures r - {year} == collapsed - {year}
  {
    Toggle(collapsed, year)
  }

  /** The key of a month in the collapse state, `${year}:${month}`. */
  function MonthToggleKey(year: string, month: string): string
  {
    year + ":" + month
  }

  /** `toggleMonth`. */
  function ToggleMonth(collapsed: set<string>, year: string, month: string): (r: set<string>)
    ensures MonthToggleKey(year, month) in r <==> MonthToggleKey(year, month) !in collapsed
    ensures r - {MonthToggleKey(year, month)} == collapsed - {MonthToggleKey(year, month)}
  {
    Toggle(collapsed, MonthToggleKey(year, month))
  }

  /** Years without a colon give every month its own key, so toggling one
      month never toggles another. */
  lemma MonthToggleKeyInjective(y1: string, m1: string, y2: string, m2: string)
    requires ':' !in y1 && ':' !in y2
    requires MonthToggleKey(y1, m1) == MonthToggleKey(y2, m2)
    ensures y1 == y2 && m1 == m2
  {
    var k := MonthToggleKey(y1, m1);
    FirstColon(y1, m1);
    FirstColon(y2, m2);
    assert y1 == k[..|y1|] && y2 == k[..|y2|];
    assert m1 == k[|y1| + 1..] && m2 == k[|y2| + 1..];
  }

  /** The first colon of a month key ends the year. */
  lemma FirstColon(y: string, m: string)
    requires ':' !in y
    ensures FindChar(MonthToggleKey(y, m), ':', 0) == Some(|y|)
  {
    var k := MonthToggleKey(y, m);
    assert k[|y|] == ':';
    assert forall j :: 0 <= j < |y| ==> k[j] == y[j];
  }
}
