/** The year and month keys under which the archive
    (`src/pages/Archive.tsx`) and the sidebar (`src/components/Sidebar.tsx`)
    file posts, and the nested record `map[year][month]` that both build
    with the same loop: for each post, in order, `(map[year] ??= {})`,
    `(map[year][month] ??= [])` and `push(post)`. */
module Calendar {
  import opened Wrappers
  import opened Seqs
  import opened Sorting
  import opened Text
  import opened Records
  import opened Posts
  import opened Facets

  /** `date.slice(0, 4) || "未分类"`. */
  function YearKey(date: string): (y: string)
    ensures y != []
  {
    if date == [] then Unsorted else Take(date, 4)
  }

  /** `date.slice(0, 7) || year`. */
  function MonthKey(date: string): (m: string)
    ensures m != []
  {
    if date == [] then YearKey(date) else Take(date, 7)
  }

  /** The year is read off the month: a month key starts with the year
      key, so months of different years never share a key. */
  lemma MonthDeterminesYear(date: string)
    ensures YearKey(date) == Take(MonthKey(date), 4)
  {
  }

  /** A dated post is filed under the four-character year and the
      seven-character month of its date. */
  lemma DateKeys(date: string)
    requires |date| >= 7
    ensures YearKey(date) == date[..4] && MonthKey(date) == date[..7]
    ensures IsPrefix(YearKey(date), MonthKey(date))
  {
  }

  /** Only the first seven characters of the date matter, so cutting the
      date to ten characters first changes no key. */
  lemma TruncationKeepsKeys(date: string)
    ensures YearKey(Take(date, 10)) == YearKey(date)
    ensures MonthKey(Take(date, 10)) == MonthKey(date)
  {
  }

  function PostYear(p: Post): string { YearKey(p.meta.date) }

  function PostMonth(p: Post): string { MonthKey(p.meta.date) }

  function MonthEntry(p: Post): (string, Post) { (PostMonth(p), p) }

  /** The nested record after the loop has run over `posts`. */
  function Nest(posts: seq<Post>): Record<Record<seq<Post>>>
  {
    if posts == [] then []
    else
      var n := Nest(posts[..|posts| - 1]);
      var p := posts[|posts| - 1];
      Put(n, PostYear(p), Push(Lookup(n, PostYear(p)).GetOr([]), PostMonth(p), p))
  }

  /** The posts of year `y`, in order, paired with their months. */
  function YearEntries(posts: seq<Post>, y: string): seq<(string, Post)>
  {
    Map(WithKey(posts, PostYear, y), MonthEntry)
  }

  /** The posts of year `y` and month `m`, in order. */
  function Cell(posts: seq<Post>, y: string, m: string): seq<Post>
  {
    WithKey(WithKey(posts, PostYear, y), PostMonth, m)
  }

  /** The months in which year `y` has posts (with repetitions). */
  function MonthsIn(posts: seq<Post>, y: string): seq<string>
  {
    Map(WithKey(posts, PostYear, y), PostMonth)
  }

  lemma YearEntriesSnoc(posts: seq<Post>, y: string)
    requires posts != []
    ensures YearEntries(posts, y) == YearEntries(posts[..|posts| - 1], y) +
      if PostYear(posts[|posts| - 1]) == y then [MonthEntry(posts[|posts| - 1])] else []
  {
    var init, p := posts[..|posts| - 1], posts[|posts| - 1];
    WithKeySnoc(posts, PostYear, y);
    MapAppend(WithKey(init, PostYear, y), if PostYear(p) == y then [p] else [], MonthEntry);
  }

  lemma {:induction false} NestKeys(posts: seq<Post>)
    ensures Valid(Nest(posts))
    ensures Keys(Nest(posts)) == Dedup(Map(posts, PostYear))
  {
    if posts != [] {
      var init, p := posts[..|posts| - 1], posts[|posts| - 1];
      NestKeys(init);
      MapSnoc(posts, PostYear);
      var ys := Map(posts, PostYear);
      assert ys[..|ys| - 1] == Map(init, PostYear);
      var v := Push(Lookup(Nest(init), PostYear(p)).GetOr([]), PostMonth(p), p);
      PutKeys(Nest(init), PostYear(p), v);
      PutValid(Nest(init), PostYear(p), v);
    }
  }

  lemma {:induction false} NestLookup(posts: seq<Post>, y: string)
    ensures Lookup(Nest(posts), y) ==
      if y in Map(posts, PostYear) then Some(Group(YearEntries(posts, y))) else None
  {
    if posts != [] {
      var init, p := posts[..|posts| - 1], posts[|posts| - 1];
      var n0, yp := Nest(init), PostYear(p);
      var v := Push(Lookup(n0, yp).GetOr([]), PostMonth(p), p);
      assert Nest(posts) == Put(n0, yp, v);
      NestLookup(init, y);
      MapSnoc(posts, PostYear);
      YearEntriesSnoc(posts, y);
      if yp == y {
        if y !in Map(init, PostYear) {
          WithKeyAbsent(init, PostYear, y);
        }
        assert Lookup(n0, y).GetOr([]) == Group(YearEntries(init, y));
        assert YearEntries(posts, y) == YearEntries(init, y) + [(PostMonth(p), p)];
        GroupSnoc(YearEntries(init, y), PostMonth(p), p);
        assert Lookup(Nest(posts), y) == Some(v);
        assert y in Map(posts, PostYear);
      } else {
        assert Lookup(Nest(posts), y) == Lookup(n0, y);
        assert y in Map(posts, PostYear) <==> y in Map(init, PostYear);
        assert YearEntries(posts, y) == YearEntries(init, y);
      }
    }
  }

  lemma {:induction false} YearEntriesKeys(s: seq<Post>, m: string)
    ensures Keys(Map(s, MonthEntry)) == Map(s, PostMonth)
    ensures Select(Map(s, MonthEntry), m) == WithKey(s, PostMonth, m)
  {
    if s != [] {
      YearEntriesKeys(s[1..], m);
    }
  }

  /** The nested record has an entry for each year of the posts and, under
      it, an entry for each month in which that year has posts, holding
      the posts of that year and month in their original order. */
  lemma NestSpec(posts: seq<Post>, y: string, m: string)
    ensures Valid(Nest(posts))
    ensures Keys(Nest(posts)) == Dedup(Map(posts, PostYear))
    ensures y in Map(posts, PostYear) ==>
      && Lookup(Nest(posts), y).Some?
      && Valid(Lookup(Nest(posts), y).value)
      && Keys(Lookup(Nest(posts), y).value) == Dedup(MonthsIn(posts, y))
      && Lookup(Lookup(Nest(posts), y).value, m) ==
           if m in MonthsIn(posts, y) then Some(Cell(posts, y, m)) else None
    ensures y !in Map(posts, PostYear) ==> Lookup(Nest(posts), y).None?
  {
    NestKeys(posts);
    NestLookup(posts, y);
    var e := YearEntries(posts, y);
    YearEntriesKeys(WithKey(posts, PostYear, y), m);
    GroupKeys(e);
    GroupLookup(e, m);
  }

  /** A post's year occurs among the years, and its month among the
      months of that year. */
  lemma PostKeys(posts: seq<Post>, p: Post)
    requires p in posts
    ensures PostYear(p) in Map(posts, PostYear)
    ensures PostMonth(p) in MonthsIn(posts, PostYear(p))
    ensures p in Cell(posts, PostYear(p), PostMonth(p))
  {
    var i :| 0 <= i < |posts| && posts[i] == p;
    assert Map(posts, PostYear)[i] == PostYear(p);
    WithKeyMember(posts, PostYear, PostYear(p), p);
    var s := WithKey(posts, PostYear, PostYear(p));
    var j :| 0 <= j < |s| && s[j] == p;
    assert MonthsIn(posts, PostYear(p))[j] == PostMonth(p);
    WithKeyMember(s, PostMonth, PostMonth(p), p);
  }

  /** A cell holds exactly the posts of its year and month. */
  lemma CellMember(posts: seq<Post>, y: string, m: string, p: Post)
    ensures p in Cell(posts, y, m) <==> p in posts && PostYear(p) == y && PostMonth(p) == m
  {
    WithKeyMember(posts, PostYear, y, p);
    WithKeyMember(WithKey(posts, PostYear, y), PostMonth, m, p);
  }

  /** A month that occurs in year `y` has a non-empty cell. */
  lemma CellNonEmpty(posts: seq<Post>, y: string, m: string)
    requires m in MonthsIn(posts, y)
    ensures Cell(posts, y, m) != []
  {
    var s := WithKey(posts, PostYear, y);
    var j :| 0 <= j < |s| && MonthsIn(posts, y)[j] == m;
    WithKeyMember(s, PostMonth, m, s[j]);
  }

  /** One step of the loop: `map[year] ??= {}`, `map[year][month] ??= []`,
      then the push. */
  function AddPost(index: Record<Record<seq<Post>>>, year: string, month: string, post: Post): Record<Record<seq<Post>>>
  {
    var index' := if Lookup(index, year).None? then Put(index, year, []) else index;
    var months := Lookup(index', year).GetOr([]);
    var months' := if Lookup(months, month).None? then Put(months, month, []) else months;
    Put(index', year, Put(months', month, Lookup(months', month).GetOr([]) + [post]))
  }

  lemma AddPostNest(posts: seq<Post>, i: nat)
    requires i < |posts|
    ensures AddPost(Nest(posts[..i]), PostYear(posts[i]), PostMonth(posts[i]), posts[i]) == Nest(posts[..i + 1])
  {
    var n, y, m, p := Nest(posts[..i]), PostYear(posts[i]), PostMonth(posts[i]), posts[i];
    assert posts[..i + 1][..i] == posts[..i];
    var months := Lookup(n, y).GetOr([]);
    var v := Lookup(months, m).GetOr([]) + [p];
    if Lookup(n, y).None? {
      PutTwice(n, y, [], Put(if Lookup(months, m).None? then Put(months, m, []) else months, m, v));
    }
    if Lookup(months, m).None? {
      PutTwice(months, m, [], v);
    }
  }
}
