/** Loading the posts (`src/posts.ts`): turning each Markdown file's front
    matter into a post's metadata, deriving its slug from the file name,
    skipping files that fail, and sorting the posts newest first.

    The front-matter parser (gray-matter), the Markdown renderer (marked)
    and the file reader are calls into code outside the model: they are
    parameters that either succeed or fail. */
module Posts {
  import opened Wrappers
  import opened Seqs
  import opened Sorting
  import opened Text

  /** The values a YAML front matter can hold, as JavaScript sees them. */
  datatype Yaml =
    | Null                          // `null` (or `~`, or an empty value)
    | Str(s: string)                // a string
    | Scalar(text: string)          // a number or a boolean, with its `String(v)`
    | DateVal(year: int, month: int, day: int, display: string)
                                    // an unquoted date, which the parser turns into
                                    // a `Date` at midnight UTC; `display` is `String(v)`;
                                    // fields that are no calendar date (`ValidDate`)
                                    // stand for an Invalid Date
    | Arr(items: seq<Yaml>)
    | Obj

  /** The parsed front matter: a key that is absent is `undefined`. */
  type FrontMatter = map<string, Yaml>

  datatype Meta = Meta(
    title: string,
    date: string,
    description: Option<string>,
    tags: Option<seq<string>>,
    category: Option<string>)

  datatype Post = Post(slug: string, meta: Meta, content: string, html: string)

  /** `String(v)`; inside an array, `null` is written as nothing, as
      `Array.prototype.join` does. */
  function Show(v: Yaml): string
    decreases v, 1
  {
    match v
    case Null => "null"
    case Str(s) => s
    case Scalar(t) => t
    case DateVal(_, _, _, d) => d
    case Arr(items) => ShowItems(v, items)
    case Obj => "[object Object]"
  }

  function ShowItems(v: Yaml, items: seq<Yaml>): string
    requires forall i :: 0 <= i < |items| ==> items[i] < v
    decreases v, 0, |items|
  {
    if items == [] then ""
    else
      (if items[0].Null? then "" else Show(items[0]))
      + (if |items| == 1 then "" else "," + ShowItems(v, items[1..]))
  }

  /** Leap years of the proleptic Gregorian calendar `Date` uses. */
  predicate IsLeapYear(year: int)
  {
    year % 4 == 0 && (year % 100 != 0 || year % 400 == 0)
  }

  /** The number of days of month `month` (1 to 12) of `year`. */
  function DaysInMonth(year: int, month: int): (n: int)
    requires 1 <= month <= 12
    ensures 28 <= n <= 31
    ensures n == 29 <==> month == 2 && IsLeapYear(year)
  {
    if month == 2 then (if IsLeapYear(year) then 29 else 28)
    else if month == 4 || month == 6 || month == 9 || month == 11 then 30
    else 31
  }

  /** A calendar date `Date` can represent (years -271821 to 275760). */
  predicate ValidDate(year: int, month: int, day: int)
  {
    -271821 <= year <= 275760 && 1 <= month <= 12 && 1 <= day <= DaysInMonth(year, month)
  }

  /** The first ten characters of `toISOString()`: `YYYY-MM-DD` for years
      0 to 9999, and a sign, six year digits and the month otherwise. */
  function IsoPrefix(year: int, month: int, day: int): (r: string)
    requires ValidDate(year, month, day)
    ensures |r| == 10
  {
    if 0 <= year <= 9999 then
      Digits(year, 4) + "-" + Digits(month, 2) + "-" + Digits(day, 2)
    else
      (if year < 0 then "-" else "+") + Digits(if year < 0 then -year else year, 6) + "-" + Digits(month, 2)
  }

  /** `dateToString`: no value gives `""`, a string is kept whole, a date
      gives its ISO prefix and anything else the first ten characters of
      its `String(v)`. */
  function DateToString(v: Option<Yaml>): (r: string)
    requires v.Some? && v.value.DateVal? ==> ValidDate(v.value.year, v.value.month, v.value.day)
    ensures v.None? || v.value.Null? ==> r == ""
    ensures v.Some? && v.value.Str? ==> r == v.value.s
    ensures v.Some? && v.value.DateVal? ==> |r| == 10
    ensures v.Some? && !v.value.Str? ==> |r| <= 10
  {
    match v
    case None => ""
    case Some(Null) => ""
    case Some(Str(s)) => s
    case Some(DateVal(y, m, d, _)) => IsoPrefix(y, m, d)
    case Some(x) => Take(Show(x), 10)
  }

  /** For years 0 to 9999 the date string reads back as the date it was
      made from. */
  lemma DateRoundTrip(y: int, m: int, d: int, display: string)
    requires ValidDate(y, m, d) && 0 <= y <= 9999
    ensures var r := DateToString(Some(DateVal(y, m, d, display)));
      && |r| == 10 && r[4] == '-' && r[7] == '-'
      && AllDigits(r[..4]) && AllDigits(r[5..7]) && AllDigits(r[8..])
      && ParseNat(r[..4]) == y && ParseNat(r[5..7]) == m && ParseNat(r[8..]) == d
  {
    var r := DateToString(Some(DateVal(y, m, d, display)));
    assert r == IsoPrefix(y, m, d);
    IsoPrefixParts(y, m, d);
    DigitsRoundTrip(y, 4);
    DigitsRoundTrip(m, 2);
    DigitsRoundTrip(d, 2);
  }

  lemma IsoPrefixParts(y: int, m: int, d: int)
    requires ValidDate(y, m, d) && 0 <= y <= 9999
    ensures var r := IsoPrefix(y, m, d);
      r[..4] == Digits(y, 4) && r[4] == '-' && r[5..7] == Digits(m, 2) && r[7] == '-' && r[8..] == Digits(d, 2)
  {
    var a, b, c := Digits(y, 4), Digits(m, 2), Digits(d, 2);
    var r := a + "-" + b + "-" + c;
    assert IsoPrefix(y, m, d) == r;
    assert r[..4] == a && r[5..7] == b && r[8..] == c;
  }

  /** `v != null && v !== ""`. */
  predicate IsSetValue(v: Yaml)
  {
    v != Null && v != Str("")
  }

  /** `getCategory`: `category` when it is set, else the first element of a
      non-empty `categories` array, else a non-empty `categories` string. */
  function GetCategory(data: FrontMatter): Option<string>
  {
    if "category" in data && IsSetValue(data["category"]) then Some(Show(data["category"]))
    else if "categories" in data && data["categories"].Arr? && |data["categories"].items| > 0 then
      Some(Show(data["categories"].items[0]))
    else if "categories" in data && data["categories"].Str? && data["categories"].s != "" then
      Some(data["categories"].s)
    else None
  }

  /** A set `category` wins whatever `categories` holds. */
  lemma CategoryFirst(data: FrontMatter, cats: Yaml)
    requires "category" in data && IsSetValue(data["category"])
    ensures GetCategory(data["categories" := cats]) == GetCategory(data) == Some(Show(data["category"]))
  {
  }

  /** The first element of a `categories` array is taken even when it is
      empty: the array is not searched for a usable element. */
  lemma FirstCategoryEvenIfEmpty(data: FrontMatter, rest: seq<Yaml>)
    requires "category" !in data
    requires "categories" in data && data["categories"] == Arr([Str("")] + rest)
    ensures GetCategory(data) == Some("")
  {
  }

  /** There is no category exactly when neither key holds a usable value. */
  lemma NoCategory(data: FrontMatter)
    ensures GetCategory(data).None? <==>
      && ("category" !in data || !IsSetValue(data["category"]))
      && ("categories" !in data || !(data["categories"].Arr? || data["categories"].Str?)
          || (data["categories"].Arr? && data["categories"].items == [])
          || data["categories"] == Str(""))
  {
  }

  predicate NonEmpty(s: string) { s != [] }

  /** Every tag is non-empty and has no surrounding whitespace. */
  predicate CleanTags(tags: seq<string>)
  {
    forall i :: 0 <= i < |tags| ==> tags[i] != [] && IsTrimmed(tags[i])
  }

  /** Trimming every string and dropping the empty ones leaves non-empty
      trimmed strings, at most one per input string. */
  lemma TrimmedNonEmpty(xs: seq<string>)
    ensures CleanTags(Filter(Map(xs, Trim), NonEmpty))
  {
    var ys := Map(xs, Trim);
    var r := Filter(ys, NonEmpty);
    forall i | 0 <= i < |r| ensures r[i] != [] && IsTrimmed(r[i]) {
      var y := r[i];
      FilterMember(ys, NonEmpty, y);
      var j := MapPreimage(xs, Trim, y);
      TrimSpec(xs[j]);
    }
  }

  function TrimAll(xs: seq<string>): (r: seq<string>)
    ensures CleanTags(r)
    ensures |r| <= |xs|
  {
    TrimmedNonEmpty(xs);
    Filter(Map(xs, Trim), NonEmpty)
  }

  /** `getTags`: an array gives the trimmed non-empty `String` forms of its
      elements, a string its trimmed non-empty comma-separated pieces, and
      anything else no tags; order and repeats are kept. */
  function GetTags(v: Option<Yaml>): (r: seq<string>)
    ensures CleanTags(r)
    ensures v.Some? && v.value.Str? ==> |r| <= |SplitOn(v.value.s, ',')|
    ensures v.Some? && v.value.Arr? ==> |r| <= |v.value.items|
    ensures v.None? || !(v.value.Arr? || v.value.Str?) ==> r == []
  {
    if v.Some? && v.value.Arr? then
      TrimAll(Map(v.value.items, Show))
    else if v.Some? && v.value.Str? then
      TrimAll(SplitOn(v.value.s, ','))
    else []
  }

  /** Strings that are already non-empty and trimmed pass unchanged. */
  lemma TrimAllFixed(xs: seq<string>)
    requires CleanTags(xs)
    ensures TrimAll(xs) == xs
  {
    forall i | 0 <= i < |xs| ensures Trim(xs[i]) == xs[i] {
      TrimSpec(xs[i]);
    }
    assert Map(xs, Trim) == xs;
    FilterAll(xs, NonEmpty);
  }

  /** `getTags("a, b ,c")` is `["a", "b", "c"]`, for any three letters. */
  lemma TagsExample(a: char, b: char, c: char)
    requires !IsSpace(a) && !IsSpace(b) && !IsSpace(c)
    requires a != ',' && b != ',' && c != ','
    ensures GetTags(Some(Str([a, ',', ' ', b, ' ', ',', c]))) == [[a], [b], [c]]
  {
    var s := [a, ',', ' ', b, ' ', ',', c];
    var parts := [[a], [' ', b, ' '], [c]];
    var tags := [[a], [b], [c]];
    assert GetTags(Some(Str(s))) == TrimAll(SplitOn(s, ','));
    ExampleSplit(a, b, c);
    assert TrimAll(parts) == Filter(Map(parts, Trim), NonEmpty);
    ExampleTrim(a, b, c);
    ExampleKept(a, b, c);
  }

  lemma ExampleKept(a: char, b: char, c: char)
    ensures Filter([[a], [b], [c]], NonEmpty) == [[a], [b], [c]]
  {
    FilterAll([[a], [b], [c]], NonEmpty);
  }

  lemma ExampleSplit(a: char, b: char, c: char)
    requires a != ',' && b != ',' && c != ','
    ensures SplitOn([a, ',', ' ', b, ' ', ',', c], ',') == [[a], [' ', b, ' '], [c]]
  {
    var sb := [' ', b, ' '];
    assert [a, ',', ' ', b, ' ', ',', c] == [a] + [','] + (sb + [','] + [c]);
    SplitNoSep([c], ',');
    SplitConcat(sb, [c], ',');
    SplitConcat([a], sb + [','] + [c], ',');
  }

  lemma ExampleTrim(a: char, b: char, c: char)
    requires !IsSpace(a) && !IsSpace(b) && !IsSpace(c)
    ensures Map([[a], [' ', b, ' '], [c]], Trim) == [[a], [b], [c]]
  {
    var xs := [[a], [' ', b, ' '], [c]];
    var m := Map(xs, Trim);
    assert m == [Trim(xs[0]), Trim(xs[1]), Trim(xs[2])];
    TrimOne(a);
    TrimOne(c);
    TrimPadded(b);
  }

  lemma TrimOne(a: char)
    requires !IsSpace(a)
    ensures Trim([a]) == [a]
  {
  }

  lemma TrimPadded(b: char)
    requires !IsSpace(b)
    ensures Trim([' ', b, ' ']) == [b]
  {
    assert [' ', b, ' '][1..] == [b, ' '];
    assert TrimStart([b, ' ']) == [b, ' '];
    assert [b, ' '][..1] == [b];
    assert TrimEnd([b]) == [b];
  }

  /** Tags that are non-empty, trimmed and free of commas survive being
      written as a comma-separated string: order and repeats are kept. */
  lemma TagsStringRoundTrip(tags: seq<string>)
    requires CleanTags(tags)
    requires forall i :: 0 <= i < |tags| ==> ',' !in tags[i]
    ensures GetTags(Some(Str(JoinWith(tags, [','])))) == tags
  {
    var j := JoinWith(tags, [',']);
    assert GetTags(Some(Str(j))) == TrimAll(SplitOn(j, ','));
    if tags != [] {
      JoinSplit(tags, ',');
      assert SplitOn(j, ',') == tags;
      TrimAllFixed(tags);
    } else {
      assert SplitOn(j, ',') == [[]];
      assert Map([[]], Trim) == [[]];
    }
  }

  /** Tags that are non-empty and trimmed survive being written as a YAML
      list of strings. */
  lemma TagsListRoundTrip(tags: seq<string>)
    requires CleanTags(tags)
    ensures GetTags(Some(Arr(Map(tags, StrOf)))) == tags
  {
    assert Map(Map(tags, StrOf), Show) == tags;
    TrimAllFixed(tags);
  }

  function StrOf(s: string): Yaml { Str(s) }

  /** The `YYYY-MM-DD-` prefix that `^\d{4}-\d{2}-\d{2}-` matches. */
  predicate IsDatePrefix(p: string)
  {
    |p| == 11 && AllDigits(p[..4]) && p[4] == '-' && AllDigits(p[5..7]) && p[7] == '-'
    && AllDigits(p[8..10]) && p[10] == '-'
  }

  function StripDatePrefix(f: string): (r: string)
  {
    if |f| >= 11 && IsDatePrefix(f[..11]) then f[11..] else f
  }

  predicate IsMd(f: string)
  {
    |f| >= 3 && f[|f| - 3..] == ".md"
  }

  function StripMd(f: string): string
  {
    if IsMd(f) then f[..|f| - 3] else f
  }

  /** The slug of a post file: the file name without its date prefix and
      without its `.md` extension. */
  function Slug(file: string): (r: string)
    ensures |r| <= |file|
  {
    StripMd(StripDatePrefix(file))
  }

  /** A dated file name gives back the name between prefix and extension,
      and only one date prefix is removed. */
  lemma SlugOfDated(prefix: string, name: string)
    requires IsDatePrefix(prefix)
    ensures Slug(prefix + name + ".md") == name
  {
    var f := prefix + name + ".md";
    assert f[..11] == prefix;
    assert f[11..] == name + ".md";
  }

  lemma SlugOfUndated(name: string)
    requires |name| < 11 || !IsDatePrefix(name[..11])
    ensures Slug(name + ".md") == name
  {
    var f := name + ".md";
    if |f| >= 11 {
      assert f[..11] == (name + ".md")[..11];
      if |name| >= 11 {
        assert f[..11] == name[..11];
      } else {
        assert f[10] == '.' || f[10] == 'm' || f[10] == 'd' || |name| < 10;
        assert |name| == 10 ==> f[10] == '.';
        assert |name| == 9 ==> f[10] == 'm';
        assert |name| == 8 ==> f[10] == 'd';
      }
    }
  }

  lemma SlugExample()
    ensures Slug("2024-01-01-hello-world.md") == "hello-world"
  {
    SlugOfDated("2024-01-01-", "hello-world");
    assert "2024-01-01-" + "hello-world" + ".md" == "2024-01-01-hello-world.md";
  }

  /** The metadata of a post, built from its front matter. */
  function BuildMeta(data: FrontMatter): Meta
    requires "date" in data && data["date"].DateVal? ==>
      ValidDate(data["date"].year, data["date"].month, data["date"].day)
  {
    Meta(
      if "title" !in data || data["title"] == Null then "Untitled" else Show(data["title"]),
      DateToString(if "date" in data then Some(data["date"]) else None),
      if "description" !in data || data["description"] == Null then None else Some(Show(data["description"])),
      Some(GetTags(if "tags" in data then Some(data["tags"]) else None)),
      GetCategory(data))
  }

  /** The title defaults only when it is missing: an empty title stays
      empty (the default is applied with `??`, not `||`). */
  lemma TitleDefault(data: FrontMatter)
    requires "date" in data && data["date"].DateVal? ==>
      ValidDate(data["date"].year, data["date"].month, data["date"].day)
    ensures "title" !in data ==> BuildMeta(data).title == "Untitled"
    ensures "title" in data && data["title"].Str? ==> BuildMeta(data).title == data["title"].s
  {
  }

  /** A front matter whose date, if any, is a representable date. */
  predicate GoodFrontMatter(data: FrontMatter)
  {
    "date" in data && data["date"].DateVal? ==> ValidDate(data["date"].year, data["date"].month, data["date"].day)
  }

  /** Reading, parsing and rendering one file, any step of which may fail
      (the body of the `try` block). */
  function LoadFile(file: string, read: string -> Result<string>,
                    parse: string -> Result<(FrontMatter, string)>,
                    render: string -> Result<string>): (r: Result<Post>)
    ensures r.Ok? ==> r.value.slug == Slug(file)
  {
    match read(file)
    case Fail(e) => Fail(e)
    case Ok(raw) =>
      match parse(raw)
      case Fail(e) => Fail(e)
      case Ok(fm) =>
        if !GoodFrontMatter(fm.0) then Fail("Invalid time value")
        else
          match render(fm.1)
          case Fail(e) => Fail(e)
          case Ok(html) => Ok(Post(Slug(file), BuildMeta(fm.0), fm.1, html))
  }

  /** The posts of the files for which `load` succeeds, in file order. */
  function LoadedBy(files: seq<string>, load: string -> Result<Post>): (r: seq<Post>)
    ensures |r| <= |files|
  {
    if files == [] then []
    else
      var p := load(files[|files| - 1]);
      LoadedBy(files[..|files| - 1], load) + (if p.Ok? then [p.value] else [])
  }

  lemma {:induction false} LoadedByAppend(a: seq<string>, b: seq<string>, load: string -> Result<Post>)
    ensures LoadedBy(a + b, load) == LoadedBy(a, load) + LoadedBy(b, load)
    decreases |b|
  {
    if b == [] {
      assert a + b == a;
    } else {
      var b', x := b[..|b| - 1], b[|b| - 1];
      var ab := a + b;
      assert ab[..|ab| - 1] == a + b' && ab[|ab| - 1] == x;
      LoadedByAppend(a, b', load);
    }
  }

  lemma {:induction false} LoadedByFrom(files: seq<string>, load: string -> Result<Post>, i: int) returns (j: int)
    requires 0 <= i < |LoadedBy(files, load)|
    ensures 0 <= j < |files| && load(files[j]) == Ok(LoadedBy(files, load)[i])
  {
    var init := files[..|files| - 1];
    var r0 := LoadedBy(init, load);
    if i < |r0| {
      j := LoadedByFrom(init, load, i);
      assert files[j] == init[j];
    } else {
      j := |files| - 1;
    }
  }

  /** The `try` block as a function of the file name. */
  function Loader(read: string -> Result<string>,
                  parse: string -> Result<(FrontMatter, string)>,
                  render: string -> Result<string>): string -> Result<Post>
  {
    (file: string) => LoadFile(file, read, parse, render)
  }

  /** The posts of the files that load, in file order. */
  function Loaded(files: seq<string>, read: string -> Result<string>,
                  parse: string -> Result<(FrontMatter, string)>,
                  render: string -> Result<string>): (r: seq<Post>)
    ensures |r| <= |files|
  {
    LoadedBy(files, Loader(read, parse, render))
  }

  /** Files load independently: a file that fails removes its own post
      and nothing else. */
  lemma LoadedAppend(a: seq<string>, b: seq<string>, read: string -> Result<string>,
                     parse: string -> Result<(FrontMatter, string)>,
                     render: string -> Result<string>)
    ensures Loaded(a + b, read, parse, render) == Loaded(a, read, parse, render) + Loaded(b, read, parse, render)
  {
    LoadedByAppend(a, b, Loader(read, parse, render));
  }

  lemma LoadedStep(files: seq<string>, i: nat, read: string -> Result<string>,
                   parse: string -> Result<(FrontMatter, string)>,
                   render: string -> Result<string>)
    requires i < |files|
    ensures var p := LoadFile(files[i], read, parse, render);
      Loaded(files[..i + 1], read, parse, render) ==
        Loaded(files[..i], read, parse, render) + if p.Ok? then [p.value] else []
  {
    assert files[..i + 1][..i] == files[..i];
    assert Loader(read, parse, render)(files[i]) == LoadFile(files[i], read, parse, render);
  }

  lemma LoadedOne(f: string, read: string -> Result<string>,
                  parse: string -> Result<(FrontMatter, string)>,
                  render: string -> Result<string>)
    ensures Loaded([f], read, parse, render) ==
      if LoadFile(f, read, parse, render).Ok? then [LoadFile(f, read, parse, render).value] else []
  {
    assert [f][..0] == [];
    assert Loader(read, parse, render)(f) == LoadFile(f, read, parse, render);
  }

  /** Every loaded post comes from one of the files, and carries its slug. */
  lemma LoadedFrom(files: seq<string>, read: string -> Result<string>,
                   parse: string -> Result<(FrontMatter, string)>,
                   render: string -> Result<string>, i: int)
    requires 0 <= i < |Loaded(files, read, parse, render)|
    ensures exists j :: 0 <= j < |files| && LoadFile(files[j], read, parse, render) == Ok(Loaded(files, read, parse, render)[i])
  {
    var j := LoadedByFrom(files, Loader(read, parse, render), i);
    assert Loader(read, parse, render)(files[j]) == LoadFile(files[j], read, parse, render);
  }

  function PostDate(p: Post): string { p.meta.date }

  /** `loadPosts`: the Markdown files of the listing, each read, parsed and
      rendered in a `try` block that drops the file on failure, then sorted
      by date, newest first (`b.date.localeCompare(a.date)`), equal dates
      keeping their file order. A missing directory gives no posts. */
  method LoadPosts(dirExists: bool, listing: seq<string>, read: string -> Result<string>,
                   parse: string -> Result<(FrontMatter, string)>,
                   render: string -> Result<string>) returns (posts: seq<Post>)
    ensures !dirExists ==> posts == []
    ensures dirExists ==> posts == SortBy(Loaded(Filter(listing, IsMd), read, parse, render), PostDate, LexGe)
    ensures |posts| <= |Filter(listing, IsMd)|
    ensures SortedBy(posts, PostDate, LexGe)
  {
    if !dirExists {
      return [];
    }
    var files := Filter(listing, IsMd);
    posts := [];
    var i := 0;
    while i < |files|
      invariant 0 <= i <= |files|
      invariant posts == Loaded(files[..i], read, parse, render)
    {
      var file := files[i];
      LoadedStep(files, i, read, parse, render);
      var loaded := LoadFile(file, read, parse, render);
      if loaded.Ok? {
        posts := posts + [loaded.value];
      }
      i := i + 1;
    }
    assert files[..i] == files;
    LexOrders();
    SortBySorted(posts, PostDate, LexGe);
    posts := SortBy(posts, PostDate, LexGe);
  }

  /** In the loaded order, posts without a date come last. */
  lemma EmptyDatesLast(posts: seq<Post>, i: int, j: int)
    requires SortedBy(posts, PostDate, LexGe)
    requires 0 <= i < j < |posts| && posts[i].meta.date == ""
    ensures posts[j].meta.date == ""
  {
    assert LexGe(PostDate(posts[i]), PostDate(posts[j]));
  }

  /** Posts with the same date keep the order of the directory listing. */
  lemma SameDateKeepsOrder(files: seq<string>, read: string -> Result<string>,
                           parse: string -> Result<(FrontMatter, string)>,
                           render: string -> Result<string>, d: string)
    ensures WithKey(SortBy(Loaded(files, read, parse, render), PostDate, LexGe), PostDate, d)
         == WithKey(Loaded(files, read, parse, render), PostDate, d)
  {
    LexOrders();
    SortByStable(Loaded(files, read, parse, render), PostDate, LexGe, d);
  }
}
