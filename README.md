# A verified model of a static blog's post pipeline and indices

This project models, in Dafny, the part of a small React static-blog front end that computes
things from the list of posts rather than drawing them:

- **Loading posts** (`src/posts.ts`): front matter is normalised: date coercion, category
  precedence, and splitting and trimming of tags. The slug comes from the file name. Every
  `.md` file is loaded in its own `try` block, so one bad file drops only its own post. The
  posts are then sorted newest first by a stable sort.
- **Grouping** (`src/pages/Archive.tsx`, `src/components/Sidebar.tsx`): posts are put into
  buckets by category, by tag, and by year and month, with the 未分类 bucket for a missing
  key. Buckets are sorted by size and years and months in reverse order. The sidebar's
  search prunes the grouping.
- **Counting** (`src/pages/About.tsx`, `src/pages/Categories.tsx`, `src/pages/Tags.tsx`,
  `src/components/KeywordSphere.tsx`, `src/components/HeatRanking.tsx`): count tables are
  sorted by count. The keyword cloud keeps the top 60 words. The popularity list ranks
  posts by visit count.
- **Searching** (`src/components/SearchModal.tsx`, `src/pages/TagPosts.tsx`): substring
  matching after case and whitespace normalisation, and order-preserving filters.
- **The post page** (`src/pages/Post.tsx`): character count and reading time, the
  table of contents grouped into sections, heading slugs and unique heading ids.
- **Visit counts** (`src/hooks/usePostVisits.ts`): the increment of one slug's count.

Modules follow the program:

- `Posts`: `src/posts.ts`.
- `Facets`: the category and tag of a post as the pages read them.
- `Calendar`: year and month keys and the nested year/month record.
- One module per page or component: `Archive`, `Sidebar`, `Search`, `PostPage`, `Keywords`,
  `Heat`, `Stats`, `TagPage` and `Visits`.
- `Toggles`: the collapse sets.
- Library modules for the JavaScript built-ins the code relies on:
  - `Records`: a JavaScript object used as a dictionary. It is a sequence of
    (key, value) pairs with distinct keys in insertion order. `Records.Entries` enumerates it
    as `Object.entries` and `Object.keys` do: keys that are array indices ("0", "2024", ...)
    come first in ascending numeric order, then the other keys in insertion order.
  - `Tables`: count and bucket tables sorted by size.
  - `Sorting`: `Array.prototype.sort` as one stable insertion sort, specified by
    permutation, order and stability.
  - `Text`: `trim`, `toLowerCase`, `split`, `join`, `includes`, `replace(/\s+/g, ...)`,
    `localeCompare`, decimal numerals.
  - `Markdown`: the regular-expression rewrites that strip Markdown syntax.
  - `Seqs`: generic sequence lemmas.
  - `Wrappers`: `Option` and `Result`.

Code that loops and mutates is modelled by methods with loop invariants. Each such method
is proved equal to a specification function:

- `Archive.GroupByCategory`, `Archive.GroupByTag` and `Archive.GroupByTime`;
- `Sidebar.GroupPostsByYearMonth`;
- `Stats.CategoryStats`, `Stats.TagStats` and `Stats.TimeStats`;
- `Keywords.ExtractKeywords` and `Heat.TagList`;
- `Posts.LoadPosts` and `PostPage.TocToSections`;
- the `PostPage.HeadingIds` class, whose `used` set is the `usedIds` set that `ensureId`
  mutates; its heading loop is proved to give each heading the id `PostPage.Assigned`
  prescribes.

What the source promises is then proved about those functions. Map and filter chains are
modelled as functions.

Foreign and environment inputs are parameters:

- the directory listing and whether the directory exists;
- `readFileSync`, gray-matter's `matter` and marked's `marked` are functions that return a
  `Result`, so any of them may fail;
- the visit counts and the search query.


## Model

| member | source | states |
|---|---|---|
| Posts.DateToString | src/posts.ts:29-34 | no value or `null` gives `""`; a string is returned whole, untruncated; a date gives ten characters; any other value at most ten |
| Posts.DateRoundTrip | src/posts.ts:32 | for a date in years 0 to 9999 the string is `YYYY-MM-DD`: digits at the right places, dashes at 4 and 7, and the three numbers read back as the year, month and day |
| Posts.CategoryFirst | src/posts.ts:38 | a set (non-null, non-empty) `category` is returned whatever `categories` holds |
| Posts.FirstCategoryEvenIfEmpty | src/posts.ts:40 | with no `category`, a `categories` array whose first element is `""` gives `""`: the first element is taken even when empty |
| Posts.GetCategory | src/posts.ts:37-43 | `getCategory`: a set `category` as text, else the first element of a `categories` array, else a non-empty `categories` string, else none; its cases are the ensures of `Posts.CategoryFirst`, `Posts.FirstCategoryEvenIfEmpty` and `Posts.NoCategory` |
| Posts.NoCategory | src/posts.ts:37-43 | there is no category exactly when `category` is unset and `categories` is absent, not an array or string, an empty array, or the empty string |
| Posts.TrimmedNonEmpty | src/posts.ts:49-52 | trimming every string and dropping the empty ones leaves only non-empty strings equal to their own trim |
| Posts.TrimAll | src/posts.ts:49-52 | the `.map(trim).filter(Boolean)` chain: clean tags, no more of them than inputs |
| Posts.GetTags | src/posts.ts:46-55 | the tags are clean (non-empty, trimmed); a string gives at most as many tags as comma-separated pieces, an array at most as many as elements; any other value, or none, gives `[]` |
| Posts.TrimAllFixed | src/posts.ts:49-52 | clean tags pass the chain unchanged (order and repeats kept) |
| Posts.TagsExample | src/posts.ts:51-52 | `"a, b ,c"` (any three non-space, non-comma characters) gives `["a","b","c"]` |
| Posts.TagsStringRoundTrip | src/posts.ts:51-52 | clean tags without commas, written as one comma-separated string, read back as the same list, repeats and order included |
| Posts.TagsListRoundTrip | src/posts.ts:48-49 | clean tags written as a YAML list of strings read back as the same list |
| Posts.SlugOfDated | src/posts.ts:67 | `YYYY-MM-DD-name.md` gives `name`; only one date prefix is removed even if `name` starts with another |
| Posts.SlugOfUndated | src/posts.ts:67 | a file name without a date prefix loses only its `.md` |
| Posts.SlugExample | src/posts.ts:67 | `2024-01-01-hello-world.md` gives `hello-world` |
| Posts.BuildMeta | src/posts.ts:71-77 | the `meta` of a loaded post: title with the `"Untitled"` default, date string, description, tags and category; stated by `Posts.TitleDefault` and the lemmas on each field (see "## Left out" for non-string titles) |
| Posts.TitleDefault | src/posts.ts:72 | a missing title becomes `"Untitled"`; a string title, even `""`, is kept |
| Posts.LoadFile | src/posts.ts:63-80 | the body of the `try` block: a post that loads carries the slug of its file name |
| Posts.LoadedAppend | src/posts.ts:62-84 | files load independently: the posts of `a + b` are the posts of `a` followed by those of `b` |
| Posts.LoadedStep | src/posts.ts:62-84 | one turn of the loop appends the file's post when it loads and nothing when it fails |
| Posts.LoadedOne | src/posts.ts:63-83 | one file gives its post or, when any step throws, nothing |
| Posts.LoadedFrom | src/posts.ts:62-84 | every loaded post is the successful result of loading one of the files |
| Posts.LoadPosts | src/posts.ts:57-92 | a missing directory gives `[]`; otherwise the result is the loaded `.md` files sorted newest first by the stable sort, no more posts than `.md` files, ordered by non-increasing date |
| Posts.EmptyDatesLast | src/posts.ts:86-90 | in the sorted list every post after an undated one is undated |
| Posts.SameDateKeepsOrder | src/posts.ts:86-90 | posts with equal dates keep the order of the directory listing |
| Facets.CategoryKey | src/pages/Archive.tsx:12 | the bucket key of a post is never empty: its category or `"未分类"` |
| Facets.TagStreamMember | src/pages/Archive.tsx:25-26 | a tag occurs in the stream of all tag occurrences exactly when some post lists it |
| Facets.TagStreamSize | src/pages/Tags.tsx:8-10 | the stream holds as many tags as the posts list in total, repeats included |
| Posts.IsoPrefix | src/posts.ts:32 | the first ten characters of `toISOString()` always have length ten |
| Posts.IsoPrefixParts | src/posts.ts:32 | for years 0 to 9999: four year digits, `-`, two month digits, `-`, two day digits |
| Posts.ExampleKept | src/posts.ts:52 | `filter(Boolean)` keeps three one-character pieces |
| Posts.ExampleSplit | src/posts.ts:52 | `"a, b ,c".split(",")` gives `"a"`, `" b "` and `"c"` |
| Posts.ExampleTrim | src/posts.ts:52 | trimming those pieces gives `"a"`, `"b"` and `"c"` |
| Posts.TrimOne | src/posts.ts:52 | a single non-whitespace character is its own trim |
| Posts.TrimPadded | src/posts.ts:52 | a character padded by one space on each side trims to itself |
| Posts.Slug | src/posts.ts:67 | the slug is never longer than the file name |
| Posts.LoadedBy | src/posts.ts:62-84 | no more posts than files |
| Posts.LoadedByAppend | src/posts.ts:62-84 | files are loaded independently of each other |
| Posts.LoadedByFrom | src/posts.ts:62-84 | every post kept is the successful load of some file |
| Posts.Loaded | src/posts.ts:62-84 | no more posts than files |
| Archive.SortedCopy | src/pages/Archive.tsx:16-18 | sorting the keys by bucket size and copying each bucket in that order gives distinct keys and the enumerated buckets sorted by size |
| Archive.SortBuckets | src/pages/Archive.tsx:16-18 | the copy loop returns the buckets in enumeration order, stably sorted by size, largest first |
| Archive.CategoryStep | src/pages/Archive.tsx:11-15 | one turn of the loop pushes the post onto the bucket of its category |
| Archive.GroupByCategory | src/pages/Archive.tsx:9-20 | `groupByCategory` returns the bucket table of the pairs (category, post) |
| Archive.CategoryPairsKeys | src/pages/Archive.tsx:12-14 | the pushes are keyed by the posts' categories; the values pushed under `k` are the posts of category `k`, in order |
| Archive.CategoriesSpec | src/pages/Archive.tsx:9-20 | one bucket per category that occurs (未分类 for none), holding exactly that category's posts in their original order; the sizes add up to the number of posts; larger buckets come first |
| Archive.CategoryMember | src/pages/Archive.tsx:12-14 | a post is in the bucket of `k` exactly when it is one of the posts and its category is `k` |
| Archive.TagStep | src/pages/Archive.tsx:25-28 | one turn of the inner loop pushes the post onto the bucket of that tag |
| Archive.GroupByTag | src/pages/Archive.tsx:22-34 | `groupByTag` returns the bucket table of the pairs (tag, post), one per tag occurrence |
| Archive.TagEntriesKeys | src/pages/Archive.tsx:25-27 | the pushes of one post are keyed by its tags, in order |
| Archive.TagEntriesSelect | src/pages/Archive.tsx:25-27 | one post's pushes put the post under `tag` exactly when it lists `tag`, and put nothing else there |
| Archive.TagEntriesSelectOnce | src/pages/Archive.tsx:25-27 | a post that lists its tags without repeats is pushed once under each of them and never elsewhere |
| Archive.TagPairsStep | src/pages/Archive.tsx:24-28 | one turn of the outer loop appends the pushes of one post |
| Archive.TagPairsMember | src/pages/Archive.tsx:24-28 | a tag gets a bucket exactly when some post lists it; a post is in it exactly when the post lists the tag |
| Archive.TagPairsSelect | src/pages/Archive.tsx:24-28 | when no post repeats a tag, the bucket of a tag is the posts listing it, in their original order |
| Archive.TagPairsSize | src/pages/Archive.tsx:24-28 | the number of pushes is the total number of tag occurrences |
| Archive.TagsSpec | src/pages/Archive.tsx:22-34 | one bucket per tag that some post lists, holding exactly the posts that list it; sizes add up to the tag occurrences; larger buckets first |
| Archive.SortMonths | src/pages/Archive.tsx:49-56 | the inner loop returns the months in reverse order, each with a copy of its posts sorted newest first |
| Archive.NestYearValid | src/pages/Archive.tsx:42-44 | the months of any year form a record without repeated keys |
| Archive.IndexByTime | src/pages/Archive.tsx:38-45 | the first loop builds the nested record of years and months of the posts |
| Archive.YearsDistinct | src/pages/Archive.tsx:46 | the sorted years hold no repeats |
| Archive.SortYears | src/pages/Archive.tsx:46-57 | the second loop fills the result with the years in reverse order, each with its months sorted |
| Archive.GroupByTime | src/pages/Archive.tsx:36-59 | `groupByTime` returns the time table of the posts |
| Archive.TimeTable | src/pages/Archive.tsx:46-58 | the re-sorted copy of the nested record that `groupByTime` returns; its years, months and cells are stated by `Archive.TimeYears`, `Archive.TimeMonths` and `Archive.TimeCell` |
| Archive.TimeYears | src/pages/Archive.tsx:46-57 | the time table holds each year of the posts once, in strictly decreasing order, and no other year |
| Archive.TimeTableRow | src/pages/Archive.tsx:48-56 | the row of a year is the months of that year in the nested record, sorted |
| Archive.SortedMonthsLookup | src/pages/Archive.tsx:49-55 | sorting a year's months keeps each month exactly once, in strictly decreasing order, with its posts sorted by date |
| Archive.TimeMonths | src/pages/Archive.tsx:36-59 | under a year of the posts, the months listed are exactly the months in which that year has posts, strictly decreasing, each once |
| Archive.TimeCell | src/pages/Archive.tsx:52-54 | a month's list is a permutation of the posts of that year and month, sorted newest first, with posts of equal date in their original order |
| Archive.ShownTimeOrder | src/pages/Archive.tsx:164-186 | the page's re-sorting of years and of each year's months finds the order `groupByTime` already produced |
| Archive.IndexBeforeNamed | src/pages/Archive.tsx:72 | `Object.entries` lists a pair with an array-index key before any pair with another key |
| Archive.EntriesNotBySize | src/pages/Archive.tsx:72 | so a smaller bucket under an array-index key is listed before a larger one: the entries are not sorted by size |
| Archive.ShownCategoriesAsWritten | src/pages/Archive.tsx:72 | the category views list the buckets of `groupByCategory`, reordered by `Object.entries` |
| Archive.CategoriesShownOutOfOrder | src/pages/Archive.tsx:72 | a category named like an array index with fewer posts than another category is listed first, against the size order |
| Archive.ShownCategories | src/pages/Archive.tsx:16-18 | the same buckets as the view lists, in size order, largest first |
| Archive.ShownTagsAsWritten | src/pages/Archive.tsx:119 | the tag views list the buckets of `groupByTag`, reordered by `Object.entries` |
| Archive.TagsShownOutOfOrder | src/pages/Archive.tsx:119 | a tag named like an array index with fewer posts than another tag is listed first, against the size order |
| Archive.ShownTags | src/pages/Archive.tsx:30-32 | the same buckets as the view lists, in size order, largest first |
| Archive.ToggleArchive | src/pages/Archive.tsx:415-422 | the key is collapsed afterwards exactly when it was not before; no other key changes |
| Archive.ToggleKeysDistinct | src/pages/Archive.tsx:73-188 | category, tag, year and month groups never share a collapse key |
| Calendar.YearKey | src/pages/Archive.tsx:40 | the year key is never empty: the first four characters of the date, or 未分类 for a post without a date |
| Calendar.MonthKey | src/pages/Archive.tsx:41 | the month key is never empty: the first seven characters of the date, or the year key for a post without a date |
| Calendar.MonthDeterminesYear | src/pages/Archive.tsx:40-41 | the year key is the first four characters of the month key, so months of different years never share a key |
| Calendar.DateKeys | src/pages/Archive.tsx:40-41 | a date of seven characters or more is filed under its first four and its first seven characters, the year a prefix of the month |
| Calendar.TruncationKeepsKeys | src/components/Sidebar.tsx:9-11 | the sidebar's cut of the date to ten characters changes neither key, so sidebar and archive file posts alike |
| Calendar.YearEntriesSnoc | src/pages/Archive.tsx:38-45 | one more post adds its (month, post) pair to its own year and to no other |
| Calendar.NestKeys | src/pages/Archive.tsx:42 | the nested record holds each year of the posts once, in order of first occurrence |
| Calendar.NestLookup | src/pages/Archive.tsx:42-44 | the entry of a year that occurs is the month buckets of that year's posts; a year that does not occur has no entry |
| Calendar.YearEntriesKeys | src/pages/Archive.tsx:43-44 | the months pushed under a year are the months of its posts, and the posts pushed under a month are that month's posts in order |
| Calendar.Nest | src/pages/Archive.tsx:37-45 | the nested year/month record built by the `??=` loop; characterised by `Calendar.NestSpec` and built step by step as `Calendar.AddPostNest` states |
| Calendar.NestSpec | src/pages/Archive.tsx:38-45 | one entry per year of the posts, in order of first occurrence; under it one entry per month in which that year has posts, holding exactly the posts of that year and month in their original order; nothing else |
| Calendar.PostKeys | src/pages/Archive.tsx:38-45 | every post is filed: its year occurs, its month occurs in that year, and the cell of that year and month holds it |
| Calendar.CellMember | src/pages/Archive.tsx:43-44 | a cell holds exactly the posts of its year and month |
| Calendar.CellNonEmpty | src/pages/Archive.tsx:43-44 | a month that occurs in a year has a non-empty cell |
| Calendar.AddPostNest | src/pages/Archive.tsx:42-44 | the three statements of one loop turn (`??= {}`, `??= []`, push) extend the nested record of the first posts by the next post |
| Sidebar.MonthGroupsAt | src/components/Sidebar.tsx:18-20 | the months of a year are listed in reverse order, each with its own list |
| Sidebar.YearGroupsAt | src/components/Sidebar.tsx:16-17 | the years are listed in reverse order, each with its months |
| Sidebar.MonthKeysOfYear | src/components/Sidebar.tsx:18-20 | under a year of the posts, the months listed are exactly the months in which that year has posts, strictly decreasing |
| Sidebar.MonthListsOfYear | src/components/Sidebar.tsx:20 | each month lists the posts of that year and month in their original order |
| Sidebar.YearSpec | src/components/Sidebar.tsx:18-21 | the months of a year of the posts form that year's months grouping |
| Sidebar.ByYearMonth | src/components/Sidebar.tsx:6-23 | `groupPostsByYearMonth` as a function of the posts; characterised completely by `Sidebar.ByYearMonthSpec` |
| Sidebar.ByYearMonthSpec | src/components/Sidebar.tsx:6-23 | the grouping lists exactly the years of the posts, strictly decreasing, each with its months, strictly decreasing, each with its posts in their original order |
| Sidebar.GroupPostsByYearMonth | src/components/Sidebar.tsx:6-23 | `groupPostsByYearMonth` returns that grouping |
| Sidebar.Placement | src/components/Sidebar.tsx:6-23 | every post is listed under its own year and month, and a post listed anywhere is listed under its own year and month |
| Sidebar.NoEmptyCells | src/components/Sidebar.tsx:6-23 | no year and no month of a grouping is empty |
| Sidebar.MatchPost | src/components/Sidebar.tsx:25-31 | the sidebar's `matchPost`: a blank query, or a trimmed, lower-cased query contained in the lower-cased title or date; stated by `Sidebar.MatchQuery` and `Sidebar.MatchTitleOrDate` |
| Sidebar.MatchQuery | src/components/Sidebar.tsx:25-31 | a blank query matches every post; surrounding whitespace and letter case of the query change nothing |
| Sidebar.MatchTitleOrDate | src/components/Sidebar.tsx:28-30 | a title or date that contains the query makes the post match |
| Sidebar.ContainsLower | src/components/Sidebar.tsx:27-30 | lower-casing both sides keeps an occurrence |
| Sidebar.DescendingFilter | src/components/Sidebar.tsx:50-52 | dropping groups keeps the remaining keys strictly decreasing |
| Sidebar.DescendingMap | src/components/Sidebar.tsx:43-49 | rebuilding each group with the same key keeps the keys strictly decreasing |
| Sidebar.CellFilter | src/components/Sidebar.tsx:48 | filtering a cell's list is the cell of the filtered posts |
| Sidebar.MonthsInMember | src/components/Sidebar.tsx:10-11 | a month occurs in a year exactly when a post of that year and month exists |
| Sidebar.YearsMember | src/components/Sidebar.tsx:10 | a year occurs exactly when a post of that year exists |
| Sidebar.PrunedLists | src/components/Sidebar.tsx:46-50 | each month left after the search holds the matching posts of its cell |
| Sidebar.PrunedMonthKept | src/components/Sidebar.tsx:50 | a month left after the search has a matching post |
| Sidebar.PrunedMonthFound | src/components/Sidebar.tsx:50 | a month with a matching post is left after the search |
| Sidebar.PruneYearSpec | src/components/Sidebar.tsx:45-50 | the months left under a year are that year's months grouping of the matching posts |
| Sidebar.FilteredYearKept | src/components/Sidebar.tsx:52 | a year left after the search has a matching post |
| Sidebar.PrunedYearKept | src/components/Sidebar.tsx:52 | a year whose months survive has a matching post |
| Sidebar.FilteredYearFound | src/components/Sidebar.tsx:52 | a year with a matching post is left after the search |
| Sidebar.Filtered | src/components/Sidebar.tsx:40-53 | the sidebar's `filtered` memo: the grouping itself for a blank search, else each month cut to its matching posts with empty months and years dropped; stated by `Sidebar.FilteredSpec` and `Sidebar.SearchGrouping` |
| Sidebar.FilteredSpec | src/components/Sidebar.tsx:40-53 | a non-blank search turns the grouping of the posts into the grouping of the matching posts: no empty month or year is left, and order is kept |
| Sidebar.GroupingUnique | src/components/Sidebar.tsx:6-23 | a grouping is determined by its posts |
| Sidebar.SearchGrouping | src/components/Sidebar.tsx:40-53 | a blank search shows the grouping unchanged; any other search shows exactly the grouping of the matching posts |
| Sidebar.ToggleYear | src/components/Sidebar.tsx:55-62 | the year is collapsed afterwards exactly when it was not before; no other key changes |
| Sidebar.ToggleMonth | src/components/Sidebar.tsx:64-72 | the month's key flips; no other key changes |
| Sidebar.MonthToggleKeyInjective | src/components/Sidebar.tsx:65 | for years without a colon, different months get different keys |
| Sidebar.FirstColon | src/components/Sidebar.tsx:65 | the first colon of a month key ends the year |
| Search.Normalize | src/components/SearchModal.tsx:5-7 | the result is no longer than the input, empty exactly when the input is, has no upper-case letter and no two spaces in a row |
| Search.NormalizeIdempotent | src/components/SearchModal.tsx:5-7 | normalising twice is normalising once |
| Search.NormalizeIgnoresCase | src/components/SearchModal.tsx:5-7 | lower-casing before normalising changes nothing |
| Search.MatchPost | src/components/SearchModal.tsx:9-26 | the search modal's `matchPost`: an empty normalised query, or one contained in the normalised title, description, content or category, the raw date or the space-joined tags; stated by `Search.MatchPostNormalized` and `Search.MatchPostFields` |
| Search.MatchPostNormalized | src/components/SearchModal.tsx:9-11 | a query matches exactly as its normalised, or its lower-cased, form does |
| Search.MatchPostFields | src/components/SearchModal.tsx:9-25 | the empty query matches every post; a post whose normalised title or content contains the normalised query matches |
| Search.Results | src/components/SearchModal.tsx:40-43 | the results keep the posts' order; a blank query gives the first 20 posts; any other query gives every matching post and only matching posts |
| PostPage.CountedText | src/pages/Post.tsx:15-22 | the counted text has no whitespace and is no longer than the content |
| PostPage.CountChars | src/pages/Post.tsx:14-24 | the count never exceeds the length of the content |
| PostPage.PlainTextCount | src/pages/Post.tsx:15-23 | for content without Markdown syntax, the count is the number of non-whitespace characters |
| PostPage.ReadingMinutes | src/pages/Post.tsx:26-28 | at least one minute |
| PostPage.ReadingMinutesSpec | src/pages/Post.tsx:11-28 | up to 300 characters read in one minute; beyond that, the minutes are the least number whose 300 characters cover the count |
| PostPage.ReadingMinutesMonotone | src/pages/Post.tsx:26-28 | more characters never take fewer minutes |
| PostPage.MinLevel | src/pages/Post.tsx:39 | the section level is the level of some item and no item is at a lower level |
| PostPage.FirstAt | src/pages/Post.tsx:43-50 | the position of the first item at the section level: no earlier item is at that level |
| PostPage.FirstAtSnoc | src/pages/Post.tsx:43-50 | one more item moves the first position only when there was none and the item is at the level |
| PostPage.FlatAppend | src/pages/Post.tsx:37-52 | reading back sections is compatible with concatenation |
| PostPage.FlatSnoc | src/pages/Post.tsx:45-46 | a new section reads back as its head followed by its children |
| PostPage.ExtendLast | src/pages/Post.tsx:47-48 | pushing onto `current.children` changes only the last section, whose children gain the item; reading back gains the item at the end |
| PostPage.SectionsOf | src/pages/Post.tsx:43-50 | every head is at the section level and no child is; one section per item at that level |
| PostPage.GroupedOpen | src/pages/Post.tsx:44-46 | opening a section for an item at the section level keeps the grouping |
| PostPage.GroupedExtend | src/pages/Post.tsx:47-48 | adding a deeper item to the last section keeps the grouping |
| PostPage.SectionsOfStep | src/pages/Post.tsx:43-50 | one turn of the loop opens a section, extends the last one, or drops an item that comes before any section |
| PostPage.SectionsOfFlat | src/pages/Post.tsx:43-50 | there are sections exactly when some item is at the level; reading them back gives the items from the first one at that level on, nothing lost or reordered |
| PostPage.TocToSections | src/pages/Post.tsx:37-52 | an empty table gives no sections; otherwise the loop's result is the sections at the minimum level |
| PostPage.TocSections | src/pages/Post.tsx:37-52 | a non-empty table has at least one section, one per item at the minimum level; every head is at that level and every child deeper; reading back gives the items from the first one at that level on, so only items before it are dropped |
| PostPage.FlatMember | src/pages/Post.tsx:47-48 | a child of a section is among the items read back |
| PostPage.DefaultSlugIsSlug | src/pages/Post.tsx:82 | the fallback `heading` is itself a slug |
| PostPage.Slugify | src/pages/Post.tsx:76-83 | the result is never empty, has no upper-case letter and only word characters, CJK ideographs and `-` |
| PostPage.SlugNoSpace | src/pages/Post.tsx:80-81 | a slug holds no whitespace |
| PostPage.SlugFixed | src/pages/Post.tsx:76-83 | a slug is its own slug |
| PostPage.SlugifyIdempotent | src/pages/Post.tsx:76-83 | slugifying twice is slugifying once |
| PostPage.Suffix | src/pages/Post.tsx:93 | a suffix `-n` has at least two characters |
| PostPage.CandidateDistinct | src/pages/Post.tsx:89-94 | different attempts give different ids, so the search for a free id cannot revisit one |
| PostPage.NotTried | src/pages/Post.tsx:91-94 | a later id of a sequence of distinct ids was not among the ids tried before |
| PostPage.Progress | src/pages/Post.tsx:91-94 | each taken id that is tried leaves fewer taken ids untried: the loop terminates |
| PostPage.CandidateProgress | src/pages/Post.tsx:91-94 | the same for `base`, `base-1`, `base-2`, ... |
| PostPage.TakenStep | src/pages/Post.tsx:91-94 | a taken candidate extends the run of taken candidates |
| PostPage.HeadingIds.constructor | src/pages/Post.tsx:74 | no id is used at the start |
| PostPage.HeadingIds.EnsureId | src/pages/Post.tsx:85-99 | an element's own non-blank id is kept, trimmed, even when already used; otherwise the id is the first of `slug`, `slug-1`, ... not used; either way the id is added to the used ids and nothing else is |
| PostPage.HeadingIds.AddHeading | src/pages/Post.tsx:102-108 | a heading without text adds nothing; a heading with text appends exactly one item with its level and text, whose id is the one `ensureId` gives it over the ids used before the call (its own trimmed id, or else the first free `slug`, `slug-1`, ...), and that id is recorded; ids stay fresh for headings without their own id |
| PostPage.HeadingIds.BuildToc | src/pages/Post.tsx:73-109 | the items are the headings with text, in order, with their levels and texts, and each item carries the id `ensureId` gives its heading once the earlier items' ids are recorded (`Assigned`); the used ids grow by exactly the items' ids; when no heading has its own id, every id is new and they are pairwise distinct |
| PostPage.AssignedStep | src/pages/Post.tsx:102-108 | one turn of the `forEach` callback extends the items made so far by the item of the next heading, or by nothing when it has no text |
| PostPage.FirstFreeUnique | src/pages/Post.tsx:89-94 | the `while` loop can stop at only one candidate: two first free candidates of the same slug are the same id |
| PostPage.AssignedUnique | src/pages/Post.tsx:73-109 | the headings and the ids used before the loop determine every item, id included: two item lists made from the same headings are equal |
| PostPage.IdStep | src/pages/Post.tsx:97 | one more item adds its id, and keeps the ids fresh exactly when its id was not used |
| PostPage.AppendItem | src/pages/Post.tsx:105-107 | appending the item made for a heading keeps the used ids, shapes and freshness in step |
| PostPage.IdSetMember | src/pages/Post.tsx:97 | an item's id is among the recorded ids |
| PostPage.FreshIdsSpec | src/pages/Post.tsx:85-99 | fresh ids are pairwise distinct and none was used before |
| PostPage.ShapesPrefix | src/pages/Post.tsx:102-108 | one more heading adds its shape exactly when it has text |
| PostPage.ShapesSpec | src/pages/Post.tsx:103-104 | the shapes are those of the headings with text, in order |
| PostPage.ItemShapesSpec | src/pages/Post.tsx:107 | the shapes of the items are their levels and texts, in order |
| PostPage.ToggleTocSection | src/pages/Post.tsx:161-168 | the section is collapsed afterwards exactly when it was not; no other section changes |
| Keywords.WordRun | src/components/KeywordSphere.tsx:22 | the length of the separator-free start of the text, which is followed by a separator or the end |
| Keywords.SkipSeparators | src/components/KeywordSphere.tsx:22 | what is left after the leading separators, which starts with a non-separator or is empty |
| Keywords.SplitWords | src/components/KeywordSphere.tsx:22 | splitting on separator runs gives at least one piece and no piece holds a separator |
| Keywords.SplitWordsKeeps | src/components/KeywordSphere.tsx:22 | the pieces put back together are the text without its separators: nothing else is lost |
| Keywords.DropSeparatorRun | src/components/KeywordSphere.tsx:22 | a separator and the run after it contribute nothing but the split |
| Keywords.DropLeadingSeparators | src/components/KeywordSphere.tsx:22 | leading separators contribute nothing |
| Keywords.Tokens | src/components/KeywordSphere.tsx:22 | every token has at least two characters and no separator |
| Keywords.TagWordsStep | src/components/KeywordSphere.tsx:10-13 | one turn of the tag loop adds the trimmed tag when it is non-empty, nothing otherwise |
| Keywords.TokenWordsStep | src/components/KeywordSphere.tsx:23-28 | one turn of the token loop adds the token cut to twelve characters when it is non-empty |
| Keywords.WordStreamStep | src/components/KeywordSphere.tsx:9-29 | one turn of the post loop adds that post's words |
| Keywords.PostWordsAppend | src/components/KeywordSphere.tsx:10-28 | a post's words are its tag words followed by its token words |
| Keywords.TallyTags | src/components/KeywordSphere.tsx:10-13 | the tag loop counts each trimmed, non-empty tag once more |
| Keywords.TallyTokens | src/components/KeywordSphere.tsx:23-28 | the token loop counts each token's first twelve characters once more |
| Keywords.KeywordText | src/components/KeywordSphere.tsx:14-20 | the text a post's tokens are taken from: title, description and content joined by spaces, Markdown stripped, whitespace runs made single spaces; the tokens it yields are stated by `Keywords.TokenWordsOfText` |
| Keywords.KeywordTable | src/components/KeywordSphere.tsx:7-35 | the tally of the words of all posts, enumerated, sorted by count and cut to sixty rows; equal to what `Keywords.ExtractKeywords` returns, with the rows stated by `Keywords.TopWordsSpec` and `Keywords.TopWordsLeftOut` |
| Keywords.ExtractKeywords | src/components/KeywordSphere.tsx:7-35 | `extractKeywords` returns the tally of all words, enumerated, sorted by count, cut to sixty rows |
| Keywords.TagWordsSpec | src/components/KeywordSphere.tsx:10-13 | the tag words are the trimmed tags without the empty ones, in order |
| Keywords.TokenWordsSpec | src/components/KeywordSphere.tsx:23-28 | the token words are the non-empty tokens cut to twelve characters, in order |
| Keywords.TokenWordsOfText | src/components/KeywordSphere.tsx:22-28 | every token passes the `if (t)` check, so each gives a word of two to twelve characters without separators |
| Keywords.CutTokens | src/components/KeywordSphere.tsx:24-25 | tokens of at least two characters are all kept, each cut to two to twelve characters |
| Keywords.CutToken | src/components/KeywordSphere.tsx:25 | cutting a token keeps two to twelve characters and no separator |
| Keywords.TagWordsFrom | src/components/KeywordSphere.tsx:10-13 | a word comes from the tags exactly when it is the non-empty trim of some tag, and it is then trimmed |
| Keywords.TokenWordsFrom | src/components/KeywordSphere.tsx:22-28 | a token word has two to twelve characters and no separator, and every token's cut is a word |
| Keywords.PostWordsFrom | src/components/KeywordSphere.tsx:10-28 | a post's word is a trimmed non-empty tag or a cut token of its text, and each of those is a word |
| Keywords.WordStreamMember | src/components/KeywordSphere.tsx:9-29 | a word is counted exactly when some post gives it |
| Keywords.TopWords | src/components/KeywordSphere.tsx:30-33 | the count table of a word stream cut to sixty rows; stated by `Keywords.TopWordsSpec`, `Keywords.TopWordsLeftOut` and `Keywords.TopWordsStable` |
| Keywords.TopWordsSpec | src/components/KeywordSphere.tsx:30-33 | the table has sixty rows, or one per distinct word when there are fewer; no word twice; each row carries the word's number of occurrences; counts never increase down the table |
| Keywords.PrefixRows | src/components/KeywordSphere.tsx:33 | the first `n` rows are rows of the table, in order, and stay sorted |
| Keywords.TopWordsLeftOut | src/components/KeywordSphere.tsx:30-33 | a word left out of the table occurs no more often than every word shown, and the table is then full |
| Keywords.LeftOutOfPrefix | src/components/KeywordSphere.tsx:33 | a key cut off a table sorted by count has a count no larger than each row kept |
| Keywords.TopWordsStable | src/components/KeywordSphere.tsx:30-32 | words with the same count keep the order in which the tally enumerates them |
| Heat.TagSetSpec | src/components/HeatRanking.tsx:8-13 | the set holds each non-empty tag once and nothing else |
| Heat.TagSetStep | src/components/HeatRanking.tsx:10-12 | one turn of the inner loop adds the tag when it is non-empty |
| Heat.TagList | src/components/HeatRanking.tsx:7-15 | `getTags` returns the set of non-empty tags, sorted |
| Heat.TagListSpec | src/components/HeatRanking.tsx:7-15 | the tag list is strictly increasing and holds exactly the non-empty tags some post lists |
| Heat.VisitCount | src/components/HeatRanking.tsx:24 | `visits[p.slug] ?? 0`: the stored count of the slug, 0 when it has none; stated by `Heat.RowsSpec` |
| Heat.Rows | src/components/HeatRanking.tsx:22-28 | each post paired with its visit count, filtered to the posts listing the tag when one is chosen; stated by `Heat.RowsSpec`, `Heat.RowPosts` and `Heat.RowsFilter` |
| Heat.RowsSpec | src/components/HeatRanking.tsx:22-28 | every row carries its post's visit count, 0 when never visited; without a filter the rows are all the posts, with one the posts listing that tag, in order |
| Heat.RowPosts | src/components/HeatRanking.tsx:22-25 | the rows are the posts, in order |
| Heat.RowsFilter | src/components/HeatRanking.tsx:26-28 | filtering the rows by tag keeps the posts listing it, in order, with their counts |
| Heat.Ranking | src/components/HeatRanking.tsx:29 | the rows sorted most visited first by the stable sort; stated by `Heat.RankingSpec` |
| Heat.RankingSpec | src/components/HeatRanking.tsx:29 | the ranking reorders the rows without losing or adding any, most visited first, rows with equal counts in their original order |
| Heat.ShownSpec | src/components/HeatRanking.tsx:69-71 | at most fifteen rows are shown, the leading rows of the ranking, numbered from 1 |
| Stats.TallyStep | src/pages/About.tsx:9-12 | one more post adds one to the count of its key |
| Stats.TagTallyStep | src/pages/About.tsx:21-23 | one more tag adds one to its count |
| Stats.CategoryStats | src/pages/About.tsx:7-16 | `getCategoryStats` (and `getCategories` of the categories page) returns the count table of the posts' categories |
| Stats.CategoryStatsSpec | src/pages/Categories.tsx:5-14 | one row per category that occurs (未分类 for none), with its number of posts; the counts add up to the number of posts; largest count first |
| Stats.WithKeyCount | src/pages/About.tsx:9-12 | the number of posts with a key is the number of occurrences of that key |
| Stats.TagStreamStep | src/pages/About.tsx:20-24 | one more post adds its tags to the stream |
| Stats.TagStats | src/pages/About.tsx:18-28 | `getTagStats` (and `getTags` of the tags page) returns the count table of the tag occurrences |
| Stats.TagStatsSpec | src/pages/Tags.tsx:5-15 | one row per tag some post lists, counting its occurrences; the counts add up to the total number of tags; largest count first |
| Stats.TimeStats | src/pages/About.tsx:30-38 | `getTimeStats` returns the years in reverse order, each with its count |
| Stats.TimeRows | src/pages/About.tsx:30-38 | the years of the tally in reverse order, each with its count; equal to what `Stats.TimeStats` returns and stated by `Stats.TimeStatsSpec` and `Stats.TimeRowsPerm` |
| Stats.TimeStatsSpec | src/pages/About.tsx:30-38 | the years of the posts, strictly decreasing, each with its number of posts, and no other year; the counts add up to the number of posts |
| Stats.TimeRowsPerm | src/pages/About.tsx:36-37 | the rows are the pairs of the tally, reordered |
| Stats.TagPairsKeys | src/pages/Tags.tsx:7-11 | the tag page and the archive see the same tag occurrences in the same order |
| Stats.TagCountIsBucketSize | src/pages/Tags.tsx:5-15 | the tags page shows a tag exactly when the archive has a bucket for it, and its count is that bucket's size |
| TagPage.TagPosts | src/pages/TagPosts.tsx:7 | the posts whose tags include the decoded tag; stated by `TagPage.TagPostsSpec` and `TagPage.TagPageIsBucket` |
| TagPage.TagPostsSpec | src/pages/TagPosts.tsx:7 | the tag page keeps the posts' order and lists exactly the posts whose tags include the tag; a post without tags is never listed |
| TagPage.TagPageIsBucket | src/pages/TagPosts.tsx:7 | when no post lists a tag twice, the tag page lists exactly the archive's bucket of that tag |
| Visits.Increment | src/hooks/usePostVisits.ts:27-33 | `{ ...prev, [slug]: (prev[slug] ?? 0) + 1 }`; stated by `Visits.IncrementSpec`, `Visits.IncrementMonotone` and `Visits.IncrementAllCounts` |
| Visits.IncrementSpec | src/hooks/usePostVisits.ts:27-33 | the slug's count goes up by one (from 0 when never visited); every other count is unchanged; the keys are the old ones and the slug; no key twice |
| Visits.IncrementMonotone | src/hooks/usePostVisits.ts:29 | no count ever goes down |
| Visits.IncrementAllCounts | src/hooks/usePostVisits.ts:21-33 | from no visits, a run of increments counts each slug as often as it was incremented, and counts no other slug |
| Visits.RepeatedIncrement | src/hooks/usePostVisits.ts:29 | `n` increments of one slug from no visits count `n` |
| Visits.RepeatCount | src/hooks/usePostVisits.ts:29 | a slug repeated `n` times occurs `n` times |
| Toggles.Toggle | src/pages/Archive.tsx:417-420 | the key is in the new set exactly when it was not in the old one; every other key keeps its membership |
| Toggles.ToggleTwice | src/pages/Archive.tsx:417-420 | toggling a key twice restores the set |
| Toggles.ToggleCommute | src/pages/Archive.tsx:417-420 | toggles of different keys do not interfere |
| Tables.CountTableSize | src/pages/About.tsx:13-15 | the count table has one row per distinct key |
| Tables.CountTable | src/pages/About.tsx:8-15 | the tally of the keys, enumerated by `Object.entries` and sorted largest count first; stated by `Tables.CountTableSpec` and `Tables.CountTableSize` |
| Tables.CountTableSpec | src/pages/About.tsx:8-15 | a count table names every key once and nothing else, with its number of occurrences (at least 1); the counts add up to the number of keys; largest count first; equal counts keep the enumeration order of the tally |
| Tables.TotalSizeSum | src/pages/Archive.tsx:16 | the total size is the sum of the bucket sizes |
| Tables.PushSize | src/pages/Archive.tsx:14 | a push adds one value in total |
| Tables.GroupSize | src/pages/Archive.tsx:11-15 | every pushed value lands in exactly one bucket |
| Tables.BucketTable | src/pages/Archive.tsx:9-20 | the buckets of the pushes, enumerated and sorted largest first; stated by `Tables.BucketTableSpec` |
| Tables.BucketTableSpec | src/pages/Archive.tsx:9-20 | one bucket per key that occurs and no other, holding that key's values in their original order; the buckets hold all values; largest bucket first; equal sizes keep the enumeration order |
| Records.Keys | src/pages/Archive.tsx:16 | one key per pair |
| Records.Values | src/pages/About.tsx:13 | one value per pair |
| Records.KeysAt | src/pages/Archive.tsx:16 | the keys are the pairs' first components, in order |
| Records.ValuesAt | src/pages/About.tsx:13 | the values are the pairs' second components, in order |
| Records.Lookup | src/pages/Archive.tsx:13 | `r[k]` is defined exactly for the keys of the record |
| Records.TakeValid | src/pages/Archive.tsx:18 | the first pairs of a record without repeated keys have none either |
| Records.LookupMember | src/pages/Archive.tsx:13 | in a record without repeated keys, looking up the key of a pair gives its value |
| Records.Put | src/pages/Archive.tsx:13 | after `r[k] = v`, `r[k]` is `v` and every other key reads as before |
| Records.PutTwice | src/pages/Archive.tsx:18 | assigning a key twice leaves the second value, in the place of the first assignment |
| Records.PutNew | src/pages/Archive.tsx:18 | assigning a new key appends it |
| Records.MappedLookup | src/pages/Archive.tsx:18 | assigning each key of a list in turn gives those keys, in order, each with its value |
| Records.CopyStep | src/pages/Archive.tsx:18 | one turn of `for (k of keys) result[k] = ...` over distinct keys extends the copy by one pair |
| Records.KeysMapBack | src/pages/Archive.tsx:16-18 | rebuilding each pair from its key gives the pairs back |
| Records.LookupFound | src/pages/Archive.tsx:13 | a key that is found is stored with the value found |
| Records.EntryLookup | src/pages/Archive.tsx:13 | in a record without repeated keys, a stored pair is found by its key |
| Records.LookupPerm | src/pages/Archive.tsx:72 | reordering a record changes no lookup |
| Records.PutKeys | src/pages/Archive.tsx:13 | an assignment never reorders or drops keys; a new key goes last |
| Records.PutValid | src/pages/Archive.tsx:13 | an assignment never repeats a key |
| Records.BumpLookup | src/pages/About.tsx:11 | `map[k] = (map[k] ?? 0) + 1` adds one to the count of `k` and changes no other |
| Records.BumpSum | src/pages/About.tsx:11 | a bump adds exactly one to the total |
| Records.TallySnoc | src/pages/About.tsx:9-12 | tallying one more key bumps it |
| Records.TallyKeys | src/pages/About.tsx:9-12 | the tally holds each distinct key once, in order of first occurrence |
| Records.CountStep | src/pages/About.tsx:11 | one more key adds one to its own count and leaves the others |
| Records.TallyLookup | src/pages/About.tsx:9-12 | the tally of a key is its number of occurrences, and keys that do not occur have none |
| Records.TallySum | src/pages/About.tsx:9-12 | the counts add up to the number of keys tallied |
| Records.Tally | src/pages/About.tsx:8-12 | the record built by `map[k] = (map[k] ?? 0) + 1` over the keys; stated by `Records.TallySpec`, `Records.TallyLookup` and `Records.TallyKeys` |
| Records.TallySpec | src/pages/About.tsx:8-12 | the tally holds each distinct key once, in order of first occurrence, with its number of occurrences; the counts add up to the number of keys |
| Records.PushLookup | src/pages/Archive.tsx:13-14 | `(r[k] ??= []).push(x)` appends `x` to the bucket of `k` and changes no other bucket |
| Records.SelectAppend | src/pages/Archive.tsx:11-15 | the values paired with a key in two runs of pushes are those of the first run followed by those of the second |
| Records.SelectCount | src/pages/Archive.tsx:14 | a key is paired with as many values as it occurs |
| Records.KeysAppend | src/pages/Archive.tsx:16 | the keys of two runs of pairs are the keys of each, in order |
| Records.GroupSnoc | src/pages/Archive.tsx:13-14 | pushing one more pair extends the buckets |
| Records.KeysSnoc | src/pages/Archive.tsx:16 | dropping the last pair drops the last key |
| Records.GroupKeys | src/pages/Archive.tsx:11-15 | the buckets never repeat a key and appear in order of first push |
| Records.SelectAbsent | src/pages/Archive.tsx:13-14 | a key never pushed has no values |
| Records.SelectSnoc | src/pages/Archive.tsx:13-14 | dropping the last push drops its value from its own key only |
| Records.SelectStep | src/pages/Archive.tsx:13-14 | one more push appends its value under its key and nowhere else |
| Records.GroupLookup | src/pages/Archive.tsx:11-15 | the bucket of a key that was pushed holds its values in order; other keys have none |
| Records.GroupSpec | src/pages/Archive.tsx:11-15 | one bucket per pushed key, in order of first push, with its values in push order; no other key |
| Records.EntriesPerm | src/pages/Archive.tsx:72 | `Object.entries` reorders the pairs without losing or adding any |
| Records.Entries | src/pages/Archive.tsx:72 | `Object.entries`: array-index keys first in ascending numeric order, then the other keys in insertion order; stated by `Records.EntriesSpec`, `Records.EntriesPerm` and `Records.EntriesLookup` |
| Records.EntriesSpec | src/pages/Archive.tsx:72 | `Object.entries` reorders the pairs without losing or adding any, and keeps insertion order when no key is an array index |
| Records.PermValid | src/pages/Archive.tsx:72 | a reordering of a record without repeated keys has none either, and the same keys |
| Records.PermSum | src/pages/About.tsx:13 | reordering a record of counts keeps their total |
| Records.EntriesLookup | src/pages/Archive.tsx:72 | enumerating a record changes no lookup |
| Records.PutReordered | src/hooks/usePostVisits.ts:29 | assigning a key in a reordered copy sets that key and keeps every other lookup and key |
| Records.SortedKeys | src/pages/Archive.tsx:46 | `Object.keys(r).sort((a, b) => b.localeCompare(a))`; stated by `Records.SortedKeysSpec` |
| Records.SortedKeysSpec | src/pages/Archive.tsx:46 | `Object.keys(r).sort((a, b) => b.localeCompare(a))` is strictly decreasing and lists exactly the keys |
| Records.DescendingUnique | src/pages/Archive.tsx:46 | a strictly decreasing arrangement of a set of keys is unique |
| Records.NotHead | src/pages/Archive.tsx:46 | in a strictly decreasing list, the keys after the first are the others |
| Records.SamePairs | src/pages/Archive.tsx:72 | two records with the same pairs and the same key order are equal |
| Records.SortedEntries | src/pages/Archive.tsx:185-186 | sorting the entries of a record whose keys are already strictly decreasing gives the record back |
| Records.SortedKeysFixed | src/pages/Archive.tsx:164 | sorting the keys of such a record changes nothing |
| Sorting.WithKeyAppend | src/posts.ts:86-90 | selecting by key is compatible with concatenation |
| Sorting.WithKeyMember | src/posts.ts:86-90 | an element is selected exactly when it occurs and carries the key |
| Sorting.WithKeyAbsent | src/posts.ts:86-90 | a key no element carries selects nothing |
| Sorting.WithKeyFilter | src/components/HeatRanking.tsx:27-29 | selecting by key and filtering commute |
| Sorting.WithKeySnoc | src/posts.ts:86-90 | dropping the last element drops it from its own key's selection only |
| Sorting.Insert | src/posts.ts:86-90 | inserting adds exactly the element |
| Sorting.SortBy | src/posts.ts:86-90 | the stable sort returns a permutation of its input |
| Sorting.InsertSorted | src/posts.ts:86-90 | inserting into a sorted list keeps it sorted |
| Sorting.SortBySorted | src/posts.ts:86-90 | the output is ordered by the key under a total order |
| Sorting.InsertWithKey | src/posts.ts:86-90 | inserting puts the element in front of the others with its key |
| Sorting.SortByStable | src/posts.ts:86-90 | elements with equal keys keep their input order |
| Sorting.InsertMap | src/pages/About.tsx:13-15 | mapping after inserting is inserting after mapping, when keys are kept |
| Sorting.SortByMap | src/pages/About.tsx:13-15 | sorting then mapping `([name, count]) => ({ name, count })` is mapping then sorting |
| Sorting.IntOrders | src/pages/About.tsx:15 | `b.count - a.count` and ascending numeric order are total orders |
| Markdown.FindDashes | src/pages/Post.tsx:16 | the lazy `[\s\S]*?` stops at the nearest closing `---`: the position found holds `---` and none before it does |
| Markdown.StripFrontMatter | src/pages/Post.tsx:16 | never lengthens the text; text that does not open with `---` is unchanged |
| Markdown.HashRun | src/pages/Post.tsx:17 | the length of the leading run of `#`, which is followed by a non-`#` or the end |
| Markdown.StripHeadings | src/pages/Post.tsx:17 | never lengthens the text; text without `#` is unchanged |
| Markdown.StripEmphasis | src/pages/Post.tsx:18 | never lengthens the text and leaves no `*` and no `_` |
| Markdown.StripBackticks | src/pages/Post.tsx:19 | never lengthens the text and leaves no backtick |
| Markdown.FindChar | src/pages/Post.tsx:20 | the position of the first occurrence at or after the start: it holds the character and no earlier position does |
| Markdown.LinkAt | src/pages/Post.tsx:20 | a link match closes its text with `]` and its target with `)` within the text |
| Markdown.StripLinks | src/pages/Post.tsx:20 | never lengthens the text; text without `[` is unchanged |
| Markdown.SpaceRun | src/pages/Post.tsx:21 | the length of the leading whitespace run, which is followed by a non-whitespace character or the end |
| Markdown.BulletAt | src/pages/Post.tsx:21 | a bullet match is at least two characters long and lies within the text |
| Markdown.StripBulletsFrom | src/pages/Post.tsx:21 | never lengthens the text; text without `-`, `*` or `+` is unchanged |
| Markdown.StripBullets | src/pages/Post.tsx:21 | never lengthens the text |
| Text.Lower | src/components/SearchModal.tsx:6 | lower-casing a character leaves no upper-case ASCII letter, keeps whitespace whitespace and changes nothing else |
| Text.LowerStr | src/components/SearchModal.tsx:6 | `toLowerCase` maps every character and keeps the length |
| Text.LowerStrFixed | src/components/SearchModal.tsx:6 | a string without upper-case letters is its own lower case |
| Text.LowerStrIdempotent | src/components/SearchModal.tsx:6 | lower-casing twice is lower-casing once |
| Text.TrimStart | src/posts.ts:52 | the suffix left after the leading whitespace, which starts with a non-whitespace character or is empty |
| Text.TrimEnd | src/posts.ts:52 | the prefix left before the trailing whitespace, which ends with a non-whitespace character or is empty |
| Text.TrimSpec | src/posts.ts:52 | `trim` gives a string with no whitespace at either end, no longer than its input, fixes such strings, and is idempotent |
| Text.TrimStartLower | src/components/Sidebar.tsx:27 | removing leading whitespace commutes with lower-casing |
| Text.TrimEndLower | src/components/Sidebar.tsx:27 | removing trailing whitespace commutes with lower-casing |
| Text.TrimLower | src/components/Sidebar.tsx:27 | trimming and lower-casing commute |
| Text.BlankIffAllSpace | src/components/Sidebar.tsx:26 | `!s.trim()` holds exactly when every character is whitespace |
| Text.ReplaceSpaceRuns | src/components/SearchModal.tsx:6 | replacing each whitespace run by a replacement without whitespace leaves none, and by at most one character never lengthens |
| Text.ReplaceSpaceRunsKeeps | src/pages/Post.tsx:80 | every character of the result comes from the input or from the replacement |
| Text.ReplaceSpaceRunsDelete | src/pages/Post.tsx:22 | replacing the runs by nothing deletes exactly the whitespace characters |
| Text.LeadingSpaceDeleted | src/pages/Post.tsx:22 | a leading whitespace run contributes nothing once whitespace is deleted |
| Text.TrimStartFilter | src/pages/Post.tsx:22 | leading whitespace holds no non-whitespace character |
| Text.ReplaceSpaceRunsNoSpace | src/components/SearchModal.tsx:6 | text without whitespace is unchanged |
| Text.SingleSpacedCons | src/components/SearchModal.tsx:6 | a character put in front keeps whitespace runs of length one |
| Text.SingleSpacedTail | src/components/SearchModal.tsx:6 | the tail of a single-spaced string is single-spaced |
| Text.ReplaceSpaceRunsSingle | src/components/SearchModal.tsx:6 | replacing runs by one whitespace character leaves only single whitespace characters, all of them that character |
| Text.ReplaceSpaceRunsFixed | src/components/SearchModal.tsx:6 | replacing runs in an already single-spaced string changes nothing |
| Text.ContainsEmpty | src/components/SearchModal.tsx:19 | every string includes the empty string |
| Text.ContainsTrans | src/components/SearchModal.tsx:19 | inclusion of substrings is transitive |
| Text.SplitOn | src/posts.ts:52 | `split` on one character gives at least one piece and no piece holds the separator |
| Text.SplitJoin | src/posts.ts:52 | joining the pieces with the separator gives the string back; there is one piece more than separators |
| Text.JoinEmptyHead | src/posts.ts:52 | joining after an empty first piece starts with the separator |
| Text.JoinExtendHead | src/posts.ts:52 | joining after extending the first piece at its front extends the result at its front |
| Text.SplitCount | src/posts.ts:52 | there is one piece more than separators |
| Text.JoinSplit | src/posts.ts:52 | splitting pieces without the separator, joined by it, gives the pieces back |
| Text.SplitNoSep | src/posts.ts:52 | a string without the separator is one piece |
| Text.SplitConcat | src/posts.ts:52 | a separator after a separator-free prefix ends the first piece |
| Text.LexLeAntisym | src/posts.ts:89 | the string order is antisymmetric |
| Text.LexLeTrans | src/posts.ts:89 | the string order is transitive |
| Text.LexLeTotal | src/posts.ts:89 | any two strings are comparable |
| Text.LexLeRefl | src/posts.ts:89 | the string order is reflexive |
| Text.LexOrders | src/posts.ts:89 | the order `a.localeCompare(b)` stands for and its reverse are total orders |
| Text.Digit | src/posts.ts:32 | a digit value gives a decimal digit |
| Text.Pow10 | src/posts.ts:32 | a power of ten is positive |
| Text.Digits | src/posts.ts:32 | zero-padding to `w` digits gives exactly `w` decimal digits |
| Text.DigitsRoundTrip | src/posts.ts:32 | reading back the padded digits of a number below `10^w` gives the number |
| Text.Width | src/pages/Post.tsx:93 | the number of digits of `n` is at least one and enough to hold it |
| Text.NatStr | src/pages/Post.tsx:93 | `String(n)` is a non-empty numeral that reads back as `n` |
| Text.NatStrInjective | src/pages/Post.tsx:93 | distinct numbers have distinct numerals |

## Behaviour taken from the code

Where a description of the blog and its code differ, the model follows the code:

- A `categories` array in the front matter gives its element 0 even when that element is
  empty; the next non-empty element is not used (`src/posts.ts:40`).
- Ties in a count table sorted by `b.count - a.count` keep `Object.entries` order. Names
  that are array indices therefore come first, not the names in the order they were first
  met.
- The search in `src/components/SearchModal.tsx:9-25` lower-cases the title, description,
  content and category. The date and the tags are compared as written.
- The title is `data.title ?? "Untitled"`, so only a missing or `null` title becomes
  `Untitled`. An empty title stays empty.
- A front-matter date that `Date` cannot represent makes `toISOString` throw. The file then
  fails inside its own `try` block and is skipped.
- `ensureId` in `src/pages/Post.tsx:85-99` reuses an element's own trimmed id even when
  that id is already in use.
- `tocToSections` pushes into the last section through an alias of it. This is modelled as
  replacing the last section by its extension (`PostPage.ExtendLast`).
- The sidebar truncates the date to its first ten characters. It then takes the year as the
  first four characters and the month as the first seven. An empty date gives the 未分类
  year, whose only month has the same name.
- `getCategories` (`src/pages/Categories.tsx`) and `getCategoryStats`
  (`src/pages/About.tsx`) compute the same table, so they are one method,
  `Stats.CategoryStats`. `getTags` of the tag page and `getTagStats` are likewise one,
  `Stats.TagStats`.

## Left out

- File-system I/O (`existsSync`, `readdirSync`, `readFileSync`, `path.join`), gray-matter and
  marked are calls into code outside the model. They are parameters: the directory listing,
  whether the directory exists, and three functions that return a `Result`. The
  `console.warn` on a failed file is not modelled.
- The YAML parser's conversion of values is not modelled. The front matter is given as a map
  of `Posts.Yaml` values, and `String(v)` of a number or boolean is the text carried in
  `Scalar`.
- `decodeURIComponent` on the tag in `src/pages/TagPosts.tsx:6` is not modelled. The tag
  page takes the tag already decoded.
- `loadVisits` and `saveVisits` (`src/hooks/usePostVisits.ts:5-18`) read and write
  `localStorage` through JSON. The model keeps the counts as a record of integers and
  leaves out storage and malformed JSON.
- `useVisitStats` fetches counts over the network. It is not part of this model.
- The keyword sphere's point placement, rotation and canvas drawing use floating point,
  animation frames and randomness. Only the keyword extraction is modelled.
- Scroll progress, back-to-top, the theme switch and the other effects are not part of this
  model, nor are the JSX rendering, routing and React state.
- The command-line tool and the Vite build configuration are not part of this model.
- Unicode is approximated throughout. `\s` is a fixed set of whitespace characters.
  `\p{P}` and `\p{S}` are a fixed set of punctuation and symbols, and `\w` is ASCII letters,
  digits and `_`.
- `Text.Lower` lower-cases ASCII letters only, where `toLowerCase` maps all of Unicode.
- `Text.LexLe` compares code points. `localeCompare` uses locale collation, and the default
  `sort()` compares UTF-16 code units.
- String lengths (`length`, `slice(0, 10)`, `slice(0, 4)`) count code points, not UTF-16
  code units.
- Dates are given as year, month and day at midnight UTC. Time zones and the range limits of
  JavaScript's `Date` are left out, except that an unrepresentable date fails.
- Counts are unbounded integers. JavaScript numbers lose precision above 2^53, which the
  model does not capture.
- The keyword cloud, the popularity ranking, the search and the sidebar filter copy and
  sort fresh arrays. They are modelled as functions on sequences, because no caller can see
  the update in place.
- `KeywordSphere` recomputes its words only when the posts change. In the model the words
  are a function of the posts alone, so this holds by construction and has no lemma.
- Markdown.StripFrontMatter: states only that the text does not grow and that text not opening with `---` is unchanged; the full regular-expression rewrite is not stated.
- Markdown.StripHeadings: states only that the text does not grow and that text without `#` is unchanged; the full regular-expression rewrite is not stated.
- Markdown.StripEmphasis: states only that the text does not grow and that no `*` or `_` is left; the full regular-expression rewrite is not stated.
- Markdown.StripBackticks: states only that the text does not grow and that no backtick is left; the full regular-expression rewrite is not stated.
- Markdown.StripLinks: states only that the text does not grow and that text without `[` is unchanged; the full regular-expression rewrite is not stated.
- Markdown.StripBulletsFrom: states only that the text does not grow and that text without `-`, `*` or `+` is unchanged; the full regular-expression rewrite is not stated.
- Markdown.StripBullets: states only that the text does not grow; the full regular-expression rewrite is not stated.
- Plain objects used as records (`{}`) also inherit the members of `Object.prototype`
  (`constructor`, `toString`, `valueOf`, `hasOwnProperty` and the others), and assigning
  `__proto__` sets the prototype instead of adding a key. The model's records hold only
  their own keys, so a key named like one of these behaves like any other key. The lines
  below name each member whose contract therefore says more than the code does for such a key.
- Records.Lookup: reports an inherited name as absent, where `r[k]` reads the inherited
  function.
- Records.Put: adds `__proto__` as an ordinary key, where the assignment changes the
  prototype and adds no key.
- Records.BumpLookup: counts an inherited name from 0, where `(map[k] ?? 0) + 1` joins the
  function's source text and `1` into a string.
- Records.PushLookup: gives an inherited name a new bucket, where `!map[k]` is false and
  `map[k].push` throws a TypeError.
- Archive.GroupByCategory: returns a bucket for a category such as `constructor`, where
  `groupByCategory` throws at `map[cat].push` (src/pages/Archive.tsx:13-14).
- Archive.GroupByTag: returns a bucket for a tag such as `toString`, where `groupByTag`
  throws at `map[tag].push` (src/pages/Archive.tsx:26-27).
- Calendar.Nest: files a post whose date string starts with `valueOf` under month key
  `valueOf`, where `map[year][month].push` throws (src/pages/Archive.tsx:43-44 and
  src/components/Sidebar.tsx:13-14).
- Keywords.ExtractKeywords: counts a word such as `constructor` or `valueOf` like any other,
  where the source stores a string for it and then sorts by a `NaN` difference, so the order
  and the sixty rows kept are not those the model states.
- Stats.CategoryStats: like `Stats.CategoryStatsSpec`, counts a category named like an inherited member, where the source
  stores a string count for it (src/pages/About.tsx:11); the same holds for the category
  and tag pages.
- Stats.TagStats: like `Stats.TagStatsSpec`, counts a tag named like an inherited member, where the source stores a
  string count for it (src/pages/About.tsx:22).
- Heat.RowsSpec: gives a post whose slug is named like an inherited member a count of 0, where
  `visits[p.slug] ?? 0` is the inherited function (src/components/HeatRanking.tsx:24).
- Visits.IncrementSpec: counts such a slug from 0, where `(prev[slug] ?? 0) + 1` turns its
  count into a string (src/hooks/usePostVisits.ts:29).
- Posts.BuildMeta: turns a title or description that YAML reads as a number or boolean into
  its text with `String(v)`. The source keeps the raw value (src/posts.ts:72 and 74), so a
  title `2024` stays the number 2024 and a title `0` stays 0.
- Sidebar.MatchPost: matches the text of a non-string title, where `(title || "").toLowerCase()`
  throws a TypeError for a number or `true`, and a title `0` or `false` reads as `""`
  (src/components/Sidebar.tsx:28).
- Search.MatchPost: matches the text of a non-string title or description, where `normalize`
  throws a TypeError when it calls `toLowerCase` on a number or boolean
  (src/components/SearchModal.tsx:6, 12 and 13).
- PostPage.HeadingIds.EnsureId: does not model the write-back `(el as HTMLElement).id = id`
  (src/pages/Post.tsx:95), which stores a generated id on the heading element; the headings
  are values and the id is returned and recorded as used only.
- Posts.Slug: beyond `Posts.SlugOfDated` and `Posts.SlugOfUndated`, it states only that the
  slug is no longer than the file name.

## Findings

| source | as written | input that shows it | evidently intended | confidence | as-written member | corrected member |
|---|---|---|---|---|---|---|
| src/pages/Archive.tsx:72 | the category views (lines 72 and 235) list `Object.entries(byCategory)`, so names that are array indices come first and the size order built at lines 16-18 is lost | one post in category "2024" and two in category "notes" | categories shown largest first | not executed | Archive.CategoriesShownOutOfOrder | Archive.ShownCategories |
| src/pages/Archive.tsx:119 | the tag views (lines 119 and 291) list `Object.entries(byTag)`, so tags that are array indices come first and the size order built at lines 30-32 is lost | one post tagged "2024" and two tagged "notes" | tags shown largest first | not executed | Archive.TagsShownOutOfOrder | Archive.ShownTags |
