/** The text utilities of the post page (`src/pages/Post.tsx`): the
    character count and reading time, the table of contents grouped into
    collapsible sections, heading slugs, and the unique ids given to the
    headings. */
module PostPage {
  import opened Wrappers
  import opened Seqs
  import opened Text
  import opened Markdown
  import opened Toggles

  /** Characters read per minute. */
  const CharsPerMinute: nat := 300

  /** The text whose length `countChars` reports: the content without its
      front matter, heading marks, emphasis marks, backticks, link
      targets, list bullets and whitespace. */
  function CountedText(content: string): (t: string)
    ensures NoSpace(t)
    ensures |t| <= |content|
  {
    var s1 := StripFrontMatter(content);
    var s2 := StripHeadings(s1);
    var s3 := StripEmphasis(s2);
    var s4 := StripBackticks(s3);
    var s5 := StripLinks(s4);
    var s6 := StripBullets(s5);
    ReplaceSpaceRuns(s6, [])
  }

  /** `countChars`. Every rewrite only deletes or shortens text, so the
      count never exceeds the length of the content. */
  function CountChars(content: string): (n: nat)
    ensures n <= |content|
  {
    |CountedText(content)|
  }

  /** The characters that start a Markdown rewrite. */
  predicate IsMarkup(c: char)
  {
    c == '#' || c == '*' || c == '_' || c == '`' || c == '[' || c == '-' || c == '+'
  }

  /** For text without any Markdown syntax the count is the number of
      non-whitespace characters. */
  lemma PlainTextCount(content: string)
    requires forall i :: 0 <= i < |content| ==> !IsMarkup(content[i])
    ensures CountedText(content) == Filter(content, NotSpace)
    ensures CountChars(content) == |Filter(content, NotSpace)|
  {
    assert StripFrontMatter(content) == content by {
      assert !DashesAt(content, 0);
    }
    assert StripHeadings(content) == content by {
      assert '#' !in content;
    }
    assert StripEmphasis(content) == content by {
      FilterAll(content, NotEmphasis);
    }
    assert StripBackticks(content) == content by {
      FilterAll(content, NotBacktick);
    }
    assert StripLinks(content) == content by {
      assert '[' !in content;
    }
    assert StripBullets(content) == content by {
      assert forall i :: 0 <= i < |content| ==> !IsBullet(content[i]);
    }
    assert CountedText(content) == ReplaceSpaceRuns(content, []);
    ReplaceSpaceRunsDelete(content);
  }

  /** `getReadingMinutes`: `Math.max(1, Math.ceil(chars / 300))`. */
  function ReadingMinutes(chars: nat): (m: nat)
    ensures m >= 1
  {
    var c := (chars + CharsPerMinute - 1) / CharsPerMinute;
    if c < 1 then 1 else c
  }

  /** Up to 300 characters read in a minute; beyond that, the minutes are
      the least whole number whose 300-character pages cover the text. */
  lemma ReadingMinutesSpec(chars: nat)
    ensures chars <= CharsPerMinute ==> ReadingMinutes(chars) == 1
    ensures chars > 0 ==> CharsPerMinute * (ReadingMinutes(chars) - 1) < chars <= CharsPerMinute * ReadingMinutes(chars)
  {
  }

  /** More text never reads faster. */
  lemma ReadingMinutesMonotone(a: nat, b: nat)
    requires a <= b
    ensures ReadingMinutes(a) <= ReadingMinutes(b)
  {
    assert (a + CharsPerMinute - 1) / CharsPerMinute <= (b + CharsPerMinute - 1) / CharsPerMinute;
  }

  datatype TocItem = TocItem(level: int, text: string, id: string)

  /** A section head with the deeper items that follow it. */
  datatype Section = Section(section: TocItem, children: seq<TocItem>)

  /** `Math.min(...toc.map((t) => t.level))`. */
  function MinLevel(toc: seq<TocItem>): (m: int)
    requires toc != []
    ensures exists i :: 0 <= i < |toc| && toc[i].level == m
    ensures forall i :: 0 <= i < |toc| ==> m <= toc[i].level
  {
    if |toc| == 1 then toc[0].level
    else
      var m := MinLevel(toc[1..]);
      assert forall i :: 1 <= i < |toc| ==> toc[i] == toc[1..][i - 1];
      if toc[0].level <= m then toc[0].level else m
  }

  /** The index of the first item at `level`, or `|toc|` when none is. */
  function FirstAt(toc: seq<TocItem>, level: int): (f: nat)
    ensures f <= |toc|
    ensures forall j :: 0 <= j < f ==> toc[j].level != level
    ensures f < |toc| ==> toc[f].level == level
  {
    if toc == [] then 0
    else if toc[0].level == level then 0
    else 1 + FirstAt(toc[1..], level)
  }

  lemma {:induction false} FirstAtSnoc(toc: seq<TocItem>, x: TocItem, level: int)
    ensures FirstAt(toc + [x], level) ==
      if FirstAt(toc, level) < |toc| then FirstAt(toc, level)
      else if x.level == level then |toc| else |toc| + 1
  {
    if toc != [] {
      assert (toc + [x])[1..] == toc[1..] + [x];
      FirstAtSnoc(toc[1..], x, level);
    }
  }

  /** The number of items at `level`. */
  function CountAt(toc: seq<TocItem>, level: int): nat
  {
    if toc == [] then 0
    else CountAt(toc[..|toc| - 1], level) + (if toc[|toc| - 1].level == level then 1 else 0)
  }

  /** The items of the sections read in order: each head, then its children. */
  function Flat(sections: seq<Section>): seq<TocItem>
  {
    if sections == [] then [] else [sections[0].section] + sections[0].children + Flat(sections[1..])
  }

  lemma {:induction false} FlatAppend(a: seq<Section>, b: seq<Section>)
    ensures Flat(a + b) == Flat(a) + Flat(b)
  {
    if a == [] {
      assert a + b == b;
    } else {
      assert (a + b)[1..] == a[1..] + b;
      FlatAppend(a[1..], b);
    }
  }

  lemma FlatSnoc(sections: seq<Section>, s: Section)
    ensures Flat(sections + [s]) == Flat(sections) + [s.section] + s.children
  {
    FlatAppend(sections, [s]);
    assert [s][1..] == [];
  }

  /** Every section head is at `level` and no child is. */
  predicate Grouped(sections: seq<Section>, level: int)
  {
    && (forall j :: 0 <= j < |sections| ==> sections[j].section.level == level)
    && (forall j, c :: 0 <= j < |sections| && 0 <= c < |sections[j].children| ==>
         sections[j].children[c].level != level)
  }

  /** Appending `item` to the children of the last section. */
  function ExtendLast(sections: seq<Section>, item: TocItem): (r: seq<Section>)
    requires sections != []
    ensures |r| == |sections|
    ensures Flat(r) == Flat(sections) + [item]
    ensures forall j :: 0 <= j < |r| ==> r[j].section == sections[j].section
    ensures forall j :: 0 <= j < |r| - 1 ==> r[j].children == sections[j].children
    ensures r[|r| - 1].children == sections[|r| - 1].children + [item]
  {
    var n := |sections| - 1;
    var last := sections[n];
    var r := sections[..n] + [Section(last.section, last.children + [item])];
    assert sections == sections[..n] + [last];
    FlatSnoc(sections[..n], last);
    FlatSnoc(sections[..n], Section(last.section, last.children + [item]));
    r
  }

  /** The sections built from `toc` by the loop of `tocToSections`: an item
      at `level` opens a new section, a deeper item joins the last open
      section, and a deeper item seen before any section is dropped. */
  function SectionsOf(toc: seq<TocItem>, level: int): (r: seq<Section>)
    ensures Grouped(r, level)
    ensures |r| == CountAt(toc, level)
  {
    if toc == [] then []
    else
      var prev := SectionsOf(toc[..|toc| - 1], level);
      var item := toc[|toc| - 1];
      if item.level == level then
        GroupedOpen(prev, item, level);
        prev + [Section(item, [])]
      else if prev != [] then
        GroupedExtend(prev, item, level);
        ExtendLast(prev, item)
      else prev
  }

  lemma GroupedOpen(prev: seq<Section>, item: TocItem, level: int)
    requires Grouped(prev, level) && item.level == level
    ensures Grouped(prev + [Section(item, [])], level)
  {
    var r := prev + [Section(item, [])];
    assert forall j :: 0 <= j < |prev| ==> r[j] == prev[j];
  }

  lemma GroupedExtend(prev: seq<Section>, item: TocItem, level: int)
    requires Grouped(prev, level) && prev != [] && item.level != level
    ensures Grouped(ExtendLast(prev, item), level)
  {
    var r := ExtendLast(prev, item);
    var n := |r| - 1;
    forall j, c | 0 <= j < |r| && 0 <= c < |r[j].children|
      ensures r[j].children[c].level != level
    {
      if j == n && c == |prev[n].children| {
        assert r[j].children[c] == item;
      }
    }
  }

  lemma SectionsOfStep(toc: seq<TocItem>, i: nat, level: int)
    requires i < |toc|
    ensures var prev := SectionsOf(toc[..i], level); var item := toc[i];
      SectionsOf(toc[..i + 1], level) ==
        if item.level == level then prev + [Section(item, [])]
        else if prev != [] then ExtendLast(prev, item)
        else prev
  {
    assert toc[..i + 1][..i] == toc[..i];
  }

  /** Reading the sections back gives the items from the first one at
      `level` on: nothing after the first section is lost or reordered. */
  lemma {:induction false} SectionsOfFlat(toc: seq<TocItem>, level: int)
    ensures SectionsOf(toc, level) != [] <==> FirstAt(toc, level) < |toc|
    ensures Flat(SectionsOf(toc, level)) == toc[FirstAt(toc, level)..]
  {
    if toc != [] {
      var p, x := toc[..|toc| - 1], toc[|toc| - 1];
      Snoc(toc);
      SectionsOfFlat(p, level);
      FirstAtSnoc(p, x, level);
      var prev := SectionsOf(p, level);
      var fp := FirstAt(p, level);
      if x.level == level {
        FlatSnoc(prev, Section(x, []));
        SuffixSnoc(toc, fp);
      } else if prev != [] {
        SuffixSnoc(toc, fp);
      }
    }
  }

  /** `tocToSections`: the items are grouped under the items at the
      smallest level, in order. */
  method TocToSections(toc: seq<TocItem>) returns (sections: seq<Section>)
    ensures toc == [] ==> sections == []
    ensures toc != [] ==> sections == SectionsOf(toc, MinLevel(toc))
  {
    if |toc| == 0 {
      return [];
    }
    var level := MinLevel(toc);
    sections := [];
    var open := false;
    var i := 0;
    while i < |toc|
      invariant 0 <= i <= |toc|
      invariant open <==> sections != []
      invariant sections == SectionsOf(toc[..i], level)
    {
      var item := toc[i];
      SectionsOfStep(toc, i, level);
      if item.level == level {
        sections := sections + [Section(item, [])];
        open := true;
      } else if open {
        sections := ExtendLast(sections, item);
      }
      i := i + 1;
    }
    assert toc[..i] == toc;
  }

  /** What the table of contents shows: every section head is at the
      smallest level, every child is deeper, there is one section per
      item at that level, and reading the sections back gives the items
      from the first one at that level on. */
  lemma TocSections(toc: seq<TocItem>)
    requires toc != []
    ensures var m := MinLevel(toc); var s := SectionsOf(toc, m);
      && |s| == CountAt(toc, m) && s != []
      && (forall j :: 0 <= j < |s| ==> s[j].section.level == m)
      && (forall j, c :: 0 <= j < |s| && 0 <= c < |s[j].children| ==> s[j].children[c].level > m)
      && Flat(s) == toc[FirstAt(toc, m)..]
  {
    var m := MinLevel(toc);
    SectionsOfFlat(toc, m);
    var s := SectionsOf(toc, m);
    forall j, c | 0 <= j < |s| && 0 <= c < |s[j].children|
      ensures s[j].children[c].level > m
    {
      assert s[j].children[c] in Flat(s) by {
        FlatMember(s, j, c);
      }
    }
  }

  lemma {:induction false} FlatMember(s: seq<Section>, j: nat, c: nat)
    requires j < |s| && c < |s[j].children|
    ensures s[j].children[c] in Flat(s)
  {
    if j > 0 {
      FlatMember(s[1..], j - 1, c);
    }
  }

  /** The characters `[\w一-龥-]` a slug keeps. */
  predicate IsSlugChar(c: char)
  {
    ('a' <= c <= 'z') || ('A' <= c <= 'Z') || ('0' <= c <= '9') || c == '_'
    || ('一' <= c <= '龥') || c == '-'
  }

  predicate IsSlug(s: string)
  {
    s != [] && forall i :: 0 <= i < |s| ==> IsSlugChar(s[i]) && NotUpper(s[i])
  }

  /** The slug of a heading with no usable character. */
  const DefaultSlug: string := "heading"

  lemma DefaultSlugIsSlug()
    ensures IsSlug(DefaultSlug)
  {
    var s := DefaultSlug;
    assert |s| == 7;
    assert forall i :: 0 <= i < 7 ==> 'a' <= s[i] <= 'z';
  }

  /** `slugify`: trimmed, lower-cased, whitespace runs turned into `-`,
      other characters outside the slug alphabet dropped, and `"heading"`
      when nothing is left. */
  function Slugify(text: string): (r: string)
    ensures IsSlug(r)
  {
    var lowered := LowerStr(Trim(text));
    var dashed := ReplaceSpaceRuns(lowered, "-");
    ReplaceSpaceRunsKeeps(lowered, "-", NotUpper);
    var s := Filter(dashed, IsSlugChar);
    FilterElements(dashed, IsSlugChar);
    DefaultSlugIsSlug();
    if s == [] then DefaultSlug else s
  }

  lemma SlugNoSpace(s: string)
    requires IsSlug(s)
    ensures NoSpace(s)
  {
  }

  /** A slug is its own slug. */
  lemma SlugFixed(r: string)
    requires IsSlug(r)
    ensures Slugify(r) == r
  {
    SlugNoSpace(r);
    TrimSpec(r);
    var t := Trim(r);
    assert t == r;
    var l := LowerStr(t);
    assert l == r;
    ReplaceSpaceRunsNoSpace(r, "-");
    FilterAll(r, IsSlugChar);
  }

  lemma SlugifyIdempotent(text: string)
    ensures Slugify(Slugify(text)) == Slugify(text)
  {
    SlugFixed(Slugify(text));
  }

  /** The `n`-th id tried for a heading: `base`, then `base-1`, `base-2`, ... */
  function Candidate(base: string, n: nat): string
  {
    if n == 0 then base else base + Suffix(n)
  }

  function Suffix(n: nat): (r: string)
    ensures |r| >= 2
  {
    ['-'] + NatStr(n)
  }

  /** Different attempts give different ids. */
  lemma CandidateDistinct(base: string, m: nat, n: nat)
    requires m != n
    ensures Candidate(base, m) != Candidate(base, n)
  {
    if m > 0 && n > 0 {
      assert ParseNat(NatStr(m)) != ParseNat(NatStr(n));
      assert Suffix(m)[1..] == NatStr(m) && Suffix(n)[1..] == NatStr(n);
      assert (base + Suffix(m))[|base|..] == Suffix(m);
      assert (base + Suffix(n))[|base|..] == Suffix(n);
    } else {
      assert |Candidate(base, m)| != |Candidate(base, n)|;
    }
  }

  /** The first `n` values of a sequence of ids. */
  ghost function Tried(ids: nat -> string, n: nat): set<string>
  {
    if n == 0 then {} else Tried(ids, n - 1) + {ids(n - 1)}
  }

  lemma {:induction false} NotTried(ids: nat -> string, n: nat, k: nat)
    requires forall a: nat, b: nat :: a != b ==> ids(a) != ids(b)
    requires n <= k
    ensures ids(k) !in Tried(ids, n)
  {
    if n > 0 {
      NotTried(ids, n - 1, k);
    }
  }

  /** Each id of a sequence of distinct ids found taken brings the search
      closer to a free one. */
  lemma Progress(used: set<string>, ids: nat -> string, n: nat)
    requires forall a: nat, b: nat :: a != b ==> ids(a) != ids(b)
    requires ids(n) in used
    ensures |used - Tried(ids, n + 1)| < |used - Tried(ids, n)|
  {
    NotTried(ids, n, n);
    assert used - Tried(ids, n + 1) == (used - Tried(ids, n)) - {ids(n)};
  }

  /** `base`, `base-1`, `base-2`, ... as a function of the index. */
  ghost function Candidates(base: string): nat -> string
  {
    (k: nat) => Candidate(base, k)
  }

  lemma CandidateProgress(used: set<string>, base: string, n: nat)
    requires Candidate(base, n) in used
    ensures |used - Tried(Candidates(base), n + 1)| < |used - Tried(Candidates(base), n)|
  {
    var ids := Candidates(base);
    forall a: nat, b: nat | a != b
      ensures ids(a) != ids(b)
    {
      CandidateDistinct(base, a, b);
    }
    Progress(used, ids, n);
  }

  /** The ids `base`, ..., up to the `n`-th excluded, are all taken. */
  predicate Taken(used: set<string>, base: string, n: nat)
  {
    forall m :: 0 <= m < n ==> Candidate(base, m) in used
  }

  /** `id` is the first of the candidates built on `base` that is not in
      `used`. */
  ghost predicate FirstFree(id: string, base: string, used: set<string>)
  {
    id !in used && exists n: nat :: id == Candidate(base, n) && Taken(used, base, n)
  }

  lemma TakenStep(used: set<string>, base: string, n: nat)
    requires Taken(used, base, n) && Candidate(base, n) in used
    ensures Taken(used, base, n + 1)
  {
  }

  /** A heading of the rendered post: its level, its text and the id the
      element already carries (`""` when it has none). */
  datatype Heading = Heading(level: int, text: string, elementId: string)

  predicate HasText(h: Heading) { h.text != [] }

  function IdOf(t: TocItem): string { t.id }

  /** The ids given out while the headings of one post are processed
      (`usedIds`). */
  class HeadingIds {
    var used: set<string>

    constructor()
      ensures used == {}
    {
      used := {};
    }

    /** `ensureId`: an element that has an id keeps it (trimmed); otherwise
        the heading gets the first of `slug`, `slug-1`, `slug-2`, ... that
        is not taken. The id is recorded as used. */
    method EnsureId(elementId: string, text: string) returns (id: string)
      modifies this
      ensures !IsBlank(elementId) ==> id == Trim(elementId)
      ensures IsBlank(elementId) ==> FirstFree(id, Slugify(text), old(used))
      ensures used == old(used) + {id}
    {
      id := Trim(elementId);
      if id == [] {
        var base := Slugify(text);
        id := base;
        var n: nat := 0;
        while id in used
          invariant id == Candidate(base, n)
          invariant Taken(used, base, n)
          invariant used == old(used)
          decreases |used - Tried(Candidates(base), n)|
        {
          CandidateProgress(used, base, n);
          TakenStep(used, base, n);
          n := n + 1;
          id := Candidate(base, n);
        }
      }
      used := used + {id};
    }

    /** The callback run on one heading: a heading with text gets an id
        and is appended as an item; one without text is skipped. */
    method AddHeading(h: Heading, items: seq<TocItem>, ghost before: set<string>) returns (next: seq<TocItem>)
      modifies this
      requires used == before + IdSet(items)
      ensures used == before + IdSet(next)
      ensures ItemShapes(next) == ItemShapes(items) + if HasText(h) then [HeadingShape(h)] else []
      ensures HasNoOwnId(h) && FreshIds(items, before) ==> FreshIds(next, before)
      ensures !HasText(h) ==> next == items
      ensures HasText(h) ==>
        |next| == |items| + 1 && next[..|items|] == items &&
        next[|items|].level == h.level && next[|items|].text == h.text &&
        IdFor(h, next[|items|].id, old(used))
    {
      next := items;
      if h.text != [] {
        ghost var prior := used;
        var id := EnsureId(h.elementId, h.text);
        var item := TocItem(h.level, h.text, id);
        AppendItem(items, item, h, before, prior, used);
        next := items + [item];
      }
    }

    /** The heading loop: each heading with text gets an id and becomes a
        table-of-contents item. When no heading carries an id of its own,
        the ids are distinct and none was used before. */
    method BuildToc(headings: seq<Heading>) returns (items: seq<TocItem>)
      modifies this
      ensures ItemShapes(items) == Shapes(headings)
      ensures used == old(used) + IdSet(items)
      ensures NoOwnIds(headings) ==> FreshIds(items, old(used))
      ensures Assigned(headings, items, old(used))
    {
      items := [];
      var i := 0;
      assert headings[..0] == [];
      while i < |headings|
        invariant 0 <= i <= |headings|
        invariant ItemShapes(items) == Shapes(headings[..i])
        invariant used == old(used) + IdSet(items)
        invariant NoOwnIds(headings[..i]) ==> FreshIds(items, old(used))
        invariant Assigned(headings[..i], items, old(used))
      {
        ShapesPrefix(headings, i);
        AllPrefix(headings, i, HasNoOwnId);
        var next := AddHeading(headings[i], items, old(used));
        AssignedStep(headings, i, items, next, old(used));
        items := next;
        i := i + 1;
      }
      assert headings[..i] == headings;
    }
  }

  /** The id `ensureId` gives heading `h` while `used` are taken: its own
      id trimmed, or else the first free candidate built on its slug. */
  ghost predicate IdFor(h: Heading, id: string, used: set<string>)
  {
    if IsBlank(h.elementId) then FirstFree(id, Slugify(h.text), used) else id == Trim(h.elementId)
  }

  /** `items` are what the heading loop makes of `headings` when `before`
      are taken: one item per heading with text, in order, with its level,
      its text and the id `ensureId` gives it once the earlier items' ids
      are recorded. */
  ghost predicate Assigned(headings: seq<Heading>, items: seq<TocItem>, before: set<string>)
  {
    if headings == [] then items == []
    else
      var p, h := headings[..|headings| - 1], headings[|headings| - 1];
      if !HasText(h) then Assigned(p, items, before)
      else
        items != [] &&
        var q, t := items[..|items| - 1], items[|items| - 1];
        Assigned(p, q, before) && t.level == h.level && t.text == h.text &&
        IdFor(h, t.id, before + IdSet(q))
  }

  /** One turn of the heading loop extends what it has made. */
  lemma AssignedStep(headings: seq<Heading>, i: nat, items: seq<TocItem>, next: seq<TocItem>,
                     before: set<string>)
    requires i < |headings|
    requires Assigned(headings[..i], items, before)
    requires !HasText(headings[i]) ==> next == items
    requires HasText(headings[i]) ==>
      |next| == |items| + 1 && next[..|items|] == items &&
      next[|items|].level == headings[i].level && next[|items|].text == headings[i].text &&
      IdFor(headings[i], next[|items|].id, before + IdSet(items))
    ensures Assigned(headings[..i + 1], next, before)
  {
    assert headings[..i + 1][..i] == headings[..i];
  }

  /** Only one candidate can be the first free one. */
  lemma FirstFreeUnique(id1: string, id2: string, base: string, used: set<string>)
    requires FirstFree(id1, base, used) && FirstFree(id2, base, used)
    ensures id1 == id2
  {
    var n1: nat :| id1 == Candidate(base, n1) && Taken(used, base, n1);
    var n2: nat :| id2 == Candidate(base, n2) && Taken(used, base, n2);
    assert n1 >= n2 by {
      assert Candidate(base, n2) !in used;
    }
    assert n2 >= n1 by {
      assert Candidate(base, n1) !in used;
    }
  }

  /** The heading loop is deterministic: the headings and the ids taken
      before fix every item, id included. */
  lemma {:induction false} AssignedUnique(headings: seq<Heading>, a: seq<TocItem>, b: seq<TocItem>,
                                          before: set<string>)
    requires Assigned(headings, a, before) && Assigned(headings, b, before)
    ensures a == b
  {
    if headings != [] {
      var p, h := headings[..|headings| - 1], headings[|headings| - 1];
      if !HasText(h) {
        AssignedUnique(p, a, b, before);
      } else {
        var qa, ta := a[..|a| - 1], a[|a| - 1];
        var qb, tb := b[..|b| - 1], b[|b| - 1];
        AssignedUnique(p, qa, qb, before);
        if IsBlank(h.elementId) {
          FirstFreeUnique(ta.id, tb.id, Slugify(h.text), before + IdSet(qa));
        }
        assert ta == tb;
        assert a == qa + [ta] && b == qb + [tb];
      }
    }
  }

  predicate HasNoOwnId(h: Heading) { IsBlank(h.elementId) }

  /** No heading carries an id of its own. */
  predicate NoOwnIds(headings: seq<Heading>)
  {
    All(headings, HasNoOwnId)
  }

  /** The level and text of an item, and of a heading. */
  function Shape(t: TocItem): (int, string) { (t.level, t.text) }

  function HeadingShape(h: Heading): (int, string) { (h.level, h.text) }

  /** The ids of the items. */
  function IdSet(items: seq<TocItem>): set<string>
  {
    if items == [] then {} else IdSet(items[..|items| - 1]) + {items[|items| - 1].id}
  }

  /** Each id is new: not in `before` and not given to an earlier item. */
  predicate FreshIds(items: seq<TocItem>, before: set<string>)
  {
    items == [] ||
    (FreshIds(items[..|items| - 1], before) && items[|items| - 1].id !in before + IdSet(items[..|items| - 1]))
  }

  lemma IdStep(items: seq<TocItem>, item: TocItem, before: set<string>)
    ensures IdSet(items + [item]) == IdSet(items) + {item.id}
    ensures FreshIds(items + [item], before) <==> FreshIds(items, before) && item.id !in before + IdSet(items)
  {
    assert (items + [item])[..|items|] == items;
  }

  /** Appending the item made for heading `h`, whose id was just added to
      the used ids. */
  lemma AppendItem(items: seq<TocItem>, item: TocItem, h: Heading, before: set<string>,
                   prior: set<string>, after: set<string>)
    requires prior == before + IdSet(items)
    requires after == prior + {item.id}
    requires Shape(item) == HeadingShape(h)
    requires HasNoOwnId(h) ==> item.id !in prior
    ensures after == before + IdSet(items + [item])
    ensures ItemShapes(items + [item]) == ItemShapes(items) + [HeadingShape(h)]
    ensures HasNoOwnId(h) && FreshIds(items, before) ==> FreshIds(items + [item], before)
  {
    IdStep(items, item, before);
    assert (items + [item])[..|items|] == items;
  }

  lemma {:induction false} IdSetMember(items: seq<TocItem>, k: nat)
    requires k < |items|
    ensures items[k].id in IdSet(items)
  {
    var p := items[..|items| - 1];
    if k < |p| {
      IdSetMember(p, k);
      assert p[k] == items[k];
    }
  }

  /** Fresh ids are pairwise distinct and none was used before. */
  lemma {:induction false} FreshIdsSpec(items: seq<TocItem>, before: set<string>)
    requires FreshIds(items, before)
    ensures Distinct(Map(items, IdOf))
    ensures forall k :: 0 <= k < |items| ==> items[k].id !in before
  {
    if items != [] {
      var p, last := items[..|items| - 1], items[|items| - 1];
      FreshIdsSpec(p, before);
      assert items == p + [last];
      MapAppend(p, [last], IdOf);
      assert Map([last], IdOf) == [last.id];
      forall x | x in Map(p, IdOf)
        ensures x !in [last.id]
      {
        var k :| 0 <= k < |p| && Map(p, IdOf)[k] == x;
        IdSetMember(p, k);
      }
      DistinctAppend(Map(p, IdOf), [last.id]);
      assert Map(items, IdOf) == Map(p, IdOf) + [last.id];
    }
  }

  /** The level and text of each heading that has text. */
  function Shapes(headings: seq<Heading>): seq<(int, string)>
  {
    if headings == [] then []
    else
      var h := headings[|headings| - 1];
      Shapes(headings[..|headings| - 1]) + if HasText(h) then [HeadingShape(h)] else []
  }

  lemma ShapesPrefix(headings: seq<Heading>, i: nat)
    requires i < |headings|
    ensures Shapes(headings[..i + 1]) ==
      Shapes(headings[..i]) + if HasText(headings[i]) then [HeadingShape(headings[i])] else []
  {
    assert headings[..i + 1][..i] == headings[..i];
  }

  /** The level and text of each item. */
  function ItemShapes(items: seq<TocItem>): seq<(int, string)>
  {
    if items == [] then [] else ItemShapes(items[..|items| - 1]) + [Shape(items[|items| - 1])]
  }

  lemma {:induction false} ShapesSpec(headings: seq<Heading>)
    ensures Shapes(headings) == Map(Filter(headings, HasText), HeadingShape)
  {
    if headings != [] {
      var p, h := headings[..|headings| - 1], headings[|headings| - 1];
      ShapesSpec(p);
      FilterSnoc(headings, HasText);
      var kept := if HasText(h) then [h] else [];
      MapAppend(Filter(p, HasText), kept, HeadingShape);
      assert Map(kept, HeadingShape) == if HasText(h) then [HeadingShape(h)] else [];
    }
  }

  lemma {:induction false} ItemShapesSpec(items: seq<TocItem>)
    ensures ItemShapes(items) == Map(items, Shape)
  {
    if items != [] {
      var p, t := items[..|items| - 1], items[|items| - 1];
      ItemShapesSpec(p);
      MapSnoc(items, Shape);
    }
  }

  /** `toggleTocSection`. */
  function ToggleTocSection(collapsed: set<string>, id: string): (r: set<string>)
    ensures id in r <==> id !in collapsed
    ensures r - {id} == collapsed - {id}
  {
    Toggle(collapsed, id)
  }
}
