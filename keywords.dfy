/** The keyword tally behind the keyword sphere
    (`src/components/KeywordSphere.tsx`, `extractKeywords`): every trimmed,
    non-empty tag and every word of at least two characters of the post's
    stripped text, cut to twelve characters, counts once in one shared
    tally; the sixty largest counts are shown. */
module Keywords {
  import opened Wrappers
  import opened Seqs
  import opened Sorting
  import opened Text
  import opened Records
  import opened Tables
  import opened Posts
  import opened Facets
  import opened Markdown

  /** `WORD_COUNT`: the number of keywords shown. */
  const WordCount: nat := 60

  /** The length a word is cut to, `slice(0, 12)`. */
  const WordLength: nat := 12

  /** The Unicode punctuation (`\p{P}`) and symbol (`\p{S}`) characters the
      model knows: the ASCII ones, the Latin-1 ones, general punctuation,
      the CJK punctuation and the full-width forms. */
  predicate IsPunctOrSymbol(c: char)
  {
    ('!' <= c <= '/') || (':' <= c <= '@') || ('[' <= c <= '`') || ('{' <= c <= '~')
    || ('¡' <= c <= '©') || c == '«' || c == '¬' || ('®' <= c <= '±')
    || c == '´' || c == '¶' || c == '·' || c == '¸' || c == '»' || c == '¿'
    || c == '×' || c == '÷'
    || ('‐' <= c <= '‧') || ('‰' <= c <= '⁞')
    || ('、' <= c <= '〃') || ('〈' <= c <= '】') || ('〔' <= c <= '〟')
    || ('！' <= c <= '／') || ('：' <= c <= '＠') || ('［' <= c <= '｀')
    || ('｛' <= c <= '･')
  }

  /** A character of the class `[\s\p{P}\p{S}]`. */
  predicate IsSeparator(c: char)
  {
    IsSpace(c) || IsPunctOrSymbol(c)
  }

  predicate NotSeparator(c: char) { !IsSeparator(c) }

  predicate NoSeparator(s: string)
  {
    forall i :: 0 <= i < |s| ==> !IsSeparator(s[i])
  }

  /** The length of the separator-free start of `s`. */
  function WordRun(s: string): (n: nat)
    ensures n <= |s|
    ensures NoSeparator(s[..n])
    ensures n < |s| ==> IsSeparator(s[n])
  {
    if s != [] && !IsSeparator(s[0]) then
      var n := 1 + WordRun(s[1..]);
      assert forall i :: 1 <= i < n ==> s[..n][i] == s[1..][..n - 1][i - 1];
      n
    else 0
  }

  /** What is left of `s` after its leading separators. */
  function SkipSeparators(s: string): (r: string)
    ensures |r| <= |s| && r == s[|s| - |r|..]
    ensures r == [] || !IsSeparator(r[0])
    ensures forall i :: 0 <= i < |s| - |r| ==> IsSeparator(s[i])
  {
    if s != [] && IsSeparator(s[0]) then SkipSeparators(s[1..]) else s
  }

  /** `s.split(/[\s\p{P}\p{S}]+/u)`: the pieces between maximal runs of
      separators; a run at either end leaves an empty piece there. */
  function SplitWords(s: string): (r: seq<string>)
    ensures |r| >= 1
    ensures forall i :: 0 <= i < |r| ==> NoSeparator(r[i])
    decreases |s|
  {
    var n := WordRun(s);
    if n == |s| then
      assert s[..n] == s;
      [s]
    else [s[..n]] + SplitWords(SkipSeparators(s[n + 1..]))
  }

  /** Splitting loses only the separators: the pieces, put back together,
      are the text without its separator characters, in order. */
  lemma {:induction false} SplitWordsKeeps(s: string)
    ensures Flatten(SplitWords(s)) == Filter(s, NotSeparator)
    decreases |s|
  {
    var n := WordRun(s);
    FilterAll(s[..n], NotSeparator);
    if n == |s| {
      assert s[..n] == s;
    } else {
      var skipped := SkipSeparators(s[n + 1..]);
      SplitWordsKeeps(skipped);
      assert SplitWords(s) == [s[..n]] + SplitWords(skipped);
      assert Flatten(SplitWords(s)) == s[..n] + Flatten(SplitWords(skipped));
      DropSeparatorRun(s, n);
    }
  }

  /** The separator at `n` and the run after it contribute nothing to the
      filtered text. */
  lemma DropSeparatorRun(s: string, n: nat)
    requires n < |s| && IsSeparator(s[n])
    ensures Filter(s, NotSeparator) == Filter(s[..n], NotSeparator) + Filter(SkipSeparators(s[n + 1..]), NotSeparator)
  {
    assert Filter(s, NotSeparator) == Filter(s[..n], NotSeparator) + Filter(s[n + 1..], NotSeparator) by {
      assert s == s[..n] + ([s[n]] + s[n + 1..]);
      FilterAppend(s[..n], [s[n]] + s[n + 1..], NotSeparator);
      FilterAppend([s[n]], s[n + 1..], NotSeparator);
    }
    DropLeadingSeparators(s[n + 1..]);
  }

  lemma DropLeadingSeparators(rest: string)
    ensures Filter(rest, NotSeparator) == Filter(SkipSeparators(rest), NotSeparator)
  {
    var skipped := SkipSeparators(rest);
    var k := |rest| - |skipped|;
    assert rest == rest[..k] + skipped;
    FilterAppend(rest[..k], skipped, NotSeparator);
    FilterNone(rest[..k], NotSeparator);
  }

  /** `s.length >= 2`. */
  predicate IsToken(s: string) { |s| >= 2 }

  /** The tokens of a text: its pieces of at least two characters. */
  function Tokens(text: string): (r: seq<string>)
    ensures forall i :: 0 <= i < |r| ==> IsToken(r[i]) && NoSeparator(r[i])
  {
    FilterElements(SplitWords(text), IsToken);
    Filter(SplitWords(text), IsToken)
  }

  /** The text of a post with the Markdown syntax stripped: title,
      description and content joined by spaces, then front matter,
      headings, emphasis, links (kept as their text) and backticks removed
      in that order, and whitespace runs made single spaces. */
  function KeywordText(p: Post): string
  {
    var raw := p.meta.title + " " + p.meta.description.GetOr("") + " " + p.content;
    ReplaceSpaceRuns(StripBackticks(StripLinks(StripEmphasis(StripHeadings(StripFrontMatter(raw))))), " ")
  }

  /** The words the tags of a post contribute, in order: each tag trimmed,
      the blank ones left out. */
  function TagWords(tags: seq<string>): seq<string>
  {
    if tags == [] then []
    else TagWords(tags[..|tags| - 1]) + (if Trim(tags[|tags| - 1]) != [] then [Trim(tags[|tags| - 1])] else [])
  }

  /** The words the tokens of a post contribute, in order: each non-empty
      token cut to twelve characters. */
  function TokenWords(tokens: seq<string>): seq<string>
  {
    if tokens == [] then []
    else TokenWords(tokens[..|tokens| - 1]) + (if tokens[|tokens| - 1] != [] then [Take(tokens[|tokens| - 1], WordLength)] else [])
  }

  /** Everything one post adds to the tally, in order. */
  function PostWords(p: Post): seq<string>
  {
    TagWords(PostTags(p)) + TokenWords(Tokens(KeywordText(p)))
  }

  /** Everything the posts add to the tally, in order. */
  function WordStream(posts: seq<Post>): seq<string>
  {
    if posts == [] then [] else WordStream(posts[..|posts| - 1]) + PostWords(posts[|posts| - 1])
  }

  /** A count table cut to its first sixty rows. */
  function TopWords(ks: seq<string>): Record<int>
  {
    Take(CountTable(ks), WordCount)
  }

  /** The keyword table: the tally, enumerated, largest count first, cut
      to sixty rows. */
  function KeywordTable(posts: seq<Post>): Record<int>
  {
    TopWords(WordStream(posts))
  }

  lemma TagWordsStep(before: seq<string>, tags: seq<string>, j: nat)
    requires j < |tags|
    ensures var t := Trim(tags[j]);
      Tally(before + TagWords(tags[..j + 1])) ==
        if t != [] then Bump(Tally(before + TagWords(tags[..j])), t) else Tally(before + TagWords(tags[..j]))
  {
    var t := Trim(tags[j]);
    var w := TagWords(tags[..j]);
    assert TagWords(tags[..j + 1]) == w + if t != [] then [t] else [] by {
      assert tags[..j + 1][..j] == tags[..j];
    }
    if t != [] {
      assert before + (w + [t]) == (before + w) + [t];
      TallySnoc(before + w, t);
    } else {
      assert w + [] == w;
    }
  }

  lemma TokenWordsStep(before: seq<string>, tokens: seq<string>, j: nat)
    requires j < |tokens|
    ensures var t := tokens[j];
      Tally(before + TokenWords(tokens[..j + 1])) ==
        if t != [] then Bump(Tally(before + TokenWords(tokens[..j])), Take(t, WordLength))
        else Tally(before + TokenWords(tokens[..j]))
  {
    var t := tokens[j];
    var w := TokenWords(tokens[..j]);
    assert TokenWords(tokens[..j + 1]) == w + if t != [] then [Take(t, WordLength)] else [] by {
      assert tokens[..j + 1][..j] == tokens[..j];
    }
    if t != [] {
      assert before + (w + [Take(t, WordLength)]) == (before + w) + [Take(t, WordLength)];
      TallySnoc(before + w, Take(t, WordLength));
    } else {
      assert w + [] == w;
    }
  }

  lemma WordStreamStep(posts: seq<Post>, i: nat)
    requires i < |posts|
    ensures WordStream(posts[..i + 1]) == WordStream(posts[..i]) + PostWords(posts[i])
  {
    assert posts[..i + 1][..i] == posts[..i];
  }

  lemma PostWordsAppend(before: seq<string>, p: Post)
    ensures before + TagWords(PostTags(p)) + TokenWords(Tokens(KeywordText(p))) == before + PostWords(p)
  {
    var a, b := TagWords(PostTags(p)), TokenWords(Tokens(KeywordText(p)));
    assert PostWords(p) == a + b;
    assert before + a + b == before + (a + b);
  }

  /** Tallies the tags of one post into `counts`. */
  method TallyTags(counts: Record<int>, tags: seq<string>, ghost before: seq<string>) returns (counts': Record<int>)
    requires counts == Tally(before)
    ensures counts' == Tally(before + TagWords(tags))
  {
    counts' := counts;
    assert before + TagWords(tags[..0]) == before;
    for j := 0 to |tags|
      invariant counts' == Tally(before + TagWords(tags[..j]))
    {
      var t := Trim(tags[j]);
      TagWordsStep(before, tags, j);
      if t != [] {
        counts' := Bump(counts', t);
      }
    }
    assert tags[..|tags|] == tags;
  }

  /** Tallies the tokens of one post into `counts`. */
  method TallyTokens(counts: Record<int>, tokens: seq<string>, ghost before: seq<string>) returns (counts': Record<int>)
    requires counts == Tally(before)
    ensures counts' == Tally(before + TokenWords(tokens))
  {
    counts' := counts;
    assert before + TokenWords(tokens[..0]) == before;
    for j := 0 to |tokens|
      invariant counts' == Tally(before + TokenWords(tokens[..j]))
    {
      var t := tokens[j];
      TokenWordsStep(before, tokens, j);
      if t != [] {
        var w := Take(t, WordLength);
        counts' := Bump(counts', w);
      }
    }
    assert tokens[..|tokens|] == tokens;
  }

  /** `extractKeywords`. */
  method ExtractKeywords(posts: seq<Post>) returns (words: Record<int>)
    ensures words == KeywordTable(posts)
  {
    var counts: Record<int> := [];
    for i := 0 to |posts|
      invariant counts == Tally(WordStream(posts[..i]))
    {
      var post := posts[i];
      counts := TallyTags(counts, post.meta.tags.GetOr([]), WordStream(posts[..i]));
      var text := KeywordText(post);
      var tokens := Tokens(text);
      counts := TallyTokens(counts, tokens, WordStream(posts[..i]) + TagWords(PostTags(post)));
      WordStreamStep(posts, i);
      PostWordsAppend(WordStream(posts[..i]), post);
    }
    assert posts[..|posts|] == posts;
    var arr := SortBy(Entries(counts), Count, IntGe);
    words := Take(arr, WordCount);
  }

  function Cut(t: string): string { Take(t, WordLength) }

  /** The words of the tags are `tags.map(t => t.trim())` without the
      empty strings. */
  lemma {:induction false} TagWordsSpec(tags: seq<string>)
    ensures TagWords(tags) == Filter(Map(tags, Trim), NonEmpty)
  {
    if tags != [] {
      var init, last := tags[..|tags| - 1], tags[|tags| - 1];
      TagWordsSpec(init);
      MapSnoc(tags, Trim);
      FilterAppend(Map(init, Trim), [Trim(last)], NonEmpty);
      assert Filter([Trim(last)], NonEmpty) == if Trim(last) != [] then [Trim(last)] else [] by {
        assert [Trim(last)][1..] == [];
      }
    }
  }

  /** The words of the tokens are the non-empty tokens cut to twelve
      characters. */
  lemma {:induction false} TokenWordsSpec(tokens: seq<string>)
    ensures TokenWords(tokens) == Map(Filter(tokens, NonEmpty), Cut)
  {
    if tokens != [] {
      var init, last := tokens[..|tokens| - 1], tokens[|tokens| - 1];
      TokenWordsSpec(init);
      assert tokens == init + [last];
      FilterAppend(init, [last], NonEmpty);
      MapAppend(Filter(init, NonEmpty), Filter([last], NonEmpty), Cut);
      assert Filter([last], NonEmpty) == if last != [] then [last] else [] by {
        assert [last][1..] == [];
      }
    }
  }

  /** Every token is long enough to pass the `if (t)` check, so each one
      counts, cut to at most twelve characters, and every word a token
      gives has between two and twelve characters and no separator. */
  lemma TokenWordsOfText(text: string)
    ensures TokenWords(Tokens(text)) == Map(Tokens(text), Cut)
    ensures forall w :: w in TokenWords(Tokens(text)) ==> 2 <= |w| <= WordLength && NoSeparator(w)
  {
    CutTokens(Tokens(text));
  }

  lemma CutTokens(tokens: seq<string>)
    requires forall i :: 0 <= i < |tokens| ==> IsToken(tokens[i]) && NoSeparator(tokens[i])
    ensures TokenWords(tokens) == Map(tokens, Cut)
    ensures forall w :: w in Map(tokens, Cut) ==> 2 <= |w| <= WordLength && NoSeparator(w)
  {
    assert TokenWords(tokens) == Map(tokens, Cut) by {
      TokenWordsSpec(tokens);
      FilterAll(tokens, NonEmpty);
    }
    forall w | w in Map(tokens, Cut)
      ensures 2 <= |w| <= WordLength && NoSeparator(w)
    {
      var i :| 0 <= i < |tokens| && Map(tokens, Cut)[i] == w;
      CutToken(tokens[i]);
    }
  }

  lemma CutToken(t: string)
    requires IsToken(t) && NoSeparator(t)
    ensures 2 <= |Cut(t)| <= WordLength && NoSeparator(Cut(t))
  {
    var w := Cut(t);
    assert forall k :: 0 <= k < |w| ==> w[k] == t[k];
  }

  /** A word drawn from a list of tags is a trimmed, non-empty tag, and
      every non-blank tag gives its trimmed form. */
  lemma TagWordsFrom(tags: seq<string>, w: string)
    ensures w in TagWords(tags) <==> w != [] && exists tag :: tag in tags && Trim(tag) == w
    ensures w in TagWords(tags) ==> IsTrimmed(w)
  {
    TagWordsSpec(tags);
    var ys := Map(tags, Trim);
    FilterMember(ys, NonEmpty, w);
    if w in ys {
      var i :| 0 <= i < |ys| && ys[i] == w;
      TrimSpec(tags[i]);
    }
    if w != [] && exists tag :: tag in tags && Trim(tag) == w {
      var tag :| tag in tags && Trim(tag) == w;
      MapMember(tags, Trim, tag);
    }
  }

  /** A word drawn from a text's tokens is two to twelve characters
      without separators, and every token gives its cut form. */
  lemma TokenWordsFrom(text: string, w: string)
    ensures w in TokenWords(Tokens(text)) ==> 2 <= |w| <= WordLength && NoSeparator(w)
    ensures (exists t :: t in Tokens(text) && Cut(t) == w) ==> w in TokenWords(Tokens(text))
  {
    TokenWordsOfText(text);
    if exists t :: t in Tokens(text) && Cut(t) == w {
      var t :| t in Tokens(text) && Cut(t) == w;
      MapMember(Tokens(text), Cut, t);
    }
  }

  /** Where the words of one post come from: a trimmed, non-empty tag of
      the post, or a token of two to twelve characters without separators;
      and every non-blank tag and every token of the post gives one. */
  lemma PostWordsFrom(p: Post, w: string)
    ensures w in PostWords(p) ==>
      || (w != [] && IsTrimmed(w) && exists tag :: tag in PostTags(p) && Trim(tag) == w)
      || (2 <= |w| <= WordLength && NoSeparator(w))
    ensures (exists tag :: tag in PostTags(p) && Trim(tag) == w && w != []) ==> w in PostWords(p)
    ensures (exists t :: t in Tokens(KeywordText(p)) && Cut(t) == w) ==> w in PostWords(p)
  {
    var tags, text := PostTags(p), KeywordText(p);
    assert w in PostWords(p) <==> w in TagWords(tags) || w in TokenWords(Tokens(text));
    TagWordsFrom(tags, w);
    TokenWordsFrom(text, w);
  }

  /** A word is in the tally exactly when some post gives it. */
  lemma {:induction false} WordStreamMember(posts: seq<Post>, w: string)
    ensures w in WordStream(posts) <==> exists p :: p in posts && w in PostWords(p)
  {
    if posts != [] {
      var init, last := posts[..|posts| - 1], posts[|posts| - 1];
      WordStreamMember(init, w);
      if exists p :: p in posts && w in PostWords(p) {
        var p :| p in posts && w in PostWords(p);
        SnocMember(posts, p);
      }
      if exists p :: p in init && w in PostWords(p) {
        var p :| p in init && w in PostWords(p);
        SnocMember(posts, p);
      }
    }
  }

  /** The keyword table has at most sixty rows (exactly sixty when there
      are that many distinct words), names each word once, pairs it with
      its number of occurrences across all posts (at least one), and is
      sorted by non-increasing count. */
  lemma TopWordsSpec(ks: seq<string>)
    ensures |TopWords(ks)| == if |Dedup(ks)| < WordCount then |Dedup(ks)| else WordCount
    ensures Valid(TopWords(ks))
    ensures forall i :: 0 <= i < |TopWords(ks)| ==>
      TopWords(ks)[i].0 in ks && TopWords(ks)[i].1 == multiset(ks)[TopWords(ks)[i].0] >= 1
    ensures SortedBy(TopWords(ks), Count, IntGe)
  {
    var t := CountTable(ks);
    assert Valid(t) && SortedBy(t, Count, IntGe) by {
      CountTableSpec(ks);
    }
    assert forall i :: 0 <= i < |t| ==> t[i].0 in ks && t[i].1 == multiset(ks)[t[i].0] >= 1 by {
      CountTableSpec(ks);
    }
    CountTableSize(ks);
    TakeValid(t, WordCount);
    PrefixRows(t, WordCount);
  }

  /** The first `n` rows are rows of `t`, in order. */
  lemma PrefixRows(t: Record<int>, n: nat)
    ensures forall i :: 0 <= i < |Take(t, n)| ==> Take(t, n)[i] == t[i]
    ensures SortedBy(t, Count, IntGe) ==> SortedBy(Take(t, n), Count, IntGe)
  {
  }

  /** A word left out of the table occurs no more often than any word
      shown, and is left out only when all sixty rows are taken. */
  lemma TopWordsLeftOut(ks: seq<string>, w: string)
    requires w in ks && w !in Keys(TopWords(ks))
    ensures |TopWords(ks)| == WordCount
    ensures forall i :: 0 <= i < WordCount ==> TopWords(ks)[i].1 >= multiset(ks)[w]
  {
    var t := CountTable(ks);
    assert w in Keys(t) && SortedBy(t, Count, IntGe) && forall i :: 0 <= i < |t| ==> t[i].1 == multiset(ks)[t[i].0] by {
      CountTableSpec(ks);
    }
    LeftOutOfPrefix(t, WordCount, w);
  }

  /** A key missing from the first `n` rows of a table sorted by count
      sits after them, with a count no larger than theirs. */
  lemma LeftOutOfPrefix(t: Record<int>, n: nat, w: string)
    requires SortedBy(t, Count, IntGe)
    requires w in Keys(t) && w !in Keys(Take(t, n))
    ensures |Take(t, n)| == n
    ensures exists j :: n <= j < |t| && t[j].0 == w && forall i :: 0 <= i < n ==> Take(t, n)[i].1 >= t[j].1
  {
    var r := Take(t, n);
    KeysAt(t);
    KeysAt(r);
    var j :| 0 <= j < |t| && t[j].0 == w;
    assert forall k :: 0 <= k < |r| ==> r[k] == t[k];
    assert j >= |r|;
    forall i | 0 <= i < n
      ensures r[i].1 >= t[j].1
    {
      assert IntGe(Count(t[i]), Count(t[j]));
    }
  }

  /** Rows with the same count keep the enumeration order of the tally:
      those shown are the first rows with that count. */
  lemma TopWordsStable(ks: seq<string>, c: int)
    ensures |WithKey(TopWords(ks), Count, c)| <= |WithKey(Entries(Tally(ks)), Count, c)|
    ensures WithKey(TopWords(ks), Count, c) == WithKey(Entries(Tally(ks)), Count, c)[..|WithKey(TopWords(ks), Count, c)|]
  {
    var t := CountTable(ks);
    CountTableSpec(ks);
    var n := |TopWords(ks)|;
    assert t == t[..n] + t[n..];
    WithKeyAppend(t[..n], t[n..], Count, c);
  }
}
