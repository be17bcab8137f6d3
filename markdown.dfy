/** The regular-expression rewrites that strip Markdown syntax before
    characters or words are counted (the `replace` chains of
    `src/pages/Post.tsx` and `src/components/KeywordSphere.tsx`). Each
    rewrite is written as a left-to-right scan that makes the same match
    decisions as JavaScript's global `replace`: at each position it tries
    to match, replaces the match and resumes after it, or else keeps one
    character and moves on. */
module Markdown {
  import opened Wrappers
  import opened Seqs
  import opened Text

  /** `s[i..i + 3] == "---"`. */
  predicate DashesAt(s: string, i: int)
  {
    0 <= i && i + 3 <= |s| && s[i] == '-' && s[i + 1] == '-' && s[i + 2] == '-'
  }

  /** The first position at or after `i` where `---` starts. */
  function FindDashes(s: string, i: nat): (r: Option<nat>)
    ensures r.Some? ==> i <= r.value && DashesAt(s, r.value)
    ensures forall j :: i <= j && (r.None? || j < r.value) ==> !DashesAt(s, j)
    decreases |s| - i
  {
    if i + 3 > |s| then None
    else if DashesAt(s, i) then Some(i)
    else FindDashes(s, i + 1)
  }

  /** `replace(/^---[\s\S]*?---/, "")`: a block that opens with `---` at the
      very start of the text is removed up to and including the nearest
      closing `---`; without a closing `---` nothing is removed. */
  function StripFrontMatter(s: string): (r: string)
    ensures |r| <= |s|
    ensures !DashesAt(s, 0) ==> r == s
  {
    if DashesAt(s, 0) then
      match FindDashes(s, 3)
      case Some(j) => s[j + 3..]
      case None => s
    else s
  }

  /** The number of `#` characters at the start of `s`. */
  function HashRun(s: string): (k: nat)
    ensures k <= |s|
    ensures forall i :: 0 <= i < k ==> s[i] == '#'
    ensures k < |s| ==> s[k] != '#'
  {
    if s != [] && s[0] == '#' then 1 + HashRun(s[1..]) else 0
  }

  /** `replace(/#{1,6}\s/g, "")`: a run of one to six `#` followed by
      whitespace is removed with that whitespace character; of a longer run
      only the last six `#` are removed. */
  function StripHeadings(s: string): (r: string)
    ensures |r| <= |s|
    ensures '#' !in s ==> r == s
  {
    if s == [] then []
    else if s[0] == '#' && HashRun(s) <= 6 && HashRun(s) < |s| && IsSpace(s[HashRun(s)]) then
      StripHeadings(s[HashRun(s) + 1..])
    else
      assert '#' !in s ==> '#' !in s[1..];
      var r := [s[0]] + StripHeadings(s[1..]);
      assert '#' !in s ==> r == [s[0]] + s[1..] == s;
      r
  }

  predicate NotEmphasis(c: char) { c != '*' && c != '_' }

  /** `replace(/\*\*?|__?/g, "")`: every `*` and `_` is removed (a match is
      one or two of the same character, so together they cover all of
      them). */
  function StripEmphasis(s: string): (r: string)
    ensures |r| <= |s|
    ensures forall i :: 0 <= i < |r| ==> r[i] != '*' && r[i] != '_'
  {
    FilterElements(s, NotEmphasis);
    Filter(s, NotEmphasis)
  }

  predicate NotBacktick(c: char) { c != '`' }

  /** `replace(/`/g, "")`. */
  function StripBackticks(s: string): (r: string)
    ensures |r| <= |s|
    ensures '`' !in r
  {
    FilterMember(s, NotBacktick, '`');
    Filter(s, NotBacktick)
  }

  /** The first position at or after `i` holding `c`. */
  function FindChar(s: string, c: char, i: nat): (r: Option<nat>)
    ensures r.Some? ==> i <= r.value < |s| && s[r.value] == c
    ensures forall j :: i <= j < |s| && (r.None? || j < r.value) ==> s[j] != c
    decreases |s| - i
  {
    if i >= |s| then None
    else if s[i] == c then Some(i)
    else FindChar(s, c, i + 1)
  }

  /** A match of `\[([^\]]*)\]\([^)]*\)` at the start of `s`: the position
      of the `]` that closes the text and the position just after the `)`
      that closes the target. */
  function LinkAt(s: string): (r: Option<(nat, nat)>)
    ensures r.Some? ==> 0 < r.value.0 && r.value.0 + 3 <= r.value.1 <= |s|
  {
    if s == [] || s[0] != '[' then None
    else
      match FindChar(s, ']', 1)
      case None => None
      case Some(j) =>
        if j + 1 < |s| && s[j + 1] == '(' then
          match FindChar(s, ')', j + 2)
          case None => None
          case Some(m) => Some((j, m + 1))
        else None
  }

  /** `replace(/\[([^\]]*)\]\([^)]*\)/g, "$1")`: a link keeps its text and
      loses its brackets and target. */
  function StripLinks(s: string): (r: string)
    ensures |r| <= |s|
    ensures '[' !in s ==> r == s
    decreases |s|
  {
    if s == [] then []
    else if LinkAt(s).Some? then
      var (j, m) := LinkAt(s).value;
      s[1..j] + StripLinks(s[m..])
    else
      assert '[' !in s ==> '[' !in s[1..];
      var r := [s[0]] + StripLinks(s[1..]);
      assert '[' !in s ==> r == [s[0]] + s[1..] == s;
      r
  }

  predicate IsBullet(c: char) { c == '-' || c == '*' || c == '+' }

  /** The length of the whitespace run at the start of `s`. */
  function SpaceRun(s: string): (w: nat)
    ensures w <= |s|
    ensures forall i :: 0 <= i < w ==> IsSpace(s[i])
    ensures w < |s| ==> !IsSpace(s[w])
  {
    |s| - |TrimStart(s)|
  }

  /** A match of `^\s*[-*+]\s` at the start of `s` (line start not
      checked): its length. */
  function BulletAt(s: string): (r: Option<nat>)
    ensures r.Some? ==> 2 <= r.value <= |s|
  {
    var w := SpaceRun(s);
    if w + 1 < |s| && IsBullet(s[w]) && IsSpace(s[w + 1]) then Some(w + 2) else None
  }

  /** `replace(/^\s*[-*+]\s/gm, "")`, scanning from a position that is at
      the start of a line exactly when `bol` holds (the start of the text,
      or just after a line terminator). */
  function StripBulletsFrom(s: string, bol: bool): (r: string)
    ensures |r| <= |s|
    ensures (forall i :: 0 <= i < |s| ==> !IsBullet(s[i])) ==> r == s
    decreases |s|
  {
    if s == [] then []
    else if bol && BulletAt(s).Some? then
      var n := BulletAt(s).value;
      assert IsBullet(s[SpaceRun(s)]);
      StripBulletsFrom(s[n..], IsLineTerminator(s[n - 1]))
    else
      var rest := StripBulletsFrom(s[1..], IsLineTerminator(s[0]));
      var r := [s[0]] + rest;
      assert (forall i :: 0 <= i < |s| ==> !IsBullet(s[i])) ==> r == s by {
        if forall i :: 0 <= i < |s| ==> !IsBullet(s[i]) {
          assert forall i :: 0 <= i < |s[1..]| ==> !IsBullet(s[1..][i]);
          assert s == [s[0]] + s[1..];
        }
      }
      r
  }

  function StripBullets(s: string): (r: string)
    ensures |r| <= |s|
  {
    StripBulletsFrom(s, true)
  }
}
