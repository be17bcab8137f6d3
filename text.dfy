/** Strings as the source's JavaScript sees them: the `\s` character class,
    `toLowerCase`, `trim`, `includes`, `split`, `join`, decimal numerals and
    the code-point order used for string comparison. */
module Text {
  import opened Seqs
  import opened Sorting

  /** JavaScript's `\s` (WhiteSpace and LineTerminator code points); `trim`
      removes exactly the same set. */
  predicate IsSpace(c: char)
  {
    ('\t' <= c <= '\r') || c == ' ' || c == '\U{00A0}' || c == '\U{1680}'
    || ('\U{2000}' <= c <= '\U{200A}') || c == '\U{2028}' || c == '\U{2029}'
    || c == '\U{202F}' || c == '\U{205F}' || c == '\U{3000}' || c == '\U{FEFF}'
  }

  /** The characters after which `^` matches under the `m` flag. */
  predicate IsLineTerminator(c: char)
  {
    c == '\n' || c == '\r' || c == '\U{2028}' || c == '\U{2029}'
  }

  predicate NoSpace(s: string)
  {
    forall i :: 0 <= i < |s| ==> !IsSpace(s[i])
  }

  /** Case mapping of `toLowerCase`, restricted to the ASCII letters. */
  function Lower(c: char): (r: char)
    ensures IsSpace(r) == IsSpace(c)
    ensures !('A' <= r <= 'Z')
    ensures !('A' <= c <= 'Z') ==> r == c
  {
    if 'A' <= c <= 'Z' then (c as int + 32) as char else c
  }

  /** `s.toLowerCase()`. */
  function LowerStr(s: string): (r: string)
    ensures |r| == |s|
    ensures forall i :: 0 <= i < |s| ==> r[i] == Lower(s[i])
  {
    Map(s, Lower)
  }

  predicate NotUpper(c: char) { !('A' <= c <= 'Z') }

  /** Lower-casing leaves a string without upper-case letters unchanged,
      so it is idempotent. */
  lemma LowerStrFixed(s: string)
    requires forall i :: 0 <= i < |s| ==> NotUpper(s[i])
    ensures LowerStr(s) == s
  {
  }

  lemma LowerStrIdempotent(s: string)
    ensures LowerStr(LowerStr(s)) == LowerStr(s)
  {
    LowerStrFixed(LowerStr(s));
  }

  /** `trimStart`: the suffix left after the leading whitespace. */
  function TrimStart(s: string): (r: string)
    ensures |r| <= |s| && r == s[|s| - |r|..]
    ensures r == [] || !IsSpace(r[0])
    ensures forall i :: 0 <= i < |s| - |r| ==> IsSpace(s[i])
  {
    if s != [] && IsSpace(s[0]) then TrimStart(s[1..]) else s
  }

  /** `trimEnd`: the prefix left before the trailing whitespace. */
  function TrimEnd(s: string): (r: string)
    ensures |r| <= |s| && r == s[..|r|]
    ensures r == [] || !IsSpace(r[|r| - 1])
    ensures forall i :: |r| <= i < |s| ==> IsSpace(s[i])
  {
    if s != [] && IsSpace(s[|s| - 1]) then TrimEnd(s[..|s| - 1]) else s
  }

  /** `s.trim()`. */
  function Trim(s: string): string
  {
    TrimEnd(TrimStart(s))
  }

  /** Neither end of `t` is whitespace. */
  predicate IsTrimmed(t: string)
  {
    t == [] || (!IsSpace(t[0]) && !IsSpace(t[|t| - 1]))
  }

  /** `trim` yields a trimmed slice of its input and fixes trimmed strings,
      hence it is idempotent. */
  lemma TrimSpec(s: string)
    ensures IsTrimmed(Trim(s))
    ensures |Trim(s)| <= |s|
    ensures IsTrimmed(s) ==> Trim(s) == s
    ensures Trim(Trim(s)) == Trim(s)
  {
    var u := TrimStart(s);
    var t := TrimEnd(u);
    if t != [] {
      assert t[0] == u[0];
    }
    assert IsTrimmed(t);
    assert TrimStart(t) == t;
  }

  lemma {:induction false} TrimStartLower(s: string)
    ensures TrimStart(LowerStr(s)) == LowerStr(TrimStart(s))
  {
    if s != [] {
      assert LowerStr(s)[1..] == LowerStr(s[1..]);
      TrimStartLower(s[1..]);
    }
  }

  lemma {:induction false} TrimEndLower(s: string)
    ensures TrimEnd(LowerStr(s)) == LowerStr(TrimEnd(s))
  {
    if s != [] {
      assert LowerStr(s)[..|s| - 1] == LowerStr(s[..|s| - 1]);
      TrimEndLower(s[..|s| - 1]);
    }
  }

  /** Trimming and lower-casing commute, since lower-casing never turns a
      whitespace character into a non-whitespace one or back. */
  lemma TrimLower(s: string)
    ensures Trim(LowerStr(s)) == LowerStr(Trim(s))
  {
    TrimStartLower(s);
    TrimEndLower(TrimStart(s));
  }

  /** `!s.trim()`: the string is empty or only whitespace. */
  predicate IsBlank(s: string)
  {
    Trim(s) == []
  }

  lemma BlankIffAllSpace(s: string)
    ensures IsBlank(s) <==> (forall i :: 0 <= i < |s| ==> IsSpace(s[i]))
  {
    var u := TrimStart(s);
    if u != [] {
      assert TrimEnd(u) != [];
      assert !IsSpace(s[|s| - |u|]);
    }
  }

  /** `s.replace(/\s+/g, rep)`: every maximal run of whitespace becomes
      `rep`. */
  function ReplaceSpaceRuns(s: string, rep: string): (r: string)
    ensures NoSpace(rep) ==> NoSpace(r)
    ensures |rep| <= 1 ==> |r| <= |s|
    decreases |s|
  {
    if s == [] then []
    else if IsSpace(s[0]) then rep + ReplaceSpaceRuns(TrimStart(s[1..]), rep)
    else [s[0]] + ReplaceSpaceRuns(s[1..], rep)
  }

  /** Every character of a replacement comes from the input or from `rep`,
      so a property of characters shared by both holds of the result. */
  lemma {:induction false} ReplaceSpaceRunsKeeps(s: string, rep: string, p: char -> bool)
    requires forall i :: 0 <= i < |s| ==> p(s[i])
    requires forall i :: 0 <= i < |rep| ==> p(rep[i])
    ensures forall i :: 0 <= i < |ReplaceSpaceRuns(s, rep)| ==> p(ReplaceSpaceRuns(s, rep)[i])
    decreases |s|
  {
    if s != [] {
      if IsSpace(s[0]) {
        var t := TrimStart(s[1..]);
        assert forall i :: 0 <= i < |t| ==> t[i] == s[|s| - |t| + i];
        ReplaceSpaceRunsKeeps(t, rep, p);
      } else {
        ReplaceSpaceRunsKeeps(s[1..], rep, p);
      }
    }
  }

  predicate NotSpace(c: char) { !IsSpace(c) }

  /** Replacing the runs by nothing deletes every whitespace character. */
  lemma {:induction false} ReplaceSpaceRunsDelete(s: string)
    ensures ReplaceSpaceRuns(s, []) == Filter(s, NotSpace)
    decreases |s|
  {
    if s != [] {
      var rest := s[1..];
      if IsSpace(s[0]) {
        var t := TrimStart(rest);
        LeadingSpaceDeleted(s);
        ReplaceSpaceRunsDelete(t);
        assert ReplaceSpaceRuns(s, []) == [] + ReplaceSpaceRuns(t, []);
      } else {
        ReplaceSpaceRunsDelete(rest);
        assert ReplaceSpaceRuns(s, []) == [s[0]] + ReplaceSpaceRuns(rest, []);
        assert Filter(s, NotSpace) == [s[0]] + Filter(rest, NotSpace);
      }
    }
  }

  /** Deleting whitespace removes a leading run of it. */
  lemma LeadingSpaceDeleted(s: string)
    requires s != [] && IsSpace(s[0])
    ensures Filter(s, NotSpace) == Filter(TrimStart(s[1..]), NotSpace)
  {
    assert Filter(s, NotSpace) == Filter(s[1..], NotSpace);
    TrimStartFilter(s[1..]);
  }

  /** Leading whitespace holds no non-whitespace character. */
  lemma {:induction false} TrimStartFilter(s: string)
    ensures Filter(TrimStart(s), NotSpace) == Filter(s, NotSpace)
  {
    if s != [] && IsSpace(s[0]) {
      assert Filter(s, NotSpace) == Filter(s[1..], NotSpace);
      TrimStartFilter(s[1..]);
    }
  }

  /** A string without whitespace is left alone. */
  lemma {:induction false} ReplaceSpaceRunsNoSpace(s: string, rep: string)
    requires NoSpace(s)
    ensures ReplaceSpaceRuns(s, rep) == s
  {
    if s != [] {
      ReplaceSpaceRunsNoSpace(s[1..], rep);
      assert s == [s[0]] + s[1..];
    }
  }

  /** A string in which whitespace is a single `rep` character between
      non-whitespace characters is left alone. */
  predicate SingleSpaced(s: string, sp: char)
  {
    && (forall i :: 0 <= i < |s| && IsSpace(s[i]) ==> s[i] == sp)
    && (forall i, j :: 0 <= i < |s| && 0 <= j < |s| && j == i + 1 ==> !IsSpace(s[i]) || !IsSpace(s[j]))
  }

  /** A character put in front of a single-spaced string keeps it
      single-spaced when it is not whitespace, or is `sp` before a
      non-whitespace character. */
  lemma SingleSpacedCons(x: char, rest: string, sp: char)
    requires SingleSpaced(rest, sp)
    requires IsSpace(x) ==> x == sp && (rest == [] || !IsSpace(rest[0]))
    ensures SingleSpaced([x] + rest, sp)
  {
    var s := [x] + rest;
    forall i | 0 <= i < |s| && IsSpace(s[i])
      ensures s[i] == sp
    {
      if i > 0 { assert s[i] == rest[i - 1]; }
    }
    forall i, j | 0 <= i < |s| && 0 <= j < |s| && j == i + 1
      ensures !IsSpace(s[i]) || !IsSpace(s[j])
    {
      if i > 0 { assert s[i] == rest[i - 1] && s[j] == rest[j - 1]; }
    }
  }

  /** The converse: the tail of a single-spaced string is single-spaced,
      and a leading whitespace character is `sp` before a non-whitespace
      character. */
  lemma SingleSpacedTail(s: string, sp: char)
    requires s != [] && SingleSpaced(s, sp)
    ensures SingleSpaced(s[1..], sp)
    ensures IsSpace(s[0]) ==> s[0] == sp && (|s| == 1 || !IsSpace(s[1]))
  {
    var rest := s[1..];
    forall i | 0 <= i < |rest| && IsSpace(rest[i])
      ensures rest[i] == sp
    {
      assert rest[i] == s[i + 1];
    }
    forall i, j | 0 <= i < |rest| && 0 <= j < |rest| && j == i + 1
      ensures !IsSpace(rest[i]) || !IsSpace(rest[j])
    {
      assert rest[i] == s[i + 1] && rest[j] == s[j + 1];
    }
    if |s| > 1 {
      assert !IsSpace(s[0]) || !IsSpace(s[1]);
    }
  }

  /** Replacing runs by one whitespace character yields runs of length one,
      so a second replacement changes nothing. */
  lemma {:induction false} ReplaceSpaceRunsSingle(s: string, sp: char)
    requires IsSpace(sp)
    ensures SingleSpaced(ReplaceSpaceRuns(s, [sp]), sp)
    decreases |s|
  {
    if s != [] {
      if IsSpace(s[0]) {
        var t := TrimStart(s[1..]);
        ReplaceSpaceRunsSingle(t, sp);
        var rest := ReplaceSpaceRuns(t, [sp]);
        assert rest == [] || !IsSpace(rest[0]) by {
          if t != [] {
            assert !IsSpace(t[0]);
            assert rest[0] == t[0];
          }
        }
        assert ReplaceSpaceRuns(s, [sp]) == [sp] + rest;
        SingleSpacedCons(sp, rest, sp);
      } else {
        var rest := ReplaceSpaceRuns(s[1..], [sp]);
        ReplaceSpaceRunsSingle(s[1..], sp);
        assert ReplaceSpaceRuns(s, [sp]) == [s[0]] + rest;
        SingleSpacedCons(s[0], rest, sp);
      }
    }
  }

  lemma {:induction false} ReplaceSpaceRunsFixed(s: string, sp: char)
    requires IsSpace(sp) && SingleSpaced(s, sp)
    ensures ReplaceSpaceRuns(s, [sp]) == s
    decreases |s|
  {
    if s != [] {
      var rest := s[1..];
      SingleSpacedTail(s, sp);
      ReplaceSpaceRunsFixed(rest, sp);
      if IsSpace(s[0]) {
        assert TrimStart(rest) == rest;
        assert ReplaceSpaceRuns(s, [sp]) == [sp] + ReplaceSpaceRuns(rest, [sp]);
      } else {
        assert ReplaceSpaceRuns(s, [sp]) == [s[0]] + ReplaceSpaceRuns(rest, [sp]);
      }
      assert s == [s[0]] + rest;
    }
  }

  predicate IsPrefix(p: string, s: string)
  {
    |p| <= |s| && p == s[..|p|]
  }

  /** `s.includes(sub)`. */
  predicate Contains(s: string, sub: string)
  {
    exists i :: 0 <= i <= |s| && IsPrefix(sub, s[i..])
  }

  lemma ContainsEmpty(s: string)
    ensures Contains(s, [])
  {
    assert IsPrefix([], s[0..]);
  }

  /** Substring containment is transitive. */
  lemma ContainsTrans(a: string, b: string, c: string)
    requires Contains(a, b) && Contains(b, c)
    ensures Contains(a, c)
  {
    var i :| 0 <= i <= |a| && IsPrefix(b, a[i..]);
    var j :| 0 <= j <= |b| && IsPrefix(c, b[j..]);
    forall k | 0 <= k < |c|
      ensures a[i + j..][k] == c[k]
    {
      assert c[k] == b[j + k];
      assert b[j + k] == a[i + j + k];
    }
    assert IsPrefix(c, a[i + j..]);
  }

  /** `s.split(c)` for a one-character separator: the pieces between the
      separators, empty pieces included. */
  function SplitOn(s: string, c: char): (r: seq<string>)
    ensures |r| >= 1
    ensures forall i :: 0 <= i < |r| ==> c !in r[i]
  {
    if s == [] then [[]]
    else
      var rest := SplitOn(s[1..], c);
      if s[0] == c then [[]] + rest
      else [[s[0]] + rest[0]] + rest[1..]
  }

  /** `parts.join(sep)`. */
  function JoinWith(parts: seq<string>, sep: string): string
  {
    if parts == [] then []
    else if |parts| == 1 then parts[0]
    else parts[0] + sep + JoinWith(parts[1..], sep)
  }

  /** Splitting on a character and joining with it is the identity, and
      there is one piece more than there are separators. */
  lemma {:induction false} SplitJoin(s: string, c: char)
    ensures JoinWith(SplitOn(s, c), [c]) == s
    ensures |SplitOn(s, c)| == multiset(s)[c] + 1
  {
    SplitCount(s, c);
    if s != [] {
      SplitJoin(s[1..], c);
      var rest := SplitOn(s[1..], c);
      assert s == [s[0]] + JoinWith(rest, [c]);
      if s[0] == c {
        assert SplitOn(s, c) == [[]] + rest;
        JoinEmptyHead(rest, c);
      } else {
        assert SplitOn(s, c) == [[s[0]] + rest[0]] + rest[1..];
        JoinExtendHead(s[0], rest, c);
      }
    }
  }

  /** Joining after an empty first piece starts with the separator. */
  lemma JoinEmptyHead(parts: seq<string>, c: char)
    requires parts != []
    ensures JoinWith([[]] + parts, [c]) == [c] + JoinWith(parts, [c])
  {
    assert ([[]] + parts)[1..] == parts;
  }

  /** Joining after extending the first piece at its front. */
  lemma JoinExtendHead(x: char, parts: seq<string>, c: char)
    requires parts != []
    ensures JoinWith([[x] + parts[0]] + parts[1..], [c]) == [x] + JoinWith(parts, [c])
  {
    var r := [[x] + parts[0]] + parts[1..];
    if |parts| > 1 {
      var head, tail := parts[0], JoinWith(parts[1..], [c]);
      assert r[0] == [x] + head && r[1..] == parts[1..];
      assert JoinWith(r, [c]) == ([x] + head) + [c] + tail;
      assert JoinWith(parts, [c]) == head + [c] + tail;
      Regroup([x], head, [c], tail);
    }
  }

  lemma {:induction false} SplitCount(s: string, c: char)
    ensures |SplitOn(s, c)| == multiset(s)[c] + 1
  {
    if s != [] {
      SplitCount(s[1..], c);
      assert s == [s[0]] + s[1..];
    }
  }

  /** Joining pieces that do not contain `c` with `c` and splitting the
      result on `c` gives the pieces back. */
  lemma {:induction false} JoinSplit(parts: seq<string>, c: char)
    requires parts != []
    requires forall i :: 0 <= i < |parts| ==> c !in parts[i]
    ensures SplitOn(JoinWith(parts, [c]), c) == parts
  {
    if |parts| == 1 {
      SplitNoSep(parts[0], c);
    } else {
      JoinSplit(parts[1..], c);
      SplitConcat(parts[0], JoinWith(parts[1..], [c]), c);
      assert parts == [parts[0]] + parts[1..];
    }
  }

  lemma {:induction false} SplitNoSep(s: string, c: char)
    requires c !in s
    ensures SplitOn(s, c) == [s]
  {
    if s != [] {
      SplitNoSep(s[1..], c);
      assert s == [s[0]] + s[1..];
    }
  }

  /** Splitting `a + [c] + b` when `a` has no `c`. */
  lemma {:induction false} SplitConcat(a: string, b: string, c: char)
    requires c !in a
    ensures SplitOn(a + [c] + b, c) == [a] + SplitOn(b, c)
  {
    if a == [] {
      assert a + [c] + b == [c] + b;
      assert ([c] + b)[1..] == b;
    } else {
      SplitConcat(a[1..], b, c);
      assert (a + [c] + b)[1..] == a[1..] + [c] + b;
      assert a == [a[0]] + a[1..];
    }
  }

  /** Code-point lexicographic order, which the model uses for
      `localeCompare` and for the default `sort()` of strings. */
  predicate LexLe(a: string, b: string)
  {
    a == [] || (b != [] && (a[0] < b[0] || (a[0] == b[0] && LexLe(a[1..], b[1..]))))
  }

  /** The reverse order, used by `(a, b) => b.localeCompare(a)`. */
  predicate LexGe(a: string, b: string)
  {
    LexLe(b, a)
  }

  lemma {:induction false} LexLeAntisym(a: string, b: string)
    requires LexLe(a, b) && LexLe(b, a)
    ensures a == b
  {
    if a != [] && b != [] {
      LexLeAntisym(a[1..], b[1..]);
      assert a == [a[0]] + a[1..] && b == [b[0]] + b[1..];
    }
  }

  lemma {:induction false} LexLeTrans(a: string, b: string, c: string)
    requires LexLe(a, b) && LexLe(b, c)
    ensures LexLe(a, c)
  {
    if a != [] && b != [] && c != [] && a[0] == b[0] == c[0] {
      LexLeTrans(a[1..], b[1..], c[1..]);
    }
  }

  lemma {:induction false} LexLeTotal(a: string, b: string)
    ensures LexLe(a, b) || LexLe(b, a)
  {
    if a != [] && b != [] && a[0] == b[0] {
      LexLeTotal(a[1..], b[1..]);
    }
  }

  lemma {:induction false} LexLeRefl(a: string)
    ensures LexLe(a, a)
  {
    if a != [] {
      LexLeRefl(a[1..]);
    }
  }

  /** Both string orders are total orders. */
  lemma LexOrders()
    ensures TotalOrder(LexLe) && TotalOrder(LexGe)
  {
    forall a ensures LexLe(a, a) { LexLeRefl(a); }
    forall a, b | LexLe(a, b) && LexLe(b, a) ensures a == b { LexLeAntisym(a, b); }
    forall a, b, c | LexLe(a, b) && LexLe(b, c) ensures LexLe(a, c) { LexLeTrans(a, b, c); }
    forall a, b ensures LexLe(a, b) || LexLe(b, a) { LexLeTotal(a, b); }
  }

  predicate IsDigit(c: char)
  {
    '0' <= c <= '9'
  }

  predicate AllDigits(s: string)
  {
    forall i :: 0 <= i < |s| ==> IsDigit(s[i])
  }

  function Digit(d: nat): (c: char)
    requires d < 10
    ensures IsDigit(c)
  {
    ('0' as int + d) as char
  }

  function DigitVal(c: char): nat
    requires IsDigit(c)
  {
    c as int - '0' as int
  }

  function Pow10(w: nat): (p: nat)
    ensures p >= 1
  {
    if w == 0 then 1 else 10 * Pow10(w - 1)
  }

  /** The last `w` decimal digits of `n`, zero-padded. */
  function Digits(n: nat, w: nat): (r: string)
    ensures |r| == w && AllDigits(r)
  {
    if w == 0 then [] else Digits(n / 10, w - 1) + [Digit(n % 10)]
  }

  /** The value of a decimal numeral (`parseInt` on digits only). */
  function ParseNat(s: string): nat
    requires AllDigits(s)
  {
    if s == [] then 0 else ParseNat(s[..|s| - 1]) * 10 + DigitVal(s[|s| - 1])
  }

  /** Reading back `w` padded digits gives the number they were made from. */
  lemma {:induction false} DigitsRoundTrip(n: nat, w: nat)
    requires n < Pow10(w)
    ensures ParseNat(Digits(n, w)) == n
  {
    if w > 0 {
      DigitsRoundTrip(n / 10, w - 1);
      var r := Digits(n, w);
      assert r[..|r| - 1] == Digits(n / 10, w - 1);
      assert DigitVal(Digit(n % 10)) == n % 10;
    }
  }

  /** The number of digits `n` is written with. */
  function Width(n: nat): (w: nat)
    ensures 1 <= w && n < Pow10(w)
  {
    if n < 10 then 1 else 1 + Width(n / 10)
  }

  /** `String(n)` for a natural number. */
  function NatStr(n: nat): (r: string)
    ensures |r| >= 1 && AllDigits(r)
    ensures ParseNat(r) == n
  {
    DigitsRoundTrip(n, Width(n));
    Digits(n, Width(n))
  }

  /** Distinct numbers have distinct numerals. */
  lemma NatStrInjective(m: nat, n: nat)
    requires NatStr(m) == NatStr(n)
    ensures m == n
  {
  }
}
