/** Order-preserving sequence operations (the `filter`, `slice`, `flat` and
    reductions of JavaScript arrays) and the facts about them that the
    rest of the model relies on. */
module Seqs {

  /** `s.filter(f)`: the elements satisfying `f`, in their original order. */
  function Filter<T>(s: seq<T>, f: T -> bool): (r: seq<T>)
    ensures |r| <= |s|
  {
    if s == [] then [] else (if f(s[0]) then [s[0]] else []) + Filter(s[1..], f)
  }

  /** Filtering keeps exactly the elements that satisfy the predicate. */
  lemma {:induction false} FilterMember<T>(s: seq<T>, f: T -> bool, x: T)
    ensures x in Filter(s, f) <==> x in s && f(x)
  {
    if s != [] {
      FilterMember(s[1..], f, x);
      assert s == [s[0]] + s[1..];
    }
  }

  /** Every element `Filter` keeps comes from the input and satisfies the
      predicate. */
  lemma FilterElements<T>(s: seq<T>, f: T -> bool)
    ensures forall i :: 0 <= i < |Filter(s, f)| ==> Filter(s, f)[i] in s && f(Filter(s, f)[i])
  {
    var r := Filter(s, f);
    forall i | 0 <= i < |r| ensures r[i] in s && f(r[i]) {
      FilterMember(s, f, r[i]);
    }
  }

  /** Every element satisfying the predicate is kept. */
  lemma FilterKeeps<T>(s: seq<T>, f: T -> bool)
    ensures forall i :: 0 <= i < |s| && f(s[i]) ==> s[i] in Filter(s, f)
  {
    forall i | 0 <= i < |s| && f(s[i]) ensures s[i] in Filter(s, f) {
      FilterMember(s, f, s[i]);
    }
  }

  /** `a` is obtained from `b` by deleting elements (order kept). */
  predicate IsSubseq<T(==)>(a: seq<T>, b: seq<T>)
  {
    a == [] || (b != [] && ((a[0] == b[0] && IsSubseq(a[1..], b[1..])) || IsSubseq(a, b[1..])))
  }

  lemma {:induction false} FilterIsSubseq<T>(s: seq<T>, f: T -> bool)
    ensures IsSubseq(Filter(s, f), s)
  {
    if s != [] {
      FilterIsSubseq(s[1..], f);
      if f(s[0]) {
        assert ([s[0]] + Filter(s[1..], f))[1..] == Filter(s[1..], f);
      } else {
        assert Filter(s, f) == Filter(s[1..], f);
      }
    }
  }

  /** A prefix keeps the elements it has, in order. */
  lemma {:induction false} PrefixIsSubseq<T>(s: seq<T>, n: nat)
    requires n <= |s|
    ensures IsSubseq(s[..n], s)
  {
    if n > 0 {
      assert s[..n][1..] == s[1..][..n - 1];
      PrefixIsSubseq(s[1..], n - 1);
    }
  }

  lemma {:induction false} FilterAppend<T>(a: seq<T>, b: seq<T>, f: T -> bool)
    ensures Filter(a + b, f) == Filter(a, f) + Filter(b, f)
  {
    if a == [] {
      assert a + b == b;
    } else {
      var h := if f(a[0]) then [a[0]] else [];
      assert (a + b)[0] == a[0] && (a + b)[1..] == a[1..] + b;
      assert Filter(a + b, f) == h + Filter(a[1..] + b, f);
      FilterAppend(a[1..], b, f);
    }
  }

  /** Splitting a sequence by a predicate and by its negation loses nothing. */
  lemma {:induction false} FilterSplitPerm<T>(s: seq<T>, f: T -> bool, g: T -> bool)
    requires forall x :: g(x) == !f(x)
    ensures multiset(Filter(s, f) + Filter(s, g)) == multiset(s)
  {
    if s != [] {
      var x, rest := s[0], s[1..];
      assert Filter(s, f) == (if f(x) then [x] else []) + Filter(rest, f);
      assert Filter(s, g) == (if g(x) then [x] else []) + Filter(rest, g);
      assert multiset(s) == multiset{x} + multiset(rest) by {
        assert s == [x] + rest;
      }
      FilterSplitPerm(rest, f, g);
    }
  }

  /** Filtering with a predicate that holds throughout changes nothing. */
  lemma {:induction false} FilterAll<T>(s: seq<T>, f: T -> bool)
    requires forall x :: x in s ==> f(x)
    ensures Filter(s, f) == s
  {
    if s != [] {
      FilterAll(s[1..], f);
    }
  }

  /** Filtering with a predicate that holds nowhere leaves nothing. */
  lemma {:induction false} FilterNone<T>(s: seq<T>, f: T -> bool)
    requires forall i :: 0 <= i < |s| ==> !f(s[i])
    ensures Filter(s, f) == []
  {
    if s != [] {
      FilterNone(s[1..], f);
    }
  }

  /** No element occurs twice. */
  predicate Distinct<T(==)>(s: seq<T>)
  {
    forall i, j :: 0 <= i < j < |s| ==> s[i] != s[j]
  }

  lemma HeadNotInTail<T>(s: seq<T>)
    requires s != [] && Distinct(s)
    ensures s[0] !in s[1..]
  {
    forall k | 0 <= k < |s[1..]| ensures s[1..][k] != s[0] {
      assert s[1..][k] == s[k + 1];
    }
  }

  lemma {:induction false} DistinctCounts<T>(s: seq<T>, x: T)
    requires Distinct(s)
    ensures multiset(s)[x] <= 1
  {
    if s != [] {
      assert Distinct(s[1..]) by {
        forall i, j | 0 <= i < j < |s[1..]| ensures s[1..][i] != s[1..][j] {
          assert s[1..][i] == s[i + 1] && s[1..][j] == s[j + 1];
        }
      }
      DistinctCounts(s[1..], x);
      assert s == [s[0]] + s[1..];
      if x == s[0] {
        HeadNotInTail(s);
      }
    }
  }

  /** A permutation of a sequence without repetitions has none either. */
  lemma DistinctPerm<T>(a: seq<T>, b: seq<T>)
    requires multiset(a) == multiset(b) && Distinct(a)
    ensures Distinct(b)
  {
    forall i, j | 0 <= i < j < |b| ensures b[i] != b[j] {
      if b[i] == b[j] {
        assert b == b[..j] + b[j..];
        assert b[i] in b[..j];
        assert b[j] in b[j..];
        assert multiset(b)[b[i]] == multiset(b[..j])[b[i]] + multiset(b[j..])[b[i]];
        DistinctCounts(a, b[i]);
      }
    }
  }

  lemma {:induction false} FilterDistinct<T>(s: seq<T>, f: T -> bool)
    requires Distinct(s)
    ensures Distinct(Filter(s, f))
  {
    if s != [] {
      assert Distinct(s[1..]) by {
        forall i, j | 0 <= i < j < |s[1..]| ensures s[1..][i] != s[1..][j] {
          assert s[1..][i] == s[i + 1] && s[1..][j] == s[j + 1];
        }
      }
      FilterDistinct(s[1..], f);
      HeadNotInTail(s);
      FilterMember(s[1..], f, s[0]);
    }
  }

  lemma DistinctAppend<T>(a: seq<T>, b: seq<T>)
    requires Distinct(a) && Distinct(b)
    requires forall x :: x in a ==> x !in b
    ensures Distinct(a + b)
  {
    forall i, j | 0 <= i < j < |a + b| ensures (a + b)[i] != (a + b)[j] {
      if j < |a| {
      } else if i >= |a| {
        assert (a + b)[i] == b[i - |a|] && (a + b)[j] == b[j - |a|];
      } else {
        assert (a + b)[i] in a && (a + b)[j] == b[j - |a|];
      }
    }
  }

  /** The distinct elements of `s` in order of first occurrence (the order
      in which a JavaScript `Set` or object enumerates what was added). */
  function Dedup<T(==)>(s: seq<T>): (r: seq<T>)
    ensures Distinct(r)
    ensures forall i :: 0 <= i < |r| ==> r[i] in s
    ensures forall i :: 0 <= i < |s| ==> s[i] in r
  {
    if s == [] then []
    else
      var d := Dedup(s[..|s| - 1]);
      var x := s[|s| - 1];
      assert s == s[..|s| - 1] + [x];
      if x in d then d
      else
        assert Distinct(d + [x]) by { DistinctAppend(d, [x]); }
        d + [x]
  }

  /** The sum of a sequence of integers. */
  function Sum(s: seq<int>): int
  {
    if s == [] then 0 else s[0] + Sum(s[1..])
  }

  lemma {:induction false} SumAppend(a: seq<int>, b: seq<int>)
    ensures Sum(a + b) == Sum(a) + Sum(b)
  {
    if a == [] {
      assert a + b == b;
    } else {
      assert (a + b)[1..] == a[1..] + b;
      SumAppend(a[1..], b);
    }
  }

  /** Removing the first element of `a` and an equal element of its
      permutation `b` leaves permutations. */
  lemma PermRemove<T>(a: seq<T>, b: seq<T>, i: int)
    requires multiset(a) == multiset(b) && a != []
    requires 0 <= i < |b| && b[i] == a[0]
    ensures multiset(a[1..]) == multiset(b[..i] + b[i + 1..])
  {
    assert b == b[..i] + [b[i]] + b[i + 1..];
    assert a == [a[0]] + a[1..];
    assert multiset(b) == multiset(b[..i]) + multiset{b[i]} + multiset(b[i + 1..]);
    assert multiset(a) == multiset{a[0]} + multiset(a[1..]);
    calc {
      multiset(a[1..]);
      multiset(a) - multiset{a[0]};
      multiset(b) - multiset{b[i]};
      multiset(b[..i]) + multiset(b[i + 1..]);
      multiset(b[..i] + b[i + 1..]);
    }
  }

  /** Summation does not depend on the order of the summands. */
  lemma {:induction false} SumPerm(a: seq<int>, b: seq<int>)
    requires multiset(a) == multiset(b)
    ensures Sum(a) == Sum(b)
    decreases |a|
  {
    if a == [] {
      assert |b| == |multiset(b)| == 0;
    } else {
      assert a[0] in multiset(b);
      var i :| 0 <= i < |b| && b[i] == a[0];
      var rest := b[..i] + b[i + 1..];
      PermRemove(a, b, i);
      assert b == b[..i] + [b[i]] + b[i + 1..];
      SumPerm(a[1..], rest);
      assert b == b[..i] + ([b[i]] + b[i + 1..]);
      SumAppend(b[..i], [b[i]] + b[i + 1..]);
      SumAppend(b[..i], b[i + 1..]);
      assert ([b[i]] + b[i + 1..])[1..] == b[i + 1..];
      calc {
        Sum(b);
        Sum(b[..i]) + Sum([b[i]] + b[i + 1..]);
        Sum(b[..i]) + b[i] + Sum(b[i + 1..]);
        a[0] + Sum(rest);
        a[0] + Sum(a[1..]);
        Sum(a);
      }
    }
  }

  /** `f` applied to every element (`s.map(f)`). */
  function Map<T, U>(s: seq<T>, f: T -> U): (r: seq<U>)
    ensures |r| == |s|
    ensures forall i :: 0 <= i < |s| ==> r[i] == f(s[i])
  {
    if s == [] then [] else [f(s[0])] + Map(s[1..], f)
  }

  /** The image of an element occurs in the image of the sequence. */
  lemma MapMember<T, U>(s: seq<T>, f: T -> U, x: T)
    requires x in s
    ensures f(x) in Map(s, f)
  {
    var i :| 0 <= i < |s| && s[i] == x;
    assert Map(s, f)[i] == f(x);
  }

  /** An element of the image is the image of some element. */
  lemma MapPreimage<T, U>(s: seq<T>, f: T -> U, y: U) returns (j: nat)
    requires y in Map(s, f)
    ensures j < |s| && f(s[j]) == y
  {
    var r := Map(s, f);
    j :| 0 <= j < |r| && r[j] == y;
  }

  lemma {:induction false} MapAppend<T, U>(a: seq<T>, b: seq<T>, f: T -> U)
    ensures Map(a + b, f) == Map(a, f) + Map(b, f)
  {
    if a == [] {
      assert a + b == b;
    } else {
      assert (a + b)[1..] == a[1..] + b;
      MapAppend(a[1..], b, f);
    }
  }

  /** Concatenation regrouped. */
  lemma Regroup<T>(a: seq<T>, b: seq<T>, c: seq<T>, d: seq<T>)
    ensures (a + b) + c + d == a + (b + c + d)
  {
  }

  /** A non-empty sequence is its front followed by its last element. */
  lemma Snoc<T>(s: seq<T>)
    requires s != []
    ensures s == s[..|s| - 1] + [s[|s| - 1]]
  {
  }

  /** A sequence is what precedes position `i`, the element there, and
      what follows it. */
  /** Two sequences of which one is empty can change places. */
  lemma SwapEmpty<T>(a: seq<T>, b: seq<T>, c: seq<T>)
    requires a == [] || b == []
    ensures a + (b + c) == b + (a + c)
  {
    if a == [] {
      assert a + (b + c) == b + c == b + (a + c);
    } else {
      assert a + (b + c) == a + c == b + (a + c);
    }
  }

  /** Dropping the last element of a sequence before removing repeats. */
  lemma DedupSnoc<T>(s: seq<T>)
    requires s != []
    ensures Dedup(s) == if s[|s| - 1] in Dedup(s[..|s| - 1]) then Dedup(s[..|s| - 1]) else Dedup(s[..|s| - 1]) + [s[|s| - 1]]
  {
  }

  lemma SplitAt<T>(s: seq<T>, i: int)
    requires 0 <= i < |s|
    ensures s == s[..i] + ([s[i]] + s[i + 1..])
  {
  }

  /** A suffix of a non-empty sequence ends with its last element. */
  lemma SuffixSnoc<T>(s: seq<T>, i: nat)
    requires i < |s|
    ensures s[i..] == s[..|s| - 1][i..] + [s[|s| - 1]]
  {
    var init := s[..|s| - 1];
    assert forall k :: 0 <= k < |s| - i ==> s[i..][k] == (init[i..] + [s[|s| - 1]])[k];
  }

  /** Membership in a sequence extended by one element. */
  lemma SnocMember<T>(s: seq<T>, x: T)
    requires s != []
    ensures x in s <==> x in s[..|s| - 1] || x == s[|s| - 1]
  {
    assert s == s[..|s| - 1] + [s[|s| - 1]];
  }

  /** Mapping a sequence extended by one element. */
  lemma MapSnoc<T, U>(s: seq<T>, f: T -> U)
    requires s != []
    ensures Map(s, f) == Map(s[..|s| - 1], f) + [f(s[|s| - 1])]
  {
    var init, x := s[..|s| - 1], s[|s| - 1];
    Snoc(s);
    MapAppend(init, [x], f);
    assert Map([x], f) == [f(x)];
  }

  /** Filtering a sequence extended by one element. */
  lemma FilterSnoc<T>(s: seq<T>, f: T -> bool)
    requires s != []
    ensures Filter(s, f) == Filter(s[..|s| - 1], f) + if f(s[|s| - 1]) then [s[|s| - 1]] else []
  {
    var init, x := s[..|s| - 1], s[|s| - 1];
    Snoc(s);
    FilterAppend(init, [x], f);
    assert Filter([x], f) == if f(x) then [x] else [] by {
      assert [x][1..] == [];
    }
  }

  lemma MapRemoveAt<T, U>(b: seq<T>, i: int, f: T -> U)
    requires 0 <= i < |b|
    ensures multiset(Map(b, f)) == multiset(Map(b[..i] + b[i + 1..], f)) + multiset{f(b[i])}
  {
    var front, x, back := b[..i], b[i], b[i + 1..];
    SplitAt(b, i);
    MapAppend(front, [x] + back, f);
    MapAppend([x], back, f);
    MapAppend(front, back, f);
    assert Map([x], f) == [f(x)];
  }

  /** Mapping commutes with permutation. */
  lemma {:induction false} MapPerm<T, U>(a: seq<T>, b: seq<T>, f: T -> U)
    requires multiset(a) == multiset(b)
    ensures multiset(Map(a, f)) == multiset(Map(b, f))
    decreases |a|
  {
    if a == [] {
      assert |b| == |multiset(b)| == 0;
    } else {
      assert a[0] in multiset(b);
      var i :| 0 <= i < |b| && b[i] == a[0];
      PermRemove(a, b, i);
      MapPerm(a[1..], b[..i] + b[i + 1..], f);
      MapRemoveAt(b, i, f);
      assert Map(a, f) == [f(a[0])] + Map(a[1..], f);
    }
  }

  /** `s.slice(0, n)`. */
  function Take<T>(s: seq<T>, n: nat): (r: seq<T>)
    ensures |r| == if n < |s| then n else |s|
    ensures r == s[..|r|]
  {
    if n < |s| then s[..n] else s
  }

  /** Concatenation of a sequence of sequences (`flat()`). */
  function Flatten<T>(ss: seq<seq<T>>): seq<T>
  {
    if ss == [] then [] else ss[0] + Flatten(ss[1..])
  }

  /** Every element satisfies `f`, stated element by element from the end. */
  predicate All<T>(s: seq<T>, f: T -> bool)
  {
    s == [] || (All(s[..|s| - 1], f) && f(s[|s| - 1]))
  }

  lemma {:induction false} AllSpec<T>(s: seq<T>, f: T -> bool)
    ensures All(s, f) <==> forall i :: 0 <= i < |s| ==> f(s[i])
  {
    if s != [] {
      var p := s[..|s| - 1];
      assert forall i :: 0 <= i < |p| ==> p[i] == s[i];
      AllSpec(p, f);
    }
  }

  lemma AllPrefix<T>(s: seq<T>, i: nat, f: T -> bool)
    requires i < |s|
    ensures All(s[..i + 1], f) == (All(s[..i], f) && f(s[i]))
  {
    assert s[..i + 1][..i] == s[..i];
  }
}
