/** The stable sort of JavaScript's `Array.prototype.sort`, for a comparator
    that orders elements by a key. Sorting is a library call in the source,
    so it is modelled once, as an insertion sort, and specified by three
    properties: the output is a permutation of the input, it is ordered by
    the key, and elements with equal keys keep their input order. */
module Sorting {
  import opened Seqs

  /** `le` is a total order on keys. */
  ghost predicate TotalOrder<K(!new)>(le: (K, K) -> bool)
  {
    && (forall a :: le(a, a))
    && (forall a, b :: le(a, b) && le(b, a) ==> a == b)
    && (forall a, b, c :: le(a, b) && le(b, c) ==> le(a, c))
    && (forall a, b :: le(a, b) || le(b, a))
  }

  /** Every element's key comes `le`-before the keys of the elements after it. */
  predicate SortedBy<T, K>(s: seq<T>, key: T -> K, le: (K, K) -> bool)
  {
    forall i, j :: 0 <= i < j < |s| ==> le(key(s[i]), key(s[j]))
  }

  /** The elements whose key is `v`, in order. */
  function WithKey<T, K(==)>(s: seq<T>, key: T -> K, v: K): seq<T>
  {
    if s == [] then [] else (if key(s[0]) == v then [s[0]] else []) + WithKey(s[1..], key, v)
  }

  lemma {:induction false} WithKeyAppend<T, K>(a: seq<T>, b: seq<T>, key: T -> K, v: K)
    ensures WithKey(a + b, key, v) == WithKey(a, key, v) + WithKey(b, key, v)
  {
    if a == [] {
      assert a + b == b;
    } else {
      var h := if key(a[0]) == v then [a[0]] else [];
      assert (a + b)[0] == a[0] && (a + b)[1..] == a[1..] + b;
      assert WithKey(a + b, key, v) == h + WithKey(a[1..] + b, key, v);
      WithKeyAppend(a[1..], b, key, v);
    }
  }

  /** An element is kept by `WithKey` exactly when it occurs and carries
      the key. */
  lemma {:induction false} WithKeyMember<T, K>(s: seq<T>, key: T -> K, v: K, x: T)
    ensures x in WithKey(s, key, v) <==> x in s && key(x) == v
  {
    if s != [] {
      WithKeyMember(s[1..], key, v, x);
      assert s == [s[0]] + s[1..];
    }
  }

  /** A key that no element carries selects nothing. */
  lemma {:induction false} WithKeyAbsent<T, K>(s: seq<T>, key: T -> K, v: K)
    requires v !in Map(s, key)
    ensures WithKey(s, key, v) == []
  {
    if s != [] {
      assert Map(s, key) == [key(s[0])] + Map(s[1..], key);
      WithKeyAbsent(s[1..], key, v);
    }
  }

  /** Selecting by key and filtering commute. */
  lemma {:induction false} WithKeyFilter<T, K>(s: seq<T>, key: T -> K, v: K, f: T -> bool)
    ensures WithKey(Filter(s, f), key, v) == Filter(WithKey(s, key, v), f)
  {
    if s != [] {
      WithKeyFilter(s[1..], key, v, f);
      var head := if f(s[0]) then [s[0]] else [];
      WithKeyAppend(head, Filter(s[1..], f), key, v);
      var sel := if key(s[0]) == v then [s[0]] else [];
      FilterAppend(sel, WithKey(s[1..], key, v), f);
    }
  }

  /** Dropping the last element. */
  lemma WithKeySnoc<T, K>(s: seq<T>, key: T -> K, v: K)
    requires s != []
    ensures WithKey(s, key, v) == WithKey(s[..|s| - 1], key, v) + if key(s[|s| - 1]) == v then [s[|s| - 1]] else []
  {
    var init, x := s[..|s| - 1], s[|s| - 1];
    assert s == init + [x];
    WithKeyAppend(init, [x], key, v);
    assert [x][1..] == [];
  }

  /** Places `x` before the first element whose key it may precede. */
  function Insert<T, K>(x: T, t: seq<T>, key: T -> K, le: (K, K) -> bool): (r: seq<T>)
    ensures multiset(r) == multiset{x} + multiset(t)
    ensures |r| == |t| + 1
  {
    if t == [] || le(key(x), key(t[0])) then [x] + t
    else
      assert t == [t[0]] + t[1..];
      [t[0]] + Insert(x, t[1..], key, le)
  }

  /** The stable sort of `s` by `key` under `le`. */
  function SortBy<T, K>(s: seq<T>, key: T -> K, le: (K, K) -> bool): (r: seq<T>)
    ensures multiset(r) == multiset(s)
    ensures |r| == |s|
  {
    if s == [] then []
    else
      assert s == [s[0]] + s[1..];
      Insert(s[0], SortBy(s[1..], key, le), key, le)
  }

  lemma {:induction false} InsertSorted<T, K(!new)>(x: T, t: seq<T>, key: T -> K, le: (K, K) -> bool)
    requires TotalOrder(le)
    requires SortedBy(t, key, le)
    ensures SortedBy(Insert(x, t, key, le), key, le)
  {
    if t == [] || le(key(x), key(t[0])) {
      var r := [x] + t;
      forall i, j | 0 <= i < j < |r| ensures le(key(r[i]), key(r[j])) {
        if i == 0 {
          assert le(key(x), key(t[0]));
          if j > 1 { assert le(key(t[0]), key(t[j - 1])); }
        } else {
          assert r[i] == t[i - 1] && r[j] == t[j - 1];
        }
      }
    } else {
      var t' := t[1..];
      assert SortedBy(t', key, le) by {
        forall i, j | 0 <= i < j < |t'| ensures le(key(t'[i]), key(t'[j])) {
          assert t'[i] == t[i + 1] && t'[j] == t[j + 1];
        }
      }
      InsertSorted(x, t', key, le);
      var ins := Insert(x, t', key, le);
      var r := [t[0]] + ins;
      assert le(key(t[0]), key(x));
      forall i, j | 0 <= i < j < |r| ensures le(key(r[i]), key(r[j])) {
        if i == 0 {
          var y := ins[j - 1];
          assert y in multiset(ins);
          assert y == x || y in multiset(t');
          if y != x {
            var k :| 0 <= k < |t'| && t'[k] == y;
            assert t'[k] == t[k + 1];
          }
        } else {
          assert r[i] == ins[i - 1] && r[j] == ins[j - 1];
        }
      }
    }
  }

  /** `SortBy` orders its output by the key. */
  lemma {:induction false} SortBySorted<T, K(!new)>(s: seq<T>, key: T -> K, le: (K, K) -> bool)
    requires TotalOrder(le)
    ensures SortedBy(SortBy(s, key, le), key, le)
  {
    if s != [] {
      SortBySorted(s[1..], key, le);
      InsertSorted(s[0], SortBy(s[1..], key, le), key, le);
    }
  }

  lemma {:induction false} InsertWithKey<T, K(!new)>(x: T, t: seq<T>, key: T -> K, le: (K, K) -> bool, v: K)
    requires forall a :: le(a, a)
    ensures WithKey(Insert(x, t, key, le), key, v)
         == (if key(x) == v then [x] else []) + WithKey(t, key, v)
  {
    if t == [] || le(key(x), key(t[0])) {
      WithKeyAppend([x], t, key, v);
    } else {
      var ins := Insert(x, t[1..], key, le);
      var head := if key(t[0]) == v then [t[0]] else [];
      var xs := if key(x) == v then [x] else [];
      var rest := WithKey(t[1..], key, v);
      assert Insert(x, t, key, le) == [t[0]] + ins;
      assert le(key(x), key(x));
      InsertWithKey(x, t[1..], key, le, v);
      WithKeyAppend([t[0]], ins, key, v);
      assert WithKey([t[0]], key, v) == head;
      assert WithKey(t, key, v) == head + rest;
      SwapEmpty(head, xs, rest);
    }
  }

  /** `SortBy` is stable: for every key value, the elements carrying it
      appear in the output in the same order as in the input. */
  lemma {:induction false} SortByStable<T, K(!new)>(s: seq<T>, key: T -> K, le: (K, K) -> bool, v: K)
    requires forall a :: le(a, a)
    ensures WithKey(SortBy(s, key, le), key, v) == WithKey(s, key, v)
  {
    if s != [] {
      SortByStable(s[1..], key, le, v);
      InsertWithKey(s[0], SortBy(s[1..], key, le), key, le, v);
      assert s == [s[0]] + s[1..];
      WithKeyAppend([s[0]], s[1..], key, v);
    }
  }

  lemma {:induction false} InsertMap<T, U, K>(x: T, t: seq<T>, f: T -> U, k1: T -> K, k2: U -> K, le: (K, K) -> bool)
    requires k2(f(x)) == k1(x)
    requires forall y :: y in t ==> k2(f(y)) == k1(y)
    ensures Map(Insert(x, t, k1, le), f) == Insert(f(x), Map(t, f), k2, le)
  {
    if t == [] || le(k1(x), k1(t[0])) {
      MapAppend([x], t, f);
    } else {
      assert t == [t[0]] + t[1..];
      InsertMap(x, t[1..], f, k1, k2, le);
      MapAppend([t[0]], Insert(x, t[1..], k1, le), f);
    }
  }

  /** Sorting and then mapping is mapping and then sorting, when the
      mapped elements carry the same keys. */
  lemma {:induction false} SortByMap<T, U, K>(s: seq<T>, f: T -> U, k1: T -> K, k2: U -> K, le: (K, K) -> bool)
    requires forall y :: y in s ==> k2(f(y)) == k1(y)
    ensures Map(SortBy(s, k1, le), f) == SortBy(Map(s, f), k2, le)
  {
    if s != [] {
      assert s == [s[0]] + s[1..];
      SortByMap(s[1..], f, k1, k2, le);
      var t := SortBy(s[1..], k1, le);
      forall y | y in t
        ensures k2(f(y)) == k1(y)
      {
        assert y in multiset(t);
      }
      InsertMap(s[0], t, f, k1, k2, le);
      assert Map(s, f)[1..] == Map(s[1..], f);
    }
  }

  /** The integer orders used by the count comparators `b.count - a.count`
      (descending) and by numeric key order (ascending). */
  function IntGe(a: int, b: int): bool { a >= b }
  function IntLe(a: int, b: int): bool { a <= b }

  lemma IntOrders()
    ensures TotalOrder(IntGe) && TotalOrder(IntLe)
  {
  }
}
