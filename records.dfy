/** JavaScript plain objects used as dictionaries (`Record<string, V>`):
    a sequence of key/value pairs with distinct keys, in insertion order.
    Also the enumeration order of `Object.keys`/`Object.entries`, which
    lists array-index keys ("0", "1", ..., "2024", ...) first, in ascending
    numeric order, and the other keys after them, in insertion order. */
module Records {
  import opened Wrappers
  import opened Seqs
  import opened Sorting
  import opened Text

  type Record<V> = seq<(string, V)>

  function Fst<V>(e: (string, V)): string { e.0 }
  function Snd<V>(e: (string, V)): V { e.1 }

  function Keys<V>(r: Record<V>): (ks: seq<string>)
    ensures |ks| == |r|
  {
    if r == [] then [] else [r[0].0] + Keys(r[1..])
  }

  function Values<V>(r: Record<V>): (vs: seq<V>)
    ensures |vs| == |r|
  {
    if r == [] then [] else [r[0].1] + Values(r[1..])
  }

  lemma {:induction false} KeysAt<V>(r: Record<V>)
    ensures forall i :: 0 <= i < |r| ==> Keys(r)[i] == r[i].0
    ensures Keys(r) == Map(r, Fst)
  {
    if r != [] {
      KeysAt(r[1..]);
    }
  }

  lemma {:induction false} ValuesAt<V>(r: Record<V>)
    ensures forall i :: 0 <= i < |r| ==> Values(r)[i] == r[i].1
    ensures Values(r) == Map(r, Snd)
  {
    if r != [] {
      ValuesAt(r[1..]);
    }
  }

  /** No key is stored twice. */
  predicate Valid<V>(r: Record<V>)
  {
    Distinct(Keys(r))
  }

  /** `r[k]`, `undefined` being `None`. */
  function Lookup<V>(r: Record<V>, k: string): (o: Option<V>)
    ensures o.Some? <==> k in Keys(r)
  {
    if r == [] then None
    else if r[0].0 == k then Some(r[0].1)
    else Lookup(r[1..], k)
  }

  /** The first rows of a valid record form a valid record. */
  lemma TakeValid<V>(r: Record<V>, n: nat)
    requires Valid(r)
    ensures Valid(Take(r, n))
  {
    var t := Take(r, n);
    KeysAt(r);
    KeysAt(t);
    forall i, j | 0 <= i < j < |t|
      ensures Keys(t)[i] != Keys(t)[j]
    {
      assert Keys(t)[i] == Keys(r)[i] && Keys(t)[j] == Keys(r)[j];
    }
  }

  /** In a valid record, every stored pair is what looking up its key gives. */
  lemma {:induction false} LookupMember<V>(r: Record<V>, i: int)
    requires Valid(r) && 0 <= i < |r|
    ensures Lookup(r, r[i].0) == Some(r[i].1)
  {
    KeysAt(r);
    if i > 0 {
      assert Keys(r)[0] != Keys(r)[i];
      assert Keys(r[1..]) == Keys(r)[1..];
      assert Valid(r[1..]);
      LookupMember(r[1..], i - 1);
    }
  }

  /** The assignment `r[k] = v`: an existing key keeps its place, a new
      key is appended. */
  function Put<V>(r: Record<V>, k: string, v: V): (r': Record<V>)
    ensures Lookup(r', k) == Some(v)
    ensures forall k' :: k' != k ==> Lookup(r', k') == Lookup(r, k')
  {
    if r == [] then [(k, v)]
    else if r[0].0 == k then [(k, v)] + r[1..]
    else [r[0]] + Put(r[1..], k, v)
  }

  /** Assigning a key twice leaves the second value, in the place the
      first assignment gave the key. */
  lemma {:induction false} PutTwice<V>(r: Record<V>, k: string, v: V, w: V)
    ensures Put(Put(r, k, v), k, w) == Put(r, k, w)
  {
    if r != [] && r[0].0 != k {
      PutTwice(r[1..], k, v, w);
      assert Put(r, k, v) == [r[0]] + Put(r[1..], k, v);
    }
  }

  /** Assigning a new key appends it. */
  lemma {:induction false} PutNew<V>(r: Record<V>, k: string, v: V)
    requires k !in Keys(r)
    ensures Put(r, k, v) == r + [(k, v)]
  {
    if r != [] {
      PutNew(r[1..], k, v);
    }
  }

  /** The record built by assigning `f(k)` to each key `k` of `ks` in turn,
      when the keys are new: it has the keys `ks`, in that order, and
      looking up a key gives the value assigned to it. */
  lemma {:induction false} MappedLookup<V>(ks: seq<string>, f: string -> (string, V), k: string)
    requires forall x :: f(x).0 == x
    ensures Keys(Map(ks, f)) == ks
    ensures Lookup(Map(ks, f), k) == if k in ks then Some(f(k).1) else None
  {
    if ks != [] {
      MappedLookup(ks[1..], f, k);
      assert Map(ks, f)[1..] == Map(ks[1..], f);
      assert ks == [ks[0]] + ks[1..];
    }
  }

  /** One step of `for (const k of ks) result[k] = ...` over distinct keys:
      the assignment appends the next pair. */
  lemma CopyStep<V>(ks: seq<string>, j: nat, f: string -> (string, V))
    requires Distinct(ks) && j < |ks|
    requires forall x :: f(x).0 == x
    ensures Put(Map(ks[..j], f), ks[j], f(ks[j]).1) == Map(ks[..j + 1], f)
  {
    MappedLookup(ks[..j], f, ks[j]);
    assert ks[j] !in ks[..j];
    PutNew(Map(ks[..j], f), ks[j], f(ks[j]).1);
    MapSnoc(ks[..j + 1], f);
    assert ks[..j + 1][..j] == ks[..j];
  }

  /** Rebuilding each pair of `e` from its key gives `e` back. */
  lemma {:induction false} KeysMapBack<V>(e: seq<(string, V)>, f: string -> (string, V))
    requires forall x :: x in e ==> f(x.0) == x
    ensures Map(Keys(e), f) == e
  {
    if e != [] {
      KeysMapBack(e[1..], f);
    }
  }

  /** A key that is found is stored with the value found. */
  lemma {:induction false} LookupFound<V>(r: Record<V>, k: string)
    requires Lookup(r, k).Some?
    ensures (k, Lookup(r, k).value) in r
  {
    if r[0].0 != k {
      LookupFound(r[1..], k);
    }
  }

  /** In a valid record, a stored pair is found by its key. */
  lemma EntryLookup<V>(r: Record<V>, e: (string, V))
    requires Valid(r) && e in r
    ensures Lookup(r, e.0) == Some(e.1)
  {
    var i :| 0 <= i < |r| && r[i] == e;
    LookupMember(r, i);
  }

  /** Reordering a valid record changes no lookup. */
  lemma LookupPerm<V>(a: Record<V>, b: Record<V>, k: string)
    requires multiset(a) == multiset(b) && Valid(a)
    ensures Lookup(b, k) == Lookup(a, k)
  {
    PermValid(a, b);
    if Lookup(a, k).Some? {
      LookupFound(a, k);
      var e := (k, Lookup(a, k).value);
      assert e in multiset(b);
      EntryLookup(b, e);
    } else {
      assert k !in multiset(Keys(a));
    }
  }

  /** An assignment never reorders or drops keys. */
  lemma {:induction false} PutKeys<V>(r: Record<V>, k: string, v: V)
    ensures Keys(Put(r, k, v)) == if k in Keys(r) then Keys(r) else Keys(r) + [k]
  {
    if r != [] && r[0].0 != k {
      PutKeys(r[1..], k, v);
    }
  }

  lemma PutValid<V>(r: Record<V>, k: string, v: V)
    requires Valid(r)
    ensures Valid(Put(r, k, v))
  {
    PutKeys(r, k, v);
    if k !in Keys(r) {
      DistinctAppend(Keys(r), [k]);
    }
  }

  /** `r[k] = (r[k] ?? 0) + 1`. */
  function Bump(r: Record<int>, k: string): Record<int>
  {
    Put(r, k, Lookup(r, k).GetOr(0) + 1)
  }

  lemma BumpLookup(r: Record<int>, x: string, k: string)
    ensures Lookup(Bump(r, x), k) == if k == x then Some(Lookup(r, x).GetOr(0) + 1) else Lookup(r, k)
  {
  }

  /** A bump adds exactly one to the total of the counts. */
  lemma {:induction false} BumpSum(r: Record<int>, k: string)
    ensures Sum(Values(Bump(r, k))) == Sum(Values(r)) + 1
  {
    if r != [] && r[0].0 != k {
      var b := Bump(r[1..], k);
      assert Lookup(r, k) == Lookup(r[1..], k);
      assert Bump(r, k) == [r[0]] + b;
      assert Values([r[0]] + b) == [r[0].1] + Values(b);
      assert Values(r) == [r[0].1] + Values(r[1..]);
      BumpSum(r[1..], k);
    } else if r != [] {
      assert Bump(r, k) == [(k, r[0].1 + 1)] + r[1..];
      assert Values([(k, r[0].1 + 1)] + r[1..]) == [r[0].1 + 1] + Values(r[1..]);
      assert Values(r) == [r[0].1] + Values(r[1..]);
    }
  }

  /** The occurrence counts of `ks` as a loop `for (k of ks) map[k] =
      (map[k] ?? 0) + 1` starting from `{}` builds them. */
  function Tally(ks: seq<string>): Record<int>
  {
    if ks == [] then [] else Bump(Tally(ks[..|ks| - 1]), ks[|ks| - 1])
  }

  /** Tallying one more key bumps it. */
  lemma TallySnoc(ks: seq<string>, x: string)
    ensures Tally(ks + [x]) == Bump(Tally(ks), x)
  {
    assert (ks + [x])[..|ks|] == ks;
  }

  lemma {:induction false} TallyKeys(ks: seq<string>)
    ensures Valid(Tally(ks))
    ensures Keys(Tally(ks)) == Dedup(ks)
  {
    if ks != [] {
      var init, x := ks[..|ks| - 1], ks[|ks| - 1];
      var t := Tally(init);
      var v := Lookup(t, x).GetOr(0) + 1;
      assert Tally(ks) == Put(t, x, v);
      DedupSnoc(ks);
      TallyKeys(init);
      PutKeys(t, x, v);
      PutValid(t, x, v);
    }
  }

  /** Appending `x` to a sequence adds one to the count of `x` and leaves
      the other counts alone. */
  lemma CountStep(init: seq<string>, x: string, k: string, a: Option<int>, b: Option<int>, c: Option<int>)
    requires a == if k in init then Some(multiset(init)[k]) else None
    requires b == if x in init then Some(multiset(init)[x]) else None
    requires c == if k == x then Some(b.GetOr(0) + 1) else a
    ensures c == if k in init + [x] then Some(multiset(init + [x])[k]) else None
  {
    assert multiset(init + [x]) == multiset(init) + multiset{x};
  }

  lemma {:induction false} TallyLookup(ks: seq<string>, k: string)
    ensures Lookup(Tally(ks), k) == if k in ks then Some(multiset(ks)[k]) else None
  {
    if ks != [] {
      var init, x := ks[..|ks| - 1], ks[|ks| - 1];
      TallyLookup(init, k);
      TallyLookup(init, x);
      BumpLookup(Tally(init), x, k);
      Snoc(ks);
      assert Tally(ks) == Bump(Tally(init), x);
      CountStep(init, x, k, Lookup(Tally(init), k), Lookup(Tally(init), x), Lookup(Tally(ks), k));
    }
  }

  lemma {:induction false} TallySum(ks: seq<string>)
    ensures Sum(Values(Tally(ks))) == |ks|
  {
    if ks != [] {
      TallySum(ks[..|ks| - 1]);
      BumpSum(Tally(ks[..|ks| - 1]), ks[|ks| - 1]);
    }
  }

  /** The tally holds each distinct key once, in order of first occurrence,
      with its number of occurrences, and the counts add up to `|ks|`. */
  lemma TallySpec(ks: seq<string>)
    ensures Valid(Tally(ks))
    ensures Keys(Tally(ks)) == Dedup(ks)
    ensures forall k :: Lookup(Tally(ks), k) == if k in ks then Some(multiset(ks)[k]) else None
    ensures Sum(Values(Tally(ks))) == |ks|
  {
    TallyKeys(ks);
    TallySum(ks);
    forall k ensures Lookup(Tally(ks), k) == if k in ks then Some(multiset(ks)[k]) else None {
      TallyLookup(ks, k);
    }
  }

  /** `(r[k] ??= []).push(x)`. */
  function Push<T>(r: Record<seq<T>>, k: string, x: T): Record<seq<T>>
  {
    Put(r, k, Lookup(r, k).GetOr([]) + [x])
  }

  lemma PushLookup<T>(r: Record<seq<T>>, x: string, v: T, k: string)
    ensures Lookup(Push(r, x, v), k) == if k == x then Some(Lookup(r, x).GetOr([]) + [v]) else Lookup(r, k)
  {
  }

  /** The values paired with key `k`, in order. */
  function Select<T>(e: seq<(string, T)>, k: string): seq<T>
  {
    if e == [] then [] else (if e[0].0 == k then [e[0].1] else []) + Select(e[1..], k)
  }

  lemma {:induction false} SelectAppend<T>(a: seq<(string, T)>, b: seq<(string, T)>, k: string)
    ensures Select(a + b, k) == Select(a, k) + Select(b, k)
  {
    if a == [] {
      assert a + b == b;
    } else {
      var head := if a[0].0 == k then [a[0].1] else [];
      assert (a + b)[1..] == a[1..] + b;
      assert Select(a + b, k) == head + Select(a[1..] + b, k);
      assert Select(a, k) == head + Select(a[1..], k);
      SelectAppend(a[1..], b, k);
    }
  }

  /** The number of values paired with `k` is the number of times `k`
      occurs among the keys. */
  lemma {:induction false} SelectCount<T>(e: seq<(string, T)>, k: string)
    ensures |Select(e, k)| == multiset(Keys(e))[k]
  {
    if e != [] {
      assert Keys(e) == [e[0].0] + Keys(e[1..]);
      SelectCount(e[1..], k);
    }
  }

  lemma {:induction false} KeysAppend<V>(a: Record<V>, b: Record<V>)
    ensures Keys(a + b) == Keys(a) + Keys(b)
  {
    if a == [] {
      assert a + b == b;
    } else {
      assert (a + b)[1..] == a[1..] + b;
      KeysAppend(a[1..], b);
    }
  }

  /** The buckets built by pushing each value of `e` under its key. */
  function Group<T>(e: seq<(string, T)>): Record<seq<T>>
  {
    if e == [] then [] else Push(Group(e[..|e| - 1]), e[|e| - 1].0, e[|e| - 1].1)
  }

  /** Pushing onto the buckets of `e` gives the buckets of `e` extended. */
  lemma GroupSnoc<T>(e: seq<(string, T)>, k: string, x: T)
    ensures Group(e + [(k, x)]) == Push(Group(e), k, x)
  {
    assert (e + [(k, x)])[..|e|] == e;
  }

  /** Dropping the last pair drops the last key. */
  lemma KeysSnoc<V>(r: Record<V>)
    requires r != []
    ensures Keys(r) == Keys(r[..|r| - 1]) + [r[|r| - 1].0]
  {
    Snoc(r);
    KeysAppend(r[..|r| - 1], [r[|r| - 1]]);
  }

  lemma {:induction false} GroupKeys<T>(e: seq<(string, T)>)
    ensures Valid(Group(e))
    ensures Keys(Group(e)) == Dedup(Keys(e))
  {
    if e != [] {
      var init, x := e[..|e| - 1], e[|e| - 1];
      var g := Group(init);
      var v := Lookup(g, x.0).GetOr([]) + [x.1];
      assert Group(e) == Put(g, x.0, v);
      GroupKeys(init);
      var ks, d := Keys(e), Dedup(Keys(init));
      KeysSnoc(e);
      assert ks[..|ks| - 1] == Keys(init);
      DedupSnoc(ks);
      PutKeys(g, x.0, v);
      PutValid(g, x.0, v);
    }
  }

  lemma {:induction false} SelectAbsent<T>(e: seq<(string, T)>, k: string)
    requires k !in Keys(e)
    ensures Select(e, k) == []
  {
    if e != [] {
      assert Keys(e) == [e[0].0] + Keys(e[1..]);
      SelectAbsent(e[1..], k);
    }
  }

  /** Dropping the last pair of `e`. */
  lemma SelectSnoc<T>(e: seq<(string, T)>, k: string)
    requires e != []
    ensures Keys(e) == Keys(e[..|e| - 1]) + [e[|e| - 1].0]
    ensures Select(e, k) == Select(e[..|e| - 1], k) + (if e[|e| - 1].0 == k then [e[|e| - 1].1] else [])
  {
    var init, x := e[..|e| - 1], e[|e| - 1];
    assert e == init + [x];
    KeysAppend(init, [x]);
    SelectAppend(init, [x], k);
  }

  lemma SelectStep<T>(ks: seq<string>, x: string, k: string, sk: seq<T>, sx: seq<T>, v: T,
                      a: Option<seq<T>>, b: Option<seq<T>>, c: Option<seq<T>>)
    requires a == if k in ks then Some(sk) else None
    requires b == if x in ks then Some(sx) else None
    requires c == if k == x then Some(b.GetOr([]) + [v]) else a
    requires k !in ks ==> sk == []
    requires x !in ks ==> sx == []
    ensures c == if k in ks + [x] then Some(if k == x then sx + [v] else sk) else None
  {
  }

  lemma {:induction false} GroupLookup<T>(e: seq<(string, T)>, k: string)
    ensures Lookup(Group(e), k) == if k in Keys(e) then Some(Select(e, k)) else None
  {
    if e != [] {
      var init, x := e[..|e| - 1], e[|e| - 1];
      GroupLookup(init, k);
      GroupLookup(init, x.0);
      PushLookup(Group(init), x.0, x.1, k);
      SelectSnoc(e, k);
      SelectSnoc(e, x.0);
      if k !in Keys(init) { SelectAbsent(init, k); }
      if x.0 !in Keys(init) { SelectAbsent(init, x.0); }
      SelectStep(Keys(init), x.0, k, Select(init, k), Select(init, x.0), x.1,
        Lookup(Group(init), k), Lookup(Group(init), x.0), Lookup(Group(e), k));
      assert Keys(e) == Keys(init) + [x.0];
      assert Select(e, k) == if k == x.0 then Select(init, x.0) + [x.1] else Select(init, k);
    }
  }

  /** A bucket exists exactly for each key that occurs, buckets appear in
      order of the first occurrence of their key, and bucket `k` holds the
      values paired with `k`, in their original order. */
  lemma GroupSpec<T>(e: seq<(string, T)>)
    ensures Valid(Group(e))
    ensures Keys(Group(e)) == Dedup(Keys(e))
    ensures forall k :: Lookup(Group(e), k) == if k in Keys(e) then Some(Select(e, k)) else None
  {
    GroupKeys(e);
    forall k ensures Lookup(Group(e), k) == if k in Keys(e) then Some(Select(e, k)) else None {
      GroupLookup(e, k);
    }
  }

  /** The integers that JavaScript treats as array indices: canonical
      decimal numerals below 2^32 - 1. */
  predicate IsArrayIndex(k: string)
  {
    |k| > 0 && AllDigits(k) && (k[0] == '0' ==> |k| == 1) && ParseNat(k) < 4294967295
  }

  predicate IsIndexEntry<V>(e: (string, V))
  {
    IsArrayIndex(e.0)
  }

  predicate IsNamedEntry<V>(e: (string, V))
  {
    !IsArrayIndex(e.0)
  }

  function IndexValue<V>(e: (string, V)): int
  {
    if AllDigits(e.0) then ParseNat(e.0) else 0
  }

  /** `Object.entries(r)`: the array-index keys in ascending numeric order,
      then the others in insertion order. */
  function Entries<V>(r: Record<V>): seq<(string, V)>
  {
    SortBy(Filter(r, IsIndexEntry), IndexValue, IntLe) + Filter(r, IsNamedEntry)
  }

  /** `Object.keys(r)`. */
  function ObjectKeys<V>(r: Record<V>): seq<string>
  {
    Keys(Entries(r))
  }

  /** Enumeration reorders a record without losing or adding pairs. */
  lemma EntriesPerm<V>(r: Record<V>)
    ensures multiset(Entries(r)) == multiset(r)
  {
    FilterSplitPerm(r, IsIndexEntry, IsNamedEntry);
  }

  /** Enumeration reorders a record without losing or adding pairs; when
      no key is an array index it is the insertion order. */
  lemma EntriesSpec<V>(r: Record<V>)
    ensures multiset(Entries(r)) == multiset(r)
    ensures (forall i :: 0 <= i < |r| ==> !IsArrayIndex(r[i].0)) ==> Entries(r) == r
  {
    EntriesPerm(r);
    if forall i :: 0 <= i < |r| ==> !IsArrayIndex(r[i].0) {
      FilterAll(r, IsNamedEntry);
      FilterNone(r, IsIndexEntry);
    }
  }

  /** A reordering of a valid record is valid, with the same pairs. */
  lemma PermValid<V>(a: Record<V>, b: Record<V>)
    requires multiset(a) == multiset(b) && Valid(a)
    ensures Valid(b)
    ensures multiset(Keys(a)) == multiset(Keys(b))
  {
    KeysAt(a);
    KeysAt(b);
    MapPerm(a, b, Fst);
    DistinctPerm(Keys(a), Keys(b));
  }

  /** Reordering a record of counts keeps their total. */
  lemma PermSum(a: Record<int>, b: Record<int>)
    requires multiset(a) == multiset(b)
    ensures Sum(Values(a)) == Sum(Values(b))
  {
    ValuesAt(a);
    ValuesAt(b);
    MapPerm(a, b, Snd);
    SumPerm(Values(a), Values(b));
  }

  function Ident(s: string): string { s }

  /** Strictly decreasing in code-point order (so in particular without
      repetitions). */
  predicate Descending(ks: seq<string>)
  {
    forall i, j :: 0 <= i < j < |ks| ==> LexGe(ks[i], ks[j]) && ks[i] != ks[j]
  }

  /** `Object.keys(r).sort((a, b) => b.localeCompare(a))`. */
  function SortedKeys<V>(r: Record<V>): seq<string>
  {
    SortBy(ObjectKeys(r), Ident, LexGe)
  }

  /** Enumerating a valid record reorders its pairs but changes no lookup. */
  lemma EntriesLookup<V>(r: Record<V>, k: string)
    requires Valid(r)
    ensures Valid(Entries(r))
    ensures Lookup(Entries(r), k) == Lookup(r, k)
  {
    EntriesSpec(r);
    PermValid(r, Entries(r));
    LookupPerm(r, Entries(r), k);
  }

  /** Assigning a key in a reordering of a valid record: the key gets the
      new value, every other key keeps its value in the original, and no
      key but the assigned one is added. */
  lemma PutReordered<V>(r: Record<V>, e: Record<V>, k: string, v: V, k': string)
    requires Valid(r) && multiset(e) == multiset(r)
    ensures Valid(Put(e, k, v))
    ensures Lookup(Put(e, k, v), k) == Some(v)
    ensures k' != k ==> Lookup(Put(e, k, v), k') == Lookup(r, k')
    ensures k' in Keys(Put(e, k, v)) <==> k' in Keys(r) || k' == k
  {
    PermValid(r, e);
    LookupPerm(r, e, k');
    PutValid(e, k, v);
    PutKeys(e, k, v);
  }

  /** The keys of a record, sorted in reverse order, are strictly
      decreasing and are exactly its keys: the order in which the keys were
      inserted or enumerated plays no part. */
  lemma SortedKeysSpec<V>(r: Record<V>)
    requires Valid(r)
    ensures Descending(SortedKeys(r))
    ensures forall k :: k in SortedKeys(r) <==> k in Keys(r)
  {
    var ks := ObjectKeys(r);
    var sk := SortedKeys(r);
    EntriesSpec(r);
    PermValid(r, Entries(r));
    DistinctPerm(ks, sk);
    LexOrders();
    SortBySorted(ks, Ident, LexGe);
    forall k ensures k in sk <==> k in Keys(r) {
      assert k in sk <==> k in multiset(sk);
      assert k in Keys(r) <==> k in multiset(Keys(r));
    }
  }

  /** A strictly decreasing arrangement of a set of keys is unique. */
  lemma {:induction false} DescendingUnique(a: seq<string>, b: seq<string>)
    requires Descending(a) && Descending(b)
    requires forall k :: k in a <==> k in b
    ensures a == b
  {
    assert a != [] ==> a[0] in b;
    assert b != [] ==> b[0] in a;
    if a != [] && b != [] {
      var i :| 0 <= i < |b| && b[i] == a[0];
      var j :| 0 <= j < |a| && a[j] == b[0];
      if j == 0 { LexLeRefl(a[0]); }
      if i == 0 { LexLeRefl(b[0]); }
      assert LexGe(a[0], b[0]) && LexGe(b[0], a[0]);
      LexLeAntisym(a[0], b[0]);
      assert Descending(a[1..]) by {
        forall x, y | 0 <= x < y < |a[1..]| ensures LexGe(a[1..][x], a[1..][y]) && a[1..][x] != a[1..][y] {
          assert a[1..][x] == a[x + 1] && a[1..][y] == a[y + 1];
        }
      }
      assert Descending(b[1..]) by {
        forall x, y | 0 <= x < y < |b[1..]| ensures LexGe(b[1..][x], b[1..][y]) && b[1..][x] != b[1..][y] {
          assert b[1..][x] == b[x + 1] && b[1..][y] == b[y + 1];
        }
      }
      forall k ensures k in a[1..] <==> k in b[1..] {
        NotHead(a, k);
        NotHead(b, k);
      }
      DescendingUnique(a[1..], b[1..]);
      assert a == [a[0]] + a[1..] && b == [b[0]] + b[1..];
    }
  }

  /** In a strictly decreasing sequence, the elements after the first are
      the others. */
  lemma NotHead(a: seq<string>, k: string)
    requires Descending(a) && a != []
    ensures k in a[1..] <==> k in a && k != a[0]
  {
    if k in a[1..] {
      var x :| 0 <= x < |a[1..]| && a[1..][x] == k;
      assert a[x + 1] == k;
    }
    if k in a && k != a[0] {
      var x :| 0 <= x < |a| && a[x] == k;
      assert a[1..][x - 1] == k;
    }
  }

  /** Two valid records with the same pairs and the same key order are
      equal. */
  lemma SamePairs<V>(a: Record<V>, b: Record<V>)
    requires Valid(a) && multiset(a) == multiset(b) && Keys(a) == Keys(b)
    ensures a == b
  {
    KeysAt(a);
    KeysAt(b);
    forall i | 0 <= i < |a|
      ensures a[i] == b[i]
    {
      assert b[i] in multiset(a);
      EntryLookup(a, b[i]);
      LookupMember(a, i);
    }
  }

  /** Enumerating a record whose keys are already strictly decreasing and
      sorting the entries by key, `Object.entries(r).sort(([a], [b]) =>
      b.localeCompare(a))`, gives the record back. */
  lemma SortedEntries<V>(r: Record<V>)
    requires Valid(r) && Descending(Keys(r))
    ensures SortBy(Entries(r), Fst, LexGe) == r
  {
    var s := SortBy(Entries(r), Fst, LexGe);
    EntriesSpec(r);
    SortByMap(Entries(r), Fst, Fst, Ident, LexGe);
    KeysAt(Entries(r));
    KeysAt(s);
    SortedKeysSpec(r);
    DescendingUnique(SortedKeys(r), Keys(r));
    SamePairs(r, s);
  }

  /** Sorting the keys of such a record changes nothing. */
  lemma SortedKeysFixed<V>(r: Record<V>)
    requires Valid(r) && Descending(Keys(r))
    ensures SortedKeys(r) == Keys(r)
  {
    SortedKeysSpec(r);
    DescendingUnique(SortedKeys(r), Keys(r));
  }
}
