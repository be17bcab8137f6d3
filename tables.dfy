/** The two derived tables the pages build over the post list: a count
    table (`map[k] = (map[k] ?? 0) + 1` over a stream of keys, then
    `Object.entries(map)` sorted by `b.count - a.count`) and a bucket table
    (`(map[k] ??= []).push(x)` over a stream of key/value pairs, then the
    keys sorted by `map[b].length - map[a].length`). */
module Tables {
  import opened Wrappers
  import opened Seqs
  import opened Sorting
  import opened Records

  /** The count of an entry `{ name, count }`. */
  function Count(e: (string, int)): int { e.1 }

  /** The size of a bucket. */
  function Size<T>(b: (string, seq<T>)): int { |b.1| }

  /** The occurrence counts of `ks`, largest count first. */
  function CountTable(ks: seq<string>): Record<int>
  {
    SortBy(Entries(Tally(ks)), Count, IntGe)
  }

  /** The table has one row per distinct key. */
  lemma CountTableSize(ks: seq<string>)
    ensures |CountTable(ks)| == |Dedup(ks)|
  {
    var m := Tally(ks);
    TallyKeys(ks);
    EntriesPerm(m);
    assert |Entries(m)| == |multiset(Entries(m))| == |multiset(m)| == |m|;
  }

  /** A count table names every key of `ks` once and nothing else, pairs it
      with its number of occurrences (so every count is at least 1), its
      counts add up to `|ks|`, it is sorted by non-increasing count, and
      rows with equal counts keep the enumeration order of the tally. */
  lemma CountTableSpec(ks: seq<string>)
    ensures Valid(CountTable(ks))
    ensures forall i :: 0 <= i < |CountTable(ks)| ==>
      CountTable(ks)[i].0 in ks && CountTable(ks)[i].1 == multiset(ks)[CountTable(ks)[i].0] >= 1
    ensures forall k :: k in ks ==> k in Keys(CountTable(ks))
    ensures Sum(Values(CountTable(ks))) == |ks|
    ensures SortedBy(CountTable(ks), Count, IntGe)
    ensures forall c :: WithKey(CountTable(ks), Count, c) == WithKey(Entries(Tally(ks)), Count, c)
  {
    var m := Tally(ks);
    var t := CountTable(ks);
    TallySpec(ks);
    EntriesSpec(m);
    PermValid(m, t);
    PermSum(m, t);
    forall i | 0 <= i < |t|
      ensures t[i].0 in ks && t[i].1 == multiset(ks)[t[i].0] >= 1
    {
      assert t[i] in multiset(m);
      EntryLookup(m, t[i]);
    }
    forall k | k in ks
      ensures k in Keys(t)
    {
      assert k in Keys(m);
      assert k in multiset(Keys(t));
    }
    IntOrders();
    SortBySorted(Entries(m), Count, IntGe);
    forall c ensures WithKey(t, Count, c) == WithKey(Entries(m), Count, c) {
      SortByStable(Entries(m), Count, IntGe, c);
    }
  }

  /** The buckets of `e`, largest bucket first. */
  function BucketTable<T>(e: seq<(string, T)>): Record<seq<T>>
  {
    SortBy(Entries(Group(e)), Size, IntGe)
  }

  /** The total number of values held in the buckets. */
  function TotalSize<T>(r: Record<seq<T>>): int
  {
    if r == [] then 0 else |r[0].1| + TotalSize(r[1..])
  }

  lemma {:induction false} TotalSizeSum<T>(r: Record<seq<T>>)
    ensures TotalSize(r) == Sum(Map(r, Size))
  {
    if r != [] {
      TotalSizeSum(r[1..]);
      assert Map(r, Size) == [Size(r[0])] + Map(r[1..], Size);
    }
  }

  lemma {:induction false} PushSize<T>(r: Record<seq<T>>, k: string, x: T)
    ensures TotalSize(Push(r, k, x)) == TotalSize(r) + 1
  {
    if r != [] && r[0].0 != k {
      PushSize(r[1..], k, x);
      assert Push(r, k, x) == [r[0]] + Push(r[1..], k, x);
    } else if r != [] {
      assert Push(r, k, x) == [(k, r[0].1 + [x])] + r[1..];
    }
  }

  /** Every pushed value lands in exactly one bucket. */
  lemma {:induction false} GroupSize<T>(e: seq<(string, T)>)
    ensures TotalSize(Group(e)) == |e|
  {
    if e != [] {
      GroupSize(e[..|e| - 1]);
      PushSize(Group(e[..|e| - 1]), e[|e| - 1].0, e[|e| - 1].1);
    }
  }

  /** A bucket table has one bucket per key occurring in `e` and no other;
      the bucket of `k` holds the values paired with `k` in their original
      order; the buckets together hold `|e|` values; buckets are sorted by
      non-increasing size, and equal sizes keep the enumeration order of
      the grouping. */
  lemma BucketTableSpec<T>(e: seq<(string, T)>)
    ensures Valid(BucketTable(e))
    ensures forall k :: Lookup(BucketTable(e), k) == if k in Keys(e) then Some(Select(e, k)) else None
    ensures TotalSize(BucketTable(e)) == |e|
    ensures SortedBy(BucketTable(e), Size, IntGe)
    ensures forall n :: WithKey(BucketTable(e), Size, n) == WithKey(Entries(Group(e)), Size, n)
  {
    var g := Group(e);
    var t := BucketTable(e);
    GroupSpec(e);
    EntriesSpec(g);
    PermValid(g, t);
    forall k ensures Lookup(t, k) == if k in Keys(e) then Some(Select(e, k)) else None {
      LookupPerm(g, t, k);
    }
    GroupSize(e);
    TotalSizeSum(g);
    TotalSizeSum(t);
    MapPerm(g, t, Size);
    SumPerm(Map(g, Size), Map(t, Size));
    IntOrders();
    SortBySorted(Entries(g), Size, IntGe);
    forall n ensures WithKey(t, Size, n) == WithKey(Entries(g), Size, n) {
      SortByStable(Entries(g), Size, IntGe, n);
    }
  }
}
