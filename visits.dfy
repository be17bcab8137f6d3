/** The visit counter (`src/hooks/usePostVisits.ts`): a record from post
    slug to number of visits, starting empty, and the `increment` update
    `{ ...prev, [slug]: (prev[slug] ?? 0) + 1 }`. */
module Visits {
  import opened Wrappers
  import opened Seqs
  import opened Records

  /** `useState({})`. */
  const NoVisits: Record<int> := []

  /** The spread copies the pairs of `prev` in enumeration order, then the
      slug's count is set one higher. */
  function Increment(prev: Record<int>, slug: string): Record<int>
  {
    Put(Entries(prev), slug, Lookup(prev, slug).GetOr(0) + 1)
  }

  /** The slug's count goes up by one (from 0 when it was never
      visited); every other slug keeps its count, and a slug gains a count
      only when it is the one incremented. */
  lemma IncrementSpec(prev: Record<int>, slug: string, k: string)
    requires Valid(prev)
    ensures Valid(Increment(prev, slug))
    ensures Lookup(Increment(prev, slug), slug) == Some(Lookup(prev, slug).GetOr(0) + 1)
    ensures k != slug ==> Lookup(Increment(prev, slug), k) == Lookup(prev, k)
    ensures k in Keys(Increment(prev, slug)) <==> k in Keys(prev) || k == slug
  {
    var e, v := Entries(prev), Lookup(prev, slug).GetOr(0) + 1;
    assert Increment(prev, slug) == Put(e, slug, v);
    EntriesPerm(prev);
    PutReordered(prev, e, slug, v, k);
  }

  /** No count ever goes down. */
  lemma IncrementMonotone(prev: Record<int>, slug: string, k: string)
    requires Valid(prev)
    requires Lookup(prev, k).Some?
    ensures Lookup(Increment(prev, slug), k).Some?
    ensures Lookup(Increment(prev, slug), k).value >= Lookup(prev, k).value
  {
    IncrementSpec(prev, slug, k);
  }

  /** The counts after incrementing the slugs of `slugs` in turn. */
  function IncrementAll(visits: Record<int>, slugs: seq<string>): Record<int>
  {
    if slugs == [] then visits else Increment(IncrementAll(visits, slugs[..|slugs| - 1]), slugs[|slugs| - 1])
  }

  /** Starting from no visits, a run of increments leaves every slug
      counted as often as it was incremented. */
  lemma {:induction false} IncrementAllCounts(slugs: seq<string>, k: string)
    ensures Valid(IncrementAll(NoVisits, slugs))
    ensures Lookup(IncrementAll(NoVisits, slugs), k) == if k in slugs then Some(multiset(slugs)[k]) else None
  {
    if slugs != [] {
      var init, last := slugs[..|slugs| - 1], slugs[|slugs| - 1];
      var before := IncrementAll(NoVisits, init);
      var after := IncrementAll(NoVisits, slugs);
      assert after == Increment(before, last);
      var a, b, c := Lookup(before, k), Lookup(before, last), Lookup(after, k);
      assert a == if k in init then Some(multiset(init)[k]) else None by {
        IncrementAllCounts(init, k);
      }
      assert b == if last in init then Some(multiset(init)[last]) else None by {
        IncrementAllCounts(init, last);
      }
      assert Valid(after) && c == if k == last then Some(b.GetOr(0) + 1) else a by {
        IncrementAllCounts(init, last);
        IncrementSpec(before, last, k);
      }
      CountStep(init, last, k, a, b, c);
      Snoc(slugs);
    }
  }

  /** `k` increments of the same slug from no visits count `k`. */
  lemma RepeatedIncrement(slug: string, n: nat)
    requires n > 0
    ensures Lookup(IncrementAll(NoVisits, seq(n, _ => slug)), slug) == Some(n)
  {
    var slugs := seq(n, _ => slug);
    IncrementAllCounts(slugs, slug);
    assert slugs[0] == slug;
    assert multiset(slugs)[slug] == n by {
      RepeatCount(slug, n);
    }
  }

  lemma {:induction false} RepeatCount(slug: string, n: nat)
    ensures multiset(seq(n, _ => slug))[slug] == n
  {
    if n > 0 {
      RepeatCount(slug, n - 1);
      assert seq(n, _ => slug) == seq(n - 1, _ => slug) + [slug];
    }
  }
}
