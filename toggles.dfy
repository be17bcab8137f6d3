/** The collapse state of the archive, the sidebar and the table of
    contents: a set of keys, flipped one key at a time by
    `next = new Set(prev); if (next.has(k)) next.delete(k); else next.add(k)`. */
module Toggles {

  /** Flipping `k`: it is in the result exactly when it was not in `s`,
      and every other key keeps its membership. */
  function Toggle(s: set<string>, k: string): (r: set<string>)
    ensures k in r <==> k !in s
    ensures r - {k} == s - {k}
  {
    if k in s then s - {k} else s + {k}
  }

  /** Toggling the same key twice restores the set. */
  lemma ToggleTwice(s: set<string>, k: string)
    ensures Toggle(Toggle(s, k), k) == s
  {
  }

  /** Toggles of different keys do not interfere. */
  lemma ToggleCommute(s: set<string>, a: string, b: string)
    ensures Toggle(Toggle(s, a), b) == Toggle(Toggle(s, b), a)
  {
  }
}
