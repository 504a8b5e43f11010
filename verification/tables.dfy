/**
 * Tables part-way through a scan. A scan over a table's keys decides each
 * key once; after the keys `done` the table holds the decided entries for
 * those keys and the original entries elsewhere.
 */
module Tables {
  /** `base` with the entries of `d` taken over for the keys in `done`. */
  function Overlay<K, V>(base: map<K, V>, d: map<K, V>, done: set<K>): (r: map<K, V>)
    ensures r.Keys == base.Keys
    ensures forall k :: k in base && k !in done ==> r[k] == base[k]
  {
    map k | k in base :: if k in done && k in d then d[k] else base[k]
  }

  /** Deciding one more key takes over at most that key's entry. */
  lemma OverlayStep<K, V>(base: map<K, V>, d: map<K, V>, done: set<K>, key: K)
    ensures Overlay(base, d, done + {key}) ==
      (if key in base && key in d then Overlay(base, d, done)[key := d[key]] else Overlay(base, d, done))
  {
  }

  /** Before the scan the table is untouched; once every decided key is done, all of `d` is taken over. */
  lemma OverlayEnds<K, V>(base: map<K, V>, d: map<K, V>, done: set<K>)
    ensures Overlay(base, d, {}) == base
    ensures d.Keys <= done ==> Overlay(base, d, done) == map k | k in base :: if k in d then d[k] else base[k]
  {
  }

  /** The entries of `d` for the keys in `done`. */
  function Restrict<K, V>(d: map<K, V>, done: set<K>): (r: map<K, V>)
    ensures r.Keys == d.Keys * done
    ensures forall k :: k in r ==> r[k] == d[k]
  {
    map k | k in d && k in done :: d[k]
  }

  /** Collecting one more key adds at most that key's entry. */
  lemma RestrictStep<K, V>(d: map<K, V>, done: set<K>, key: K)
    ensures Restrict(d, done + {key}) == (if key in d then Restrict(d, done)[key := d[key]] else Restrict(d, done))
  {
  }

  /** Nothing is collected before the scan, and all of `d` once its keys are done. */
  lemma RestrictEnds<K, V>(d: map<K, V>, done: set<K>)
    ensures Restrict(d, {}) == map[]
    ensures d.Keys <= done ==> Restrict(d, done) == d
  {
  }
}
