/**
 * Open/closed flags kept in a record keyed by section name or list index,
 * where a key that was never set reads as closed (`undefined` is falsy).
 */
module Toggles {
  predicate IsOpen<K(!new)>(open: map<K, bool>, k: K) {
    k in open && open[k]
  }

  /** `{ ...prev, [k]: !prev[k] }`: the one key flips, every other entry stays as it was. */
  function Toggle<K(!new)>(open: map<K, bool>, k: K): (r: map<K, bool>)
    ensures IsOpen(r, k) <==> !IsOpen(open, k)
    ensures k in r
    ensures forall j :: j != k ==> (j in r <==> j in open)
    ensures forall j :: j != k && j in open ==> r[j] == open[j]
  {
    open[k := !IsOpen(open, k)]
  }

  /** Toggling twice restores what every key reads as. */
  lemma ToggleTwice<K(!new)>(open: map<K, bool>, k: K, j: K)
    ensures IsOpen(Toggle(Toggle(open, k), k), j) <==> IsOpen(open, j)
  {
  }

  /** Toggles of different keys commute. */
  lemma TogglesCommute<K(!new)>(open: map<K, bool>, a: K, b: K)
    requires a != b
    ensures Toggle(Toggle(open, a), b) == Toggle(Toggle(open, b), a)
  {
  }
}
