/** Occurrences of one text in another. */
module TextSearch {
  import opened Wrappers

  predicate At(text: string, marker: string, k: nat) {
    k + |marker| <= |text| && text[k..k + |marker|] == marker
  }

  /** The first occurrence at or after `from`. */
  function Find(text: string, marker: string, from: nat): (at: Option<nat>)
    ensures at.Some? ==> from <= at.value && At(text, marker, at.value)
    ensures forall k: nat :: from <= k && (at.None? || k < at.value) ==> !At(text, marker, k)
    decreases |text| - from
  {
    if from + |marker| > |text| then None
    else if At(text, marker, from) then Some(from)
    else Find(text, marker, from + 1)
  }

  predicate Occurs(text: string, part: string) {
    exists k: nat :: k <= |text| && At(text, part, k)
  }

  function Substrings(text: string): set<string> {
    set i: nat, j: nat | i <= j <= |text| :: text[i..j]
  }
}
