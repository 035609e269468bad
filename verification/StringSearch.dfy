/** `std::string::find`. */
module StringSearch {

  predicate OccursAt(s: string, word: string, p: int) {
    0 <= p && p + |word| <= |s| && s[p..p + |word|] == word
  }

  /** `find`: the first occurrence at or after `p`, or -1. */
  function FindFrom(s: string, word: string, p: nat): (r: int)
    ensures r == -1 || (p <= r && OccursAt(s, word, r))
    ensures forall q :: p <= q && (r == -1 || q < r) ==> !OccursAt(s, word, q)
    decreases |s| - p
  {
    if p + |word| > |s| then -1 else if OccursAt(s, word, p) then p else FindFrom(s, word, p + 1)
  }
}
