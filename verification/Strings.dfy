/** The library string operations the redaction code is built on. */
module Strings {
  import opened Wrappers

  /** Non-overlapping, leftmost-first replacement; an empty pattern matches
      between all characters. */
  function Replace(s: string, pat: string, rep: string): string
    decreases |s|
  {
    if pat == "" then Interleave(s, rep)
    else if |s| < |pat| then s
    else if pat <= s then rep + Replace(s[|pat|..], pat, rep)
    else [s[0]] + Replace(s[1..], pat, rep)
  }

  function Interleave(s: string, rep: string): string {
    if s == "" then rep else rep + [s[0]] + Interleave(s[1..], rep)
  }

  predicate OccursAt(s: string, pat: string, i: int) {
    0 <= i && i + |pat| <= |s| && s[i..i + |pat|] == pat
  }

  /** `t` is a contiguous part of `s`. */
  predicate Within(t: string, s: string) {
    exists i :: 0 <= i <= |s| && OccursAt(s, t, i)
  }

  /** The first occurrence at or after `from`. */
  function Find(s: string, pat: string, from: nat): (r: Option<nat>)
    ensures r.None? ==> forall i :: from <= i ==> !OccursAt(s, pat, i)
    ensures r.Some? ==> from <= r.value && OccursAt(s, pat, r.value)
                        && forall i :: from <= i < r.value ==> !OccursAt(s, pat, i)
    decreases |s| + 1 - from
  {
    if from > |s| then None
    else if OccursAt(s, pat, from) then Some(from)
    else Find(s, pat, from + 1)
  }

  predicate BraceFree(s: string) {
    forall i :: 0 <= i < |s| ==> s[i] != '{' && s[i] != '}'
  }

  lemma Assoc<T>(a: seq<T>, b: seq<T>, c: seq<T>)
    ensures (a + b) + c == a + (b + c)
  {
  }
}
