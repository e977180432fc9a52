/**
 * Case folding for name comparisons: SQL `lower(...)` on the column side and
 * Rust `to_lowercase()` on the argument side, both modelled as ASCII lowering.
 */
module Lowering {

  function LowerChar(c: char): (d: char)
    ensures 'A' <= c <= 'Z' ==> d as int == c as int + 32
    ensures !('A' <= c <= 'Z') ==> d == c
    ensures !('A' <= d <= 'Z')
  {
    if 'A' <= c <= 'Z' then (c as int + 32) as char else c
  }

  /** SQL `lower(...)` / Rust `to_lowercase()`: each character lowered on its own. */
  function Lower(s: string): (r: string)
    ensures |r| == |s|
    ensures forall i :: 0 <= i < |s| ==> r[i] == LowerChar(s[i])
  {
    if s == [] then [] else [LowerChar(s[0])] + Lower(s[1..])
  }

  /** Two names are the same name when they lower to the same string. */
  predicate SameName(a: string, b: string) {
    Lower(a) == Lower(b)
  }

  lemma AliceSpellings()
    ensures SameName("Alice", "alice") && SameName("ALICE", "alice")
    ensures !SameName("alice", "alicia")
  {
  }
}
