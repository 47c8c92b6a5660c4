/** Positions of one string inside another. */
module Strings {

  /** `w` occurs in `s` starting at position `p`. */
  predicate OccursAt(s: string, p: nat, w: string)
  {
    p + |w| <= |s| && s[p..p + |w|] == w
  }

  /** `a + b` occurs at `p` exactly when `a` does and `b` follows it. */
  lemma OccursAtConcat(s: string, p: nat, a: string, b: string)
    ensures OccursAt(s, p, a + b) <==> OccursAt(s, p, a) && OccursAt(s, p + |a|, b)
  {
    if p + |a| + |b| <= |s| {
      assert s[p..p + |a| + |b|] == s[p..p + |a|] + s[p + |a|..p + |a| + |b|];
      if OccursAt(s, p, a + b) {
        assert s[p..p + |a|] == (a + b)[..|a|] == a;
        assert s[p + |a|..p + |a| + |b|] == (a + b)[|a|..] == b;
      }
    }
  }

  /** What follows an occurrence of `w` at `p` is the rest of `s`. */
  lemma OccursThenRest(s: string, p: nat, w: string)
    requires OccursAt(s, p, w)
    ensures s[p..] == w + s[p + |w|..]
  {
    assert s[p..] == s[p..p + |w|] + s[p + |w|..];
  }

  /** The middle part of a concatenation occurs right after the first part. */
  lemma OccursInMiddle(a: string, w: string, b: string)
    ensures OccursAt(a + w + b, |a|, w)
  {
    assert (a + w + b)[|a|..|a| + |w|] == w;
  }

  /** `needle` occurs somewhere in `hay`, searching from position `from` on. */
  function IncludesFrom(hay: string, needle: string, from: nat): (r: bool)
    requires from <= |hay|
    ensures r <==> exists i :: from <= i <= |hay| && OccursAt(hay, i, needle)
    decreases |hay| - from
  {
    if OccursAt(hay, from, needle) then true
    else if from == |hay| then false
    else IncludesFrom(hay, needle, from + 1)
  }

  /** `hay.includes(needle)`. */
  function Includes(hay: string, needle: string): (r: bool)
    ensures r <==> exists i :: 0 <= i <= |hay| && OccursAt(hay, i, needle)
  {
    IncludesFrom(hay, needle, 0)
  }
}
