/** Small facts about sequences and positions that the parsers and the collectors share. */
module Sequences {

  /** The smaller of two positions or lengths. */
  function Min(a: int, b: int): int
  {
    if a <= b then a else b
  }

  /** Cutting a sequence at two points and joining the pieces gives it back. */
  lemma SplitTwice<T>(s: seq<T>, k: nat, j: nat)
    requires k + j <= |s|
    ensures s == s[..k] + s[k..][..j] + s[k + j..]
  {
    assert s[k..][..j] == s[k..k + j];
    assert s == s[..k] + s[k..k + j] + s[k + j..];
  }

  /** The three pieces of a concatenation, read back by position. */
  lemma Pieces<T>(a: seq<T>, b: seq<T>, c: seq<T>)
    ensures a + b + c == a + (b + c)
    ensures (a + b + c)[..|a|] == a && (a + b + c)[|a|..] == b + c
    ensures (b + c)[..|b|] == b && (a + b + c)[|a| + |b|..] == c
  {
  }

  /** The head and the tail of a sequence built from them. */
  lemma Cons<T>(x: T, xs: seq<T>)
    ensures ([x] + xs)[0] == x && ([x] + xs)[1..] == xs && |[x] + xs| == |xs| + 1
  {
  }
}
