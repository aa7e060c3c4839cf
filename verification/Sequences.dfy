/** Facts about concatenation that proofs need by name. */
module Sequences {
  lemma Regroup<T>(a: seq<T>, b: seq<T>, c: seq<T>)
    ensures (a + b) + c == a + (b + c)
  {
  }

  lemma Unprefixed<T>(xs: seq<T>)
    ensures [] + xs == xs
  {
  }

  lemma Unsuffixed<T>(xs: seq<T>)
    ensures xs + [] == xs
  {
  }

  /** An element at two places counts at least twice. */
  lemma TwiceInside<T>(xs: seq<T>, i: nat, j: nat)
    requires i < j < |xs| && xs[i] == xs[j]
    ensures multiset(xs)[xs[i]] >= 2
  {
    assert xs == xs[..i] + [xs[i]] + xs[i + 1..j] + [xs[j]] + xs[j + 1..];
  }
}
