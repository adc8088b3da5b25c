/** Facts about sequences that several models use. */
module Sequences {
  /** A seal: what is said of every q that is asked is looked into only by proofs that ask. */
  predicate Asked(q: nat) { q >= 0 }

  /** Concatenation is associative. */
  lemma Grouped<T>(a: seq<T>, b: seq<T>, c: seq<T>)
    ensures a + (b + c) == a + b + c
  {
  }

  /** f of every element. */
  function Each<A, B>(f: A -> B, s: seq<A>): (r: seq<B>)
    ensures |r| == |s| && forall i :: 0 <= i < |s| ==> r[i] == f(s[i])
  {
    seq(|s|, i requires 0 <= i < |s| => f(s[i]))
  }

  lemma EachFirst<A, B>(f: A -> B, s: seq<A>)
    requires s != []
    ensures Each(f, s) == [f(s[0])] + Each(f, s[1..])
  {
  }
}
