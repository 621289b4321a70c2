/** Generic facts about sequences, kept apart so that each is proved in a small context. */
module Seqs {

  lemma Assoc<T>(a: seq<T>, b: seq<T>, c: seq<T>)
    ensures a + b + c == a + (b + c)
  {
  }

  /** Moving the two ends of a three-part middle onto its neighbours. */
  lemma Regroup<T>(p: seq<T>, a: seq<T>, r: seq<T>, b: seq<T>, q: seq<T>)
    ensures p + (a + r + b) + q == (p + a) + r + (b + q)
  {
  }

  /** A sequence is its prefix, middle and suffix put back together. */
  lemma Pieces<T>(s: seq<T>, i: nat, j: nat)
    requires i <= j <= |s|
    ensures s == s[..i] + s[i..j] + s[j..]
  {
  }

  /** The three parts of a concatenation are its slices. */
  lemma Parts3<T>(p: seq<T>, x: seq<T>, q: seq<T>)
    ensures (p + x + q)[..|p|] == p
    ensures (p + x + q)[|p|..|p| + |x|] == x
    ensures (p + x + q)[|p| + |x|..] == q
  {
  }

  lemma PrefixSnoc<T>(s: seq<T>, i: nat)
    requires i < |s|
    ensures s[..i + 1] == s[..i] + [s[i]]
  {
  }

  lemma TailConcat<T>(a: seq<T>, b: seq<T>)
    requires a != []
    ensures (a + b)[1..] == a[1..] + b
  {
  }

  lemma ConsTail<T>(x: T, s: seq<T>)
    ensures ([x] + s)[1..] == s
  {
  }

  // `ShownOfThree` needs this to match the five-part sum of `ShownFive` with a list of three;
  // the solver does not see it unaided when the elements are strings.

  /** Three singletons put together, with two empty parts, form a list of three. */
  lemma Three<T>(a: T, b: T, c: T)
    ensures [a] + [b] + [c] + [] + [] == [a, b, c]
  {
  }
}
