/** Facts about sequence concatenation that the proofs use by name. */
module Seqs {

  /** What is appended in two steps is the concatenation appended once. */
  lemma AppendAssociates<T>(a: seq<T>, b: seq<T>, c: seq<T>)
    ensures a + b + c == a + (b + c)
  {
  }

  /** Growing a prefix of `e` by one element, after some fixed `done`. */
  lemma PrefixGrows<T>(done: seq<T>, e: seq<T>, j: nat)
    requires j < |e|
    ensures done + e[..j + 1] == (done + e[..j]) + [e[j]]
  {
    assert e[..j + 1] == e[..j] + [e[j]];
  }

  /** Three pieces appended one after the other to `start`. */
  lemma AppendedInSteps<T>(start: seq<T>, a: seq<T>, b: seq<T>, c: seq<T>, s1: seq<T>, s2: seq<T>, s3: seq<T>)
    requires s1 == start + a && s2 == s1 + b && s3 == s2 + c
    ensures s3 == start + (a + b + c)
  {
    AppendAssociates(start, a, b);
    AppendAssociates(start, a + b, c);
  }

  /** The last element of `s + [x]` and what comes before it. */
  lemma LastOfAppend<T>(s: seq<T>, x: T)
    ensures (s + [x])[..|s|] == s && (s + [x])[|s|] == x
  {
  }

  /** Appending an empty sequence, on either side, changes nothing. */
  lemma AppendEmpty<T>(s: seq<T>, e: seq<T>)
    requires e == []
    ensures s + e == s && e + s == s
  {
  }

  /** Two elements appended one at a time. */
  lemma AppendTwo<T>(s: seq<T>, x: T, y: T)
    ensures s + [x] + [y] == s + [x, y]
  {
  }

  /** Appending keeps what came first. */
  lemma AppendKeepsPrefix<T>(a: seq<T>, b: seq<T>, c: seq<T>, d: seq<T>)
    ensures |a + b + c + d| >= |a| && (a + b + c + d)[..|a|] == a
  {
  }
}
