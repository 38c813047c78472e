/** Sequence bookkeeping the proofs use to move between equal ways of writing a concatenation. */
module Seqs {

  lemma ShiftHead<T>(prefix: seq<T>, rest: seq<T>)
    requires |rest| > 0
    ensures prefix + [rest[0]] + rest[1..] == prefix + rest
  {
  }

  lemma Associative<T>(a: seq<T>, b: seq<T>, c: seq<T>)
    ensures a + (b + c) == (a + b) + c
  {
  }

  lemma AppendEmpty<T>(s: seq<T>, e: seq<T>)
    requires |e| == 0
    ensures s + e == s && e + s == s
  {
  }
}
