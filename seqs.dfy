/** Regrouping concatenations. Each step is stated on its own so that proofs
    about strings need not rediscover it among their other facts. */
module Seqs {
  lemma {:induction false} AppendAssoc<T>(a: seq<T>, b: seq<T>, c: seq<T>)
    ensures a + (b + c) == (a + b) + c
  {
  }

  lemma {:induction false} Regroup<T>(a: seq<T>, b: seq<T>, c: seq<T>, d: seq<T>, e: seq<T>, f: seq<T>)
    ensures a + (b + c) + d + e + f == (a + b) + c + (d + e + f)
  {
  }
}
