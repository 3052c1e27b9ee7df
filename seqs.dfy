/** Small facts about sequences, stated once and used by the proofs of the
    other modules to keep their proof obligations small. */
module Seqs {

  lemma SplitAt<T>(s: seq<T>, k: nat)
    requires k <= |s|
    ensures s[..k] + s[k..] == s
  {
  }

  lemma Assoc<T>(a: seq<T>, b: seq<T>, c: seq<T>)
    ensures (a + b) + c == a + (b + c)
  {
  }

  lemma SliceOfSuffix<T>(s: seq<T>, i: nat, n: nat)
    requires i + n <= |s|
    ensures s[i..][..n] == s[i..i + n] && s[i..][n..] == s[i + n..]
  {
  }

  lemma UpdateSplit<T>(s: seq<T>, k: nat, x: T)
    requires k < |s|
    ensures s[k := x] == s[..k] + ([x] + s[k + 1..])
  {
  }

  lemma UpdateLeft<T>(a: seq<T>, b: seq<T>, j: nat, x: T)
    requires j < |a|
    ensures (a + b)[j := x] == a[j := x] + b
  {
  }

  lemma UpdateRight<T>(a: seq<T>, b: seq<T>, j: nat, x: T)
    requires j < |b|
    ensures (a + b)[|a| + j := x] == a + b[j := x]
  {
  }
}
