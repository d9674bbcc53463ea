/** Facts about sequences that the proofs name explicitly. */
module SeqFacts {

  /** Concatenation is associative. */
  lemma AppendAssoc<T>(a: seq<T>, b: seq<T>, c: seq<T>)
    ensures a + b + c == a + (b + c)
  {
  }

  /** A nonempty slice is its first element followed by the rest of the slice. */
  lemma SliceCons<T>(s: seq<T>, i: int, j: int)
    requires 0 <= i < j <= |s|
    ensures s[i..j] == [s[i]] + s[i + 1..j]
  {
  }
}
