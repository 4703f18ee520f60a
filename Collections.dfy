/** Small facts about sequences and maps that the index proofs use. */
module Collections {

  /** Sequence concatenation is associative. */
  lemma ConcatAssoc<T>(a: seq<T>, b: seq<T>, c: seq<T>)
    ensures (a + b) + c == a + (b + c)
  {
  }

  /** Updating a key in the leftmost of three merged maps is updating the
      merge, when the other two do not hold the key. */
  lemma UpdateInLeftOperand<K, V>(a: map<K, V>, b: map<K, V>, c: map<K, V>, x: K, v: V)
    requires x !in b && x !in c
    ensures a[x := v] + b + c == (a + b + c)[x := v]
  {
  }

  /** Updating a key in the middle of three merged maps is updating the
      merge, when the last one does not hold the key. */
  lemma UpdateInMiddleOperand<K, V>(a: map<K, V>, b: map<K, V>, c: map<K, V>, x: K, v: V)
    requires x !in c
    ensures a + b[x := v] + c == (a + b + c)[x := v]
  {
  }

  /** Updating the key that a final singleton map sets replaces its value. */
  lemma UpdateOverridesLastOperand<K, V>(a: map<K, V>, b: map<K, V>, x: K, u: V, v: V)
    ensures (a + b + map[x := u])[x := v] == a + b + map[x := v]
  {
  }
}
