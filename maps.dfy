/** A JavaScript `Map` as the program uses it: keys kept in insertion order
    (the order `entries()` and `values()` visit them), each with its value at
    the same position of a parallel sequence. */
module Maps {

  /** The position of `key` among `keys`, or -1 when `has(key)` is false. */
  function IndexOf<K(==)>(keys: seq<K>, key: K): (r: int)
    ensures -1 <= r < |keys|
    ensures r == -1 <==> key !in keys
    ensures r >= 0 ==> keys[r] == key && key !in keys[..r]
  {
    if keys == [] then -1
    else if keys[0] == key then 0
    else
      var t := IndexOf(keys[1..], key);
      if t == -1 then -1 else t + 1
  }

  /** No key occurs twice: none occurs among the keys before it. The keys of
      a `Map` grow one at a time, so this one-index form is the one each
      step re-establishes; `DistinctKeysApart` gives the two-index form. */
  predicate DistinctKeys<K(==)>(keys: seq<K>) {
    forall i :: 0 <= i < |keys| ==> keys[i] !in keys[..i]
  }

  /** Distinct keys differ at any two positions. */
  lemma DistinctKeysApart<K>(keys: seq<K>, i: nat, j: nat)
    requires DistinctKeys(keys) && i < |keys| && j < |keys| && i != j
    ensures keys[i] != keys[j]
  {
    if i < j {
      assert keys[..j][i] == keys[i];
    } else {
      assert keys[..i][j] == keys[j];
    }
  }
}
