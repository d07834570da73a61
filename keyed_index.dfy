/**
 * A dictionary filled by writing `dict[keys[i]] = values[i]` for i = 0, 1, ...
 * in turn: nothing is rejected, and on a repeated key the last write wins.
 */
module KeyedIndex {

  function LastWins<K, V>(keys: seq<K>, values: seq<V>): map<K, V>
    requires |keys| == |values|
    decreases |keys|
  {
    if keys == [] then map[]
    else LastWins(keys[..|keys| - 1], values[..|values| - 1])[keys[|keys| - 1] := values[|values| - 1]]
  }

  /** The position of the last occurrence of `k` in `keys`. */
  function LastIndex<K(==)>(keys: seq<K>, k: K): (i: nat)
    requires k in keys
    ensures i < |keys| && keys[i] == k
    ensures forall j :: i < j < |keys| ==> keys[j] != k
    decreases |keys|
  {
    if keys[|keys| - 1] == k then |keys| - 1
    else
      assert k in keys[..|keys| - 1] by {
        var p :| 0 <= p < |keys| && keys[p] == k;
        assert keys[..|keys| - 1][p] == k;
      }
      LastIndex(keys[..|keys| - 1], k)
  }

  /**
   * The dictionary holds exactly the written keys, and each one maps to the
   * value written with its last occurrence.
   */
  lemma {:induction false} LastWinsLookup<K, V>(keys: seq<K>, values: seq<V>, k: K)
    requires |keys| == |values|
    ensures k in LastWins(keys, values) <==> k in keys
    ensures k in keys ==> LastWins(keys, values)[k] == values[LastIndex(keys, k)]
    decreases |keys|
  {
    if keys != [] {
      var n := |keys| - 1;
      var front := keys[..n];
      LastWinsLookup(front, values[..n], k);
      assert keys == front + [keys[n]];
      assert k in keys <==> k in front || k == keys[n];
      if k in keys && k != keys[n] {
        assert LastIndex(keys, k) == LastIndex(front, k);
      }
    }
  }

  /** One more write updates the dictionary at that key and nowhere else. */
  lemma LastWinsAppend<K, V>(keys: seq<K>, values: seq<V>, k: K, v: V)
    requires |keys| == |values|
    ensures LastWins(keys + [k], values + [v]) == LastWins(keys, values)[k := v]
  {
    assert (keys + [k])[..|keys|] == keys;
    assert (values + [v])[..|values|] == values;
  }

  /** A position that no later position repeats is the last occurrence of its key. */
  lemma LastIndexOfLast<K>(keys: seq<K>, i: nat)
    requires i < |keys|
    requires forall j :: i < j < |keys| ==> keys[j] != keys[i]
    ensures LastIndex(keys, keys[i]) == i
  {
  }

  /** The entry written last for a key is the one the dictionary holds, however often that key was written before. */
  lemma LastWinsLatest<K, V>(keys: seq<K>, values: seq<V>, j: nat)
    requires |keys| == |values| && j < |keys|
    requires forall k :: j < k < |keys| ==> keys[k] != keys[j]
    ensures keys[j] in LastWins(keys, values) && LastWins(keys, values)[keys[j]] == values[j]
  {
    LastWinsLookup(keys, values, keys[j]);
  }
}
