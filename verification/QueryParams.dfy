/** Collapsing a query map's pairs to one value per key. */
module QueryParams {
  type Pair<K, V> = (K, V)

  /** Every pair inserted in order into a hash map. */
  function InsertAll<K, V>(pairs: seq<Pair<K, V>>): map<K, V> {
    if pairs == [] then map[]
    else
      var last := pairs[|pairs| - 1];
      InsertAll(pairs[..|pairs| - 1])[last.0 := last.1]
  }

  /** The run-grouping loop of `serialize_query_string_parameters`: it inserts only when the key
      changes, and once at the end. On every list of pairs, grouped by key or not, it builds the map
      that inserting each pair would. */
  method Collapse<K(==), V>(pairs: seq<Pair<K, V>>) returns (params: map<K, V>)
    ensures params == InsertAll(pairs)
  {
    params := map[];
    if pairs != [] {
      var (lastKey, lastValue) := pairs[0];
      var i := 0;
      while i < |pairs|
        invariant 0 <= i <= |pairs|
        invariant i == 0 ==> params == map[] && lastKey == pairs[0].0
        invariant i > 0 ==> params[lastKey := lastValue] == InsertAll(pairs[..i])
      {
        var (k, v) := pairs[i];
        assert pairs[..i + 1][..i] == pairs[..i];
        if k != lastKey {
          params := params[lastKey := lastValue];
          lastKey := k;
        }
        lastValue := v;
        i := i + 1;
      }
      params := params[lastKey := lastValue];
      assert pairs[..|pairs|] == pairs;
    }
  }

  /** The collapsed map has exactly the keys that occur, each with the value of its last pair. */
  lemma {:induction false} LastValueWins<K, V>(pairs: seq<Pair<K, V>>, k: K)
    ensures k in InsertAll(pairs) <==> exists i :: 0 <= i < |pairs| && pairs[i].0 == k
    ensures k in InsertAll(pairs) ==>
      exists i :: 0 <= i < |pairs| && pairs[i] == (k, InsertAll(pairs)[k])
                  && forall j :: i < j < |pairs| ==> pairs[j].0 != k
  {
    if pairs != [] {
      var n := |pairs| - 1;
      LastValueWins(pairs[..n], k);
      if pairs[n].0 == k {
        assert pairs[n] == (k, InsertAll(pairs)[k]);
      } else if k in InsertAll(pairs) {
        var i :| 0 <= i < n && pairs[..n][i] == (k, InsertAll(pairs[..n])[k])
                 && forall j :: i < j < n ==> pairs[..n][j].0 != k;
        assert pairs[i] == (k, InsertAll(pairs)[k]);
        assert forall j :: i < j < n ==> pairs[..n][j].0 == pairs[j].0;
      } else {
        assert forall j :: 0 <= j < n ==> pairs[..n][j].0 == pairs[j].0;
      }
    }
  }
}
