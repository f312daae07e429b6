/**
 * A run of `m[keys[k]] = vals[k]` writes for k = 0, 1, ..., as the Model class does
 * when it fills its name tables and its output map.
 */
module MapUpdates {

  predicate Distinct<T(==)>(s: seq<T>)
  {
    forall i, j :: 0 <= i < j < |s| ==> s[i] != s[j]
  }

  /**
   * `m` after writing `vals[0]` under `keys[0]`, then `vals[1]` under `keys[1]`, and
   * so on: a later write to a key overwrites an earlier one.
   */
  function Assign<K, V>(m: map<K, V>, keys: seq<K>, vals: seq<V>): map<K, V>
    requires |keys| == |vals|
    decreases |keys|
  {
    if keys == [] then m
    else Assign(m, keys[..|keys| - 1], vals[..|vals| - 1])[keys[|keys| - 1] := vals[|vals| - 1]]
  }

  /** The writes add exactly the written keys. */
  lemma {:induction false} AssignKeys<K, V>(m: map<K, V>, keys: seq<K>, vals: seq<V>, x: K)
    requires |keys| == |vals|
    ensures x in Assign(m, keys, vals) <==> x in m || x in keys
    decreases |keys|
  {
    if keys != [] {
      var n := |keys| - 1;
      AssignKeys(m, keys[..n], vals[..n], x);
      assert keys == keys[..n] + [keys[n]];
    }
  }

  /** A key never written keeps its old entry. */
  lemma {:induction false} AssignUntouched<K, V>(m: map<K, V>, keys: seq<K>, vals: seq<V>, x: K)
    requires |keys| == |vals|
    requires x in m && x !in keys
    ensures x in Assign(m, keys, vals) && Assign(m, keys, vals)[x] == m[x]
    decreases |keys|
  {
    if keys != [] {
      var n := |keys| - 1;
      assert keys == keys[..n] + [keys[n]];
      AssignUntouched(m, keys[..n], vals[..n], x);
    }
  }

  /** The last write to a key decides its entry. */
  lemma {:induction false} AssignLastWrite<K, V>(m: map<K, V>, keys: seq<K>, vals: seq<V>, k: nat)
    requires |keys| == |vals| && k < |keys|
    requires forall j :: k < j < |keys| ==> keys[j] != keys[k]
    ensures keys[k] in Assign(m, keys, vals) && Assign(m, keys, vals)[keys[k]] == vals[k]
    decreases |keys|
  {
    var n := |keys| - 1;
    if k < n {
      AssignLastWrite(m, keys[..n], vals[..n], k);
    }
  }

  /** Two runs of writes one after the other are one run over the concatenation. */
  lemma {:induction false} AssignConcat<K, V>(m: map<K, V>, k1: seq<K>, v1: seq<V>, k2: seq<K>, v2: seq<V>)
    requires |k1| == |v1| && |k2| == |v2|
    ensures Assign(Assign(m, k1, v1), k2, v2) == Assign(m, k1 + k2, v1 + v2)
    decreases |k2|
  {
    if k2 == [] {
      assert k1 + k2 == k1 && v1 + v2 == v1;
    } else {
      var n := |k2| - 1;
      AssignConcat(m, k1, v1, k2[..n], v2[..n]);
      assert (k1 + k2)[..|k1| + n] == k1 + k2[..n];
      assert (v1 + v2)[..|v1| + n] == v1 + v2[..n];
      assert (k1 + k2)[|k1| + n] == k2[n] && (v1 + v2)[|v1| + n] == v2[n];
    }
  }
}
