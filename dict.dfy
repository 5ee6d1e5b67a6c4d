/**
 * A Python `dict` as the pages use it: an insertion-ordered table with
 * unique keys. Assigning to a key already present keeps its position and
 * replaces its value, assigning a new key appends it.
 */
module Dict {
  import opened Wrappers

  type Table<K, V> = seq<(K, V)>

  function Keys<K, V>(d: Table<K, V>): (r: seq<K>)
    ensures |r| == |d| && forall i :: 0 <= i < |d| ==> r[i] == d[i].0
  {
    seq(|d|, i requires 0 <= i < |d| => d[i].0)
  }

  predicate UniqueKeys<K(==), V>(d: Table<K, V>)
  {
    forall i, j :: 0 <= i < j < |d| ==> d[i].0 != d[j].0
  }

  /** `d.get(key)`: the value stored under `key`, or None. */
  function Get<K(==), V>(d: Table<K, V>, key: K): (r: Option<V>)
    ensures r.Some? ==> exists i :: 0 <= i < |d| && d[i] == (key, r.value)
    ensures r.None? <==> key !in Keys(d)
  {
    if d == [] then None
    else if d[0].0 == key then Some(d[0].1)
    else
      var r := Get(d[1..], key);
      assert forall i :: 1 <= i < |d| ==> d[i] == d[1..][i - 1];
      assert Keys(d) == [d[0].0] + Keys(d[1..]);
      r
  }

  /** `d.get(key, default)`. */
  function GetOr<K(==), V>(d: Table<K, V>, key: K, default: V): (r: V)
    ensures key !in Keys(d) ==> r == default
    ensures key in Keys(d) ==> Get(d, key) == Some(r)
  {
    match Get(d, key)
    case Some(v) => v
    case None => default
  }

  /** `d[key] = value`. */
  function Put<K(==), V>(d: Table<K, V>, key: K, value: V): (r: Table<K, V>)
    ensures key in Keys(d) ==> Keys(r) == Keys(d)
    ensures key !in Keys(d) ==> Keys(r) == Keys(d) + [key]
  {
    if d == [] then [(key, value)]
    else if d[0].0 == key then [(key, value)] + d[1..]
    else
      var r := [d[0]] + Put(d[1..], key, value);
      assert Keys(d) == [d[0].0] + Keys(d[1..]);
      assert Keys(r) == [d[0].0] + Keys(Put(d[1..], key, value));
      r
  }

  lemma {:induction false} PutKeepsUnique<K, V>(d: Table<K, V>, key: K, value: V)
    requires UniqueKeys(d)
    ensures UniqueKeys(Put(d, key, value))
  {
    var r := Put(d, key, value);
    assert Keys(d) == Keys(d);
    if key in Keys(d) {
      assert forall i :: 0 <= i < |r| ==> r[i].0 == Keys(r)[i] == Keys(d)[i] == d[i].0;
    } else {
      assert forall i :: 0 <= i < |r| ==> r[i].0 == Keys(r)[i];
      assert forall i :: 0 <= i < |d| ==> r[i].0 == d[i].0;
      assert forall i :: 0 <= i < |d| ==> d[i].0 == Keys(d)[i] != key;
    }
  }

  /** The key just written reads back the value just written: the last write wins. */
  lemma {:induction false} GetPutSame<K, V>(d: Table<K, V>, key: K, value: V)
    ensures Get(Put(d, key, value), key) == Some(value)
  {
    if d != [] && d[0].0 != key {
      GetPutSame(d[1..], key, value);
    }
  }

  /** Writing one key does not change what another key reads. */
  lemma {:induction false} GetPutOther<K, V>(d: Table<K, V>, key: K, value: V, other: K)
    requires other != key
    ensures Get(Put(d, key, value), other) == Get(d, other)
  {
    if d != [] && d[0].0 != key {
      GetPutOther(d[1..], key, value, other);
    }
  }

  /** Writing the only key of a one-entry table replaces its value. */
  lemma PutOverSingle<K, V>(key: K, first: V, second: V)
    ensures Put([(key, first)], key, second) == [(key, second)]
  {
  }

  /** With unique keys, each stored pair is what its key reads. */
  lemma {:induction false} GetAt<K, V>(d: Table<K, V>, i: nat)
    requires UniqueKeys(d) && i < |d|
    ensures Get(d, d[i].0) == Some(d[i].1)
  {
    if i > 0 {
      assert UniqueKeys(d[1..]) by {
        forall a, b | 0 <= a < b < |d[1..]| ensures d[1..][a].0 != d[1..][b].0 {
          assert d[1..][a] == d[a + 1] && d[1..][b] == d[b + 1];
        }
      }
      GetAt(d[1..], i - 1);
      assert d[0].0 != d[i].0;
    }
  }
}
