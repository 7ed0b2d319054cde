/** JavaScript's Map: a dictionary that remembers the order in which keys were first inserted. */
module JsMaps {
  import opened Wrappers

  function Without<K(==)>(keys: seq<K>, key: K): (rest: seq<K>)
    ensures key !in rest
    ensures forall k | k in rest :: k in keys && k != key
    ensures forall k | k in keys && k != key :: k in rest
    ensures |rest| <= |keys|
    ensures key in keys ==> |rest| < |keys|
  {
    if keys == [] then []
    else if keys[0] == key then Without(keys[1..], key)
    else [keys[0]] + Without(keys[1..], key)
  }

  ghost predicate Distinct<K>(keys: seq<K>) {
    forall i, j :: 0 <= i < j < |keys| ==> keys[i] != keys[j]
  }

  lemma WithoutKeepsDistinct<K>(keys: seq<K>, key: K)
    requires Distinct(keys)
    ensures Distinct(Without(keys, key))
  {
    if keys != [] {
      WithoutKeepsDistinct(keys[1..], key);
      assert keys == [keys[0]] + keys[1..];
      assert keys[0] !in keys[1..];
    }
  }

  datatype JsMap<K(==), V> = JsMap(order: seq<K>, entries: map<K, V>) {

    ghost predicate Valid() {
      && Distinct(order)
      && (forall k | k in order :: k in entries)
      && (forall k | k in entries :: k in order)
    }

    function Get(key: K): Option<V> {
      if key in entries then Some(entries[key]) else None
    }

    function Size(): nat {
      |order|
    }

    /** set: a key that is already there keeps its place in the order. */
    function Set(key: K, value: V): JsMap<K, V> {
      JsMap(if key in entries then order else order + [key], entries[key := value])
    }

    function Delete(key: K): JsMap<K, V> {
      JsMap(Without(order, key), entries - {key})
    }

    /** delete(keys().next().value): the oldest key goes. */
    function DeleteOldest(): JsMap<K, V> {
      if order == [] then this else Delete(order[0])
    }
  }

  function Empty<K(==), V>(): (m: JsMap<K, V>)
    ensures m.Valid()
  {
    JsMap([], map[])
  }

  lemma SetKeepsValid<K, V>(m: JsMap<K, V>, key: K, value: V)
    requires m.Valid()
    ensures m.Set(key, value).Valid()
  {
  }

  lemma DeleteKeepsValid<K, V>(m: JsMap<K, V>, key: K)
    requires m.Valid()
    ensures m.Delete(key).Valid()
  {
    WithoutKeepsDistinct(m.order, key);
  }

  function SetAll<K, V>(m: JsMap<K, V>, keys: seq<K>, values: seq<V>): JsMap<K, V>
    requires |keys| == |values|
  {
    if keys == [] then m
    else SetAll(m, keys[..|keys| - 1], values[..|keys| - 1]).Set(keys[|keys| - 1], values[|keys| - 1])
  }

  /** New keys line up as they come. */
  lemma {:induction false} LinesUp<K, V>(keys: seq<K>, values: seq<V>)
    requires |keys| == |values| && Distinct(keys)
    ensures var m := SetAll(Empty<K, V>(), keys, values); m.order == keys && m.Valid()
    decreases |keys|
  {
    if keys != [] {
      var n := |keys| - 1;
      LinesUp(keys[..n], values[..n]);
      assert keys == keys[..n] + [keys[n]];
      var m := SetAll(Empty<K, V>(), keys[..n], values[..n]);
      assert keys[n] !in keys[..n];
      SetKeepsValid(m, keys[n], values[n]);
    }
  }

  /** First in, first out: the key that came first is the one that goes, and the others keep their values. */
  lemma FirstInFirstOut<K, V>(keys: seq<K>, values: seq<V>)
    requires |keys| == |values| && Distinct(keys) && keys != []
    ensures var m := SetAll(Empty<K, V>(), keys, values);
            m.order == keys && m.DeleteOldest().entries == m.entries - {keys[0]}
  {
    LinesUp(keys, values);
  }
}
