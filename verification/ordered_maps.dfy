/** A PHP array with string keys: a finite map that also remembers the order
    in which its keys were first written. Writing an existing key changes its
    value in place; writing a new key puts it at the end.
 */
module OrderedMaps {

  datatype OrderedMap<V> = OrderedMap(keys: seq<string>, values: map<string, V>) {

    /** The key order lists every key of the map exactly once. */
    ghost predicate Valid() {
      && (forall i, j :: 0 <= i < j < |keys| ==> keys[i] != keys[j])
      && (forall k :: k in values <==> k in keys)
    }
  }

  function Empty<V>(): (m: OrderedMap<V>)
    ensures m.Valid()
    ensures m.values == map[]
    ensures m.keys == []
  {
    OrderedMap([], map[])
  }

  /** `$array[$key] = $value`. */
  function Put<V>(m: OrderedMap<V>, key: string, value: V): (r: OrderedMap<V>)
    requires m.Valid()
    ensures r.Valid()
    ensures r.values == m.values[key := value]
    ensures key in m.values ==> r.keys == m.keys
    ensures key !in m.values ==> r.keys == m.keys + [key]
  {
    if key in m.values then OrderedMap(m.keys, m.values[key := value])
    else OrderedMap(m.keys + [key], m.values[key := value])
  }

  /** Appends `items` to the list stored under `key`, creating the key (even
      with no items) when it is new: `$array[$key][] = $item` and
      `array_push($array[$key], ...$items)`. */
  function Extend<T>(m: OrderedMap<seq<T>>, key: string, items: seq<T>): (r: OrderedMap<seq<T>>)
    requires m.Valid()
    ensures r.Valid()
    ensures key in r.values
    ensures r.values[key] == (if key in m.values then m.values[key] else []) + items
    ensures forall k :: k != key ==> (k in r.values <==> k in m.values)
    ensures forall k :: k != key && k in m.values ==> r.values[k] == m.values[k]
    ensures key in m.values ==> r.keys == m.keys
    ensures key !in m.values ==> r.keys == m.keys + [key]
  {
    Put(m, key, (if key in m.values then m.values[key] else []) + items)
  }
}
