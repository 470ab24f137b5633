/** Python dictionaries: a key-to-value map that also remembers the order in
    which keys were first inserted, since ugit iterates dicts in that order. */
module OrderedMaps {

  import opened Wrappers
  import opened Sequences

  datatype OrderedMap<K(==), V> = OrderedMap(keys: seq<K>, items: map<K, V>)

  /** Keys are listed once each, and exactly the keys of `items` are listed. */
  ghost predicate Valid<K(!new), V>(d: OrderedMap<K, V>) {
    && Distinct(d.keys)
    && (forall k | k in d.items :: k in d.keys)
    && (forall i | 0 <= i < |d.keys| :: d.keys[i] in d.items)
  }

  function Empty<K(==,!new), V>(): (d: OrderedMap<K, V>)
    ensures Valid(d) && d.items == map[]
  {
    OrderedMap([], map[])
  }

  /** `d.get(k)`: the value at `k`, or `None` when `k` is absent. */
  function Get<K(==,!new), V>(d: OrderedMap<K, V>, k: K): Option<V>
  {
    if k in d.items then Some(d.items[k]) else None
  }

  /** `d[k] = v`: a new key goes to the end, an existing key keeps its place. */
  function Put<K(==,!new), V>(d: OrderedMap<K, V>, k: K, v: V): (r: OrderedMap<K, V>)
    requires Valid(d)
    ensures Valid(r)
    ensures r.items == d.items[k := v]
    ensures r.keys == if k in d.items then d.keys else d.keys + [k]
  {
    if k in d.items then OrderedMap(d.keys, d.items[k := v])
    else OrderedMap(d.keys + [k], d.items[k := v])
  }

  /** Puts `m[k]` for each `k` of `ks`, in order. */
  function PutAll<K(==,!new), V>(d: OrderedMap<K, V>, ks: seq<K>, m: map<K, V>): (r: OrderedMap<K, V>)
    requires Valid(d)
    requires forall i :: 0 <= i < |ks| ==> ks[i] in m
    ensures Valid(r)
    ensures forall k :: k in r.items <==> k in d.items || k in ks
    ensures forall k | k in r.items :: r.items[k] == if k in ks then m[k] else d.items[k]
    ensures d.keys <= r.keys
    decreases |ks|
  {
    if ks == [] then d
    else
      var d' := Put(d, ks[0], m[ks[0]]);
      var r := PutAll(d', ks[1..], m);
      PutAllFirst(d, d', ks, m, r);
      r
  }

  /** Putting the first key, then the rest, puts them all. */
  lemma PutAllFirst<K(!new), V>(d: OrderedMap<K, V>, d': OrderedMap<K, V>, ks: seq<K>, m: map<K, V>,
                                r: OrderedMap<K, V>)
    requires forall i :: 0 <= i < |ks| ==> ks[i] in m
    requires ks != [] && d'.items == d.items[ks[0] := m[ks[0]]]
    requires forall k :: k in r.items <==> k in d'.items || k in ks[1..]
    requires forall k | k in r.items :: r.items[k] == if k in ks[1..] then m[k] else d'.items[k]
    ensures forall k :: k in r.items <==> k in d.items || k in ks
    ensures forall k | k in r.items :: r.items[k] == if k in ks then m[k] else d.items[k]
  {
    assert forall k :: k in ks <==> k == ks[0] || k in ks[1..];
  }

  /** `d.update(e)`: every entry of `e` overrides or extends `d`. */
  function Update<K(==,!new), V>(d: OrderedMap<K, V>, e: OrderedMap<K, V>): (r: OrderedMap<K, V>)
    requires Valid(d) && Valid(e)
    ensures Valid(r)
    ensures r.items == d.items + e.items
    ensures d.keys <= r.keys
  {
    var r := PutAll(d, e.keys, e.items);
    UpdateItems(d, e, r);
    r
  }

  /** Putting every entry of `e` gives the map union, `e` winning. */
  lemma UpdateItems<K(!new), V>(d: OrderedMap<K, V>, e: OrderedMap<K, V>, r: OrderedMap<K, V>)
    requires Valid(e)
    requires forall k :: k in r.items <==> k in d.items || k in e.keys
    requires forall k | k in r.items :: r.items[k] == if k in e.keys then e.items[k] else d.items[k]
    ensures r.items == d.items + e.items
  {
    var u := d.items + e.items;
    assert forall k :: k in e.keys <==> k in e.items;
    assert r.items.Keys == u.Keys;
    forall k | k in r.items ensures r.items[k] == u[k] {
    }
  }
}
