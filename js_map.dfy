/**
 * The JavaScript `Map<string, V>` the core stores everything in: a ClassMap wraps one, and every
 * relationship bucket of an entity is one. What matters about it here is that iteration follows
 * the order in which keys were FIRST inserted: overwriting a key keeps its position, deleting it
 * forgets the position, and setting it again appends it at the end.
 */
module JsMap {
  import opened Outcomes
  import opened Sequences

  /** The keys in iteration order, and the value stored under each key. */
  datatype OrderedMap<V> = OrderedMap(keys: seq<string>, vals: map<string, V>) {

    /** Every key occurs once in `keys`, and `keys` and `vals` have the same keys. */
    ghost predicate Valid() {
      && Distinct(keys)
      && (forall i | 0 <= i < |keys| :: keys[i] in vals)
      && (forall k | k in vals :: k in keys)
    }

    /** `map.size` */
    function Size(): nat {
      |keys|
    }

    /** `map.has(k)` */
    predicate Has(k: string) {
      k in vals
    }

    /** `map.get(k)`: the stored value, or `undefined` (None). */
    function Get(k: string): (r: Option<V>)
      ensures r.Some? <==> Has(k)
      ensures r.Some? ==> r.value == vals[k]
    {
      if k in vals then Some(vals[k]) else None
    }

    /** `map.set(k, v)` */
    function Set(k: string, v: V): (m: OrderedMap<V>)
      requires Valid()
      ensures m.Valid()
      ensures m.Get(k) == Some(v)
      ensures forall k' :: k' != k ==> m.Get(k') == Get(k')
      ensures Has(k) ==> m.keys == keys
      ensures !Has(k) ==> m.keys == keys + [k]
      ensures m.Size() == if Has(k) then Size() else Size() + 1
    {
      if k in vals then OrderedMap(keys, vals[k := v])
      else OrderedMap(keys + [k], vals[k := v])
    }

    /** `map.delete(k)`; the boolean that `delete` returns is `Has(k)` beforehand. */
    function Delete(k: string): (m: OrderedMap<V>)
      requires Valid()
      ensures m.Valid()
      ensures !m.Has(k)
      ensures forall k' :: k' != k ==> m.Get(k') == Get(k')
      ensures m.Size() == if Has(k) then Size() - 1 else Size()
      ensures forall k' :: k' in m.keys <==> k' in keys && k' != k
      ensures Has(k) ==> m.keys == RemoveAt(keys, IndexOf(keys, k))
      ensures !Has(k) ==> m == this
    {
      if k in vals then
        DeleteValid(k);
        OrderedMap(RemoveAt(keys, IndexOf(keys, k)), vals - {k})
      else this
    }

    /** Dropping a present key from both halves keeps the two halves in agreement. */
    lemma DeleteValid(k: string)
      requires Valid() && k in vals
      ensures OrderedMap(RemoveAt(keys, IndexOf(keys, k)), vals - {k}).Valid()
      ensures forall k' :: k' in RemoveAt(keys, IndexOf(keys, k)) <==> k' in keys && k' != k
    {
      var i := IndexOf(keys, k);
      RemoveAtDistinct(keys, i);
      var r := RemoveAt(keys, i);
      forall j | 0 <= j < |r| ensures r[j] in vals - {k} {
        assert r[j] in r;
      }
    }

    /** The entries in the order `forEach` and `for ... of` visit them. */
    function Entries(): (r: seq<(string, V)>)
      requires Valid()
      ensures |r| == Size()
      ensures forall i :: 0 <= i < |r| ==> r[i].0 == keys[i] && Get(keys[i]) == Some(r[i].1)
    {
      seq(|keys|, i requires 0 <= i < |keys| => (keys[i], vals[keys[i]]))
    }

    /** The first entry in iteration order, which `const [[k, v]] = map` destructures. */
    function First(): (r: Option<(string, V)>)
      requires Valid()
      ensures r.None? <==> Size() == 0
      ensures r.Some? ==> r.value == Entries()[0]
    {
      if |keys| == 0 then None else Some((keys[0], vals[keys[0]]))
    }
  }

  /** `new Map()`, and what `map.clear()` leaves. */
  function Empty<V>(): (m: OrderedMap<V>)
    ensures m.Valid() && m.Size() == 0
    ensures forall k :: !m.Has(k)
  {
    OrderedMap([], map[])
  }

  /** `size` counts the keys stored, each once. */
  lemma SizeCountsKeys<V>(m: OrderedMap<V>)
    requires m.Valid()
    ensures m.Size() == |m.vals|
  {
    DistinctCard(m.keys);
    assert m.vals.Keys == set x | x in m.keys;
  }

  /** `forEach` visits every stored key, and each one exactly once. */
  lemma EntriesOnce<V>(m: OrderedMap<V>)
    requires m.Valid()
    ensures forall k :: m.Has(k) <==> exists i :: 0 <= i < |m.Entries()| && m.Entries()[i].0 == k
    ensures forall i, j :: 0 <= i < j < |m.Entries()| ==> m.Entries()[i].0 != m.Entries()[j].0
  {
    var e := m.Entries();
    forall k | m.Has(k) ensures exists i :: 0 <= i < |e| && e[i].0 == k {
      var i :| 0 <= i < |m.keys| && m.keys[i] == k;
      assert e[i].0 == k;
    }
  }

  /** Overwriting a key replaces its entry in place; a new key's entry goes last. */
  lemma SetEntries<V>(m: OrderedMap<V>, k: string, v: V)
    requires m.Valid()
    ensures m.Has(k) ==> m.Set(k, v).Entries() == m.Entries()[IndexOf(m.keys, k) := (k, v)]
    ensures !m.Has(k) ==> m.Set(k, v).Entries() == m.Entries() + [(k, v)]
  {
    var m' := m.Set(k, v);
    var e, e' := m.Entries(), m'.Entries();
    if m.Has(k) {
      var i := IndexOf(m.keys, k);
      var want := e[i := (k, v)];
      assert |e'| == |want|;
      forall j | 0 <= j < |e| ensures e'[j] == want[j] {
        assert e'[j].0 == m.keys[j] == want[j].0;
        if j != i {
          assert m.keys[j] != k;
          assert m'.Get(m.keys[j]) == m.Get(m.keys[j]);
        }
      }
    } else {
      var want := e + [(k, v)];
      assert |e'| == |want|;
      forall j | 0 <= j < |e'| ensures e'[j] == want[j] {
        if j < |e| {
          assert m.keys[j] != k;
          assert m'.Get(m.keys[j]) == m.Get(m.keys[j]);
        }
      }
    }
  }

  /** Deleting a key drops its entry and keeps every other entry in its place in the order. */
  lemma DeleteEntries<V>(m: OrderedMap<V>, k: string)
    requires m.Valid()
    ensures m.Has(k) ==> m.Delete(k).Entries() == RemoveAt(m.Entries(), IndexOf(m.keys, k))
    ensures !m.Has(k) ==> m.Delete(k).Entries() == m.Entries()
  {
    if m.Has(k) {
      var e', want := m.Delete(k).Entries(), RemoveAt(m.Entries(), IndexOf(m.keys, k));
      forall j | 0 <= j < |e'| ensures e'[j] == want[j] {
        DeleteEntryAt(m, k, j);
      }
    }
  }

  /** One position of the entries after a delete. */
  lemma DeleteEntryAt<V>(m: OrderedMap<V>, k: string, j: nat)
    requires m.Valid() && m.Has(k) && j < m.Size() - 1
    ensures m.Delete(k).Entries()[j] == RemoveAt(m.Entries(), IndexOf(m.keys, k))[j]
  {
    var m', i := m.Delete(k), IndexOf(m.keys, k);
    assert m'.keys == RemoveAt(m.keys, i) && m'.vals == m.vals - {k};
    var j' := if j < i then j else j + 1;
    var key := m.keys[j'];
    assert m'.keys[j] == key && key != k;
  }

  /** A deleted key and then set again is iterated last, whatever its old position. */
  lemma DeleteThenSetMovesLast<V>(m: OrderedMap<V>, k: string, v: V)
    requires m.Valid() && m.Has(k)
    ensures m.Delete(k).Set(k, v).keys == m.Delete(k).keys + [k]
    ensures |m.Delete(k).Set(k, v).keys| == |m.keys|
  {
  }

  /** Setting the same key to the same value twice is setting it once. */
  lemma SetAgain<V>(m: OrderedMap<V>, k: string, v: V)
    requires m.Valid()
    ensures m.Set(k, v).Set(k, v) == m.Set(k, v)
  {
  }

  /** Deleting a key twice is deleting it once. */
  lemma DeleteAgain<V>(m: OrderedMap<V>, k: string)
    requires m.Valid()
    ensures m.Delete(k).Delete(k) == m.Delete(k)
  {
  }

  /** Setting a new key and deleting it again gives back the map. */
  lemma SetThenDelete<V>(m: OrderedMap<V>, k: string, v: V)
    requires m.Valid() && !m.Has(k)
    ensures m.Set(k, v).Delete(k) == m
  {
    assert k !in m.keys;
    RemoveAppended(m.keys, k);
    UpdateThenRemove(m.vals, k, v);
  }

  /** Adding an absent key to a map and removing it again gives back the map. */
  lemma UpdateThenRemove<V>(vals: map<string, V>, k: string, v: V)
    requires k !in vals
    ensures vals[k := v] - {k} == vals
  {
  }
}
