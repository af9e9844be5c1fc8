/**
  The key index of the cache: a map from key to slot id whose iteration order
  is the order in which keys were first added, the way an ECMAScript `Map`
  behaves. Re-setting a key keeps its position; deleting it drops it from the
  order; adding it again later appends it at the end.
*/
module KeyIndex {
  import opened Wrappers
  import opened Seqs

  /** `order` lists the keys oldest-first; `slots` gives each key's slot id. */
  datatype KeyIndex<K> = KeyIndex(order: seq<K>, slots: map<K, nat>)

  /** Every key occurs once in `order`, and `order` holds exactly the mapped keys. */
  ghost predicate Valid<K>(m: KeyIndex<K>) {
    && Distinct(m.order)
    && (forall i :: 0 <= i < |m.order| ==> m.order[i] in m.slots)
    && (forall k :: k in m.slots ==> k in m.order)
  }

  /** The index with no keys. */
  function Empty<K>(): (m: KeyIndex<K>)
    ensures Valid(m) && |m.slots| == 0 && m.order == []
  {
    KeyIndex([], map[])
  }

  /** The slot id stored for `k`, if any (`Map.prototype.get`). */
  function Get<K>(m: KeyIndex<K>, k: K): (r: Option<nat>)
    ensures r.Some? <==> k in m.slots
    ensures r.Some? ==> r.value == m.slots[k]
  {
    if k in m.slots then Some(m.slots[k]) else None
  }

  /** Stores `slot` under `k` (`Map.prototype.set`): an existing key keeps its place in the order, a new one goes last. */
  function Put<K>(m: KeyIndex<K>, k: K, slot: nat): (r: KeyIndex<K>)
    ensures Valid(m) ==> Valid(r)
    ensures r.slots == m.slots[k := slot]
    ensures k in m.slots ==> r.order == m.order && |r.slots| == |m.slots|
    ensures k !in m.slots ==> r.order == m.order + [k] && |r.slots| == |m.slots| + 1
  {
    if k in m.slots then
      KeyIndex(m.order, m.slots[k := slot])
    else
      assert Valid(m) ==> k !in m.order;
      KeyIndex(m.order + [k], m.slots[k := slot])
  }

  /** Removes `k` (`Map.prototype.delete`); the other keys keep their relative order. */
  function Remove<K>(m: KeyIndex<K>, k: K): (r: KeyIndex<K>)
    ensures Valid(m) ==> Valid(r)
    ensures r.slots == m.slots - {k}
    ensures Valid(m) ==> r.order == Erase(m.order, k)
    ensures k in m.slots ==> |r.slots| == |m.slots| - 1
    ensures k !in m.slots ==> r == m
  {
    if k in m.slots then
      RemoveValid(m, k);
      KeyIndex(Erase(m.order, k), m.slots - {k})
    else
      RemoveAbsent(m, k);
      m
  }

  /** Dropping a mapped key from both halves of a valid index leaves a valid index. */
  lemma RemoveValid<K>(m: KeyIndex<K>, k: K)
    requires k in m.slots
    ensures Valid(m) ==> Valid(KeyIndex(Erase(m.order, k), m.slots - {k}))
  {
    if Valid(m) {
      EraseDistinct(m.order, k);
    }
  }

  /** Removing an unmapped key from a valid index leaves its order as it is. */
  lemma RemoveAbsent<K>(m: KeyIndex<K>, k: K)
    requires k !in m.slots
    ensures Valid(m) ==> m.order == Erase(m.order, k)
  {
    if Valid(m) {
      EraseAbsent(m.order, k);
    }
  }

  /** In a valid index the order lists as many keys as there are mappings. */
  lemma ValidSize<K>(m: KeyIndex<K>)
    ensures Valid(m) ==> |m.order| == |m.slots|
  {
    if Valid(m) {
      DistinctCard(m.order);
      assert Elements(m.order) == m.slots.Keys;
    }
  }
}
