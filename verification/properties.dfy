/**
  What the cache promises its callers, stated over `Contents`, the key/value
  map the cache represents, and over the active list read back from the
  arrays. Every operation keeps `Valid`.
*/
module SieveProperties {
  import opened Wrappers
  import opened Seqs
  import KeyIndex
  import opened SieveCache
  import opened SieveLayout
  import opened SieveEviction
  import opened SieveInvariant

  // ---------------------------------------------------------------------------
  // The abstract map

  /** Every indexed slot holds a value. */
  ghost predicate Filled<K, V>(slots: map<K, nat>, values: seq<Option<V>>) {
    forall k :: k in slots ==> slots[k] < |values| && values[slots[k]].Some?
  }

  /** No two keys share a slot. */
  ghost predicate Injective<K>(slots: map<K, nat>) {
    forall k1, k2 :: k1 in slots && k2 in slots && k1 != k2 ==> slots[k1] != slots[k2]
  }

  /** The key/value map that an index and a value array represent together. */
  ghost function MapOf<K, V>(slots: map<K, nat>, values: seq<Option<V>>): (m: map<K, V>)
    requires Filled(slots, values)
    ensures m.Keys == slots.Keys
    ensures forall k :: k in m ==> values[slots[k]] == Some(m[k])
  {
    map k | k in slots :: values[slots[k]].value
  }

  /** The key/value map a cache represents. */
  ghost function Contents<K, V>(c: Cache<K, V>): (m: map<K, V>)
    requires Filled(c.index.slots, c.values)
    ensures m.Keys == c.index.slots.Keys
  {
    MapOf(c.index.slots, c.values)
  }

  /** In a laid-out cache every indexed slot holds a value, each in its own slot, and there are at most `maxSize` keys. */
  lemma LayoutStored<K, V>(c: Cache<K, V>, a: seq<nat>, f: seq<nat>)
    requires Layout(c, a, f)
    ensures Filled(c.index.slots, c.values) && Injective(c.index.slots)
    ensures forall k :: k in c.index.slots ==> c.index.slots[k] < |c.keys| && c.keys[c.index.slots[k]] == Some(k)
    ensures |c.index.slots| <= c.links.maxSize
  {
  }

  /** A valid cache represents a map. */
  lemma ValidFilled<K, V>(c: Cache<K, V>)
    requires Valid(c)
    ensures Filled(c.index.slots, c.values) && Injective(c.index.slots)
    ensures forall k :: k in c.index.slots ==> c.index.slots[k] < |c.keys| && c.keys[c.index.slots[k]] == Some(k)
    ensures Size(c) <= Capacity(c)
  {
    LayoutStored(c, ActiveView(c), FreeView(c));
  }

  /**
    What the map-level lemmas need of a cache: a well-formed shape, every
    indexed slot filled and owned by its key, and at most `maxSize` keys.
  */
  ghost predicate Stored<K, V>(c: Cache<K, V>) {
    && WellFormed(c)
    && Filled(c.index.slots, c.values) && Injective(c.index.slots)
    && (forall k :: k in c.index.slots ==> c.keys[c.index.slots[k]] == Some(k))
    && |c.index.slots| <= c.links.maxSize
  }

  /** A valid cache is stored. */
  lemma ValidStored<K, V>(c: Cache<K, V>)
    requires Valid(c)
    ensures Stored(c)
  {
    ValidFilled(c);
  }

  /** Filling a slot no key uses adds one binding. */
  lemma MapStore<K, V>(slots: map<K, nat>, values: seq<Option<V>>, k: K, i: nat, v: V)
    requires Filled(slots, values) && i < |values|
    requires forall k' :: k' in slots ==> slots[k'] != i
    ensures Filled(slots[k := i], values[i := Some(v)])
    ensures MapOf(slots[k := i], values[i := Some(v)]) == MapOf(slots, values)[k := v]
  {
  }

  /** Replacing the value in the slot of `k` rebinds `k` alone. */
  lemma MapUpdate<K, V>(slots: map<K, nat>, values: seq<Option<V>>, k: K, v: V)
    requires Filled(slots, values) && Injective(slots) && k in slots
    ensures Filled(slots, values[slots[k] := Some(v)])
    ensures MapOf(slots, values[slots[k] := Some(v)]) == MapOf(slots, values)[k := v]
  {
  }

  /** Dropping `k` and clearing its slot removes its binding alone. */
  lemma MapRemove<K, V>(slots: map<K, nat>, values: seq<Option<V>>, k: K)
    requires Filled(slots, values) && Injective(slots) && k in slots
    ensures Filled(slots - {k}, values[slots[k] := None])
    ensures MapOf(slots - {k}, values[slots[k] := None]) == MapOf(slots, values) - {k}
  {
  }

  // ---------------------------------------------------------------------------
  // What each operation does to the map

  /**
    `get`: a cached key yields its value and marks its slot visited; a
    missing key yields nothing and changes nothing. The map and the order
    are untouched either way.
  */
  lemma GetSpec<K, V>(c: Cache<K, V>, k: K)
    requires Stored(c)
    ensures Get(c, k).1 == if k in Contents(c) then Some(Contents(c)[k]) else None
    ensures Stored(Get(c, k).0) && Contents(Get(c, k).0) == Contents(c)
    ensures Keys(Get(c, k).0) == Keys(c)
    ensures k in Contents(c) ==> Get(c, k).0.visited == c.visited[c.index.slots[k] := true]
    ensures k !in Contents(c) ==> Get(c, k).0 == c
  {
    GetRead(c, k);
    GetMark(c, k);
  }

  /** The value `get` returns. */
  lemma GetRead<K, V>(c: Cache<K, V>, k: K)
    requires Stored(c)
    ensures Get(c, k).1 == if k in Contents(c) then Some(Contents(c)[k]) else None
  {
  }

  /** What `get` does to the cache: at most one visited bit changes. */
  lemma GetMark<K, V>(c: Cache<K, V>, k: K)
    requires Stored(c)
    ensures Get(c, k).0 == if k in c.index.slots then c.(visited := c.visited[c.index.slots[k] := true]) else c
    ensures Stored(Get(c, k).0) && Contents(Get(c, k).0) == Contents(c)
  {
  }

  /** The slot `set` allocates for a new key is not used by any cached key. */
  lemma AllocUnused<K, V>(c: Cache<K, V>)
    requires Valid(c) && |c.index.slots| < Capacity(c)
    ensures var i := GetHeadIndex(c.links).1;
      && i == AllocatedId(c.links, FreeView(c)) && 0 < i <= c.links.maxSize
      && (forall k :: k in c.index.slots ==> c.index.slots[k] != i)
  {
    var a, f := ActiveView(c), FreeView(c);
    AllocateLinked(c.links, a, f);
    var i := GetHeadIndex(c.links).1;
    forall k | k in c.index.slots ensures c.index.slots[k] != i {
      assert c.index.slots[k] in a;
    }
  }

  /**
    `set` on a cached key rebinds it to the new value; the order, the size
    and everything else stay, and the visited bit follows the policy:
    cleared, set, or left alone.
  */
  lemma SetExistingSpec<K, V>(c: Cache<K, V>, k: K, v: V)
    requires Stored(c) && k in c.index.slots
    ensures var r := Set(c, k, v);
      var i := c.index.slots[k];
      && Filled(r.index.slots, r.values)
      && Contents(r) == Contents(c)[k := v]
      && Keys(r) == Keys(c) && Size(r) == Size(c) && r.links == c.links
      && r.visited == (if c.policy == VisitedSkip then c.visited else c.visited[i := c.policy == VisitedTrue])
  {
    var i := c.index.slots[k];
    assert Set(c, k, v) == Overwrite(c, i, v);
    MapUpdate(c.index.slots, c.values, k, v);
  }

  /** `set` on a new key while there is room adds the binding and appends the key to the order. */
  lemma SetNewSpec<K, V>(c: Cache<K, V>, k: K, v: V)
    requires Valid(c) && k !in c.index.slots && Size(c) < Capacity(c)
    ensures Filled(c.index.slots, c.values)
    ensures var r := Set(c, k, v);
      && Filled(r.index.slots, r.values)
      && Contents(r) == Contents(c)[k := v]
      && Keys(r) == Keys(c) + [k] && Size(r) == Size(c) + 1
  {
    ValidFilled(c);
    AllocUnused(c);
    SetRoomUnfold(c, k, v);
    var i := GetHeadIndex(c.links).1;
    MapStore(c.index.slots, c.values, k, i, v);
  }

  /** `set` on a new key, full or not, links its slot in as the head, unvisited. */
  lemma SetNewHead<K, V>(c: Cache<K, V>, k: K, v: V)
    requires WellFormed(c) && k !in c.index.slots
    ensures var r := Set(c, k, v);
      && k in r.index.slots && r.index.slots[k] < |r.visited|
      && r.links.head == r.index.slots[k] && !r.visited[r.index.slots[k]]
  {
    if |c.index.slots| == Capacity(c) {
      SetFullUnfold(c, k, v);
    } else {
      assert MakeRoom(c) == c;
    }
  }

  /**
    What `set` relies on when a full cache evicts `victim`: the victim's key
    is cached in the victim's slot, making room means evicting, eviction
    drops that key and clears that slot, and the allocator hands the same
    slot back.
  */
  ghost predicate Evicts<K, V>(c: Cache<K, V>, victim: nat)
    requires WellFormed(c)
  {
    && victim < |c.keys| && c.keys[victim].Some?
    && c.keys[victim].value in c.index.slots && c.index.slots[c.keys[victim].value] == victim
    && MakeRoom(c) == Evict(c)
    && Evict(c).index == KeyIndex.Remove(c.index, c.keys[victim].value)
    && Evict(c).values == c.values[victim := None]
    && GetHeadIndex(Evict(c).links).1 == victim
  }

  /** A full valid cache evicts the SIEVE victim of its active list. */
  lemma FullSetSteps<K, V>(c: Cache<K, V>, k: K, v: V)
    requires Valid(c) && k !in c.index.slots && Size(c) == Capacity(c)
    ensures ScanReady(c, ActiveView(c))
    ensures Evicts(c, EvictVictim(c, ActiveView(c)))
  {
    var a, f := ActiveView(c), FreeView(c);
    LayoutScanReady(c, a, f);
    var victim := EvictVictim(c, a);
    var p := IndexOf(a, victim);
    assert c.keys[a[p]].Some? && c.keys[a[p]].value in c.index.slots;
    EvictUnfold(c, a);
    SetFullLayout(c, a, f, k, v);
    SetFullUnfold(c, k, v);
  }

  /**
    `set` on a new key when the cache is full evicts exactly one other
    cached key, the SIEVE victim's, and adds the new binding; the size stays
    at capacity and the new key goes to the end of the order.
  */
  lemma SetFullSpec<K, V>(c: Cache<K, V>, k: K, v: V)
    requires Valid(c) && k !in c.index.slots && Size(c) == Capacity(c)
    ensures Filled(c.index.slots, c.values) && ScanReady(c, ActiveView(c))
    ensures c.keys[EvictVictim(c, ActiveView(c))].Some?
    ensures var gone := c.keys[EvictVictim(c, ActiveView(c))].value;
      var r := Set(c, k, v);
      && gone in Contents(c) && gone != k
      && Filled(r.index.slots, r.values)
      && Contents(r) == (Contents(c) - {gone})[k := v]
      && Keys(r) == Erase(Keys(c), gone) + [k]
      && Size(r) == Size(c)
  {
    ValidStored(c);
    FullSetSteps(c, k, v);
    var victim := EvictVictim(c, ActiveView(c));
    SetFullMap(c, k, v, victim);
    SetFullOrder(c, k, v, victim);
  }

  /** The map half of a full `set`. */
  lemma SetFullMap<K, V>(c: Cache<K, V>, k: K, v: V, victim: nat)
    requires Stored(c) && k !in c.index.slots && Size(c) == Capacity(c) && Evicts(c, victim)
    ensures var gone := c.keys[victim].value;
      var r := Set(c, k, v);
      && Filled(r.index.slots, r.values)
      && Contents(r) == (Contents(c) - {gone})[k := v]
  {
    SetFullUnfold(c, k, v);
    var gone := c.keys[victim].value;
    MapRemove(c.index.slots, c.values, gone);
    var slots1 := c.index.slots - {gone};
    var values1 := c.values[victim := None];
    assert forall k' :: k' in slots1 ==> slots1[k'] != victim;
    MapStore(slots1, values1, k, victim, v);
    assert values1[victim := Some(v)] == Set(c, k, v).values;
  }

  /** The order half of a full `set`. */
  lemma SetFullOrder<K, V>(c: Cache<K, V>, k: K, v: V, victim: nat)
    requires Stored(c) && k !in c.index.slots && Size(c) == Capacity(c) && Evicts(c, victim)
    ensures var gone := c.keys[victim].value;
      var r := Set(c, k, v);
      && gone in c.index.slots && gone != k
      && Keys(r) == Erase(Keys(c), gone) + [k]
      && Size(r) == Size(c)
  {
    SetFullUnfold(c, k, v);
  }

  /** A full `set` keeps every cached key whose slot is not the victim's. */
  lemma SetFullKeeps<K, V>(c: Cache<K, V>, k: K, v: V, victim: nat, x: K)
    requires Stored(c) && k !in c.index.slots && Size(c) == Capacity(c) && Evicts(c, victim)
    requires x in c.index.slots && c.index.slots[x] != victim
    ensures Has(Set(c, k, v), x)
  {
    SetFullUnfold(c, k, v);
  }

  /**
    `set` in general: the key ends up bound to the value, every other key
    that stays keeps its value, no key appears from nowhere, and the size
    grows by one only when a new key finds room.
  */
  lemma SetSpec<K, V>(c: Cache<K, V>, k: K, v: V)
    requires Valid(c)
    ensures Filled(c.index.slots, c.values)
    ensures var r := Set(c, k, v);
      && Filled(r.index.slots, r.values)
      && k in Contents(r) && Contents(r)[k] == v
      && (forall k' :: k' in Contents(r) && k' != k ==> k' in Contents(c) && Contents(r)[k'] == Contents(c)[k'])
    ensures Size(Set(c, k, v)) == if k in Contents(c) || Size(c) == Capacity(c) then Size(c) else Size(c) + 1
    ensures Size(Set(c, k, v)) <= Capacity(Set(c, k, v)) == Capacity(c)
  {
    SetBinds(c, k, v);
    SetSize(c, k, v);
  }

  /** The binding half of `set`. */
  lemma SetBinds<K, V>(c: Cache<K, V>, k: K, v: V)
    requires Valid(c)
    ensures Filled(c.index.slots, c.values)
    ensures var r := Set(c, k, v);
      && Filled(r.index.slots, r.values)
      && k in Contents(r) && Contents(r)[k] == v
      && (forall k' :: k' in Contents(r) && k' != k ==> k' in Contents(c) && Contents(r)[k'] == Contents(c)[k'])
  {
    ValidStored(c);
    if k in c.index.slots {
      SetExistingBinds(c, k, v);
    } else if Size(c) < Capacity(c) {
      SetNewBinds(c, k, v);
    } else {
      SetFullBinds(c, k, v);
    }
  }

  lemma SetExistingBinds<K, V>(c: Cache<K, V>, k: K, v: V)
    requires Stored(c) && k in c.index.slots
    ensures var r := Set(c, k, v);
      && Filled(r.index.slots, r.values)
      && k in Contents(r) && Contents(r)[k] == v
      && (forall k' :: k' in Contents(r) && k' != k ==> k' in Contents(c) && Contents(r)[k'] == Contents(c)[k'])
  {
    SetExistingSpec(c, k, v);
    Rebind(Contents(c), Contents(c), k, v);
  }

  lemma SetNewBinds<K, V>(c: Cache<K, V>, k: K, v: V)
    requires Valid(c) && k !in c.index.slots && Size(c) < Capacity(c)
    requires Filled(c.index.slots, c.values)
    ensures var r := Set(c, k, v);
      && Filled(r.index.slots, r.values)
      && k in Contents(r) && Contents(r)[k] == v
      && (forall k' :: k' in Contents(r) && k' != k ==> k' in Contents(c) && Contents(r)[k'] == Contents(c)[k'])
  {
    SetNewSpec(c, k, v);
    Rebind(Contents(c), Contents(c), k, v);
  }

  lemma SetFullBinds<K, V>(c: Cache<K, V>, k: K, v: V)
    requires Valid(c) && k !in c.index.slots && Size(c) == Capacity(c)
    requires Filled(c.index.slots, c.values)
    ensures var r := Set(c, k, v);
      && Filled(r.index.slots, r.values)
      && k in Contents(r) && Contents(r)[k] == v
      && (forall k' :: k' in Contents(r) && k' != k ==> k' in Contents(c) && Contents(r)[k'] == Contents(c)[k'])
  {
    FullSetSteps(c, k, v);
    var victim := EvictVictim(c, ActiveView(c));
    ValidStored(c);
    SetFullMap(c, k, v, victim);
    Rebind(Contents(c), Contents(c) - {c.keys[victim].value}, k, v);
  }

  /** Binding `k` in a map that keeps some of `m`'s bindings leaves every other key's value as in `m`. */
  lemma Rebind<K, V>(m: map<K, V>, kept: map<K, V>, k: K, v: V)
    requires forall k' :: k' in kept ==> k' in m && kept[k'] == m[k']
    ensures k in kept[k := v] && kept[k := v][k] == v
    ensures forall k' :: k' in kept[k := v] && k' != k ==> k' in m && kept[k := v][k'] == m[k']
  {
  }

  /** The size half of `set`. */
  lemma SetSize<K, V>(c: Cache<K, V>, k: K, v: V)
    requires Valid(c)
    ensures Size(Set(c, k, v)) == if k in c.index.slots || Size(c) == Capacity(c) then Size(c) else Size(c) + 1
    ensures Size(Set(c, k, v)) <= Capacity(Set(c, k, v)) == Capacity(c)
  {
    ValidStored(c);
    if k in c.index.slots {
      SetExistingSpec(c, k, v);
    } else if Size(c) < Capacity(c) {
      SetNewSpec(c, k, v);
    } else {
      SetFullSpec(c, k, v);
    }
  }

  /** A value just written is what `get` reads back. */
  lemma GetAfterSet<K, V>(c: Cache<K, V>, k: K, v: V)
    requires Valid(c)
    ensures WellFormed(Set(c, k, v))
    ensures Get(Set(c, k, v), k).1 == Some(v)
  {
    SetBinds(c, k, v);
    SetValid(c, k, v);
    ValidStored(Set(c, k, v));
    GetRead(Set(c, k, v), k);
  }

  /**
    `delete`: reports whether the key was cached, and afterwards it is not;
    every other binding stays, and the key leaves the order.
  */
  lemma DeleteSpec<K, V>(c: Cache<K, V>, k: K)
    requires Stored(c)
    ensures Filled(Delete(c, k).0.index.slots, Delete(c, k).0.values)
    ensures Delete(c, k).1 == (k in Contents(c))
    ensures Contents(Delete(c, k).0) == Contents(c) - {k}
    ensures Keys(Delete(c, k).0) == Erase(Keys(c), k)
    ensures Size(Delete(c, k).0) == if k in Contents(c) then Size(c) - 1 else Size(c)
    ensures !Has(Delete(c, k).0, k)
  {
    DeleteMap(c, k);
    DeleteOrder(c, k);
    DeleteCount(c, k);
  }

  /** The map half of `delete`. */
  lemma DeleteMap<K, V>(c: Cache<K, V>, k: K)
    requires Stored(c)
    ensures Filled(Delete(c, k).0.index.slots, Delete(c, k).0.values)
    ensures Contents(Delete(c, k).0) == Contents(c) - {k}
  {
    if k in c.index.slots {
      DeleteFound(c, k);
    } else {
      assert Contents(c) - {k} == Contents(c);
    }
  }

  /** The order half of `delete`. */
  lemma DeleteOrder<K, V>(c: Cache<K, V>, k: K)
    requires Stored(c)
    ensures Keys(Delete(c, k).0) == Erase(Keys(c), k)
  {
    if k in c.index.slots {
      DeleteFound(c, k);
    } else {
      EraseAbsent(c.index.order, k);
    }
  }

  /** What `delete` reports, and the size and membership after it. */
  lemma DeleteCount<K, V>(c: Cache<K, V>, k: K)
    requires Stored(c)
    ensures Delete(c, k).1 == (k in c.index.slots)
    ensures Size(Delete(c, k).0) == if k in c.index.slots then Size(c) - 1 else Size(c)
    ensures !Has(Delete(c, k).0, k)
  {
    if k in c.index.slots {
      DeleteFound(c, k);
    }
  }

  /** Deleting a cached key removes its node, its index entry and its value. */
  lemma DeleteFound<K, V>(c: Cache<K, V>, k: K)
    requires Stored(c) && k in c.index.slots
    ensures var r := RemoveNode(c, c.index.slots[k]);
      && Delete(c, k) == (r, true)
      && Filled(r.index.slots, r.values)
      && MapOf(r.index.slots, r.values) == MapOf(c.index.slots, c.values) - {k}
      && r.index == KeyIndex.Remove(c.index, k)
  {
    MapRemove(c.index.slots, c.values, k);
  }

  /** `has` and `size` read the map: membership, and its number of bindings, which never exceeds the capacity. */
  lemma HasSizeSpec<K, V>(c: Cache<K, V>, k: K)
    requires Stored(c)
    ensures Has(c, k) == (k in Contents(c))
    ensures Size(c) == |Contents(c)| <= Capacity(c)
  {
    assert Contents(c).Keys == c.index.slots.Keys;
  }

  /**
    `keys`, `values` and `entries` list every cached key once, in the key
    index's insertion order, each with its value.
  */
  lemma IterationSpec<K, V>(c: Cache<K, V>)
    requires Stored(c)
    ensures Distinct(Keys(c)) && |Keys(c)| == Size(c)
    ensures forall k :: k in Keys(c) <==> k in Contents(c)
    ensures forall i :: 0 <= i < |Keys(c)| ==>
      && Values(c)[i] == Some(Contents(c)[Keys(c)[i]])
      && Entries(c)[i] == (Keys(c)[i], Some(Contents(c)[Keys(c)[i]]))
  {
    KeyIndex.ValidSize(c.index);
    IterationValues(c);
  }

  /** `values` and `entries` pair each listed key with its value. */
  lemma IterationValues<K, V>(c: Cache<K, V>)
    requires Stored(c)
    ensures forall i :: 0 <= i < |Keys(c)| ==>
      && Keys(c)[i] in Contents(c)
      && Values(c)[i] == Some(Contents(c)[Keys(c)[i]])
      && Entries(c)[i] == (Keys(c)[i], Some(Contents(c)[Keys(c)[i]]))
  {
  }

  /** An empty valid cache has an empty active list: no head, no tail, and the hand at rest. */
  lemma EmptyUnlinked<K, V>(c: Cache<K, V>)
    requires Valid(c) && Size(c) == 0
    ensures c.links.head == 0 && c.links.tail == 0 && c.links.hand == 0
  {
    assert |ActiveView(c)| == 0;
  }

  /** A new cache, and a cleared one, is empty. */
  lemma NewSpec<K, V>(size: int, policyCode: Option<int>)
    requires New<K, V>(size, policyCode).Success?
    ensures var c := New<K, V>(size, policyCode).value;
      && Valid(c) && Filled(c.index.slots, c.values)
      && Contents(c) == map[] && Keys(c) == [] && Size(c) == 0
  {
    NewValid<K, V>(size, policyCode);
  }

  /** `clear` empties the map and the order and keeps the capacity and the policy. */
  lemma ClearSpec<K, V>(c: Cache<K, V>)
    requires Valid(c)
    ensures var r := Clear(c);
      && Valid(r) && Filled(r.index.slots, r.values)
      && Contents(r) == map[] && Keys(r) == [] && Size(r) == 0
      && Capacity(r) == Capacity(c) && r.policy == c.policy
  {
    ClearValid(c);
  }

  /**
    SIEVE's second chance: when a full cache takes a new key, a cached key
    whose slot is marked visited survives as long as some cached key's slot
    is not.
  */
  lemma SecondChance<K, V>(c: Cache<K, V>, k: K, v: V, x: K, y: K)
    requires Valid(c) && k !in c.index.slots && Size(c) == Capacity(c)
    requires x in c.index.slots && c.visited[c.index.slots[x]]
    requires y in c.index.slots && !c.visited[c.index.slots[y]]
    ensures Has(Set(c, k, v), x)
  {
    ValidStored(c);
    FullSetSteps(c, k, v);
    var a := ActiveView(c);
    assert c.index.slots[y] in a;
    VictimUnvisited(c, a);
    SetFullKeeps(c, k, v, EvictVictim(c, a), x);
  }
}
