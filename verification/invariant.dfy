/**
  The cache invariant `Valid` holds after construction and is kept by every
  public operation, and the lists read back from the arrays change exactly
  as the SIEVE design says: a new key becomes the newest active entry, an
  evicted or deleted slot moves to the free list, a full cache recycles the
  victim's slot for the new key.
*/
module SieveInvariant {
  import opened Wrappers
  import opened Seqs
  import KeyIndex
  import opened SieveCache
  import opened SieveLayout
  import opened SieveEviction

  // ---------------------------------------------------------------------------
  // The operations on a laid-out cache

  /** `get` changes at most one visited bit, so the layout stays. */
  lemma GetLayout<K, V>(c: Cache<K, V>, a: seq<nat>, f: seq<nat>, k: K)
    requires Layout(c, a, f)
    ensures Layout(Get(c, k).0, a, f)
  {
  }

  /** Updating the value of an active slot keeps the layout. */
  lemma OverwriteLayout<K, V>(c: Cache<K, V>, a: seq<nat>, f: seq<nat>, i: nat, v: V)
    requires Layout(c, a, f) && i in a
    ensures Layout(Overwrite(c, i, v), a, f)
  {
    var r := Overwrite(c, i, v);
    assert r.links == c.links && r.keys == c.keys && r.index == c.index;
    assert r.values == c.values[i := Some(v)];
    IndexedUpdate(c.keys, c.values, c.index.slots, a, i, v);
  }

  /** Replacing the value of an active slot keeps the index matched. */
  lemma IndexedUpdate<K, V>(keys: seq<Option<K>>, values: seq<Option<V>>, slots: map<K, nat>, a: seq<nat>,
                            i: nat, v: V)
    requires InRange(a, 0, |keys|) && |values| == |keys| && i < |keys|
    requires Indexed(keys, values, slots, a)
    ensures Indexed(keys, values[i := Some(v)], slots, a)
  {
  }

  /**
    The new-key branch of `set` on a cache with room: the allocated slot
    becomes the newest active entry and holds the key, the value and a clear
    visited bit.
  */
  lemma InsertLayout<K, V>(c: Cache<K, V>, a: seq<nat>, f: seq<nat>, k: K, v: V)
    requires Layout(c, a, f) && k !in c.index.slots && |a| < c.links.maxSize
    ensures var (l, i) := GetHeadIndex(c.links);
      var r := Store(c.(links := l), i, k, v);
      && i == AllocatedId(c.links, f) && i !in a
      && Layout(r, a + [i], FreeAfterAlloc(c.links, f))
      && r.index == KeyIndex.Put(c.index, k, i)
      && r.values == c.values[i := Some(v)] && r.keys == c.keys[i := Some(k)]
      && r.visited == c.visited[i := false] && r.links.hand == c.links.hand
  {
    var (l, i) := GetHeadIndex(c.links);
    AllocateLinked(c.links, a, f);
    IndexedStore(c.keys, c.values, c.index.slots, a, i, k, v);
  }

  // ---------------------------------------------------------------------------
  // The public operations keep `Valid`

  /** A cache with no entries and no handed-out ids is laid out with two empty lists. */
  lemma EmptyValid<K, V>(maxSize: nat, policy: Policy)
    requires 1 <= maxSize < UINT32_MAX
    ensures var c: Cache<K, V> := Empty(maxSize, policy);
      Valid(c) && ActiveView(c) == [] && FreeView(c) == []
  {
    var c: Cache<K, V> := Empty(maxSize, policy);
    assert Layout(c, [], []);
    ViewsOfLayout(c, [], []);
  }

  /** The constructor, when it succeeds, yields a valid empty cache. */
  lemma NewValid<K, V>(size: int, policyCode: Option<int>)
    requires New<K, V>(size, policyCode).Success?
    ensures var c := New<K, V>(size, policyCode).value;
      Valid(c) && ActiveView(c) == [] && FreeView(c) == []
  {
    var p := if policyCode.Some? then policyCode.value else PolicyCode(VisitedSkip);
    EmptyValid<K, V>(size, PolicyFromCode(p).value);
  }

  /** `clear` yields a valid empty cache. */
  lemma ClearValid<K, V>(c: Cache<K, V>)
    requires WellFormed(c)
    ensures Valid(Clear(c)) && ActiveView(Clear(c)) == [] && FreeView(Clear(c)) == []
  {
    EmptyValid<K, V>(Capacity(c), c.policy);
  }

  /** A full cache has handed out every id and has nothing on the free list. */
  lemma FullNoFree<K, V>(c: Cache<K, V>, a: seq<nat>, f: seq<nat>)
    requires Layout(c, a, f) && |a| == c.links.maxSize
    ensures f == [] && c.links.freeIndex == c.links.maxSize + 1
  {
  }

  /** The new-key branch of `set` on a full cache: evict, then allocate and store. */
  lemma SetFullUnfold<K, V>(c: Cache<K, V>, k: K, v: V)
    requires WellFormed(c) && k !in c.index.slots && |c.index.slots| == Capacity(c)
    ensures MakeRoom(c) == Evict(c)
    ensures Set(c, k, v) == Store(Evict(c).(links := GetHeadIndex(Evict(c).links).0), GetHeadIndex(Evict(c).links).1, k, v)
  {
  }

  /** The new-key branch of `set` with room to spare: allocate and store. */
  lemma SetRoomUnfold<K, V>(c: Cache<K, V>, k: K, v: V)
    requires WellFormed(c) && k !in c.index.slots && |c.index.slots| < Capacity(c)
    ensures Set(c, k, v) == Store(c.(links := GetHeadIndex(c.links).0), GetHeadIndex(c.links).1, k, v)
  {
  }

  /** `set` on a cached key keeps the layout and every link. */
  lemma SetExistingLayout<K, V>(c: Cache<K, V>, a: seq<nat>, f: seq<nat>, k: K, v: V)
    requires Layout(c, a, f) && k in c.index.slots
    ensures Layout(Set(c, k, v), a, f) && Set(c, k, v).links == c.links
  {
    var i := c.index.slots[k];
    OverwriteLayout(c, a, f, i, v);
    assert Set(c, k, v) == Overwrite(c, i, v);
  }

  /** `set` on a new key with room to spare: the allocated slot becomes the newest active entry. */
  lemma SetNewLayout<K, V>(c: Cache<K, V>, a: seq<nat>, f: seq<nat>, k: K, v: V)
    requires Layout(c, a, f) && k !in c.index.slots && |a| < Capacity(c)
    ensures var r := Set(c, k, v);
      var i := AllocatedId(c.links, f);
      && i !in a && Layout(r, a + [i], FreeAfterAlloc(c.links, f))
      && r.index.slots[k] == i && !r.visited[i] && r.links.hand == c.links.hand
  {
    InsertLayout(c, a, f, k, v);
    SetRoomUnfold(c, k, v);
  }

  /**
    `set` on a new key when the cache is full: the SIEVE victim's slot
    leaves the active list and is handed straight back to hold the new key
    as the newest entry; the hand rests on the victim's successor.
  */
  lemma SetFullLayout<K, V>(c: Cache<K, V>, a: seq<nat>, f: seq<nat>, k: K, v: V)
    requires Layout(c, a, f) && k !in c.index.slots && |a| == Capacity(c)
    ensures ScanReady(c, a)
    ensures var r := Set(c, k, v);
      var victim := EvictVictim(c, a);
      var p := IndexOf(a, victim);
      && Layout(r, RemoveAt(a, p) + [victim], [])
      && r.index.slots[k] == victim && !r.visited[victim]
      && r.links.hand == (if p + 1 < |a| then a[p + 1] else 0)
  {
    FullNoFree(c, a, f);
    EvictLayout(c, a, f);
    var e := Evict(c);
    var victim := EvictVictim(c, a);
    var p := IndexOf(a, victim);
    SetFullUnfold(c, k, v);
    RecycleLayout(e, RemoveAt(a, p), f + [victim], k, v);
  }

  /** With one slot on the free list and no unused ids left, the allocator hands back that slot for the new key. */
  lemma RecycleLayout<K, V>(e: Cache<K, V>, a: seq<nat>, f: seq<nat>, k: K, v: V)
    requires Layout(e, a, f) && k !in e.index.slots
    requires |f| == 1 && |a| + 1 == e.links.maxSize && e.links.freeIndex == e.links.maxSize + 1
    ensures var (l, i) := GetHeadIndex(e.links);
      var r := Store(e.(links := l), i, k, v);
      && i == f[0] && Layout(r, a + [i], [])
      && r.index.slots[k] == i && !r.visited[i] && r.links.hand == e.links.hand
  {
    InsertLayout(e, a, f, k, v);
    assert AllocatedId(e.links, f) == f[0] && FreeAfterAlloc(e.links, f) == [];
  }

  /** `delete` of a cached key: its slot moves from the active list to the newest end of the free list. */
  lemma DeleteLayout<K, V>(c: Cache<K, V>, a: seq<nat>, f: seq<nat>, k: K)
    requires Layout(c, a, f) && k in c.index.slots
    ensures c.index.slots[k] in a
    ensures var i := c.index.slots[k];
      Layout(Delete(c, k).0, RemoveAt(a, IndexOf(a, i)), f + [i])
  {
    var i := c.index.slots[k];
    var p := IndexOf(a, i);
    RemoveNodeLayout(c, a, f, p);
    assert Delete(c, k).0 == RemoveNode(c, i);
  }

  /** `get` keeps `Valid` and both lists. */
  lemma GetValid<K, V>(c: Cache<K, V>, k: K)
    requires Valid(c)
    ensures var c' := Get(c, k).0;
      Valid(c') && ActiveView(c') == ActiveView(c) && FreeView(c') == FreeView(c)
  {
    GetLayout(c, ActiveView(c), FreeView(c), k);
    ViewsOfLayout(Get(c, k).0, ActiveView(c), FreeView(c));
  }

  /** `set` on a cached key keeps `Valid`, both lists and every link. */
  lemma SetExistingValid<K, V>(c: Cache<K, V>, k: K, v: V)
    requires Valid(c) && k in c.index.slots
    ensures var r := Set(c, k, v);
      Valid(r) && ActiveView(r) == ActiveView(c) && FreeView(r) == FreeView(c) && r.links == c.links
  {
    SetExistingLayout(c, ActiveView(c), FreeView(c), k, v);
    ViewsOfLayout(Set(c, k, v), ActiveView(c), FreeView(c));
  }

  /**
    `set` on a new key with room to spare keeps `Valid`; the allocated slot,
    which was not active, becomes the newest active entry.
  */
  lemma SetNewValid<K, V>(c: Cache<K, V>, k: K, v: V)
    requires Valid(c) && k !in c.index.slots && |c.index.slots| < Capacity(c)
    ensures var r := Set(c, k, v);
      var a := ActiveView(c);
      var i := AllocatedId(c.links, FreeView(c));
      && Valid(r) && i !in a && ActiveView(r) == a + [i]
      && FreeView(r) == FreeAfterAlloc(c.links, FreeView(c))
      && r.index.slots[k] == i && !r.visited[i] && r.links.hand == c.links.hand
  {
    var a, f := ActiveView(c), FreeView(c);
    SetNewLayout(c, a, f, k, v);
    ViewsOfLayout(Set(c, k, v), a + [AllocatedId(c.links, f)], FreeAfterAlloc(c.links, f));
  }

  /**
    `set` on a new key when the cache is full keeps `Valid`; the victim's
    slot is reused for the new key and the free list stays empty.
  */
  lemma SetFullValid<K, V>(c: Cache<K, V>, k: K, v: V)
    requires Valid(c) && k !in c.index.slots && |c.index.slots| == Capacity(c)
    ensures ScanReady(c, ActiveView(c))
    ensures var r := Set(c, k, v);
      var a := ActiveView(c);
      var victim := EvictVictim(c, a);
      var p := IndexOf(a, victim);
      && Valid(r) && ActiveView(r) == RemoveAt(a, p) + [victim] && FreeView(r) == []
      && r.index.slots[k] == victim && !r.visited[victim]
      && r.links.hand == (if p + 1 < |a| then a[p + 1] else 0)
  {
    var a, f := ActiveView(c), FreeView(c);
    SetFullLayout(c, a, f, k, v);
    var victim := EvictVictim(c, a);
    ViewsOfLayout(Set(c, k, v), RemoveAt(a, IndexOf(a, victim)) + [victim], []);
  }

  /** `set` keeps `Valid`, whichever branch it takes. */
  lemma SetValid<K, V>(c: Cache<K, V>, k: K, v: V)
    requires Valid(c)
    ensures Valid(Set(c, k, v))
  {
    if k in c.index.slots {
      SetExistingValid(c, k, v);
    } else if |c.index.slots| < Capacity(c) {
      SetNewValid(c, k, v);
    } else {
      assert |c.index.slots| == |ActiveView(c)| <= Capacity(c);
      SetFullValid(c, k, v);
    }
  }

  /** `delete` keeps `Valid`; a cached key's slot moves from the active list to the newest end of the free list. */
  lemma DeleteValid<K, V>(c: Cache<K, V>, k: K)
    requires Valid(c)
    ensures k in c.index.slots ==> c.index.slots[k] in ActiveView(c)
    ensures var (r, found) := Delete(c, k);
      && Valid(r)
      && found == (k in c.index.slots)
      && (found ==>
            var i := c.index.slots[k];
            && ActiveView(r) == RemoveAt(ActiveView(c), IndexOf(ActiveView(c), i))
            && FreeView(r) == FreeView(c) + [i])
      && (!found ==> r == c)
  {
    var a, f := ActiveView(c), FreeView(c);
    if k in c.index.slots {
      DeleteLayout(c, a, f, k);
      var i := c.index.slots[k];
      ViewsOfLayout(Delete(c, k).0, RemoveAt(a, IndexOf(a, i)), f + [i]);
    }
  }
}
