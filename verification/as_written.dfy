/**
  The allocator of `src/index.ts` exactly as written. `#getFree` pops the
  oldest free slot but leaves that slot's `next` link pointing at the next
  free slot; `#getHeadIndex` then makes the slot the list head without
  clearing it. The rest of the model uses the corrected `GetFree` of module
  SieveCache; this module keeps the source's version and exhibits two
  capacity-2 call sequences on which it goes wrong.
*/
module SieveAsWritten {
  import opened Wrappers
  import KeyIndex
  import opened SieveCache

  /** `#getFree` as the source writes it: a recycled slot keeps its stale `next`. */
  function GetFreeAsWritten(l: Links): (r: (Links, nat))
    requires LinksOk(l)
    ensures LinksOk(r.0) && r.0.maxSize == l.maxSize && r.1 <= l.maxSize
    ensures l.freeIndex <= l.maxSize ==> GetFree(l) == r
    ensures l.freeIndex > l.maxSize ==> GetFree(l) == (r.0.(next := r.0.next[r.1 := 0]), r.1)
  {
    if l.freeIndex <= l.maxSize then
      (l.(freeIndex := l.freeIndex + 1), l.freeIndex)
    else
      var i := l.freeTail;
      var l' := l.(freeTail := l.next[i]);
      var l'' := if l'.freeTail == 0 then l'.(freeHead := 0) else l';
      (l'', i)
  }

  /** `#getHeadIndex` over the as-written allocator. */
  function GetHeadIndexAsWritten(l: Links): (r: (Links, nat))
    requires LinksOk(l)
    ensures LinksOk(r.0) && r.0.maxSize == l.maxSize && r.1 <= l.maxSize
    ensures l.freeIndex <= l.maxSize ==> r == GetHeadIndex(l)
  {
    var (l', i) := GetFreeAsWritten(l);
    (LinkAtHead(l', i), i)
  }

  /** `set` over the as-written allocator; it differs from `Set` only in the links of a recycled slot. */
  function SetAsWritten<K, V>(c: Cache<K, V>, k: K, v: V): (r: Cache<K, V>)
    requires WellFormed(c)
    ensures WellFormed(r) && Capacity(r) == Capacity(c)
    ensures Has(r, k)
    ensures k in c.index.slots ==> r == Set(c, k, v)
  {
    match KeyIndex.Get(c.index, k)
    case Some(i) => Overwrite(c, i, v)
    case None =>
      var room := MakeRoom(c);
      var (l, i) := GetHeadIndexAsWritten(room.links);
      Store(room.(links := l), i, k, v)
  }

  // ---------------------------------------------------------------------------
  // Two call sequences on a cache of capacity 2 with `char` keys and `int`
  // values. Each state is spelled out; `T0` is the constructed cache.

  /** A capacity-2 cache that has never been read, so every visited bit is clear. */
  function Snapshot(l: Links, keys: seq<Option<char>>, values: seq<Option<int>>, order: seq<char>,
                    slots: map<char, nat>): Cache<char, int> {
    Cache(l, keys, values, [false, false, false], KeyIndex.KeyIndex(order, slots), VisitedSkip)
  }

  function T0(): Cache<char, int> { Empty(2, VisitedSkip) }
  function T1(): Cache<char, int> {
    Snapshot(Links(2, 1, 1, 0, 0, 2, [0, 0, 0], [0, 0, 0], 0), [None, Some('a'), None], [None, Some(1), None],
             ['a'], map['a' := 1])
  }
  function T2(): Cache<char, int> {
    Snapshot(Links(2, 2, 1, 0, 0, 3, [0, 2, 0], [0, 0, 1], 0), [None, Some('a'), Some('b')], [None, Some(1), Some(2)],
             ['a', 'b'], map['a' := 1, 'b' := 2])
  }
  function T3(): Cache<char, int> {
    Snapshot(Links(2, 2, 2, 1, 1, 3, [0, 0, 0], [0, 0, 0], 0), [None, Some('a'), Some('b')], [None, None, Some(2)],
             ['b'], map['b' := 2])
  }
  /** Both slots are free; slot 1, the oldest, still links to slot 2. */
  function T4(): Cache<char, int> {
    Snapshot(Links(2, 0, 0, 2, 1, 3, [0, 2, 0], [0, 0, 0], 0), [None, Some('a'), Some('b')], [None, None, None],
             [], map[])
  }
  /** Slot 1 is recycled as the only active slot but keeps `next` 2. */
  function T5(): Cache<char, int> {
    Snapshot(Links(2, 1, 1, 2, 2, 3, [0, 2, 0], [0, 0, 0], 0), [None, Some('c'), Some('b')], [None, Some(3), None],
             ['c'], map['c' := 1])
  }
  /** Empty, yet `head` is 1 and `tail` is 2. */
  function T6(): Cache<char, int> {
    Snapshot(Links(2, 1, 2, 1, 2, 3, [0, 0, 1], [0, 0, 0], 0), [None, Some('c'), Some('b')], [None, None, None],
             [], map[])
  }
  function T7(): Cache<char, int> {
    Snapshot(Links(2, 2, 2, 1, 1, 3, [0, 2, 1], [0, 0, 1], 0), [None, Some('c'), Some('d')], [None, None, Some(4)],
             ['d'], map['d' := 2])
  }
  /** The free list's oldest end now names slot 2, which holds `d`. */
  function T8(): Cache<char, int> {
    Snapshot(Links(2, 1, 2, 1, 2, 3, [0, 2, 1], [0, 2, 1], 0), [None, Some('e'), Some('d')], [None, Some(5), Some(4)],
             ['d', 'e'], map['d' := 2, 'e' := 1])
  }
  function T9(): Cache<char, int> {
    Snapshot(Links(2, 1, 2, 1, 2, 3, [0, 1, 2], [0, 0, 2], 0), [None, Some('e'), Some('d')], [None, None, Some(4)],
             ['d'], map['d' := 2])
  }
  /** `d` and `g` share slot 2. */
  function T10(): Cache<char, int> {
    Snapshot(Links(2, 2, 2, 1, 2, 3, [0, 2, 2], [0, 0, 1], 0), [None, Some('e'), Some('g')], [None, None, Some(6)],
             ['d', 'g'], map['d' := 2, 'g' := 2])
  }

  lemma Formed7() ensures WellFormed(T7()) {}
  lemma Formed9() ensures WellFormed(T9()) {}

  /** A new key with room to spare: `set` stores it in whatever slot the allocator returns. */
  lemma InsertStep<K, V>(c: Cache<K, V>, k: K, v: V, l: Links, i: nat)
    requires WellFormed(c) && k !in c.index.slots && |c.index.slots| < Capacity(c)
    requires GetHeadIndexAsWritten(c.links) == (l, i)
    ensures SetAsWritten(c, k, v) == Store(c.(links := l), i, k, v)
  {
  }

  lemma Step1() ensures SetAsWritten(T0(), 'a', 1) == T1() {}
  lemma Step2() ensures SetAsWritten(T1(), 'b', 2) == T2() {}
  lemma Step3() ensures Delete(T2(), 'a').0 == T3() {}
  lemma Step4() ensures Delete(T3(), 'b').0 == T4() {}
  lemma Step5() ensures SetAsWritten(T4(), 'c', 3) == T5() {}
  lemma Step6() ensures Delete(T5(), 'c').0 == T6() {}
  lemma Step7() ensures SetAsWritten(T6(), 'd', 4) == T7() {}
  lemma Step8() ensures SetAsWritten(T7(), 'e', 5) == T8() {
    Formed7();
    Alloc8();
    InsertStep(T7(), 'e', 5, T8().links, 1);
    assert [None, None, Some(4)][1 := Some(5)] == [None, Some(5), Some(4)];
    assert [None, Some('c'), Some('d')][1 := Some('e')] == [None, Some('e'), Some('d')];
    assert [false, false, false][1 := false] == [false, false, false];
    assert KeyIndex.Put(T7().index, 'e', 1) == T8().index;
  }
  lemma Alloc8() ensures LinksOk(T7().links) && GetHeadIndexAsWritten(T7().links) == (T8().links, 1) {
    assert [0, 2, 1][2 := 1] == [0, 2, 1];
    assert [0, 0, 1][1 := 2] == [0, 2, 1];
  }
  lemma Step9() ensures Delete(T8(), 'e').0 == T9() {}
  lemma Step10() ensures SetAsWritten(T9(), 'g', 6) == T10() {
    Formed9();
    Alloc10();
    InsertStep(T9(), 'g', 6, T10().links, 2);
    assert [None, None, Some(4)][2 := Some(6)] == [None, None, Some(6)];
    assert [None, Some('e'), Some('d')][2 := Some('g')] == [None, Some('e'), Some('g')];
    assert [false, false, false][2 := false] == [false, false, false];
    assert KeyIndex.Put(T9().index, 'g', 2) == T10().index;
  }
  lemma Alloc10() ensures LinksOk(T9().links) && GetHeadIndexAsWritten(T9().links) == (T10().links, 2) {
    assert [0, 1, 2][1 := 2] == [0, 2, 2];
    assert [0, 0, 2][2 := 1] == [0, 0, 1];
  }

  /**
    Capacity 2: set a, set b, delete a, delete b, set c, delete c. The
    cache is empty, yet the list still has a head and a tail, because slot
    1 came back from the free list still linked to slot 2.
  */
  lemma EmptiedCacheKeepsHead()
    ensures var c0: Cache<char, int> := Empty(2, VisitedSkip);
      var c1 := SetAsWritten(c0, 'a', 1);
      var c2 := SetAsWritten(c1, 'b', 2);
      var c3 := Delete(c2, 'a').0;
      var c4 := Delete(c3, 'b').0;
      var c5 := SetAsWritten(c4, 'c', 3);
      var c6 := Delete(c5, 'c').0;
      && c6 == T6() && Size(c6) == 0 && c6.links.head == 1 && c6.links.tail == 2
  {
    Step1(); Step2(); Step3(); Step4(); Step5(); Step6();
  }

  /**
    The same cache, continued: set d, set e, delete e, set g. Key `d` was
    never overwritten or deleted, yet reading it returns `g`'s value, because
    the stale links put the free list's oldest end on `d`'s active slot and
    `set` handed that slot to `g`.
  */
  lemma SharedSlot()
    ensures WellFormed(T6())
    ensures var c7 := SetAsWritten(T6(), 'd', 4);
      var c8 := SetAsWritten(c7, 'e', 5);
      var c9 := Delete(c8, 'e').0;
      var c10 := SetAsWritten(c9, 'g', 6);
      && 'd' in c10.index.slots && 'g' in c10.index.slots
      && c10.index.slots['d'] == c10.index.slots['g']
      && Get(c10, 'd').1 == Some(6)
  {
    Step6();
    Step7(); Step8(); Step9(); Step10();
  }
}

/**
  Where the allocator defect cannot show. With at most one slot on the free
  list, the slot `#getFree` pops is the list's only entry, so its `next` is
  already 0 and the source's `set` is the corrected one. A full cache is such
  a state, so the eviction results hold of the program as written; the
  defect needs two or more free slots.
*/
module SieveAsWrittenAgrees {
  import opened Seqs
  import opened SieveCache
  import opened SieveLayout
  import opened SieveEviction
  import opened SieveInvariant
  import opened SieveAsWritten

  /** With at most one free slot, the source's `#getHeadIndex` is the corrected one. */
  lemma GetHeadIndexAgrees(l: Links, a: seq<nat>, f: seq<nat>)
    requires Linked(l, a, f) && |f| <= 1 && |a| < l.maxSize
    ensures GetFreeAsWritten(l) == GetFree(l)
    ensures GetHeadIndexAsWritten(l) == GetHeadIndex(l)
  {
    if l.freeIndex > l.maxSize {
      GetFreePop(l, a, f);
      assert l.next[l.freeTail] == 0;
      assert l.next[l.freeTail := 0] == l.next;
    }
  }

  /**
    On a valid cache with at most one free slot, `set` as written is `set`
    as corrected, so every property of `Set` holds of the source there.
  */
  lemma SetAsWrittenAgrees<K, V>(c: Cache<K, V>, k: K, v: V)
    requires Valid(c) && |FreeView(c)| <= 1
    ensures SetAsWritten(c, k, v) == Set(c, k, v)
  {
    var a, f := ActiveView(c), FreeView(c);
    if k !in c.index.slots {
      assert |c.index.slots| == |a|;
      if |a| == c.links.maxSize {
        FullNoFree(c, a, f);
        EvictLayout(c, a, f);
        var victim := EvictVictim(c, a);
        var p := IndexOf(a, victim);
        SetFullUnfold(c, k, v);
        GetHeadIndexAgrees(Evict(c).links, RemoveAt(a, p), f + [victim]);
      } else {
        GetHeadIndexAgrees(c.links, a, f);
      }
    }
  }

  /**
    A full cache has no free slot, so eviction leaves exactly one and the
    source's `set` evicts and reuses exactly as the corrected one does: the
    SIEVE results about a full `Set` hold of the program as written.
  */
  lemma FullSetAsWritten<K, V>(c: Cache<K, V>, k: K, v: V)
    requires Valid(c) && Size(c) == Capacity(c)
    ensures SetAsWritten(c, k, v) == Set(c, k, v)
  {
    FullNoFree(c, ActiveView(c), FreeView(c));
    SetAsWrittenAgrees(c, k, v);
  }
}
