/**
  The shape invariant of the cache and the proofs that the engine's building
  blocks preserve it.

  `a` is the active list read from tail (oldest) to head (newest) and `f` the
  free list read from `freeTail` (oldest release) to `freeHead` (newest).
  `Layout(c, a, f)` says the arrays of `c` encode exactly these two lists;
  `ActiveView` and `FreeView` read them back by walking `next`, and `Valid`
  is the invariant with those read-back views.
*/
module SieveLayout {
  import opened Wrappers
  import opened Seqs
  import KeyIndex
  import opened SieveCache

  /** The ids met by following `next` from `from`, `n` of them. */
  function Walk(next: seq<nat>, from: nat, n: nat): (r: seq<nat>)
    requires from < |next|
    requires forall i :: 0 <= i < |next| ==> next[i] < |next|
    ensures |r| == n
    decreases n
  {
    if n == 0 then [] else [from] + Walk(next, next[from], n - 1)
  }

  /** The active list, tail first, as many ids as there are keys. */
  function ActiveView<K, V>(c: Cache<K, V>): seq<nat>
    requires WellFormed(c)
  {
    Walk(c.links.next, c.links.tail, |c.index.slots|)
  }

  /** How many handed-out ids are not active. */
  function FreeCount<K, V>(c: Cache<K, V>): nat {
    if |c.index.slots| < c.links.freeIndex then c.links.freeIndex - 1 - |c.index.slots| else 0
  }

  /** The free list, oldest release first. */
  function FreeView<K, V>(c: Cache<K, V>): seq<nat>
    requires WellFormed(c)
  {
    Walk(c.links.next, c.links.freeTail, FreeCount(c))
  }

  /** `a` is threaded tail-to-head through `next` and back through `previous`. */
  ghost predicate Chain(next: seq<nat>, previous: seq<nat>, head: nat, tail: nat, a: seq<nat>)
    requires InRange(a, 0, |next|) && |previous| == |next|
  {
    && (|a| == 0 ==> head == 0 && tail == 0)
    && (|a| > 0 ==> tail == a[0] && head == a[|a| - 1])
    && (|a| > 0 ==> previous[a[0]] == 0 && next[a[|a| - 1]] == 0)
    && (forall i :: 0 <= i < |a| - 1 ==> next[a[i]] == a[i + 1] && previous[a[i + 1]] == a[i])
  }

  /** `f` is threaded oldest-to-newest through `next`; free slots have no `previous`. */
  ghost predicate FreeChain(next: seq<nat>, previous: seq<nat>, freeHead: nat, freeTail: nat, f: seq<nat>)
    requires InRange(f, 0, |next|) && |previous| == |next|
  {
    && (|f| == 0 ==> freeHead == 0 && freeTail == 0)
    && (|f| > 0 ==> freeTail == f[0] && freeHead == f[|f| - 1] && next[f[|f| - 1]] == 0)
    && (forall i :: 0 <= i < |f| - 1 ==> next[f[i]] == f[i + 1])
    && (forall i :: 0 <= i < |f| ==> previous[f[i]] == 0)
  }

  /**
    The handed-out ids 1..freeIndex-1 split into the active list `a` and the
    free list `f`, each id once; ids not handed out yet carry no links.
  */
  ghost predicate Arena(l: Links, a: seq<nat>, f: seq<nat>)
    requires LinksOk(l)
  {
    && InRange(a, 1, l.freeIndex) && InRange(f, 1, l.freeIndex)
    && Distinct(a) && Distinct(f)
    && (forall i, j :: 0 <= i < |a| && 0 <= j < |f| ==> a[i] != f[j])
    && |a| + |f| == l.freeIndex - 1
    && (forall id :: l.freeIndex <= id <= l.maxSize ==> l.next[id] == 0 && l.previous[id] == 0)
  }

  /** The links encode active list `a` and free list `f`, and the hand rests on an active slot or on 0. */
  ghost predicate Linked(l: Links, a: seq<nat>, f: seq<nat>) {
    && LinksOk(l)
    && Arena(l, a, f)
    && Chain(l.next, l.previous, l.head, l.tail, a)
    && FreeChain(l.next, l.previous, l.freeHead, l.freeTail, f)
    && (l.hand == 0 || l.hand in a)
  }

  /** The key index maps exactly the keys stored in the active slots `a` to those slots. */
  ghost predicate Indexed<K, V>(keys: seq<Option<K>>, values: seq<Option<V>>, slots: map<K, nat>, a: seq<nat>)
    requires InRange(a, 0, |keys|) && |values| == |keys|
  {
    && |slots| == |a|
    && (forall k :: k in slots ==> slots[k] in a && slots[k] < |keys| && keys[slots[k]] == Some(k))
    && (forall i :: 0 <= i < |a| ==>
          && keys[a[i]].Some? && values[a[i]].Some?
          && keys[a[i]].value in slots
          && slots[keys[a[i]].value] == a[i])
  }

  /** The arrays of `c` encode active list `a` and free list `f`. */
  ghost predicate Layout<K, V>(c: Cache<K, V>, a: seq<nat>, f: seq<nat>) {
    && WellFormed(c)
    && Linked(c.links, a, f)
    && Indexed(c.keys, c.values, c.index.slots, a)
  }

  /** The cache invariant: the lists read back from the arrays are well laid out. */
  ghost predicate Valid<K, V>(c: Cache<K, V>) {
    WellFormed(c) && Layout(c, ActiveView(c), FreeView(c))
  }

  /** Following the links of a threaded sequence reads it back. */
  lemma {:induction false} WalkFollows(next: seq<nat>, s: seq<nat>, i: nat)
    requires forall j :: 0 <= j < |next| ==> next[j] < |next|
    requires InRange(s, 0, |next|)
    requires forall j :: 0 <= j < |s| - 1 ==> next[s[j]] == s[j + 1]
    requires i < |s|
    ensures Walk(next, s[i], |s| - i) == s[i..]
    decreases |s| - i
  {
    if i < |s| - 1 {
      WalkFollows(next, s, i + 1);
      assert s[i..] == [s[i]] + s[i + 1..];
    }
  }

  /** A layout is determined by the arrays: the views read back are `a` and `f`. */
  lemma ViewsOfLayout<K, V>(c: Cache<K, V>, a: seq<nat>, f: seq<nat>)
    requires Layout(c, a, f)
    ensures ActiveView(c) == a && FreeView(c) == f
    ensures Valid(c)
  {
    if |a| > 0 {
      WalkFollows(c.links.next, a, 0);
    }
    if |f| > 0 {
      WalkFollows(c.links.next, f, 0);
    }
  }

  // ---------------------------------------------------------------------------
  // Sequence-level facts about chains

  /** A chain only depends on the links of its own entries. */
  lemma ChainFrame(next: seq<nat>, previous: seq<nat>, head: nat, tail: nat, a: seq<nat>,
                   next': seq<nat>, previous': seq<nat>)
    requires InRange(a, 0, |next|) && |previous| == |next| && |next'| == |next| && |previous'| == |next|
    requires Chain(next, previous, head, tail, a)
    requires forall i :: 0 <= i < |a| ==> next'[a[i]] == next[a[i]] && previous'[a[i]] == previous[a[i]]
    ensures Chain(next', previous', head, tail, a)
  {
    forall i | 0 <= i < |a| - 1 ensures next'[a[i]] == a[i + 1] && previous'[a[i + 1]] == a[i] {
    }
  }

  /** A free chain only depends on the links of its own entries. */
  lemma FreeFrame(next: seq<nat>, previous: seq<nat>, freeHead: nat, freeTail: nat, f: seq<nat>,
                  next': seq<nat>, previous': seq<nat>)
    requires InRange(f, 0, |next|) && |previous| == |next| && |next'| == |next| && |previous'| == |next|
    requires FreeChain(next, previous, freeHead, freeTail, f)
    requires forall i :: 0 <= i < |f| ==> next'[f[i]] == next[f[i]] && previous'[f[i]] == previous[f[i]]
    ensures FreeChain(next', previous', freeHead, freeTail, f)
  {
    forall i | 0 <= i < |f| - 1 ensures next'[f[i]] == f[i + 1] {
    }
  }

  /** Taking entry `p` out of a chain: its neighbours are joined, every other link stays. */
  lemma ChainRemove(next: seq<nat>, previous: seq<nat>, head: nat, tail: nat, a: seq<nat>, p: nat,
                    next': seq<nat>, previous': seq<nat>, head': nat, tail': nat)
    requires InRange(a, 1, |next|) && |previous| == |next| && |next'| == |next| && |previous'| == |next|
    requires Distinct(a) && p < |a|
    requires Chain(next, previous, head, tail, a)
    requires forall j :: 0 <= j < |a| && j != p ==>
      next'[a[j]] == (if j + 1 == p then next[a[p]] else next[a[j]])
    requires forall j :: 0 <= j < |a| && j != p ==>
      previous'[a[j]] == (if j == p + 1 then previous[a[p]] else previous[a[j]])
    requires head' == (if next[a[p]] == 0 then previous[a[p]] else head)
    requires tail' == (if previous[a[p]] == 0 then next[a[p]] else tail)
    ensures Chain(next', previous', head', tail', RemoveAt(a, p))
  {
    var a' := RemoveAt(a, p);
    var n := |a|;
    assert next[a[p]] == (if p + 1 < n then a[p + 1] else 0);
    assert previous[a[p]] == (if p > 0 then a[p - 1] else 0);
    forall i | 0 <= i < |a'| - 1
      ensures next'[a'[i]] == a'[i + 1] && previous'[a'[i + 1]] == a'[i]
    {
      if i + 1 < p {
        assert a'[i] == a[i] && a'[i + 1] == a[i + 1];
      } else if i + 1 == p {
        assert a'[i] == a[i] && a'[i + 1] == a[i + 2];
      } else {
        assert a'[i] == a[i + 1] && a'[i + 1] == a[i + 2];
      }
    }
  }

  /** Appending an unlinked id at the head end of a chain (`#getHeadIndex`). */
  lemma ChainPush(next: seq<nat>, previous: seq<nat>, head: nat, tail: nat, a: seq<nat>, id: nat)
    requires InRange(a, 1, |next|) && |previous| == |next| && 0 < id < |next|
    requires Chain(next, previous, head, tail, a)
    requires id !in a && next[id] == 0 && previous[id] == 0
    ensures var next' := if head == 0 then next else next[head := id];
            var previous' := if head == 0 then previous else previous[id := head];
            var tail' := if head == 0 then id else tail;
            Chain(next', previous', id, tail', a + [id])
  {
    var next' := if head == 0 then next else next[head := id];
    var previous' := if head == 0 then previous else previous[id := head];
    var a' := a + [id];
    forall i | 0 <= i < |a'| - 1 ensures next'[a'[i]] == a'[i + 1] && previous'[a'[i + 1]] == a'[i] {
      assert a'[i] == a[i];
    }
    if |a| > 0 {
      assert a'[0] == a[0];
    }
  }

  /** Pushing an unlinked id at the newest end of a free chain (`#addToFree`). */
  lemma FreePush(next: seq<nat>, previous: seq<nat>, freeHead: nat, freeTail: nat, f: seq<nat>, id: nat)
    requires InRange(f, 1, |next|) && |previous| == |next| && 0 < id < |next|
    requires FreeChain(next, previous, freeHead, freeTail, f)
    requires id !in f && next[id] == 0 && previous[id] == 0
    ensures var next' := if freeHead == 0 then next else next[freeHead := id];
            var freeTail' := if freeHead == 0 then id else freeTail;
            FreeChain(next', previous, id, freeTail', f + [id])
  {
    var next' := if freeHead == 0 then next else next[freeHead := id];
    var f' := f + [id];
    forall i | 0 <= i < |f'| - 1 ensures next'[f'[i]] == f'[i + 1] {
      assert f'[i] == f[i];
    }
    forall i | 0 <= i < |f'| ensures previous[f'[i]] == 0 {
      if i < |f| {
        assert f'[i] == f[i];
      }
    }
  }

  /** Popping the oldest entry of a free chain and clearing its link (`GetFree`). */
  lemma FreePop(next: seq<nat>, previous: seq<nat>, freeHead: nat, freeTail: nat, f: seq<nat>)
    requires InRange(f, 1, |next|) && |previous| == |next| && |f| > 0
    requires Distinct(f)
    requires FreeChain(next, previous, freeHead, freeTail, f)
    ensures var freeTail' := next[f[0]];
            var freeHead' := if freeTail' == 0 then 0 else freeHead;
            FreeChain(next[f[0] := 0], previous, freeHead', freeTail', f[1..])
  {
    var f' := f[1..];
    var next' := next[f[0] := 0];
    forall i | 0 <= i < |f'| ensures next'[f'[i]] == next[f'[i]] {
      assert f'[i] == f[i + 1];
    }
    if |f| > 1 {
      assert f'[0] == f[1];
      assert next[f[0]] == f[1];
    }
  }

  // ---------------------------------------------------------------------------
  // Removing an active slot: `#removeNode`

  /** What `Unlink` does to each array entry and pointer, stated pointwise. */
  lemma UnlinkEffect(l: Links, id: nat)
    requires LinksOk(l) && id <= l.maxSize
    ensures var u := Unlink(l, id);
      var nextId := l.next[id];
      var prevId := l.previous[id];
      && u.maxSize == l.maxSize && u.freeIndex == l.freeIndex
      && u.freeHead == l.freeHead && u.freeTail == l.freeTail
      && u.head == (if nextId == 0 then prevId else l.head)
      && u.tail == (if prevId == 0 then nextId else l.tail)
      && u.hand == (if l.hand == id then nextId else l.hand)
      && (forall x :: 0 <= x <= l.maxSize ==>
            u.next[x] == (if x == id then 0
                          else if x == prevId && (nextId == 0 || prevId != 0) then nextId
                          else l.next[x]))
      && (forall x :: 0 <= x <= l.maxSize ==>
            u.previous[x] == (if x == id then 0
                              else if x == nextId && (prevId == 0 || nextId != 0) then prevId
                              else l.previous[x]))
  {
  }

  /** `a` is a duplicate-free chain of handed-out slots: what unlinking one of its entries relies on. */
  ghost predicate ActiveChain(l: Links, a: seq<nat>) {
    && LinksOk(l) && InRange(a, 1, |l.next|) && Distinct(a)
    && Chain(l.next, l.previous, l.head, l.tail, a)
  }

  /** Unlinking the active slot at position `p` takes that entry out of the active list. */
  lemma UnlinkActive(l: Links, a: seq<nat>, p: nat)
    requires ActiveChain(l, a) && p < |a|
    ensures var u := Unlink(l, a[p]);
      Chain(u.next, u.previous, u.head, u.tail, RemoveAt(a, p))
  {
    var id := a[p];
    var n := |a|;
    var u := Unlink(l, id);
    UnlinkEffect(l, id);
    var nextId := l.next[id];
    var prevId := l.previous[id];
    assert nextId == (if p + 1 < n then a[p + 1] else 0);
    assert prevId == (if p > 0 then a[p - 1] else 0);
    forall j | 0 <= j < n && j != p
      ensures u.next[a[j]] == (if j + 1 == p then nextId else l.next[a[j]])
      ensures u.previous[a[j]] == (if j == p + 1 then prevId else l.previous[a[j]])
    {
      assert a[j] != id && a[j] != 0;
    }
    ChainRemove(l.next, l.previous, l.head, l.tail, a, p, u.next, u.previous, u.head, u.tail);
  }

  /** Unlinking an active slot touches no free slot and no id that was never handed out. */
  lemma UnlinkFrame(l: Links, a: seq<nat>, f: seq<nat>, p: nat)
    requires Linked(l, a, f) && p < |a|
    ensures var u := Unlink(l, a[p]);
      && FreeChain(u.next, u.previous, u.freeHead, u.freeTail, f)
      && (forall id :: l.freeIndex <= id <= l.maxSize ==> u.next[id] == 0 && u.previous[id] == 0)
  {
    UnlinkNeighbours(l, a, p);
    UnlinkFree(l, a, f, p);
  }

  /** The neighbours of an active slot are active slots, or 0 at either end. */
  lemma UnlinkNeighbours(l: Links, a: seq<nat>, p: nat)
    requires ActiveChain(l, a) && p < |a|
    ensures l.next[a[p]] == (if p + 1 < |a| then a[p + 1] else 0)
    ensures l.previous[a[p]] == (if p > 0 then a[p - 1] else 0)
  {
  }

  /** The free slots keep their links when an active slot is unlinked. */
  lemma UnlinkFree(l: Links, a: seq<nat>, f: seq<nat>, p: nat)
    requires Linked(l, a, f) && p < |a|
    requires l.next[a[p]] == (if p + 1 < |a| then a[p + 1] else 0)
    requires l.previous[a[p]] == (if p > 0 then a[p - 1] else 0)
    ensures var u := Unlink(l, a[p]);
      && FreeChain(u.next, u.previous, u.freeHead, u.freeTail, f)
      && (forall id :: l.freeIndex <= id <= l.maxSize ==> u.next[id] == 0 && u.previous[id] == 0)
  {
    var id := a[p];
    var u := Unlink(l, id);
    UnlinkEffect(l, id);
    forall j | 0 <= j < |f| ensures u.next[f[j]] == l.next[f[j]] && u.previous[f[j]] == l.previous[f[j]] {
      assert f[j] != id && f[j] != 0;
    }
    FreeFrame(l.next, l.previous, l.freeHead, l.freeTail, f, u.next, u.previous);
  }

  /** Moving the active entry at position `p` to the newest end of the free list keeps the split. */
  lemma ArenaRelease(l: Links, a: seq<nat>, f: seq<nat>, p: nat, l': Links)
    requires LinksOk(l) && LinksOk(l') && l'.maxSize == l.maxSize && l'.freeIndex == l.freeIndex
    requires Arena(l, a, f) && p < |a|
    requires forall id :: l.freeIndex <= id <= l.maxSize ==> l'.next[id] == 0 && l'.previous[id] == 0
    ensures Arena(l', RemoveAt(a, p), f + [a[p]])
  {
    var a' := RemoveAt(a, p);
    var f' := f + [a[p]];
    RemoveAtDistinct(a, p);
    RemoveAtInRange(a, p, 1, l.freeIndex);
    assert a[p] !in f;
    AppendDistinct(f, a[p]);
    forall i, j | 0 <= i < |a'| && 0 <= j < |f'| ensures a'[i] != f'[j] {
      assert a'[i] in a;
      if j < |f| {
        assert f'[j] == f[j];
      }
    }
  }

  /** What `AddToFree` does, stated pointwise: the slot joins the newest end of the free list. */
  lemma AddToFreeEffect(u: Links, id: nat)
    requires LinksOk(u) && id <= u.maxSize
    ensures var r := AddToFree(u, id);
      && r.maxSize == u.maxSize && r.freeIndex == u.freeIndex
      && r.head == u.head && r.tail == u.tail && r.hand == u.hand
      && r.previous == u.previous
      && r.next == (if u.freeHead == 0 then u.next else u.next[u.freeHead := id])
      && r.freeHead == id && r.freeTail == (if u.freeHead == 0 then id else u.freeTail)
  {
  }

  /** After `#removeNode` the active chain is the old one without position `p`. */
  lemma ReleaseChain(l: Links, a: seq<nat>, f: seq<nat>, p: nat)
    requires Linked(l, a, f) && p < |a|
    ensures var r := AddToFree(Unlink(l, a[p]), a[p]);
      LinksOk(r) && Chain(r.next, r.previous, r.head, r.tail, RemoveAt(a, p))
  {
    var id := a[p];
    var a' := RemoveAt(a, p);
    var u := Unlink(l, id);
    UnlinkActive(l, a, p);
    UnlinkFrame(l, a, f, p);
    AddToFreeEffect(u, id);
    var r := AddToFree(u, id);
    assert u.freeHead == 0 || u.freeHead in f;
    RemoveAtDistinct(a, p);
    RemoveAtInRange(a, p, 1, l.freeIndex);
    forall j | 0 <= j < |a'| ensures r.next[a'[j]] == u.next[a'[j]] {
      assert a'[j] in a;
    }
    ChainFrame(u.next, u.previous, u.head, u.tail, a', r.next, r.previous);
  }

  /** After `#removeNode` the free chain has the released slot at its newest end. */
  lemma ReleaseFree(l: Links, a: seq<nat>, f: seq<nat>, p: nat)
    requires Linked(l, a, f) && p < |a|
    ensures var r := AddToFree(Unlink(l, a[p]), a[p]);
      LinksOk(r) && FreeChain(r.next, r.previous, r.freeHead, r.freeTail, f + [a[p]])
  {
    var id := a[p];
    var u := Unlink(l, id);
    UnlinkEffect(l, id);
    UnlinkFrame(l, a, f, p);
    AddToFreeEffect(u, id);
    assert id !in f;
    FreePush(u.next, u.previous, u.freeHead, u.freeTail, f, id);
  }

  /** After `#removeNode` the handed-out ids are still split between the two lists. */
  lemma ReleaseArena(l: Links, a: seq<nat>, f: seq<nat>, p: nat)
    requires Linked(l, a, f) && p < |a|
    ensures var r := AddToFree(Unlink(l, a[p]), a[p]);
      LinksOk(r) && Arena(r, RemoveAt(a, p), f + [a[p]]) && r.freeIndex == l.freeIndex
  {
    var id := a[p];
    var u := Unlink(l, id);
    UnlinkEffect(l, id);
    UnlinkFrame(l, a, f, p);
    AddToFreeEffect(u, id);
    var r := AddToFree(u, id);
    assert forall x :: l.freeIndex <= x <= l.maxSize ==> r.next[x] == u.next[x];
    ArenaRelease(l, a, f, p, r);
  }

  /** After `#removeNode` a hand that rested on the removed slot rests on its successor. */
  lemma ReleaseHand(l: Links, a: seq<nat>, f: seq<nat>, p: nat)
    requires Linked(l, a, f) && p < |a|
    ensures var r := AddToFree(Unlink(l, a[p]), a[p]);
      && r.hand == (if l.hand != a[p] then l.hand else if p + 1 < |a| then a[p + 1] else 0)
      && (r.hand == 0 || r.hand in RemoveAt(a, p))
  {
    var id := a[p];
    var u := Unlink(l, id);
    UnlinkEffect(l, id);
    AddToFreeEffect(u, id);
    assert l.next[id] == (if p + 1 < |a| then a[p + 1] else 0);
    RemoveAtDistinct(a, p);
    if p + 1 < |a| {
      assert a[p + 1] in a;
    }
  }

  /**
    The list side of `#removeNode`: the slot at position `p` moves from the
    active list to the newest end of the free list, and a hand resting on it
    moves to its successor.
  */
  lemma ReleaseLinked(l: Links, a: seq<nat>, f: seq<nat>, p: nat)
    requires Linked(l, a, f) && p < |a|
    ensures var r := AddToFree(Unlink(l, a[p]), a[p]);
      && Linked(r, RemoveAt(a, p), f + [a[p]])
      && r.hand == (if l.hand != a[p] then l.hand else if p + 1 < |a| then a[p + 1] else 0)
      && r.freeIndex == l.freeIndex
  {
    ReleaseChain(l, a, f, p);
    ReleaseFree(l, a, f, p);
    ReleaseArena(l, a, f, p);
    ReleaseHand(l, a, f, p);
  }

  /** Dropping the key of the slot at position `p` keeps the index matched to the shorter active list. */
  lemma IndexedRemove<K, V>(keys: seq<Option<K>>, values: seq<Option<V>>, slots: map<K, nat>, a: seq<nat>, p: nat)
    requires InRange(a, 0, |keys|) && |values| == |keys| && Distinct(a) && p < |a|
    requires Indexed(keys, values, slots, a)
    ensures keys[a[p]].Some? && keys[a[p]].value in slots
    ensures Indexed(keys, values[a[p] := None], slots - {keys[a[p]].value}, RemoveAt(a, p))
  {
    var id := a[p];
    var a' := RemoveAt(a, p);
    var k := keys[id].value;
    var slots' := slots - {k};
    RemoveAtDistinct(a, p);
    RemoveAtInRange(a, p, 0, |keys|);
    forall k' | k' in slots' ensures slots'[k'] in a' {
      assert slots[k'] != id;
    }
    forall i | 0 <= i < |a'|
      ensures keys[a'[i]].Some? && values[id := None][a'[i]].Some?
      ensures keys[a'[i]].value in slots' && slots'[keys[a'[i]].value] == a'[i]
    {
      assert a'[i] in a;
      var q :| 0 <= q < |a| && a[q] == a'[i];
      assert keys[a[q]].value != k;
    }
  }

  /**
    `#removeNode` on the active slot at position `p`: the active list loses
    exactly that entry, the slot joins the newest end of the free list, its
    key leaves the index, and a hand resting on it moves to its successor.
  */
  lemma RemoveNodeLayout<K, V>(c: Cache<K, V>, a: seq<nat>, f: seq<nat>, p: nat)
    requires Layout(c, a, f) && p < |a|
    ensures var r := RemoveNode(c, a[p]);
      && Layout(r, RemoveAt(a, p), f + [a[p]])
      && r.links.hand == (if c.links.hand != a[p] then c.links.hand else if p + 1 < |a| then a[p + 1] else 0)
      && r.index == KeyIndex.Remove(c.index, c.keys[a[p]].value)
      && r.keys == c.keys && r.values == c.values[a[p] := None]
      && r.visited == c.visited && r.policy == c.policy
  {
    ReleaseLinked(c.links, a, f, p);
    IndexedRemove(c.keys, c.values, c.index.slots, a, p);
  }

  // ---------------------------------------------------------------------------
  // Allocating a slot: `#getFree` and `#getHeadIndex`

  /** The free list the allocator leaves behind: untouched while unused ids remain, else without its oldest entry. */
  function FreeAfterAlloc(l: Links, f: seq<nat>): seq<nat> {
    if l.freeIndex <= l.maxSize || |f| == 0 then f else f[1..]
  }

  /** The slot the allocator hands out: the bump counter while unused ids remain, else the oldest free slot. */
  function AllocatedId(l: Links, f: seq<nat>): nat {
    if l.freeIndex <= l.maxSize || |f| == 0 then l.freeIndex else f[0]
  }

  /** What a `GetFree` result must satisfy for the slot to be linked in at the head. */
  ghost predicate Allocated(g: Links, id: nat, a: seq<nat>, f': seq<nat>) {
    && LinksOk(g) && 0 < id <= g.maxSize
    && id !in a && id !in f'
    && g.next[id] == 0 && g.previous[id] == 0
    && InRange(a, 1, |g.next|)
    && Arena(g, a + [id], f')
    && Chain(g.next, g.previous, g.head, g.tail, a)
    && FreeChain(g.next, g.previous, g.freeHead, g.freeTail, f')
  }

  /** `#getFree` while unused ids remain: the bump counter's id is fresh and unlinked. */
  lemma GetFreeBump(l: Links, a: seq<nat>, f: seq<nat>)
    requires Linked(l, a, f) && l.freeIndex <= l.maxSize
    ensures var (g, id) := GetFree(l);
      && id == l.freeIndex && Allocated(g, id, a, f)
      && g.head == l.head && g.tail == l.tail && g.hand == l.hand
  {
    var (g, id) := GetFree(l);
    assert g.next == l.next && g.previous == l.previous;
    AppendDistinct(a, id);
    var a' := a + [id];
    forall i, j | 0 <= i < |a'| && 0 <= j < |f| ensures a'[i] != f[j] {
      if i < |a| {
        assert a'[i] == a[i];
      }
    }
  }

  /** Dropping the oldest entry of a free list keeps it inside the arena, without repeats, and apart from `a + [f[0]]`. */
  lemma PopArena(l: Links, g: Links, a: seq<nat>, f: seq<nat>)
    requires LinksOk(l) && LinksOk(g) && g.maxSize == l.maxSize && g.freeIndex == l.freeIndex
    requires Arena(l, a, f) && |f| > 0
    requires forall x :: l.freeIndex <= x <= l.maxSize ==> g.next[x] == l.next[x] && g.previous[x] == l.previous[x]
    ensures f[0] !in a && f[0] !in f[1..]
    ensures Arena(g, a + [f[0]], f[1..])
  {
    var id := f[0];
    var f' := f[1..];
    var a' := a + [id];
    AppendDistinct(a, id);
    forall j | 0 <= j < |f'| ensures f'[j] != id && f'[j] == f[j + 1] {
    }
    forall i, j | 0 <= i < |a'| && 0 <= j < |f'| ensures a'[i] != f'[j] {
      if i < |a| {
        assert a'[i] == a[i];
      }
    }
  }

  /** `#getFree` once every id was handed out: the oldest free slot is popped and its stale link cleared. */
  lemma GetFreePop(l: Links, a: seq<nat>, f: seq<nat>)
    requires Linked(l, a, f) && l.freeIndex > l.maxSize && |a| < l.maxSize
    ensures |f| > 0
    ensures var (g, id) := GetFree(l);
      && id == f[0] && Allocated(g, id, a, f[1..])
      && g.head == l.head && g.tail == l.tail && g.hand == l.hand
  {
    var (g, id) := GetFree(l);
    assert id == f[0];
    FreePop(l.next, l.previous, l.freeHead, l.freeTail, f);
    assert g.next == l.next[id := 0] && g.previous == l.previous;
    forall i | 0 <= i < |a| ensures g.next[a[i]] == l.next[a[i]] {
      assert a[i] != f[0];
    }
    ChainFrame(l.next, l.previous, l.head, l.tail, a, g.next, g.previous);
    PopArena(l, g, a, f);
  }

  /**
    `#getFree` on a non-full cache hands out a slot that is neither active
    nor still free, whose links are clear, and leaves the active chain and
    the rest of the free chain as they were.
  */
  lemma GetFreeLinked(l: Links, a: seq<nat>, f: seq<nat>)
    requires Linked(l, a, f) && |a| < l.maxSize
    ensures var (g, id) := GetFree(l);
      && id == AllocatedId(l, f) && Allocated(g, id, a, FreeAfterAlloc(l, f))
      && g.head == l.head && g.tail == l.tail && g.hand == l.hand
  {
    if l.freeIndex <= l.maxSize {
      GetFreeBump(l, a, f);
    } else {
      GetFreePop(l, a, f);
    }
  }

  /** Linking an allocated, unlinked slot at the head end makes it the newest active entry. */
  lemma LinkAtHeadLinked(g: Links, a: seq<nat>, f: seq<nat>, id: nat)
    requires Allocated(g, id, a, f)
    requires g.hand == 0 || g.hand in a
    ensures Linked(LinkAtHead(g, id), a + [id], f)
  {
    var r := LinkAtHead(g, id);
    var a' := a + [id];
    assert forall i :: 0 <= i < |a| ==> a[i] == a'[i];
    ChainPush(g.next, g.previous, g.head, g.tail, a, id);
    assert g.head == 0 || g.head in a;
    forall j | 0 <= j < |f| ensures r.next[f[j]] == g.next[f[j]] && r.previous[f[j]] == g.previous[f[j]] {
      assert f[j] != id;
      if g.head != 0 {
        assert g.head in a;
        assert a[|a| - 1] == a'[|a| - 1];
      }
    }
    FreeFrame(g.next, g.previous, g.freeHead, g.freeTail, f, r.next, r.previous);
    assert id < g.freeIndex by {
      assert a'[|a|] == id;
    }
    if g.head != 0 {
      assert a[|a| - 1] == a'[|a| - 1];
    }
  }

  /**
    `#getHeadIndex` on a non-full cache: the allocated slot becomes the
    newest entry of the active list; the free list loses it when it was
    recycled from there.
  */
  lemma AllocateLinked(l: Links, a: seq<nat>, f: seq<nat>)
    requires Linked(l, a, f) && |a| < l.maxSize
    ensures var (r, id) := GetHeadIndex(l);
      && id == AllocatedId(l, f) && 0 < id <= l.maxSize && id !in a
      && Linked(r, a + [id], FreeAfterAlloc(l, f))
      && r.hand == l.hand
  {
    var (g, id) := GetFree(l);
    GetFreeLinked(l, a, f);
    LinkAtHeadLinked(g, a, FreeAfterAlloc(l, f), id);
  }

  /** Storing a new key in a slot outside the active list extends the index by that slot. */
  lemma IndexedStore<K, V>(keys: seq<Option<K>>, values: seq<Option<V>>, slots: map<K, nat>, a: seq<nat>,
                           id: nat, k: K, v: V)
    requires InRange(a, 0, |keys|) && |values| == |keys| && id < |keys|
    requires Indexed(keys, values, slots, a) && id !in a && k !in slots
    ensures InRange(a + [id], 0, |keys|)
    ensures Indexed(keys[id := Some(k)], values[id := Some(v)], slots[k := id], a + [id])
  {
    var a' := a + [id];
    var keys' := keys[id := Some(k)];
    var slots' := slots[k := id];
    forall i | 0 <= i < |a'|
      ensures keys'[a'[i]].Some? && values[id := Some(v)][a'[i]].Some?
      ensures keys'[a'[i]].value in slots' && slots'[keys'[a'[i]].value] == a'[i]
    {
      if i < |a| {
        assert a'[i] == a[i] && a[i] != id;
      }
    }
    forall k' | k' in slots' ensures slots'[k'] in a' && slots'[k'] < |keys| && keys'[slots'[k']] == Some(k') {
      if k' != k {
        assert slots[k'] in a;
      }
    }
  }
}
