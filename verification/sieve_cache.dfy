/**
  The SIEVE cache engine of `src/index.ts`, class `SieveCache`, as pure functions
  over an immutable state.

  Slots are addressed by integer ids 1..maxSize; id 0 is the null sentinel.
  The parallel arrays `next`, `previous`, `visited`, `keys` and `values` all have
  `maxSize + 1` entries. Active slots form a doubly-linked list from `tail`
  (oldest) to `head` (newest); released slots form a singly-linked FIFO free list
  from `freeTail` (oldest) to `freeHead` (newest) through `next`; ids never used
  yet are handed out by the bump counter `freeIndex` first.

  One deviation from the source: `GetFree` resets `next` of a slot it recycles
  from the free list. The source leaves that link stale; module SieveAsWritten
  models the source's version and shows what goes wrong.
*/
module SieveCache {
  import opened Wrappers
  import KeyIndex
  import Seqs

  /** The largest length of an unsigned 32-bit id array. */
  const UINT32_MAX: int := 4294967295

  /** What `set` does to the visited bit of a key that is already cached. */
  datatype Policy = VisitedFalse | VisitedTrue | VisitedSkip

  /** Construction errors; the source throws a `RangeError` for both. */
  datatype Error = InvalidCapacity | InvalidPolicy

  /** The numeric value of each policy in the source's enum. */
  function PolicyCode(p: Policy): int {
    match p
    case VisitedFalse => 0
    case VisitedTrue => 1
    case VisitedSkip => 2
  }

  /** Decodes an option value; anything but 0, 1 or 2 is rejected. */
  function PolicyFromCode(code: int): (r: Result<Policy, Error>)
    ensures r.Success? <==> 0 <= code <= 2
    ensures r.Success? ==> PolicyCode(r.value) == code
    ensures r.Failure? ==> r.error == InvalidPolicy
  {
    if code == 0 then Success(VisitedFalse)
    else if code == 1 then Success(VisitedTrue)
    else if code == 2 then Success(VisitedSkip)
    else Failure(InvalidPolicy)
  }

  /**
    The slot arena's link arrays and list pointers: `next`/`previous` thread
    the active list (tail to head) and `next` alone the free list; `freeIndex`
    is the bump counter and `hand` the eviction cursor. Every field is one
    private field of the source class.
  */
  datatype Links = Links(
    maxSize: nat,
    head: nat,
    tail: nat,
    freeHead: nat,
    freeTail: nat,
    freeIndex: nat,
    next: seq<nat>,
    previous: seq<nat>,
    hand: nat)

  /** The whole cache: the links plus the per-slot payload arrays, the key index and the policy. */
  datatype Cache<K, V> = Cache(
    links: Links,
    keys: seq<Option<K>>,
    values: seq<Option<V>>,
    visited: seq<bool>,
    index: KeyIndex.KeyIndex<K>,
    policy: Policy)

  /** Shape facts of the links: arrays of `maxSize + 1` entries, every stored id inside the arena. */
  ghost predicate LinksOk(l: Links) {
    && 1 <= l.maxSize < UINT32_MAX
    && |l.next| == l.maxSize + 1
    && |l.previous| == l.maxSize + 1
    && l.head <= l.maxSize && l.tail <= l.maxSize
    && l.freeHead <= l.maxSize && l.freeTail <= l.maxSize
    && l.hand <= l.maxSize
    && 1 <= l.freeIndex <= l.maxSize + 1
    && (forall i :: 0 <= i < |l.next| ==> l.next[i] <= l.maxSize)
    && (forall i :: 0 <= i < |l.previous| ==> l.previous[i] <= l.maxSize)
  }

  /**
    Shape facts every reachable state has, even those the source reaches
    through its stale-link defect: arrays of the right length, every stored
    id inside the arena, a well-formed key index.
  */
  ghost predicate WellFormed<K, V>(c: Cache<K, V>) {
    && LinksOk(c.links)
    && |c.keys| == c.links.maxSize + 1
    && |c.values| == c.links.maxSize + 1
    && |c.visited| == c.links.maxSize + 1
    && KeyIndex.Valid(c.index)
    && (forall k :: k in c.index.slots ==> c.index.slots[k] <= c.links.maxSize)
  }

  /** The capacity fixed at construction. */
  function Capacity<K, V>(c: Cache<K, V>): nat {
    c.links.maxSize
  }

  /** `getTypedArray`'s range check on the array length (capacity + 1). */
  predicate ArraySizeOk(arraySize: int) {
    2 <= arraySize <= UINT32_MAX
  }

  /** The state right after construction, and after `clear`. */
  function Empty<K, V>(maxSize: nat, policy: Policy): (c: Cache<K, V>)
    requires 1 <= maxSize < UINT32_MAX
    ensures WellFormed(c)
    ensures Capacity(c) == maxSize && c.policy == policy
    ensures |c.index.slots| == 0 && c.index.order == []
  {
    Cache(Links(maxSize, 0, 0, 0, 0, 1, seq(maxSize + 1, _ => 0), seq(maxSize + 1, _ => 0), 0),
          seq(maxSize + 1, _ => None), seq(maxSize + 1, _ => None),
          seq(maxSize + 1, _ => false),
          KeyIndex.Empty(), policy)
  }

  /**
    The constructor. `policyCode` is the `existingSetBehavior` option, `None`
    when the caller left it out. The capacity is checked first, as the arrays
    are allocated before the option is validated.
  */
  function New<K, V>(size: int, policyCode: Option<int>): (r: Result<Cache<K, V>, Error>)
    ensures r.Success? <==> 1 <= size <= UINT32_MAX - 1 && (policyCode.None? || 0 <= policyCode.value <= 2)
    ensures !(1 <= size <= UINT32_MAX - 1) ==> r == Failure(InvalidCapacity)
    ensures 1 <= size <= UINT32_MAX - 1 && r.Failure? ==> r == Failure(InvalidPolicy)
    ensures r.Success? ==> WellFormed(r.value) && Capacity(r.value) == size && |r.value.index.slots| == 0
    ensures r.Success? && policyCode.None? ==> r.value.policy == VisitedSkip
    ensures r.Success? && policyCode.Some? ==> PolicyCode(r.value.policy) == policyCode.value
  {
    if !ArraySizeOk(size + 1) then Failure(InvalidCapacity)
    else
      var code := if policyCode.Some? then policyCode.value else PolicyCode(VisitedSkip);
      match PolicyFromCode(code)
      case Failure(e) => Failure(e)
      case Success(p) => Success(Empty(size, p))
  }

  /** `clear`: back to the post-construction state, keeping capacity and policy. */
  function Clear<K, V>(c: Cache<K, V>): (r: Cache<K, V>)
    requires WellFormed(c)
    ensures New(Capacity(c), Some(PolicyCode(c.policy))) == Success(r)
    ensures Size(r) == 0 && Keys(r) == []
  {
    Empty(Capacity(c), c.policy)
  }

  /** `get`: a hit marks the slot visited and returns its value. */
  function Get<K, V>(c: Cache<K, V>, k: K): (r: (Cache<K, V>, Option<V>))
    requires WellFormed(c)
    ensures WellFormed(r.0)
  {
    match KeyIndex.Get(c.index, k)
    case Some(i) => (c.(visited := c.visited[i := true]), c.values[i])
    case None => (c, None)
  }

  /** `set`: update in place when the key is cached, else evict if full and insert at the head. */
  function Set<K, V>(c: Cache<K, V>, k: K, v: V): (r: Cache<K, V>)
    requires WellFormed(c)
    ensures WellFormed(r) && Capacity(r) == Capacity(c) && r.policy == c.policy
  {
    match KeyIndex.Get(c.index, k)
    case Some(i) => Overwrite(c, i, v)
    case None =>
      var room := MakeRoom(c);
      var (l, i) := GetHeadIndex(room.links);
      Store(room.(links := l), i, k, v)
  }

  /** Lines 104-106 of `set`: evict when the cache is full. */
  function MakeRoom<K, V>(c: Cache<K, V>): (r: Cache<K, V>)
    requires WellFormed(c)
    ensures WellFormed(r) && Capacity(r) == Capacity(c) && r.policy == c.policy
  {
    if |c.index.slots| == Capacity(c) then Evict(c) else c
  }

  /** The existing-key branch of `set`: new value, visited bit per the policy. */
  function Overwrite<K, V>(c: Cache<K, V>, i: nat, v: V): (r: Cache<K, V>)
    requires WellFormed(c) && i <= Capacity(c)
    ensures WellFormed(r) && Capacity(r) == Capacity(c) && r.policy == c.policy
  {
    var c' := c.(values := c.values[i := Some(v)]);
    if c.policy == VisitedSkip then c'
    else c'.(visited := c'.visited[i := c.policy == VisitedTrue])
  }

  /** The tail of the new-key branch of `set`: fill the slot, unvisited, and index the key. */
  function Store<K, V>(c: Cache<K, V>, i: nat, k: K, v: V): (r: Cache<K, V>)
    requires WellFormed(c) && i <= Capacity(c)
    ensures WellFormed(r) && Capacity(r) == Capacity(c) && r.policy == c.policy
  {
    c.(values := c.values[i := Some(v)],
       keys := c.keys[i := Some(k)],
       visited := c.visited[i := false],
       index := KeyIndex.Put(c.index, k, i))
  }

  /** `delete`: unlink and release the key's slot; reports whether the key was cached. */
  function Delete<K, V>(c: Cache<K, V>, k: K): (r: (Cache<K, V>, bool))
    requires WellFormed(c)
    ensures WellFormed(r.0)
  {
    match KeyIndex.Get(c.index, k)
    case Some(i) => (RemoveNode(c, i), true)
    case None => (c, false)
  }

  /** `has`: a key is cached iff iteration lists it. */
  function Has<K, V>(c: Cache<K, V>, k: K): (r: bool)
    ensures KeyIndex.Valid(c.index) ==> (r <==> k in Keys(c))
  {
    k in c.index.slots
  }

  /** `size`: the number of keys iteration lists. */
  function Size<K, V>(c: Cache<K, V>): (r: nat)
    ensures KeyIndex.Valid(c.index) ==> r == |Keys(c)|
  {
    KeyIndex.ValidSize(c.index);
    |c.index.slots|
  }

  /** `keys()`: the cached keys in the key index's insertion order, each once. */
  function Keys<K, V>(c: Cache<K, V>): (r: seq<K>)
    ensures KeyIndex.Valid(c.index) ==> Seqs.Distinct(r) && Seqs.Elements(r) == c.index.slots.Keys
  {
    assert KeyIndex.Valid(c.index) ==> Seqs.Elements(c.index.order) == c.index.slots.Keys;
    c.index.order
  }

  /** `values()`: the cached values, in key order. */
  function Values<K, V>(c: Cache<K, V>): (r: seq<Option<V>>)
    requires WellFormed(c)
    ensures |r| == |Keys(c)|
  {
    seq(|c.index.order|, i requires 0 <= i < |c.index.order| && WellFormed(c) =>
      c.values[c.index.slots[c.index.order[i]]])
  }

  /** `entries()`, and the pairs `forEach` hands to its callback, in key order. */
  function Entries<K, V>(c: Cache<K, V>): (r: seq<(K, Option<V>)>)
    requires WellFormed(c)
    ensures |r| == |Keys(c)|
  {
    seq(|c.index.order|, i requires 0 <= i < |c.index.order| && WellFormed(c) =>
      (c.index.order[i], c.values[c.index.slots[c.index.order[i]]]))
  }

  /**
    The scan loop of `#evict`: while the slot under the hand is visited, clear
    its bit and step to `next`, wrapping from the head (next 0) back to the
    tail. Returns the new visited bits and the slot the hand stops on. Every
    turn clears one bit, so the number of set bits is the termination measure.
  */
  function Sweep(visited: seq<bool>, next: seq<nat>, tail: nat, hand: nat): (r: (seq<bool>, nat))
    requires |visited| == |next| && hand < |next| && tail < |next|
    requires forall i :: 0 <= i < |next| ==> next[i] < |next|
    ensures |r.0| == |visited| && r.1 < |next|
    ensures !r.0[r.1]
    ensures forall i :: 0 <= i < |visited| && r.0[i] ==> visited[i]
    decreases Seqs.CountTrue(visited)
  {
    if !visited[hand] then (visited, hand)
    else
      Seqs.CountTrueClear(visited, hand);
      var h := next[hand];
      Sweep(visited[hand := false], next, tail, if h == 0 then tail else h)
  }

  /** `#evict`: start at the tail when the hand is 0, sweep, and remove the slot the hand stops on. */
  function Evict<K, V>(c: Cache<K, V>): (r: Cache<K, V>)
    requires WellFormed(c)
    ensures WellFormed(r) && Capacity(r) == Capacity(c) && r.policy == c.policy
  {
    var start := if c.links.hand == 0 then c.links.tail else c.links.hand;
    var (visited, victim) := Sweep(c.visited, c.links.next, c.links.tail, start);
    RemoveNode(c.(visited := visited, links := c.links.(hand := victim)), victim)
  }

  /**
    `#removeNode`: unlink the slot, clear its value, drop its key from the
    index and release the slot to the free list. A hand resting on the slot
    moves to its successor. The slot's key entry is left in place, as in the
    source; only the index decides which keys are cached.
  */
  function RemoveNode<K, V>(c: Cache<K, V>, i: nat): (r: Cache<K, V>)
    requires WellFormed(c) && i <= Capacity(c)
    ensures WellFormed(r) && Capacity(r) == Capacity(c) && r.policy == c.policy
  {
    var index := match c.keys[i]
                 case Some(k) => KeyIndex.Remove(c.index, k)
                 case None => c.index;
    c.(links := AddToFree(Unlink(c.links, i), i), values := c.values[i := None], index := index)
  }

  /** The list surgery of `#removeNode`, lines 215-233. */
  function Unlink(l: Links, i: nat): (r: Links)
    requires LinksOk(l) && i <= l.maxSize
    ensures LinksOk(r) && r.maxSize == l.maxSize
  {
    var nextId := l.next[i];
    var prevId := l.previous[i];
    var l1 := if nextId == 0 then l.(head := prevId, next := l.next[prevId := 0])
              else if prevId != 0 then l.(next := l.next[prevId := nextId])
              else l;
    var l2 := if prevId == 0 then l1.(tail := nextId, previous := l1.previous[nextId := 0])
              else if nextId != 0 then l1.(previous := l1.previous[nextId := prevId])
              else l1;
    var l3 := if l2.hand == i then l2.(hand := nextId) else l2;
    l3.(next := l3.next[i := 0], previous := l3.previous[i := 0])
  }

  /** `#addToFree`: push the slot at the free list's head (its newest end). */
  function AddToFree(l: Links, i: nat): (r: Links)
    requires LinksOk(l) && i <= l.maxSize
    ensures LinksOk(r) && r.maxSize == l.maxSize
  {
    var l' := if l.freeHead == 0 then l.(freeTail := i)
              else l.(next := l.next[l.freeHead := i]);
    l'.(freeHead := i)
  }

  /** `#getHeadIndex`: allocate a slot and link it in as the new head. */
  function GetHeadIndex(l: Links): (r: (Links, nat))
    requires LinksOk(l)
    ensures LinksOk(r.0) && r.0.maxSize == l.maxSize && r.1 <= l.maxSize
  {
    var (l', i) := GetFree(l);
    (LinkAtHead(l', i), i)
  }

  /** Lines 204-210 of `#getHeadIndex`: the first slot becomes the tail too. */
  function LinkAtHead(l: Links, i: nat): (r: Links)
    requires LinksOk(l) && i <= l.maxSize
    ensures LinksOk(r) && r.maxSize == l.maxSize
  {
    var l' := if l.head == 0 then l.(tail := i)
              else l.(next := l.next[l.head := i], previous := l.previous[i := l.head]);
    l'.(head := i)
  }

  /**
    `#getFree`: bump-allocate while unused ids remain, else pop the free
    list's tail (its oldest end). Unlike the source, a recycled slot's `next`
    is reset to 0, so that it can become the list head.
  */
  function GetFree(l: Links): (r: (Links, nat))
    requires LinksOk(l)
    ensures LinksOk(r.0) && r.0.maxSize == l.maxSize && r.1 <= l.maxSize
  {
    if l.freeIndex <= l.maxSize then
      (l.(freeIndex := l.freeIndex + 1), l.freeIndex)
    else
      var i := l.freeTail;
      var l' := l.(freeTail := l.next[i]);
      var l'' := if l'.freeTail == 0 then l'.(freeHead := 0) else l';
      (l''.(next := l''.next[i := 0]), i)
  }
}
