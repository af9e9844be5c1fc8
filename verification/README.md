# SIEVE cache engine in Dafny

This project models `SieveCache`, the fixed-capacity key/value cache of
`src/index.ts`, which evicts with the SIEVE algorithm. Every operation is a
pure function from one cache state to the next.

- **Slot arena.** The parallel arrays `next`, `previous`, `visited`, `keys` and
  `values` have `maxSize + 1` entries each. Slot 0 is the null sentinel, and
  slots `1..maxSize` hold entries. JavaScript's `undefined` in `values`/`keys`
  is `None` of an `Option`.
- **Active list.** A doubly linked list threads through `next`/`previous`
  from `tail` (oldest) to `head` (newest).
- **Free list.** Released slots are pushed at `freeHead` and popped at
  `freeTail`, linked through `next`. The bump counter `freeIndex` hands out
  `1..maxSize` before any slot is reused.
- **Key index.** The JavaScript `Map` from keys to slots is `KeyIndex`: a
  Dafny `map` plus the sequence of keys in first-insertion order, which is
  the order `Map` iterates in.
- **Eviction.** `#evict` moves the `hand` from the tail toward the head. It
  clears visited bits, wraps from the head back to the tail, and evicts the
  first unvisited slot.

Modules:

- `SieveCache`: the state and the operations.
- `SieveLayout`: the two lists read back from the arrays (`ActiveView`,
  `FreeView`) and the invariant `Valid` that ties arrays, lists and index
  together.
- `SieveEviction`: a reference definition of the scan, as a rotation of the
  active list.
- `SieveInvariant`: proofs that every operation keeps `Valid`.
- `SieveProperties`: what callers observe, stated over `Contents`, the
  key/value map the cache represents.
- `SieveAsWritten`: the allocator exactly as the source writes it, with two
  call sequences on which it breaks the cache (see Findings).
- `SieveAsWrittenAgrees`: the states on which the source's allocator and the
  corrected one agree, which include every insertion into a full cache.

There is one deliberate deviation, and it is the subject of both Findings.
`SieveCache.GetFree` resets a recycled slot's `next` link to 0. The source
does not.

## Model

| member | source | states |
|---|---|---|
| SieveCache.PolicyFromCode | src/index.ts:57-68 | exactly the codes 0, 1 and 2 name a policy, and each decodes to the policy whose enum value it is; any other code is an `InvalidPolicy` error |
| SieveCache.New | src/index.ts:49-69 | construction succeeds iff 1 <= size <= 2^32 - 2 and the policy option is absent or valid; the capacity error of `getTypedArray` (lines 6-19) wins over the policy error; an absent option means `VISITED_SKIP`; the new cache is empty with capacity `size` |
| SieveCache.Clear | src/index.ts:71-84 | the cleared cache is exactly the one the constructor builds with the same capacity and policy, so it is empty |
| SieveCache.Sweep | src/index.ts:188-200 | the scan stops on an unvisited slot, only ever clears visited bits and never sets one; it terminates because each turn clears one bit |
| SieveCache.Get | src/index.ts:86-93 | keeps the state well formed; what a hit and a miss do is stated by SieveProperties.GetSpec |
| SieveCache.Set | src/index.ts:95-113 | keeps the state well formed, the capacity and the policy; its effect is stated by SieveProperties.SetSpec and the three branch lemmas, and SieveInvariant.SetValid keeps the invariant |
| SieveCache.MakeRoom | src/index.ts:104-106 | keeps the state well formed, the capacity and the policy; the eviction it triggers when full is stated by SieveEviction.EvictLayout |
| SieveCache.Overwrite | src/index.ts:96-102 | keeps the state well formed, the capacity and the policy; its effect is stated by SieveProperties.SetExistingSpec |
| SieveCache.Store | src/index.ts:107-111 | keeps the state well formed, the capacity and the policy; its effect is stated by SieveProperties.SetNewSpec and SetNewHead |
| SieveCache.Delete | src/index.ts:119-126 | keeps the state well formed; its effect is stated by SieveProperties.DeleteSpec and SieveInvariant.DeleteValid |
| SieveCache.Has | src/index.ts:137-139 | with a well-formed key index, a key is cached iff `keys()` lists it |
| SieveCache.Size | src/index.ts:141-143 | with a well-formed key index, the size is the number of keys `keys()` lists |
| SieveCache.Keys | src/index.ts:115-117 | with a well-formed key index, each cached key is listed exactly once and nothing else is; the order is stated by KeyIndex.Put and KeyIndex.Remove |
| SieveCache.Values | src/index.ts:163-178 | one value per listed key; which value is stated by SieveProperties.IterationSpec |
| SieveCache.Entries | src/index.ts:145-161 | one pair per listed key, also the pairs `forEach` (lines 128-135) visits; their contents are stated by SieveProperties.IterationSpec |
| SieveCache.Evict | src/index.ts:188-200 | keeps the state well formed, the capacity and the policy; its effect is stated by SieveEviction.EvictLayout and EvictVisited |
| SieveCache.RemoveNode | src/index.ts:214-238 | keeps the state well formed, the capacity and the policy; its effect is stated by SieveLayout.RemoveNodeLayout |
| SieveCache.Unlink | src/index.ts:215-233 | keeps every link inside the arena and the arrays' lengths; its effect on the lists is stated by SieveLayout.ReleaseLinked |
| SieveCache.AddToFree | src/index.ts:240-247 | keeps every link inside the arena and the arrays' lengths; its effect on the free list is stated by SieveLayout.ReleaseLinked |
| SieveCache.GetHeadIndex | src/index.ts:202-212 | keeps every link inside the arena and returns an id no larger than the capacity; its effect is stated by SieveLayout.AllocateLinked |
| SieveCache.LinkAtHead | src/index.ts:204-210 | keeps every link inside the arena and the arrays' lengths; its effect is stated by SieveLayout.AllocateLinked |
| SieveCache.GetFree | src/index.ts:249-260 | keeps every link inside the arena and returns an id no larger than the capacity; it resets a recycled slot's `next`, the one deviation from the source; its behaviour is stated by SieveLayout.GetFreeBump and GetFreePop |
| KeyIndex.Put | src/index.ts:111 | storing a key binds it to the slot; a new key is appended to the iteration order and an existing key keeps its position |
| KeyIndex.Remove | src/index.ts:235-236 | removing a key drops its binding and erases it from the iteration order, shrinking the size by one iff it was present |
| SieveLayout.ReleaseLinked | src/index.ts:214-247 | unlinking the slot at position p and pushing it on the free list leaves the active list with exactly that slot removed, others in order, and the free list with the slot appended; the hand moves to the removed slot's successor when it pointed at it |
| SieveLayout.RemoveNodeLayout | src/index.ts:214-238 | `#removeNode` keeps the layout invariant, removes one slot from the active list and one key from the index, and leaves the keys array and visited bits alone |
| SieveLayout.GetFreeBump | src/index.ts:249-253 | while unused ids remain, the allocator returns `freeIndex`, so ids come out 1, 2, ..., capacity |
| SieveLayout.GetFreePop | src/index.ts:254-259 | once ids are used up, the allocator returns the oldest released slot, first in first out |
| SieveLayout.AllocateLinked | src/index.ts:202-212 | `#getHeadIndex` returns a slot not on the active list and links it in as the newest entry, and the rest of the free list survives |
| SieveEviction.SweepRotation | src/index.ts:192-198 | the scan equals a reference definition: rotate the active list to start at the hand, find the first unvisited slot, clear the visited bits before it |
| SieveEviction.VictimUnvisited | src/index.ts:192-199 | the evicted slot was unvisited iff some active slot was unvisited |
| SieveEviction.EvictLayout | src/index.ts:188-200 | `#evict` removes exactly the victim from the active list and its key from the index, and leaves the hand on the victim's successor (0 at the head) |
| SieveEviction.EvictVisited | src/index.ts:192-194 | eviction clears exactly the visited bits of the slots the scan passed and touches no slot off the active list |
| SieveInvariant.NewValid | src/index.ts:49-69 | a constructed cache satisfies the invariant with empty active and free lists |
| SieveInvariant.ClearValid | src/index.ts:71-84 | a cleared cache satisfies the invariant with empty active and free lists |
| SieveInvariant.GetValid | src/index.ts:86-93 | `get` keeps the invariant and both lists |
| SieveInvariant.SetExistingValid | src/index.ts:96-102 | `set` on a cached key keeps the invariant, both lists and every link |
| SieveInvariant.SetNewValid | src/index.ts:104-112 | `set` on a new key with room appends the allocated slot to the active list, takes it off the free list, indexes the key there unvisited and keeps the hand |
| SieveInvariant.SetFullLayout | src/index.ts:104-112 | `set` on a new key when full evicts one slot and reuses that same slot for the new key, keeping the invariant |
| SieveInvariant.SetValid | src/index.ts:95-113 | `set` keeps the invariant |
| SieveInvariant.DeleteValid | src/index.ts:119-126 | `delete` keeps the invariant, reports whether the key was cached and, if so, removes its slot from the active list |
| SieveProperties.ValidFilled | src/index.ts:104-106 | under the invariant, every key has a value, no two keys share a slot, each slot records its own key, and size never exceeds capacity |
| SieveProperties.AllocUnused | src/index.ts:249-260 | with room left, the slot the allocator hands out is not bound to any cached key |
| SieveProperties.GetSpec | src/index.ts:86-93 | a hit returns the key's value and marks only its slot visited; a miss returns nothing and changes nothing; the contents and the key order are unchanged |
| SieveProperties.SetExistingSpec | src/index.ts:96-102 | overwriting rebinds the key, keeps key order, size and every link, and sets the visited bit as the policy says: clear, set, or unchanged |
| SieveProperties.SetNewSpec | src/index.ts:104-112 | with room, a new key is added to the contents, appended to the key order, and size grows by one |
| SieveProperties.SetNewHead | src/index.ts:107-111 | a new key's slot becomes the list head with its visited bit clear |
| SieveProperties.SetFullSpec | src/index.ts:104-112 | when full, exactly one other cached key, the scan's victim, is dropped, the new key is appended, and size stays at capacity |
| SieveProperties.SetSpec | src/index.ts:95-113 | after `set(k, v)` the key maps to v, every other surviving key keeps its value, and size grows by one only for a new key when not full |
| SieveProperties.GetAfterSet | src/index.ts:86-113 | `get(k)` right after `set(k, v)` returns v |
| SieveProperties.SecondChance | src/index.ts:188-200 | when full, a visited key survives the next insertion as long as some key is unvisited |
| SieveProperties.DeleteSpec | src/index.ts:119-126 | `delete` returns true iff the key was cached; afterwards the key is absent, every other binding and the order of the rest are kept, and size drops by one iff it was found |
| SieveProperties.HasSizeSpec | src/index.ts:137-143 | `has` is membership in the contents and `size` is their count, at most the capacity |
| SieveProperties.IterationSpec | src/index.ts:115-178 | `keys` lists each cached key once, in first-insertion order; `values` and `entries` pair each position with that key's value |
| SieveProperties.EmptyUnlinked | src/index.ts:214-238 | an empty cache has no head, no tail and no hand |
| SieveProperties.NewSpec | src/index.ts:49-69 | a constructed cache represents the empty map |
| SieveProperties.ClearSpec | src/index.ts:71-84 | a cleared cache represents the empty map and keeps capacity and policy |
| SieveAsWritten.GetFreeAsWritten | src/index.ts:249-260 | the source's allocator agrees with the corrected one except that a recycled slot keeps its old `next` link |
| SieveAsWritten.GetHeadIndexAsWritten | src/index.ts:202-212 | `#getHeadIndex` over the source's allocator keeps every link inside the arena, and agrees with the corrected one while unused ids remain |
| SieveAsWritten.SetAsWritten | src/index.ts:95-113 | `set` over the source's allocator stores the key and agrees with `Set` on cached keys; SieveAsWrittenAgrees.SetAsWrittenAgrees extends the agreement to new keys while at most one slot is free |
| SieveAsWrittenAgrees.GetHeadIndexAgrees | src/index.ts:249-260 | with at most one free slot, the source's `#getFree` and `#getHeadIndex` return exactly what the corrected ones return |
| SieveAsWrittenAgrees.SetAsWrittenAgrees | src/index.ts:95-113 | on a valid cache with at most one free slot, `set` as written equals the corrected `Set`, so the defect needs two or more free slots |
| SieveAsWrittenAgrees.FullSetAsWritten | src/index.ts:104-112 | on a full valid cache, `set` as written equals the corrected `Set`, so the eviction results hold of the source as written |
| SieveAsWritten.EmptiedCacheKeepsHead | src/index.ts:249-260 | after set a, set b, delete a, delete b, set c, delete c at capacity 2, the cache is empty but its head is slot 1 and its tail slot 2 |
| SieveAsWritten.SharedSlot | src/index.ts:249-260 | continuing with set d, set e, delete e, set g, keys d and g share slot 2, and `get(d)` returns g's value |

## Left out

- The Uint8/Uint16/Uint32 choice in `getTypedArray` (lines 10-18) only saves memory. The model keeps the capacity bounds it enforces and uses unbounded `nat` links.
- The iterator objects of `keys`, `values` and `entries`, plus `Symbol.iterator` and `Symbol.toStringTag`. Iteration is modelled as returning sequences.
- `forEach` (lines 128-135) calls back once per entry in key order. It is the `Entries` sequence, without the callback or `thisArg`.
- JavaScript `Map` compares keys by SameValueZero. The model uses Dafny equality on a generic key type.
- Policy validation through the enum's reverse mapping also accepts the strings "VISITED_FALSE" etc. A policy passed explicitly as `undefined` is refused. The model takes an optional integer code, where absence means the default.
- The model takes an integer size. A fractional size throws from `new Array(size + 1)` (line 54). Sizes that are not numbers are outside the TypeScript signature and are not modelled.
- The two `RangeError` messages are modelled as the `InvalidCapacity` and `InvalidPolicy` error values.
- `#removeNode` does not clear the removed slot's entry in `keys`, and the model keeps that. Only the key index decides membership.
- Mutation in place is modelled as returning a new state. Chained `this` returns from `set` are not modelled.

## Findings

| source | as written | input that shows it | evidently intended | confidence | as-written member | corrected member |
|---|---|---|---|---|---|---|
| src/index.ts:249-260 | `#getFree` pops a slot off the free list without resetting its `next`. `#getHeadIndex` then makes that slot the head while it still links to another free slot. | capacity 2: set a, set b, delete a, delete b, set c, delete c. Size is 0 but head = 1 and tail = 2. | an empty cache has head = tail = hand = 0 | not executed | SieveAsWritten.EmptiedCacheKeepsHead | SieveProperties.EmptyUnlinked |
| src/index.ts:249-260 | The same stale link later leaves an active slot's id at the oldest end of the free list, so `#getFree` hands that slot out a second time. | continue with set d, set e, delete e, set g. Keys d and g share slot 2, and `get(d)` returns 6, the value stored under g. | a `set` never changes the value of another key | not executed | SieveAsWritten.SharedSlot | SieveProperties.SetSpec |
