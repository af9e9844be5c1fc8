/**
  What the SIEVE scan of `#evict` computes, stated without the loop: read the
  active list cyclically starting at the hand; the victim is the first slot
  whose visited bit is clear, every slot passed over before it loses its bit,
  and when every bit is set the scan goes round once and takes the slot it
  started on.
*/
module SieveEviction {
  import opened Wrappers
  import opened Seqs
  import KeyIndex
  import opened SieveCache
  import opened SieveLayout

  /** The sequence `a` read cyclically from position `s`. */
  function Rotate<T>(a: seq<T>, s: nat): (r: seq<T>)
    requires s <= |a|
    ensures |r| == |a|
    ensures forall i :: 0 <= i < |a| ==> r[i] == a[if s + i < |a| then s + i else s + i - |a|]
  {
    a[s..] + a[..s]
  }

  /** A cyclic reading holds exactly the entries of the sequence. */
  lemma RotateHas<T>(a: seq<T>, s: nat)
    requires s <= |a|
    ensures forall x :: x in a <==> x in Rotate(a, s)
  {
    var r := Rotate(a, s);
    forall j | 0 <= j < |a| ensures a[j] in r {
      if s < |a| {
        var i := if j >= s then j - s else j + |a| - s;
        assert r[i] == a[j];
      } else {
        assert r[j] == a[j];
      }
    }
  }

  /** The position of the first entry of `r` whose bit is clear, `|r|` when there is none. */
  function FirstUnvisited(visited: seq<bool>, r: seq<nat>): (t: nat)
    requires InRange(r, 0, |visited|)
    ensures t <= |r|
    ensures forall i :: 0 <= i < t ==> visited[r[i]]
    ensures t < |r| ==> !visited[r[t]]
  {
    if |r| == 0 then 0
    else if !visited[r[0]] then 0
    else 1 + FirstUnvisited(visited, r[1..])
  }

  /** The slot the scan stops on, given the cyclic reading `r` and the first clear position `t`. */
  function Victim(r: seq<nat>, t: nat): nat
    requires 0 < |r|
  {
    if t < |r| then r[t] else r[0]
  }

  /** The position the scan starts from: the hand's, or the tail's when the hand is 0. */
  function StartPos(l: Links, a: seq<nat>): (s: nat)
    requires l.hand == 0 || l.hand in a
    requires 0 < |a|
    ensures s < |a|
    ensures l.hand != 0 ==> a[s] == l.hand
  {
    if l.hand == 0 then 0 else IndexOf(a, l.hand)
  }

  /** Stepping the start of a cyclic reading by one moves its first entry to the end. */
  lemma RotateStep<T>(a: seq<T>, s: nat)
    requires s < |a|
    ensures Rotate(a, if s + 1 < |a| then s + 1 else 0) == Rotate(a, s)[1..] + [Rotate(a, s)[0]]
  {
    var s' := if s + 1 < |a| then s + 1 else 0;
    var r := Rotate(a, s);
    assert forall i :: 0 <= i < |a| ==> Rotate(a, s')[i] == (r[1..] + [r[0]])[i];
  }

  /** Only the bits of the entries of `r` matter. */
  lemma {:induction false} FirstUnvisitedFrame(w: seq<bool>, w': seq<bool>, r: seq<nat>)
    requires InRange(r, 0, |w|) && |w'| == |w|
    requires forall i :: 0 <= i < |r| ==> w'[r[i]] == w[r[i]]
    ensures FirstUnvisited(w', r) == FirstUnvisited(w, r)
  {
    if |r| > 0 && w[r[0]] {
      FirstUnvisitedFrame(w, w', r[1..]);
    }
  }

  /** An entry with a clear bit appended at the end stops a scan that found nothing earlier. */
  lemma {:induction false} FirstUnvisitedAppend(w: seq<bool>, u: seq<nat>, x: nat)
    requires InRange(u, 0, |w|) && x < |w| && !w[x]
    ensures FirstUnvisited(w, u + [x]) == FirstUnvisited(w, u)
  {
    if |u| > 0 {
      assert (u + [x])[0] == u[0];
      assert (u + [x])[1..] == u[1..] + [x];
      if w[u[0]] {
        FirstUnvisitedAppend(w, u[1..], x);
      }
    }
  }

  /**
    One turn of the scan, on sequences: if the first entry of `r` is set, the
    outcome of scanning `r` with that bit cleared and the entry moved to the
    end is the outcome of scanning `r` itself.
  */
  lemma ScanStep(w: seq<bool>, r: seq<nat>, w': seq<bool>, victim: nat)
    requires 0 < |r| && InRange(r, 0, |w|) && Distinct(r) && w[r[0]] && |w'| == |w|
    requires var w1 := w[r[0] := false];
      var r1 := r[1..] + [r[0]];
      var t1 := FirstUnvisited(w1, r1);
      && victim == Victim(r1, t1)
      && (forall i :: 0 <= i < |r1| ==> w'[r1[i]] == (w1[r1[i]] && t1 <= i))
    ensures var t := FirstUnvisited(w, r);
      && victim == Victim(r, t)
      && (forall i :: 0 <= i < |r| ==> w'[r[i]] == (w[r[i]] && t <= i))
  {
    var w1 := w[r[0] := false];
    var u := r[1..];
    var r1 := u + [r[0]];
    assert forall i :: 0 <= i < |u| ==> u[i] == r[i + 1] && u[i] != r[0];
    FirstUnvisitedFrame(w, w1, u);
    FirstUnvisitedAppend(w1, u, r[0]);
    var t := FirstUnvisited(w, r);
    var t1 := FirstUnvisited(w1, r1);
    assert t == 1 + t1;
    forall i | 0 <= i < |r| ensures w'[r[i]] == (w[r[i]] && t <= i) {
      if i == 0 {
        assert r1[|r| - 1] == r[0];
      } else {
        assert r1[i - 1] == r[i];
      }
    }
  }

  /**
    The scan loop of `#evict`, started on the active entry at position `s`,
    stops on the first entry with a clear bit in the cyclic reading from `s`,
    clears exactly the bits it passes, and leaves every other bit alone.
  */
  lemma {:induction false} SweepRotation(w: seq<bool>, next: seq<nat>, previous: seq<nat>, head: nat, tail: nat,
                                         a: seq<nat>, s: nat)
    requires |w| == |next| && |previous| == |next| && tail < |next|
    requires forall i :: 0 <= i < |next| ==> next[i] < |next|
    requires InRange(a, 1, |next|) && Distinct(a) && s < |a|
    requires Chain(next, previous, head, tail, a)
    ensures var (w', victim) := Sweep(w, next, tail, a[s]);
      var r := Rotate(a, s);
      var t := FirstUnvisited(w, r);
      && victim == Victim(r, t)
      && (forall i :: 0 <= i < |r| ==> w'[r[i]] == (w[r[i]] && t <= i))
      && (forall x :: 0 <= x < |w| && x !in a ==> w'[x] == w[x])
    decreases CountTrue(w)
  {
    if w[a[s]] {
      var w1 := w[a[s] := false];
      var s' := if s + 1 < |a| then s + 1 else 0;
      SweepTurn(w, next, previous, head, tail, a, s);
      SweepRotation(w1, next, previous, head, tail, a, s');
      RotateStep(a, s);
      RotateDistinct(a, s, |w|);
      var (w', victim) := Sweep(w, next, tail, a[s]);
      ScanStep(w, Rotate(a, s), w', victim);
    }
  }

  /** One turn of the scan on a chain: clear the bit under the hand and step to the next entry of the cyclic reading. */
  lemma SweepTurn(w: seq<bool>, next: seq<nat>, previous: seq<nat>, head: nat, tail: nat, a: seq<nat>, s: nat)
    requires |w| == |next| && |previous| == |next| && tail < |next|
    requires forall i :: 0 <= i < |next| ==> next[i] < |next|
    requires InRange(a, 1, |next|) && s < |a| && w[a[s]]
    requires Chain(next, previous, head, tail, a)
    ensures CountTrue(w[a[s] := false]) < CountTrue(w)
    ensures Sweep(w, next, tail, a[s]) == Sweep(w[a[s] := false], next, tail, a[if s + 1 < |a| then s + 1 else 0])
  {
    assert next[a[s]] == (if s + 1 < |a| then a[s + 1] else 0);
    CountTrueClear(w, a[s]);
  }

  /** A cyclic reading of a duplicate-free sequence in range is one too. */
  lemma RotateDistinct(a: seq<nat>, s: nat, n: nat)
    requires InRange(a, 0, n) && Distinct(a) && s < |a|
    ensures InRange(Rotate(a, s), 0, n) && Distinct(Rotate(a, s))
  {
    var r := Rotate(a, s);
    forall i, j | 0 <= i < j < |r| ensures r[i] != r[j] {
    }
  }

  /** What the scan of `#evict` relies on: `a` is a non-empty, duplicate-free active chain holding the hand. */
  ghost predicate ScanReady<K, V>(c: Cache<K, V>, a: seq<nat>) {
    && WellFormed(c)
    && 0 < |a| && InRange(a, 1, |c.links.next|) && Distinct(a)
    && Chain(c.links.next, c.links.previous, c.links.head, c.links.tail, a)
    && (c.links.hand == 0 || c.links.hand in a)
  }

  /** A laid-out cache with at least one entry is ready for the scan. */
  lemma LayoutScanReady<K, V>(c: Cache<K, V>, a: seq<nat>, f: seq<nat>)
    requires Layout(c, a, f) && 0 < |a|
    ensures ScanReady(c, a)
  {
  }

  /** The slot `#evict` removes from a cache whose active list is `a`: always an active one. */
  function EvictVictim<K, V>(c: Cache<K, V>, a: seq<nat>): (v: nat)
    requires ScanReady(c, a)
    ensures v in a
  {
    var r := Rotate(a, StartPos(c.links, a));
    var t := FirstUnvisited(c.visited, r);
    assert r[if t < |r| then t else 0] in a;
    Victim(r, t)
  }

  /** The victim is unvisited exactly when some active slot is: a visited slot is passed over while an unvisited one remains. */
  lemma VictimUnvisited<K, V>(c: Cache<K, V>, a: seq<nat>)
    requires ScanReady(c, a)
    ensures (exists y :: y in a && !c.visited[y]) <==> !c.visited[EvictVictim(c, a)]
  {
    var s := StartPos(c.links, a);
    RotateHas(a, s);
    VictimClear(c.visited, Rotate(a, s));
  }

  /** The scan's stopping entry is unvisited exactly when some entry is. */
  lemma VictimClear(visited: seq<bool>, r: seq<nat>)
    requires 0 < |r| && InRange(r, 0, |visited|)
    ensures (exists y :: y in r && !visited[y]) <==> !visited[Victim(r, FirstUnvisited(visited, r))]
  {
    var t := FirstUnvisited(visited, r);
    if y :| y in r && !visited[y] {
      var j :| 0 <= j < |r| && r[j] == y;
      assert t <= j;
    }
  }

  /** The scan of `#evict` stops on `EvictVictim` and clears exactly the bits it passes. */
  lemma EvictScan<K, V>(c: Cache<K, V>, a: seq<nat>)
    requires ScanReady(c, a)
    ensures var start := if c.links.hand == 0 then c.links.tail else c.links.hand;
      var (w, victim) := Sweep(c.visited, c.links.next, c.links.tail, start);
      var r := Rotate(a, StartPos(c.links, a));
      var t := FirstUnvisited(c.visited, r);
      && victim == EvictVictim(c, a)
      && (forall i :: 0 <= i < |r| ==> w[r[i]] == (c.visited[r[i]] && t <= i))
      && (forall x :: 0 <= x < |c.visited| && x !in a ==> w[x] == c.visited[x])
  {
    var l := c.links;
    SweepRotation(c.visited, l.next, l.previous, l.head, l.tail, a, StartPos(l, a));
  }

  /** Moving the hand onto an active slot and changing visited bits keeps the layout. */
  lemma ScanKeepsLayout<K, V>(c: Cache<K, V>, a: seq<nat>, f: seq<nat>, w: seq<bool>, victim: nat)
    requires Layout(c, a, f) && |w| == |c.visited| && victim in a
    ensures Layout(c.(visited := w, links := c.links.(hand := victim)), a, f)
  {
  }

  /** `#evict` is the scan followed by `#removeNode` on the slot the hand stops on. */
  lemma EvictUnfold<K, V>(c: Cache<K, V>, a: seq<nat>)
    requires ScanReady(c, a)
    ensures var start := if c.links.hand == 0 then c.links.tail else c.links.hand;
      var w := Sweep(c.visited, c.links.next, c.links.tail, start).0;
      var victim := EvictVictim(c, a);
      Evict(c) == RemoveNode(c.(visited := w, links := c.links.(hand := victim)), victim)
  {
    EvictScan(c, a);
  }

  /**
    `#evict` on a full cache laid out as `a`, `f`: the SIEVE victim leaves the
    active list and joins the free list, its key leaves the index and its
    value is cleared, and the hand rests on the victim's successor (0 past
    the head).
  */
  lemma EvictLayout<K, V>(c: Cache<K, V>, a: seq<nat>, f: seq<nat>)
    requires Layout(c, a, f) && 0 < |a|
    ensures ScanReady(c, a)
    ensures var victim := EvictVictim(c, a);
      var p := IndexOf(a, victim);
      var e := Evict(c);
      && Layout(e, RemoveAt(a, p), f + [victim])
      && e.index == KeyIndex.Remove(c.index, c.keys[victim].value)
      && e.links.hand == (if p + 1 < |a| then a[p + 1] else 0)
      && e.keys == c.keys && e.values == c.values[victim := None] && e.policy == c.policy
  {
    LayoutScanReady(c, a, f);
    var l := c.links;
    var start := if l.hand == 0 then l.tail else l.hand;
    var w := Sweep(c.visited, l.next, l.tail, start).0;
    var victim := EvictVictim(c, a);
    var p := IndexOf(a, victim);
    var c1 := c.(visited := w, links := l.(hand := victim));
    ScanKeepsLayout(c, a, f, w, victim);
    RemoveNodeLayout(c1, a, f, p);
    EvictUnfold(c, a);
  }

  /** `#evict` clears exactly the visited bits the scan passed over, and no others. */
  lemma EvictVisited<K, V>(c: Cache<K, V>, a: seq<nat>)
    requires ScanReady(c, a)
    ensures var e := Evict(c);
      var r := Rotate(a, StartPos(c.links, a));
      var t := FirstUnvisited(c.visited, r);
      && (forall i :: 0 <= i < |r| ==> e.visited[r[i]] == (c.visited[r[i]] && t <= i))
      && (forall x :: 0 <= x < |c.visited| && x !in a ==> e.visited[x] == c.visited[x])
  {
    EvictScan(c, a);
  }
}
