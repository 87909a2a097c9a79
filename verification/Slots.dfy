/**
 * Where the last ten elements of a growing history sit in ten slots that are
 * overwritten round and round, and how to read them back oldest first.
 */
module Slots {
  import opened Streams

  const CAPACITY: nat := 10  // AESDCHAR_MAX_WRITE_OPERATIONS_SUPPORTED

  /** The elements of a history that are still held. */
  function Visible<T>(h: seq<T>): (v: seq<T>)
    ensures |v| == Min(|h|, CAPACITY)
  {
    if |h| <= CAPACITY then h else h[|h| - CAPACITY..]
  }

  /** The elements of a history that have been overwritten. */
  function Evicted<T>(h: seq<T>): seq<T> {
    if |h| <= CAPACITY then [] else h[..|h| - CAPACITY]
  }

  /** Ten elements are all held; each one after them evicts the oldest. */
  lemma TenAreHeld<T>(h: seq<T>, x: T)
    ensures |h| <= 10 ==> Visible(h) == h && Evicted(h) == []
    ensures |h| >= 10 ==>
      && |Visible(h)| == 10
      && Visible(h + [x]) == Visible(h)[1..] + [x]
      && Evicted(h + [x]) == Evicted(h) + [Visible(h)[0]]
  {
    if |h| >= 10 {
      var v, w := Visible(h), Visible(h + [x]);
      assert |w| == 10 && forall k :: 0 <= k < 10 ==> w[k] == (v[1..] + [x])[k];
      assert Evicted(h + [x]) == Evicted(h) + [v[0]];
    }
  }

  /** The largest index below n that is congruent to slot. */
  function LastIndex(n: nat, slot: nat): (j: nat)
    requires slot < CAPACITY && slot < n
    ensures j < n && j % CAPACITY == slot && n <= j + CAPACITY
  {
    n - 1 - (n - 1 - slot) % CAPACITY
  }

  /** Slot by slot, the last element written to each slot. */
  function SlotsOf<T>(h: seq<T>, empty: T): (s: seq<T>)
    ensures |s| == CAPACITY
  {
    seq(CAPACITY, i requires 0 <= i < CAPACITY => if i < |h| then h[LastIndex(|h|, i)] else empty)
  }

  /** The slot of the oldest element still held, after n elements. */
  function Oldest(n: nat): (o: nat)
    ensures o < CAPACITY
  {
    if n <= CAPACITY then 0 else n % CAPACITY
  }

  function Rotate<T>(s: seq<T>, r: nat): (t: seq<T>)
    requires r <= |s|
    ensures |t| == |s|
    ensures forall k :: 0 <= k < |s| ==> t[k] == s[if r + k < |s| then r + k else r + k - |s|]
  {
    s[r..] + s[..r]
  }

  function Padding<T>(n: nat, empty: T): (p: seq<T>)
    ensures |p| == CAPACITY - Min(n, CAPACITY)
    ensures forall i :: 0 <= i < |p| ==> p[i] == empty
  {
    seq(CAPACITY - Min(n, CAPACITY), _ => empty)
  }

  /** An index congruent to slot and among the last ten is the one that fills the slot. */
  lemma LastIndexUnique(n: nat, slot: nat, j: nat)
    requires slot < CAPACITY && j < n <= j + CAPACITY && j % CAPACITY == slot
    ensures slot < n && LastIndex(n, slot) == j
  {
  }

  /** The slot read k places after the oldest holds the k-th of the last ten elements. */
  lemma LogicalIndex(n: nat, k: nat) returns (slot: nat)
    requires n > CAPACITY > k
    ensures slot == if Oldest(n) + k < CAPACITY then Oldest(n) + k else Oldest(n) + k - CAPACITY
    ensures slot < CAPACITY && LastIndex(n, slot) == n - CAPACITY + k
  {
    slot := if Oldest(n) + k < CAPACITY then Oldest(n) + k else Oldest(n) + k - CAPACITY;
    var q := n / CAPACITY;
    assert n == CAPACITY * q + Oldest(n);
    assert (n - CAPACITY + k) % CAPACITY == slot;
    LastIndexUnique(n, slot, n - CAPACITY + k);
  }

  /** Reading the ten slots from the oldest one gives the held elements in order, then the unused slots. */
  lemma SlotsInOrder<T>(h: seq<T>, empty: T)
    ensures Rotate(SlotsOf(h, empty), Oldest(|h|)) == Visible(h) + Padding(|h|, empty)
  {
    var n, s, v := |h|, SlotsOf(h, empty), Visible(h) + Padding(|h|, empty);
    var r := Rotate(s, Oldest(n));
    forall k | 0 <= k < CAPACITY
      ensures r[k] == v[k]
    {
      if n > CAPACITY {
        var slot := LogicalIndex(n, k);
        assert r[k] == s[slot] == h[n - CAPACITY + k];
      } else if k < n {
        LastIndexUnique(n, k, k);
        assert r[k] == s[k] == h[k];
      } else {
        assert r[k] == s[k] == empty;
      }
    }
  }

  /** Whether an older element still fills its slot once n elements have become n + 1. */
  lemma LastIndexSnoc(n: nat, i: nat)
    requires i < CAPACITY
    ensures i == n % CAPACITY ==> LastIndex(n + 1, i) == n
    ensures i != n % CAPACITY && i < n ==> LastIndex(n + 1, i) == LastIndex(n, i)
    ensures i != n % CAPACITY && i >= n ==> i >= n + 1
  {
    if i == n % CAPACITY {
      LastIndexUnique(n + 1, i, n);
    } else if i < n {
      var l := LastIndex(n, i);
      assert n != l + CAPACITY;
      LastIndexUnique(n + 1, i, l);
    }
  }

  /** One more element changes exactly the slot whose turn it is. */
  lemma SlotsSnoc<T>(h: seq<T>, x: T, empty: T)
    ensures SlotsOf(h + [x], empty) == SlotsOf(h, empty)[|h| % CAPACITY := x]
  {
    var n, s, t := |h|, SlotsOf(h, empty), SlotsOf(h + [x], empty);
    forall i | 0 <= i < CAPACITY
      ensures t[i] == s[n % CAPACITY := x][i]
    {
      LastIndexSnoc(n, i);
      if i < n + 1 {
        assert t[i] == (h + [x])[LastIndex(n + 1, i)];
      }
    }
  }

  lemma ModOnce(n: nat)
    requires n < CAPACITY + CAPACITY
    ensures n % CAPACITY == if n < CAPACITY then n else n - CAPACITY
  {
  }

  /** The oldest slot moves on exactly when an element is evicted; only then has the turn come round to it. */
  lemma OldestSnoc(n: nat)
    ensures (n + 1) % CAPACITY == (n % CAPACITY + 1) % CAPACITY
    ensures n >= CAPACITY ==> n % CAPACITY == Oldest(n)
    ensures n >= CAPACITY ==> Oldest(n + 1) == (Oldest(n) + 1) % CAPACITY != Oldest(n)
    ensures n < CAPACITY ==> n % CAPACITY == n && Oldest(n) == Oldest(n + 1) == 0
  {
  }

  lemma SplitHistory<T>(h: seq<T>)
    ensures Evicted(h) + Visible(h) == h
  {
  }
}
