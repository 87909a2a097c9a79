/** The ten-slot ring of commands: aesd-char-driver/aesd-circular-buffer.c. */
module CircularBuffer {
  import opened Streams
  import opened Slots
  import opened KernelHeap

  const SIZE_MAX: nat := 0xFFFF_FFFF_FFFF_FFFF

  /** A heap address and the number of bytes stored there. */
  datatype Entry = Entry(buffptr: nat, size: nat)

  const EMPTY: Entry := Entry(NULL, 0)

  /** The contents of a ring buffer object, as a value. */
  datatype Ring = Ring(entry: seq<Entry>, inOffs: nat, outOffs: nat, full: bool) {
    predicate Wellformed() {
      |entry| == CAPACITY && inOffs < CAPACITY && outOffs < CAPACITY
    }
  }

  /** The sizes of the slots, slot 0 first. */
  function SlotSizes(entries: seq<Entry>): (ns: seq<nat>)
    ensures |ns| == |entries|
    ensures forall i :: 0 <= i < |ns| ==> ns[i] == entries[i].size
  {
    seq(|entries|, i requires 0 <= i < |entries| => entries[i].size)
  }

  /** The sizes of the slots in the order of the search, outOffs first. */
  function LogicalSizes(r: Ring): (ns: seq<nat>)
    requires r.Wellformed()
    ensures |ns| == CAPACITY
  {
    Rotate(SlotSizes(r.entry), r.outOffs)
  }

  lemma LogicalSizeAt(r: Ring, i: nat)
    requires r.Wellformed() && i < CAPACITY
    ensures LogicalSizes(r)[i] == r.entry[(i + r.outOffs) % CAPACITY].size
  {
  }

  lemma EmptyPrefix(sizes: seq<nat>)
    ensures Sum(sizes[..0]) == 0
  {
  }

  function Cleared(): (r: Ring)
    ensures r.Wellformed()
    ensures forall i :: 0 <= i < CAPACITY ==> r.entry[i] == EMPTY
  {
    Ring(Padding(0, EMPTY), 0, 0, false)
  }

  /** What adding one entry does to any ring, whatever its slots hold: AddEntry as a function of values. */
  function Added(r: Ring, e: Entry): (a: Ring)
    requires r.Wellformed()
    ensures a.Wellformed()
  {
    var overwrites := r.inOffs == r.outOffs && r.entry[r.outOffs].size > 0;
    Ring(r.entry[r.inOffs := e],
         (r.inOffs + 1) % CAPACITY,
         if overwrites then (r.outOffs + 1) % CAPACITY else r.outOffs,
         r.full || overwrites)
  }

  class CircularBuffer {
    const entry: array<Entry>
    var inOffs: nat
    var outOffs: nat
    var full: bool

    ghost predicate Valid()
      reads this, entry
    {
      Value().Wellformed()
    }

    ghost function Value(): Ring
      reads this, entry
    {
      Ring(entry[..], inOffs, outOffs, full)
    }

    /** aesd_circular_buffer_init: every field zero. */
    constructor ()
      ensures Valid() && fresh(entry)
      ensures Value() == Cleared()
    {
      entry := new Entry[CAPACITY](_ => EMPTY);
      inOffs, outOffs, full := 0, 0, false;
    }

    /** aesd_circular_buffer_add_entry. */
    method AddEntry(e: Entry)
      requires Valid()
      modifies this, entry
      ensures Valid()
      ensures Value() == Added(old(Value()), e)
    {
      if inOffs == outOffs && entry[outOffs].size > 0 {
        full := true;
        outOffs := (outOffs + 1) % CAPACITY;
      }
      entry[inOffs] := e;
      inOffs := (inOffs + 1) % CAPACITY;
    }

    /**
     * aesd_circular_buffer_find_entry_offset_for_fpos. The slot and the offset in it are those
     * of the only logical position (k, o) that names charOffset; no sum leaves size_t.
     */
    method FindEntryOffsetForFpos(charOffset: nat) returns (found: Option<(nat, nat)>)
      requires Valid() && Sum(LogicalSizes(Value())) <= SIZE_MAX
      ensures found.None? <==> Sum(LogicalSizes(Value())) <= charOffset
      ensures found.Some? ==> exists k: nat ::
        && found.value.0 == (k + outOffs) % CAPACITY
        && Names(LogicalSizes(Value()), charOffset, k, found.value.1)
    {
      hide Locate, Sum, LogicalSizes;
      ghost var sizes := LogicalSizes(Value());
      LocateInverse(sizes, charOffset);
      EmptyPrefix(sizes);
      var cumulative := 0;
      for i := 0 to CAPACITY
        invariant cumulative == Sum(sizes[..i]) <= charOffset
      {
        var slot := (i + outOffs) % CAPACITY;
        LogicalSizeAt(Value(), i);
        SumPrefix(sizes, i);
        assert cumulative + entry[slot].size <= SIZE_MAX;
        if cumulative + entry[slot].size > charOffset {
          assert Names(sizes, charOffset, i, charOffset - cumulative);
          return Some((slot, charOffset - cumulative));
        }
        cumulative := cumulative + entry[slot].size;
      }
      assert sizes[..CAPACITY] == sizes;
      return None;
    }
  }

  // ---------- Unbounded runs of additions ----------

  /** The ring after adding entries one by one to a cleared ring. */
  function AddAll(adds: seq<Entry>): (r: Ring)
    ensures r.Wellformed()
  {
    if adds == [] then Cleared() else Added(AddAll(adds[..|adds| - 1]), adds[|adds| - 1])
  }

  /** The ring that holds the last ten entries of a history, in closed form. */
  function RingOf(adds: seq<Entry>): (r: Ring)
    ensures r.Wellformed()
  {
    var n := |adds|;
    Ring(SlotsOf(adds, EMPTY), n % CAPACITY, Oldest(n), n > CAPACITY)
  }

  /** The closed form survives one more addition exactly if the entry it should evict is seen as occupied. */
  lemma RingOfSnoc(adds: seq<Entry>, e: Entry)
    ensures Added(RingOf(adds), e) == RingOf(adds + [e])
      <==> |adds| < CAPACITY || adds[|adds| - CAPACITY].size > 0
  {
    hide SlotsOf;
    var n, r := |adds|, RingOf(adds);
    SlotsSnoc(adds, e, EMPTY);
    OldestSnoc(n);
    NextSlot(adds);
    assert Added(r, e).entry == RingOf(adds + [e]).entry;
    assert Added(r, e).inOffs == RingOf(adds + [e]).inOffs;
  }

  /** What the next addition finds in its slot. */
  lemma NextSlot(adds: seq<Entry>)
    ensures |adds| >= CAPACITY ==> SlotsOf(adds, EMPTY)[|adds| % CAPACITY] == adds[|adds| - CAPACITY]
    ensures |adds| < CAPACITY ==> SlotsOf(adds, EMPTY)[|adds|] == EMPTY
  {
  }

  /** Every entry whose slot has been taken over had a positive size. */
  predicate EvictedArePositive(adds: seq<Entry>) {
    forall j :: 0 <= j < |adds| - CAPACITY ==> adds[j].size > 0
  }

  ghost predicate RefinesThroughout(adds: seq<Entry>) {
    forall n :: 0 <= n <= |adds| ==> AddAll(adds[..n]) == RingOf(adds[..n])
  }

  lemma RefinesSnoc(adds: seq<Entry>, e: Entry)
    ensures RefinesThroughout(adds + [e])
      <==> RefinesThroughout(adds) && AddAll(adds + [e]) == RingOf(adds + [e])
  {
    var more := adds + [e];
    assert forall n :: 0 <= n <= |adds| ==> adds[..n] == more[..n];
    assert more[..|more|] == more;
  }

  lemma EvictedSnoc(adds: seq<Entry>, e: Entry)
    ensures EvictedArePositive(adds + [e])
      <==> EvictedArePositive(adds) && (|adds| < CAPACITY || adds[|adds| - CAPACITY].size > 0)
  {
    var more := adds + [e];
    assert forall j :: 0 <= j < |adds| ==> more[j] == adds[j];
  }

  lemma RefinesStep(adds: seq<Entry>, e: Entry)
    ensures RefinesThroughout(adds + [e])
      <==> RefinesThroughout(adds) && (|adds| < CAPACITY || adds[|adds| - CAPACITY].size > 0)
  {
    RefinesSnoc(adds, e);
    RingOfSnoc(adds, e);
    assert adds[..|adds|] == adds;
    assert (adds + [e])[..|adds|] == adds;
    assert AddAll(adds + [e]) == Added(AddAll(adds), e);
  }

  /**
   * The ring is the closed form of its history, at every point of a run of any length,
   * exactly if every entry that gets evicted is non-empty.
   */
  lemma {:induction false} RingRefinesHistory(adds: seq<Entry>)
    ensures RefinesThroughout(adds) <==> EvictedArePositive(adds)
  {
    if adds == [] {
      assert AddAll([]) == RingOf([]);
    } else {
      var init, e := adds[..|adds| - 1], adds[|adds| - 1];
      assert adds == init + [e];
      RingRefinesHistory(init);
      RefinesStep(init, e);
      EvictedSnoc(init, e);
    }
  }

  /** A cleared ring given an empty command first: the eleventh command is then not seen as an overwrite. */
  lemma EmptyEntryBreaksRing()
    ensures var adds := [Entry(1, 0)] + seq(CAPACITY, _ => Entry(1, 1));
      && AddAll(adds).outOffs == 0 && !AddAll(adds).full
      && RingOf(adds).outOffs == 1 && RingOf(adds).full
  {
    var adds := [Entry(1, 0)] + seq(CAPACITY, _ => Entry(1, 1));
    var ten := adds[..CAPACITY];
    assert EvictedArePositive(ten);
    RingRefinesHistory(ten);
    assert ten[..CAPACITY] == ten;
    assert AddAll(ten) == RingOf(ten);
    LastIndexUnique(CAPACITY, 0, 0);
    assert adds == ten + [adds[CAPACITY]];
  }

  /** With positive sizes, slots read from outOffs are the last ten entries and then empty slots. */
  lemma RingHoldsLastTen(adds: seq<Entry>)
    requires forall e :: e in adds ==> e.size > 0
    ensures AddAll(adds) == RingOf(adds)
    ensures Rotate(AddAll(adds).entry, AddAll(adds).outOffs) == Visible(adds) + Padding(|adds|, EMPTY)
    ensures AddAll(adds).full <==> |adds| > CAPACITY
  {
    RingRefinesHistory(adds);
    assert adds[..|adds|] == adds;
    SlotsInOrder(adds, EMPTY);
  }
}
