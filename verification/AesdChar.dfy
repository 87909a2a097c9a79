/** The character device: aesd-char-driver/main.c. */
module AesdChar {
  import opened Streams
  import opened Slots
  import opened CircularBuffer
  import opened DeviceLog
  import opened DeviceView
  import opened KernelHeap

  const EFAULT: int := 14
  const EINVAL: int := 22
  const ENOMEM: int := 12
  const ENOTTY: int := 25

  const LLONG_MAX: nat := 0x7FFF_FFFF_FFFF_FFFF
  const LLONG_MIN: int := -0x8000_0000_0000_0000
  const SSIZE_MAX: nat := 0x7FFF_FFFF_FFFF_FFFF

  const AESDCHAR_IOCSEEKTO: nat := 0xC008_1601  // _IOWR(0x16, 1, struct aesd_seekto)

  /** The numbers that calls return, and the ioctl's number from its direction, size, type and index. */
  lemma Numbers()
    ensures (EFAULT, EINVAL, ENOMEM, ENOTTY) == (14, 22, 12, 25)
    ensures AESDCHAR_IOCSEEKTO == 3 * 0x4000_0000 + 8 * 0x1_0000 + 0x16 * 0x100 + 1
    ensures LLONG_MAX == SSIZE_MAX == 9223372036854775807 && LLONG_MIN == 0 - LLONG_MAX - 1
  {
  }

  type Blocks = map<nat, Bytes>

  /** A file opened on the device: only its position matters. */
  class OpenFile {
    var fPos: nat

    constructor ()
      ensures fPos == 0
    {
      fPos := 0;
    }
  }

  /**
   * Which of the calls a write makes go wrong, whether growing a block moves it, and what the
   * released block then still reads as.
   */
  datatype Faults =
    Faults(kmallocFails: bool, copyFails: bool, kreallocFails: bool, moves: bool, stale: Bytes)
  {
    /** The errno of the write, or 0; a first write of a command does not grow anything. */
    function Errno(pending: Bytes): int {
      if kmallocFails then ENOMEM
      else if copyFails then EFAULT
      else if pending != [] && kreallocFails then ENOMEM
      else 0
    }

    /** The start of the grown command: it is copied once more, from where the block was before. */
    function Kept(pending: Bytes): (kept: Bytes)
      ensures |kept| == |pending|
    {
      if pending != [] && moves then StaleBytes(stale, |pending|) else pending
    }
  }

  /** The device after a write that may go wrong. */
  function AfterWrite(d: DevLog, buf: Bytes, faults: Faults): DevLog {
    if faults.Errno(d.pending) != 0 then d
    else Accumulate(DevLog(d.history, faults.Kept(d.pending)), buf)
  }

  /** The outcome of a write in terms of what goes wrong: moving the block is not an error. */
  lemma WriteOutcome(d: DevLog, buf: Bytes, faults: Faults)
    ensures faults.Errno(d.pending) == 0 <==>
      !faults.kmallocFails && !faults.copyFails && (d.pending == [] || !faults.kreallocFails)
    ensures faults.Errno(d.pending) != 0 ==>
      && faults.Errno(d.pending) == (if !faults.kmallocFails && faults.copyFails then EFAULT else ENOMEM)
      && AfterWrite(d, buf, faults) == d
    ensures faults.Errno(d.pending) == 0 && (d.pending == [] || !faults.moves) ==>
      AfterWrite(d, buf, faults) == Accumulate(d, buf)
    ensures faults.Errno(d.pending) == 0 && d.pending != [] && faults.moves ==>
      AfterWrite(d, buf, faults) == Accumulate(DevLog(d.history, StaleBytes(faults.stale, |d.pending|)), buf)
  {
    hide Accumulate, StaleBytes;
  }

  lemma StreamOfWrite(d: DevLog, buf: Bytes, faults: Faults)
    requires faults.Errno(d.pending) == 0
    ensures Stream(AfterWrite(d, buf, faults)) == Flat(d.history) + faults.Kept(d.pending) + buf
  {
    AccumulateConserves(DevLog(d.history, faults.Kept(d.pending)), buf);
  }

  /** A successful write appends its bytes to the stream if and only if the second copy kept the old ones. */
  lemma WriteConserves(d: DevLog, buf: Bytes, faults: Faults)
    requires faults.Errno(d.pending) == 0
    ensures Stream(AfterWrite(d, buf, faults)) == Stream(d) + buf <==> faults.Kept(d.pending) == d.pending
  {
    StreamOfWrite(d, buf, faults);
    var h, kept, n := Flat(d.history), faults.Kept(d.pending), |d.pending|;
    assert (h + kept + buf)[|h|..|h| + n] == kept;
    assert (h + d.pending + buf)[|h|..|h| + n] == d.pending;
  }

  /** Whatever a released block may hold, the stream is conserved. */
  ghost predicate AlwaysConserves(d: DevLog, buf: Bytes, faults: Faults) {
    forall stale: Bytes :: Stream(AfterWrite(d, buf, faults.(stale := stale))) == Stream(d) + buf
  }

  /**
   * A successful write is sure to append its bytes to the stream, and to change no other, if and
   * only if no command was pending or its block was grown in place.
   */
  lemma ConservesExactlyInPlace(d: DevLog, buf: Bytes, faults: Faults)
    requires faults.Errno(d.pending) == 0
    ensures AlwaysConserves(d, buf, faults) <==> d.pending == [] || !faults.moves
  {
    hide Stream, AfterWrite;
    forall stale: Bytes
      ensures Stream(AfterWrite(d, buf, faults.(stale := stale))) == Stream(d) + buf
        <==> faults.(stale := stale).Kept(d.pending) == d.pending
    {
      WriteConserves(d, buf, faults.(stale := stale));
    }
    if d.pending != [] && faults.moves {
      var other: Bytes := [if d.pending[0] == 0 then 1 else 0];
      assert StaleBytes(other, |d.pending|)[0] != d.pending[0];
      assert faults.(stale := other).Kept(d.pending) != d.pending;
    }
  }

  /** A signed 64-bit sum. */
  function Wrap64(n: int): int {
    (n + 0x8000_0000_0000_0000) % 0x1_0000_0000_0000_0000 - 0x8000_0000_0000_0000
  }

  /** A sum that overflows once comes out negative. */
  lemma WrapOnce(n: int)
    requires LLONG_MIN <= n <= 2 * LLONG_MAX + 1
    ensures n <= LLONG_MAX ==> Wrap64(n) == n
    ensures n > LLONG_MAX ==> Wrap64(n) < 0
  {
  }

  function Pointers(entries: seq<Entry>): set<nat> {
    set e | e in entries :: e.buffptr
  }

  /** The block of the pending command, if there is one. */
  function PendingPointer(entry: Entry): set<nat> {
    if entry.buffptr == NULL then {} else {entry.buffptr}
  }

  ghost predicate DistinctPointers(entries: seq<Entry>) {
    forall i, j :: 0 <= i < j < |entries| ==> entries[i].buffptr != entries[j].buffptr
  }

  /** The entry describes a live block with exactly these bytes. */
  ghost predicate Describes(blocks: Blocks, e: Entry, bytes: Bytes) {
    e.buffptr in blocks && blocks[e.buffptr] == bytes && e.size == |bytes|
  }

  /**
   * The heap holds one block for each command ever committed and one for the pending command,
   * and nothing else; no two share a block.
   */
  ghost predicate Stores(blocks: Blocks, adds: seq<Entry>, entry: Entry, log: DevLog) {
    && NULL !in blocks
    && |adds| == |log.history|
    && (forall i :: 0 <= i < |adds| ==> Describes(blocks, adds[i], log.history[i]) && adds[i].size > 0)
    && (if entry.buffptr == NULL then entry.size == 0 && log.pending == []
        else Describes(blocks, entry, log.pending) && log.pending != [])
    && DistinctPointers(adds)
    && entry.buffptr !in Pointers(adds)
    && blocks.Keys == Pointers(adds) + PendingPointer(entry)
  }

  // ---------- Reads: from slots to commands ----------

  lemma RingSizes(blocks: Blocks, adds: seq<Entry>, entry: Entry, log: DevLog)
    requires Stores(blocks, adds, entry, log)
    ensures SlotSizes(RingOf(adds).entry) == PhysicalSizes(log.history)
    ensures LogicalSizes(RingOf(adds)) == CommandSizes(log.history)
  {
    CommandSizesRotate(log.history);
  }

  lemma LogicalSlot(adds: seq<Entry>, k: nat)
    requires k < |Visible(adds)|
    ensures RingOf(adds).entry[(k + Oldest(|adds|)) % CAPACITY] == Visible(adds)[k]
  {
    hide SlotsOf, Visible, Rotate;
    SlotsInOrder(adds, EMPTY);
    var r := Rotate(SlotsOf(adds, EMPTY), Oldest(|adds|));
    assert r[k] == Visible(adds)[k];
    ModOnce(k + Oldest(|adds|));
  }

  /** What the search finds is a live block holding the command that the flat position falls in. */
  lemma FoundSlot(blocks: Blocks, adds: seq<Entry>, entry: Entry, log: DevLog, pos: nat, k: nat, o: nat)
    requires Stores(blocks, adds, entry, log)
    requires Names(CommandSizes(log.history), pos, k, o)
    ensures Locate(Sizes(Visible(log.history)), pos) == Some((k, o))
    ensures k < |Visible(log.history)|
    ensures Describes(blocks, RingOf(adds).entry[(k + Oldest(|adds|)) % CAPACITY], Visible(log.history)[k])
  {
    hide Sum, Locate, RingOf, Rotate;
    LocateInverse(CommandSizes(log.history), pos);
    LocateIgnoresPadding(log.history, pos);
    LogicalSlot(adds, k);
  }

  /** The search answers the read: no slot at the end of the contents, else the block to copy from. */
  lemma SearchServesRead(blocks: Blocks, adds: seq<Entry>, entry: Entry, log: DevLog, pos: nat, count: nat,
                         found: Option<(nat, nat)>)
    requires Stores(blocks, adds, entry, log)
    requires found.None? <==> Sum(LogicalSizes(RingOf(adds))) <= pos
    requires found.Some? ==> exists k: nat ::
      && found.value.0 == (k + RingOf(adds).outOffs) % CAPACITY
      && Names(LogicalSizes(RingOf(adds)), pos, k, found.value.1)
    ensures found.None? <==> |Contents(log)| <= pos
    ensures found.Some? ==> found.value.0 < CAPACITY
    ensures found.Some? ==>
      var e, o := RingOf(adds).entry[found.value.0], found.value.1;
      && e.buffptr in blocks && o < e.size == |blocks[e.buffptr]|
      && ReadAt(Visible(log.history), pos, count) == blocks[e.buffptr][o..o + Min(count, e.size - o)]
  {
    hide Sum, Flat, Locate, Names, RingOf, LogicalSizes, CommandSizes, Stores, Describes, ReadAt, Contents;
    RingSizes(blocks, adds, entry, log);
    TotalSize(blocks, adds, entry, log);
    if found.Some? {
      var o := found.value.1;
      var k: nat :| found.value.0 == (k + RingOf(adds).outOffs) % CAPACITY
        && Names(LogicalSizes(RingOf(adds)), pos, k, o);
      FoundSlot(blocks, adds, entry, log, pos, k, o);
      OldestSlot(adds);
      ReadFromBlock(blocks, RingOf(adds).entry[found.value.0], Visible(log.history), pos, k, o, count);
    }
  }

  lemma ReadFromBlock(blocks: Blocks, e: Entry, commands: seq<Bytes>, pos: nat, k: nat, o: nat, count: nat)
    requires Locate(Sizes(commands), pos) == Some((k, o)) && Describes(blocks, e, commands[k])
    ensures e.buffptr in blocks && o < e.size == |blocks[e.buffptr]|
    ensures ReadAt(commands, pos, count) == blocks[e.buffptr][o..o + Min(count, e.size - o)]
  {
  }

  lemma OldestSlot(adds: seq<Entry>)
    ensures RingOf(adds).outOffs == Oldest(|adds|)
  {
  }

  lemma TotalSize(blocks: Blocks, adds: seq<Entry>, entry: Entry, log: DevLog)
    requires Stores(blocks, adds, entry, log)
    ensures Sum(LogicalSizes(RingOf(adds))) == Sum(SlotSizes(RingOf(adds).entry)) == |Contents(log)|
  {
    RingSizes(blocks, adds, entry, log);
    SizeIgnoresRotation(log);
  }

  // ---------- Writes, on values ----------

  /** The pending command moved to (or kept in) block q, with new contents. */
  lemma PendingReplaced(before: Blocks, adds: seq<Entry>, entry: Entry, log: DevLog, q: nat, bytes: Bytes)
    requires Stores(before, adds, entry, log)
    requires q != NULL && (q !in before || q == entry.buffptr) && bytes != []
    ensures Stores((before - PendingPointer(entry))[q := bytes], adds, Entry(q, |bytes|), DevLog(log.history, bytes))
  {
  }

  /** The pending command's block becomes the newest command's block. */
  lemma PendingCommitted(blocks: Blocks, adds: seq<Entry>, entry: Entry, log: DevLog)
    requires Stores(blocks, adds, entry, log) && entry.buffptr != NULL
    ensures Stores(blocks, adds + [entry], EMPTY, DevLog(log.history + [log.pending], []))
  {
  }

  /** The bytes the driver can reach: the held commands and the pending one. */
  function Reachable(log: DevLog): nat {
    |Contents(log)| + |log.pending|
  }

  lemma VisibleGrows(history: seq<Bytes>, c: Bytes)
    ensures |Flat(Visible(history + [c]))| <= |Flat(Visible(history))| + |c|
  {
    var v := Visible(history);
    FlatSnoc(v, c);
    if |history| < CAPACITY {
      assert Visible(history + [c]) == v + [c];
    } else {
      assert Visible(history + [c]) == (v + [c])[1..];
    }
  }

  lemma WriteBound(log: DevLog, kept: Bytes, bytes: Bytes)
    requires |kept| == |log.pending|
    ensures Reachable(Accumulate(DevLog(log.history, kept), bytes)) <= Reachable(log) + |bytes|
  {
    hide Flat;
    VisibleGrows(log.history, kept + bytes);
  }

  /** Any bytes settle a log whose commands are: the last one decides. */
  lemma AccumulateSettles(log: DevLog, kept: Bytes, bytes: Bytes)
    requires Settled(log) && bytes != []
    ensures Settled(Accumulate(DevLog(log.history, kept), bytes))
  {
  }

  lemma PendingInHeap(blocks: Blocks, adds: seq<Entry>, entry: Entry, log: DevLog)
    requires Stores(blocks, adds, entry, log)
    ensures entry.size == |log.pending| && NULL !in blocks
    ensures entry.buffptr == NULL <==> log.pending == []
    ensures entry.buffptr != NULL ==> entry.buffptr in blocks && blocks[entry.buffptr] == log.pending
  {
  }

  /** A command is never empty, so the ring stays the closed form of its history. */
  lemma CommitKeepsRing(blocks: Blocks, adds: seq<Entry>, entry: Entry, log: DevLog, e: Entry)
    requires Stores(blocks, adds, entry, log)
    ensures Added(RingOf(adds), e) == RingOf(adds + [e])
  {
    RingOfSnoc(adds, e);
  }

  lemma Splice(block: Bytes, kept: Bytes, data: Bytes)
    requires kept <= block && |block| == |kept| + |data|
    ensures block[..|kept|] + data + block[|kept| + |data|..] == kept + data
    ensures [] + data == data
  {
  }

  /** Dropping the copy of the user's bytes undoes its allocation. */
  lemma CopyDropped(before: Blocks, n: nat, bytes: Bytes)
    requires n !in before
    ensures before[n := bytes] - {n} == before
  {
  }

  /** Growing block p into q beside a temporary block n, filling it in two copies, and dropping n. */
  lemma BlockGrown(before: Blocks, n: nat, copy: Bytes, p: nat, q: nat, grown: Bytes, half: Bytes, filled: Bytes)
    requires n !in before && p in before && q != n
    ensures (before[n := copy] - {p})[q := grown][q := half][q := filled] - {n} == (before - {p})[q := filled]
  {
  }

  // ---------- Cleanup, on values ----------

  /** The blocks that the first n slots name. */
  function SlotPointers(slots: seq<Entry>, n: nat): set<nat>
    requires n <= |slots|
  {
    set i | 0 <= i < n && slots[i].buffptr != NULL :: slots[i].buffptr
  }

  /** No two slots name one block, so each is freed at most once. */
  lemma SlotNotYetFreed(blocks: Blocks, adds: seq<Entry>, entry: Entry, log: DevLog, i: nat)
    requires Stores(blocks, adds, entry, log) && i < CAPACITY
    ensures var slots := SlotsOf(adds, EMPTY);
      slots[i].buffptr != NULL ==> slots[i].buffptr in blocks.Keys - SlotPointers(slots, i)
  {
  }

  lemma RingSlots(adds: seq<Entry>)
    ensures RingOf(adds).entry == SlotsOf(adds, EMPTY)
  {
  }

  lemma VisibleInSlots(adds: seq<Entry>, k: nat)
    requires k < |Visible(adds)| && Visible(adds)[k].buffptr != NULL
    ensures Visible(adds)[k].buffptr in SlotPointers(SlotsOf(adds, EMPTY), CAPACITY)
  {
    LogicalSlot(adds, k);
    var i := (k + Oldest(|adds|)) % CAPACITY;
    RingSlots(adds);
    assert SlotsOf(adds, EMPTY)[i] == Visible(adds)[k];
  }

  lemma SlotInVisible(adds: seq<Entry>, i: nat)
    requires i < CAPACITY && SlotsOf(adds, EMPTY)[i].buffptr != NULL
    ensures SlotsOf(adds, EMPTY)[i] in Visible(adds)
  {
  }

  /** The blocks in the slots are those of the commands still held. */
  lemma SlotsNameVisible(blocks: Blocks, adds: seq<Entry>, entry: Entry, log: DevLog)
    requires Stores(blocks, adds, entry, log)
    ensures SlotPointers(SlotsOf(adds, EMPTY), CAPACITY) == Pointers(Visible(adds))
  {
    var slots := SlotsOf(adds, EMPTY);
    assert forall e :: e in Visible(adds) ==> e in adds && e.buffptr != NULL;
    forall k | 0 <= k < |Visible(adds)|
      ensures Visible(adds)[k].buffptr in SlotPointers(slots, CAPACITY)
    {
      VisibleInSlots(adds, k);
    }
    hide SlotsOf, Visible;
    forall p | p in SlotPointers(slots, CAPACITY)
      ensures p in Pointers(Visible(adds))
    {
      var i :| 0 <= i < CAPACITY && slots[i].buffptr != NULL && slots[i].buffptr == p;
      SlotInVisible(adds, i);
    }
  }

  lemma {:induction false} PointerCount(adds: seq<Entry>)
    requires DistinctPointers(adds)
    ensures |Pointers(adds)| == |adds|
  {
    if adds != [] {
      var init, e := adds[..|adds| - 1], adds[|adds| - 1];
      PointerCount(init);
      assert adds == init + [e];
      assert Pointers(adds) == Pointers(init) + {e.buffptr};
      assert e.buffptr !in Pointers(init);
    }
  }

  lemma PointersSplit(adds: seq<Entry>)
    requires DistinctPointers(adds)
    ensures Pointers(adds) == Pointers(Evicted(adds)) + Pointers(Visible(adds))
    ensures Pointers(Evicted(adds)) !! Pointers(Visible(adds))
    ensures DistinctPointers(Evicted(adds)) && DistinctPointers(Visible(adds))
  {
  }

  lemma NoSlotPointers(slots: seq<Entry>)
    ensures SlotPointers(slots, 0) == {}
  {
  }

  lemma SlotPointersSnoc(slots: seq<Entry>, i: nat)
    requires i < |slots|
    ensures SlotPointers(slots, i + 1) == SlotPointers(slots, i) + PendingPointer(slots[i])
  {
  }

  /** Freeing slot i's block, if it has one, leaves what freeing the first i + 1 slots leaves. */
  lemma FreeStep(blocks: Blocks, adds: seq<Entry>, entry: Entry, log: DevLog, i: nat)
    requires Stores(blocks, adds, entry, log) && i < CAPACITY
    ensures var slots := SlotsOf(adds, EMPTY);
      var p, left, next := slots[i].buffptr, blocks - SlotPointers(slots, i), blocks - SlotPointers(slots, i + 1);
      if p == NULL then left == next else p in left && left - {p} == next
  {
    SlotNotYetFreed(blocks, adds, entry, log, i);
    hide Stores, SlotsOf, SlotPointers;
    SlotPointersSnoc(SlotsOf(adds, EMPTY), i);
  }

  /** With the held commands' blocks gone, the evicted and the pending ones remain. */
  lemma CleanupLeaves(blocks: Blocks, adds: seq<Entry>, entry: Entry, log: DevLog)
    requires Stores(blocks, adds, entry, log)
    ensures Pointers(Visible(adds)) <= blocks.Keys
    ensures var rest := blocks - Pointers(Visible(adds));
      && rest.Keys == Pointers(Evicted(adds)) + PendingPointer(entry)
      && |rest| == |Evicted(log.history)| + (if log.pending == [] then 0 else 1)
  {
    hide Stores, Pointers, PendingPointer, DistinctPointers, Evicted, Visible;
    var ev, v, p := Pointers(Evicted(adds)), Pointers(Visible(adds)), PendingPointer(entry);
    HeapKeys(blocks, adds, entry, log);
    PointersSplit(adds);
    PointerCount(Evicted(adds));
    RemainingKeys(blocks, ev, v, p);
  }

  lemma RemainingKeys(blocks: Blocks, kept: set<nat>, freed: set<nat>, pending: set<nat>)
    requires blocks.Keys == kept + freed + pending
    requires kept !! freed && freed !! pending && kept !! pending
    ensures (blocks - freed).Keys == kept + pending && |blocks - freed| == |kept| + |pending|
  {
  }

  lemma HeapKeys(blocks: Blocks, adds: seq<Entry>, entry: Entry, log: DevLog)
    requires Stores(blocks, adds, entry, log)
    ensures blocks.Keys == Pointers(adds) + PendingPointer(entry)
    ensures Pointers(adds) !! PendingPointer(entry) && DistinctPointers(adds)
    ensures |PendingPointer(entry)| == (if log.pending == [] then 0 else 1)
    ensures |Evicted(adds)| == |Evicted(log.history)| && |Visible(adds)| == |Visible(log.history)|
  {
  }

  class AesdDevice {
    const buffer: CircularBuffer
    const heap: KernelHeap

    /** The pending command (struct aesd_dev.entry). */
    var entry: Entry

    /** Every entry ever added to the ring, and what the entries and the pending command hold. */
    ghost var adds: seq<Entry>
    ghost var log: DevLog

    ghost predicate Valid()
      reads this, buffer, buffer.entry, heap
    {
      && buffer.Valid() && heap.Valid()
      && buffer.Value() == RingOf(adds)
      && Stores(heap.blocks, adds, entry, log)
      && Settled(log)
      && Reachable(log) <= SSIZE_MAX
    }

    constructor ()
      ensures Valid() && fresh(buffer) && fresh(buffer.entry) && fresh(heap)
      ensures log == FRESH && adds == []
    {
      buffer := new CircularBuffer();
      heap := new KernelHeap();
      entry, adds, log := EMPTY, [], FRESH;
      new;
      assert Flat(Visible(FRESH.history)) == [];
    }

    /** aesd_read: the bytes of one command from the file's position on. */
    method Read(f: OpenFile, count: nat, copyFails: bool) returns (ret: int, data: Bytes)
      requires Valid() && f.fPos <= LLONG_MAX
      modifies f
      ensures var r := ReadAt(Visible(log.history), old(f.fPos), count);
        if |Contents(log)| <= old(f.fPos) then ret == 0 && data == [] && f.fPos == old(f.fPos)
        else if copyFails then ret == -EFAULT && data == [] && f.fPos == old(f.fPos)
        else data == r && ret == |r| && f.fPos == old(f.fPos) + |r|
    {
      hide Sum, Stores, RingOf, ReadAt, Contents, LogicalSizes, Names;
      TotalSize(heap.blocks, adds, entry, log);
      var found := buffer.FindEntryOffsetForFpos(f.fPos);
      SearchServesRead(heap.blocks, adds, entry, log, f.fPos, count, found);
      if found.None? {
        return 0, [];
      }
      var e, offset := buffer.entry[found.value.0], found.value.1;
      var bytesToRead := Min(count, e.size - offset);
      if copyFails {
        return -EFAULT, [];
      }
      data := heap.blocks[e.buffptr][offset..offset + bytesToRead];
      f.fPos := f.fPos + bytesToRead;
      ret := bytesToRead;
    }

    /** The start of aesd_write: a new block with the user's bytes. */
    method CopyIn(buf: Bytes, faults: Faults) returns (errno: int, newBuff: nat)
      requires heap.Valid()
      modifies heap
      ensures heap.Valid()
      ensures errno == if faults.kmallocFails then ENOMEM else if faults.copyFails then EFAULT else 0
      ensures errno != 0 ==> heap.blocks == old(heap.blocks)
      ensures errno == 0 ==>
        newBuff != NULL && newBuff !in old(heap.blocks) && heap.blocks == old(heap.blocks)[newBuff := buf]
    {
      ghost var before := heap.blocks;
      newBuff := heap.Kmalloc(|buf|, faults.kmallocFails);
      if newBuff == NULL {
        return ENOMEM, NULL;
      }
      CopyDropped(before, newBuff, heap.blocks[newBuff]);
      if faults.copyFails {
        heap.Kfree(newBuff);
        return EFAULT, NULL;
      }
      Splice(heap.blocks[newBuff], [], buf);
      heap.Memcpy(newBuff, 0, buf);
      assert heap.blocks == before[newBuff := buf];
      errno := 0;
    }

    /** The middle of aesd_write: the user's bytes become, or are appended to, the pending command. */
    method GrowPending(buf: Bytes, faults: Faults) returns (errno: int)
      requires Valid() && buf != []
      requires Reachable(log) + |buf| <= SSIZE_MAX
      modifies this, heap
      ensures heap.Valid() && adds == old(adds)
      ensures errno == faults.Errno(old(log.pending))
      ensures errno == 0 <==>
        !faults.kmallocFails && !faults.copyFails && (old(log.pending) == [] || !faults.kreallocFails)
      ensures errno != 0 ==> log == old(log) && entry == old(entry) && heap.blocks == old(heap.blocks)
      ensures errno == 0 ==>
        && log == DevLog(old(log.history), faults.Kept(old(log.pending)) + buf)
        && Stores(heap.blocks, adds, entry, log)
    {
      hide Stores, Contents, Settled, RingOf, Accumulate, Pointers, Flat;
      PendingInHeap(heap.blocks, adds, entry, log);
      ghost var before := heap.blocks;
      var newBuff: nat;
      errno, newBuff := CopyIn(buf, faults);
      if errno != 0 {
        return;
      }
      var combined := newBuff;
      ghost var kept := faults.Kept(log.pending);
      if entry.buffptr == NULL {
        assert kept + buf == buf;
        assert before - PendingPointer(entry) == before;
      } else {
        CopyDropped(before, newBuff, buf);
        errno, combined := AppendToPending(buf, newBuff, faults, before);
        if errno != 0 {
          return;
        }
      }
      PendingReplaced(before, adds, entry, log, combined, kept + buf);
      entry := Entry(combined, entry.size + |buf|);
      log := DevLog(log.history, kept + buf);
    }

    /** The else branch of aesd_write: krealloc, both copies, and the temporary block freed. */
    method AppendToPending(buf: Bytes, newBuff: nat, faults: Faults, ghost before: Blocks)
      returns (errno: int, combined: nat)
      requires heap.Valid() && NULL !in before && newBuff !in before && heap.blocks == before[newBuff := buf]
      requires entry.buffptr in before && before[entry.buffptr] == log.pending != [] && entry.size == |log.pending|
      modifies heap
      ensures heap.Valid()
      ensures errno == if faults.kreallocFails then ENOMEM else 0
      ensures errno != 0 ==> heap.blocks == before
      ensures errno == 0 ==>
        && combined != NULL && (combined == entry.buffptr || combined !in before)
        && heap.blocks == (before - {entry.buffptr})[combined := faults.Kept(log.pending) + buf]
    {
      hide StaleBytes;
      CopyDropped(before, newBuff, buf);
      ghost var kept := faults.Kept(log.pending);
      combined := heap.Krealloc(entry.buffptr, entry.size + |buf|, faults.kreallocFails, faults.moves);
      if combined == NULL {
        heap.Kfree(newBuff);
        return ENOMEM, NULL;
      }
      ghost var grown := heap.blocks[combined];
      var data := heap.Load(entry.buffptr, entry.size, faults.stale);
      assert data == kept;
      heap.Memcpy(combined, 0, data);
      ghost var half := heap.blocks[combined];
      assert kept <= half;
      Splice(half, kept, buf);
      heap.Memcpy(combined, entry.size, buf);
      heap.Kfree(newBuff);
      BlockGrown(before, newBuff, buf, entry.buffptr, combined, grown, half, kept + buf);
      errno := 0;
    }

    /**
     * aesd_write: grow the pending command and commit it when it ends in a newline. It succeeds
     * exactly if every call it makes does, wherever krealloc puts the block.
     */
    method Write(f: OpenFile, buf: Bytes, faults: Faults) returns (ret: int)
      requires Valid() && buf != []
      requires Reachable(log) + |buf| <= SSIZE_MAX && f.fPos + |buf| <= LLONG_MAX
      modifies this, buffer, buffer.entry, heap, f
      ensures Valid()
      ensures log == AfterWrite(old(log), buf, faults) && old(adds) <= adds
      ensures ret == |buf| <==>
        !faults.kmallocFails && !faults.copyFails && (old(log.pending) == [] || !faults.kreallocFails)
      ensures ret != |buf| ==> ret == if !faults.kmallocFails && faults.copyFails then -EFAULT else -ENOMEM
      ensures ret != |buf| ==> log == old(log) && f.fPos == old(f.fPos)
      ensures ret != |buf| ==> adds == old(adds) && entry == old(entry) && heap.blocks == old(heap.blocks)
      ensures ret == |buf| ==> f.fPos == old(f.fPos) + |buf|
      ensures ret == |buf| && (old(log.pending) == [] || !faults.moves) ==> log == Accumulate(old(log), buf)
      ensures ret == |buf| && old(log.pending) != [] && faults.moves ==>
        log == Accumulate(DevLog(old(log.history), StaleBytes(faults.stale, |old(log.pending)|)), buf)
    {
      WriteOutcome(log, buf, faults);
      hide Stores, RingOf, Contents, Settled, Faults.Errno, Faults.Kept, Added;
      ghost var kept := faults.Kept(log.pending);
      WriteBound(log, kept, buf);
      AccumulateSettles(log, kept, buf);
      var errno := GrowPending(buf, faults);
      if errno != 0 {
        return -errno;
      }
      PendingInHeap(heap.blocks, adds, entry, log);
      var newlineFound := heap.blocks[entry.buffptr][entry.size - 1] == NEWLINE;
      if newlineFound {
        CommitKeepsRing(heap.blocks, adds, entry, log, entry);
        PendingCommitted(heap.blocks, adds, entry, log);
        buffer.AddEntry(entry);
        adds, log := adds + [entry], DevLog(log.history + [log.pending], []);
        entry := EMPTY;
      }
      f.fPos := f.fPos + |buf|;
      ret := |buf|;
    }

    /**
     * A kernel in which a write fails or not and krealloc moves the block or not, as told, and
     * that has not yet reused a block it has just released.
     */
    method IntactKernel(fails: bool, moves: bool) returns (faults: Faults)
      requires Valid()
      ensures faults.Kept(log.pending) == log.pending
      ensures faults.kmallocFails == fails && !faults.copyFails && !faults.kreallocFails && faults.moves == moves
    {
      hide Stores;
      PendingInHeap(heap.blocks, adds, entry, log);
      faults := Faults(fails, false, false, moves, if entry.buffptr == NULL then [] else heap.blocks[entry.buffptr]);
    }

    /** The loop that both get_buffer_size and aesd_ioctl run: slots are summed from slot 0. */
    method SumSlots(n: nat) returns (sum: nat)
      requires buffer.Valid() && n <= CAPACITY
      ensures sum == Sum(SlotSizes(buffer.entry[..])[..n])
    {
      hide Sum;
      ghost var sizes := SlotSizes(buffer.entry[..]);
      sum := 0;
      EmptyPrefix(sizes);
      for i := 0 to n
        invariant sum == Sum(sizes[..i])
      {
        SumPrefix(sizes, i);
        sum := sum + buffer.entry[i].size;
      }
    }

    /** get_buffer_size: the number of bytes a reader can see, wherever the oldest slot is. */
    method GetBufferSize() returns (size: nat)
      requires Valid()
      ensures size == |Contents(log)|
    {
      hide Sum, Stores, RingOf, Contents, LogicalSizes;
      TotalSize(heap.blocks, adds, entry, log);
      size := SumSlots(CAPACITY);
      ghost var sizes := SlotSizes(buffer.entry[..]);
      assert sizes[..CAPACITY] == sizes;
    }

    /** aesd_llseek: moves the file exactly when the target lies in the contents or at their end. */
    method Llseek(f: OpenFile, off: int, whence: Whence) returns (ret: int)
      requires Valid() && f.fPos <= LLONG_MAX && LLONG_MIN <= off <= LLONG_MAX
      modifies f
      ensures var total := |Contents(log)|;
        if whence == SeekSet && 0 <= off <= total then ret == f.fPos == off
        else if whence == SeekCur && 0 <= old(f.fPos) + off <= total then ret == f.fPos == old(f.fPos) + off
        else if whence == SeekEnd && 0 <= total + off <= total then ret == f.fPos == total + off
        else ret == -EINVAL && f.fPos == old(f.fPos)
    {
      hide Contents, Wrap64;
      var devSize := GetBufferSize();
      WrapOnce(f.fPos + off);
      WrapOnce(devSize + off);
      var newPos: int;
      match whence {
        case SeekSet => newPos := off;
        case SeekCur => newPos := Wrap64(f.fPos + off);
        case SeekEnd => newPos := Wrap64(devSize + off);
        case OtherWhence => return -EINVAL;
      }
      if newPos < 0 || newPos > devSize {
        return -EINVAL;
      }
      f.fPos := newPos;
      ret := newPos;
    }

    /** aesd_ioctl: the command is counted from slot 0. */
    method Ioctl(f: OpenFile, cmd: nat, writeCmd: nat, writeCmdOffset: nat, copyFails: bool) returns (ret: int)
      requires Valid() && writeCmd < UINT32_LIMIT && writeCmdOffset < UINT32_LIMIT
      modifies f
      ensures var target := SeekTo(PhysicalSizes(log.history), writeCmd, writeCmdOffset);
        if cmd != AESDCHAR_IOCSEEKTO then ret == -ENOTTY && f.fPos == old(f.fPos)
        else if copyFails then ret == -EFAULT && f.fPos == old(f.fPos)
        else if target.None? then ret == -EINVAL && f.fPos == old(f.fPos)
        else ret == 0 && f.fPos == target.value
    {
      hide Sum, Stores, RingOf, PhysicalSizes, LogicalSizes, CommandSizes;
      if cmd != AESDCHAR_IOCSEEKTO {
        return -ENOTTY;
      }
      if copyFails {
        return -EFAULT;
      }
      if writeCmd >= CAPACITY {
        return -EINVAL;
      }
      var newPos := SumSlots(writeCmd);
      RingSizes(heap.blocks, adds, entry, log);
      assert PhysicalSizes(log.history)[writeCmd] == buffer.entry[writeCmd].size;
      if writeCmdOffset >= buffer.entry[writeCmd].size {
        return -EINVAL;
      }
      f.fPos := newPos + writeCmdOffset;
      return 0;
    }

    /** The live blocks: one for each held command, each evicted command and the pending command. */
    lemma BlockCount()
      requires Valid()
      ensures |heap.blocks| == Min(|log.history|, CAPACITY) + |Evicted(log.history)|
        + (if log.pending == [] then 0 else 1)
    {
      PointerCount(adds);
      assert |heap.blocks| == |heap.blocks.Keys|;
    }

    /** The freeing loop of aesd_cleanup_module: every slot's block is freed, once; the others stay. */
    method Cleanup()
      requires Valid()
      modifies heap
      ensures heap.Valid()
      ensures heap.blocks == old(heap.blocks) - Pointers(Visible(adds))
      ensures Pointers(Visible(adds)) <= old(heap.blocks).Keys
      ensures heap.blocks.Keys == Pointers(Evicted(adds)) + PendingPointer(entry)
      ensures |heap.blocks| == |Evicted(log.history)| + (if log.pending == [] then 0 else 1)
    {
      hide Stores, RingOf, SlotsOf, SlotPointers, Pointers, Visible, Evicted, Contents, Settled;
      ghost var slots := SlotsOf(adds, EMPTY);
      ghost var before := heap.blocks;
      RingSlots(adds);
      NoSlotPointers(slots);
      assert before - {} == before;
      for i := 0 to CAPACITY
        invariant heap.Valid() && buffer.entry[..] == slots
        invariant heap.blocks == before - SlotPointers(slots, i)
      {
        FreeStep(before, adds, entry, log, i);
        assert buffer.entry[i] == slots[i];
        if buffer.entry[i].buffptr != NULL {
          heap.Kfree(buffer.entry[i].buffptr);
        }
      }
      SlotsNameVisible(before, adds, entry, log);
      CleanupLeaves(before, adds, entry, log);
    }
  }
}
