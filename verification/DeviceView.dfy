/**
 * The held commands as one flat file: reads at a position, the reader's loop, and the two
 * ways of seeking (aesd-char-driver/main.c, aesd_read, aesd_llseek, aesd_ioctl).
 */
module DeviceView {
  import opened Streams
  import opened Slots
  import opened DeviceLog

  /** What a reader can see: the last ten commands, end to end. */
  function Contents(d: DevLog): Bytes {
    Flat(Visible(d.history))
  }

  function EvictedBytes(d: DevLog): nat {
    |Flat(Evicted(d.history))|
  }

  lemma VisibleContents(d: DevLog)
    ensures Contents(d) == Flat(Visible(d.history))
  {
  }

  // ---------- Reads ----------

  /** The bytes one read call returns: from position pos, within one command. */
  function ReadAt(commands: seq<Bytes>, pos: nat, count: nat): Bytes {
    match Locate(Sizes(commands), pos)
    case None => []
    case Some((k, o)) => commands[k][o..o + Min(count, |commands[k]| - o)]
  }

  /** The bytes [pos, pos + n) all belong to command k, and stop at its end unless n is count. */
  predicate InsideCommand(commands: seq<Bytes>, k: nat, pos: nat, n: nat, count: nat) {
    && k < |commands|
    && Sum(Sizes(commands)[..k]) <= pos
    && pos + n <= Sum(Sizes(commands)[..k]) + |commands[k]|
    && (n == count || pos + n == Sum(Sizes(commands)[..k]) + |commands[k]|)
  }

  lemma ReadNamed(commands: seq<Bytes>, pos: nat, count: nat, k: nat, o: nat)
    requires Locate(Sizes(commands), pos) == Some((k, o))
    ensures var r := ReadAt(commands, pos, count);
      && |r| == Min(count, |commands[k]| - o)
      && pos + |r| <= |Flat(commands)|
      && r == Flat(commands)[pos..pos + |r|]
      && InsideCommand(commands, k, pos, |r|, count)
  {
    hide Sum, Flat, Locate;
    LocateInverse(Sizes(commands), pos);
    assert Names(Sizes(commands), pos, k, o);
    FlatSlice(commands, k, o, o + Min(count, |commands[k]| - o));
  }

  /** A read returns the next bytes of the flat contents, and none only at the end. */
  lemma ReadIsSlice(commands: seq<Bytes>, pos: nat, count: nat)
    ensures var r := ReadAt(commands, pos, count);
      && |r| <= count
      && (r == [] <==> count == 0 || |Flat(commands)| <= pos)
      && (pos < |Flat(commands)| ==> pos + |r| <= |Flat(commands)| && r == Flat(commands)[pos..pos + |r|])
  {
    LocateInverse(Sizes(commands), pos);
    FlatSize(commands);
    match Locate(Sizes(commands), pos)
    case None =>
    case Some((k, o)) => ReadNamed(commands, pos, count, k, o);
  }

  /** A read never crosses from one command into the next, and stops short only at a command's end. */
  lemma ReadStaysInside(commands: seq<Bytes>, pos: nat, count: nat)
    requires pos < |Flat(commands)|
    ensures exists k :: InsideCommand(commands, k, pos, |ReadAt(commands, pos, count)|, count)
  {
    LocateInverse(Sizes(commands), pos);
    FlatSize(commands);
    var (k, o) := Locate(Sizes(commands), pos).value;
    ReadNamed(commands, pos, count, k, o);
  }

  /** Reading with the given buffer sizes, one after the other, from position pos. */
  function ReadMany(commands: seq<Bytes>, pos: nat, counts: seq<nat>): (blocks: seq<Bytes>)
    ensures |blocks| == |counts|
    decreases |counts|
  {
    if counts == [] then []
    else
      var r := ReadAt(commands, pos, counts[0]);
      [r] + ReadMany(commands, pos + |r|, counts[1..])
  }

  lemma SliceJoins(all: Bytes, a: nat, b: nat, c: nat)
    requires a <= b <= c <= |all|
    ensures all[a..b] + all[b..c] == all[a..c]
  {
  }

  lemma FlatCons(r: Bytes, rest: seq<Bytes>)
    ensures Flat([r] + rest) == r + Flat(rest)
    ensures [] in [r] + rest <==> r == [] || [] in rest
  {
  }

  /** With any buffer sizes the reads line up: no gap, no overlap. */
  lemma {:induction false} ReadManyLinesUp(commands: seq<Bytes>, pos: nat, counts: seq<nat>)
    requires pos <= |Flat(commands)|
    ensures var got := Flat(ReadMany(commands, pos, counts));
      pos + |got| <= |Flat(commands)| && got == Flat(commands)[pos..pos + |got|]
    decreases |counts|
  {
    hide ReadAt, Flat;
    if counts == [] {
      FlatEmpty();
    } else {
      var r := ReadAt(commands, pos, counts[0]);
      ReadIsSlice(commands, pos, counts[0]);
      var rest := ReadMany(commands, pos + |r|, counts[1..]);
      ReadManyLinesUp(commands, pos + |r|, counts[1..]);
      FlatCons(r, rest);
      SliceJoins(Flat(commands), pos, pos + |r|, pos + |r| + |Flat(rest)|);
    }
  }

  lemma {:induction false} ReadManyReachesEnd(commands: seq<Bytes>, pos: nat, counts: seq<nat>)
    requires pos <= |Flat(commands)|
    requires forall i :: 0 <= i < |counts| ==> counts[i] > 0
    requires [] in ReadMany(commands, pos, counts) || |Flat(commands)| - pos <= |counts|
    ensures pos + |Flat(ReadMany(commands, pos, counts))| >= |Flat(commands)|
    decreases |counts|
  {
    hide ReadAt, Flat;
    if counts != [] {
      var r := ReadAt(commands, pos, counts[0]);
      ReadIsSlice(commands, pos, counts[0]);
      var rest := ReadMany(commands, pos + |r|, counts[1..]);
      FlatCons(r, rest);
      if r != [] {
        ReadManyReachesEnd(commands, pos + |r|, counts[1..]);
      }
    }
  }

  /**
   * With positive buffer sizes the reads have returned everything as soon as one comes back
   * empty, and as many reads as bytes are always enough.
   */
  lemma ReadManyComplete(commands: seq<Bytes>, pos: nat, counts: seq<nat>)
    requires pos <= |Flat(commands)|
    requires forall i :: 0 <= i < |counts| ==> counts[i] > 0
    requires [] in ReadMany(commands, pos, counts) || |Flat(commands)| - pos <= |counts|
    ensures Flat(ReadMany(commands, pos, counts)) == Flat(commands)[pos..]
  {
    hide ReadMany, Flat;
    ReadManyLinesUp(commands, pos, counts);
    ReadManyReachesEnd(commands, pos, counts);
  }

  /** The loop of a reader with a fixed buffer: read until a read comes back empty. */
  function ReadBlocks(commands: seq<Bytes>, pos: nat, count: nat): seq<Bytes>
    decreases |Flat(commands)| - pos
  {
    var r := ReadAt(commands, pos, count);
    ReadIsSlice(commands, pos, count);
    if r == [] then [] else [r] + ReadBlocks(commands, pos + |r|, count)
  }

  /** The loop returns exactly what follows pos, in non-empty blocks that fit the buffer. */
  lemma {:induction false} ReadBlocksComplete(commands: seq<Bytes>, pos: nat, count: nat)
    requires count > 0 && pos <= |Flat(commands)|
    ensures Flat(ReadBlocks(commands, pos, count)) == Flat(commands)[pos..]
    ensures forall b :: b in ReadBlocks(commands, pos, count) ==> 0 < |b| <= count
    decreases |Flat(commands)| - pos
  {
    hide ReadAt;
    var all, r := Flat(commands), ReadAt(commands, pos, count);
    ReadIsSlice(commands, pos, count);
    if r != [] {
      ReadBlocksComplete(commands, pos + |r|, count);
      assert all[pos..] == all[pos..pos + |r|] + all[pos + |r|..];
    }
  }

  function CeilDiv(n: nat, count: nat): nat
    requires count > 0
  {
    (n + count - 1) / count
  }

  /** How many blocks of at most count bytes the commands need when no block spans two commands. */
  function BlocksNeeded(commands: seq<Bytes>, count: nat): nat
    requires count > 0
  {
    if commands == [] then 0 else CeilDiv(|commands[0]|, count) + BlocksNeeded(commands[1..], count)
  }

  lemma CeilDivStep(n: nat, count: nat)
    requires count > 0
    ensures n == 0 ==> CeilDiv(n, count) == 0
    ensures n > 0 ==> CeilDiv(n, count) == 1 + CeilDiv(n - Min(n, count), count)
  {
    if 0 < n {
      var m := n - Min(n, count);
      if n <= count {
        assert n + count - 1 == count * 1 + (n - 1);
        DivUnique(n + count - 1, count, 1);
        DivUnique(m + count - 1, count, 0);
      } else {
        var q := (m + count - 1) / count;
        assert n + count - 1 == (m + count - 1) + count;
        assert count * (q + 1) == count * q + count;
        DivUnique(n + count - 1, count, q + 1);
      }
    } else {
      DivUnique(count - 1, count, 0);
    }
  }

  lemma MulMonotone(d: nat, a: nat, b: nat)
    requires a <= b
    ensures d * a <= d * b
  {
  }

  lemma DivUnique(n: nat, d: nat, q: nat)
    requires d > 0 && d * q <= n < d * q + d
    ensures n / d == q
  {
    var p := n / d;
    assert d * p <= n < d * p + d;
    if p < q {
      MulMonotone(d, p + 1, q);
    } else if q < p {
      MulMonotone(d, q + 1, p);
    }
  }

  lemma ReadAtShift(commands: seq<Bytes>, pos: nat, count: nat)
    requires commands != []
    ensures |commands[0]| <= pos ==>
      ReadAt(commands, pos, count) == ReadAt(commands[1..], pos - |commands[0]|, count)
    ensures pos < |commands[0]| ==> |ReadAt(commands, pos, count)| == Min(count, |commands[0]| - pos)
  {
    assert Sizes(commands)[1..] == Sizes(commands[1..]);
  }

  /** Past the first command, reading is reading the other commands. */
  lemma {:induction false} ReadBlocksShift(commands: seq<Bytes>, pos: nat, count: nat)
    requires commands != [] && |commands[0]| <= pos
    ensures ReadBlocks(commands, pos, count) == ReadBlocks(commands[1..], pos - |commands[0]|, count)
    decreases |Flat(commands)| - pos
  {
    hide ReadAt;
    ReadAtShift(commands, pos, count);
    ReadIsSlice(commands, pos, count);
    var r := ReadAt(commands, pos, count);
    if r != [] {
      ReadBlocksShift(commands, pos + |r|, count);
    }
  }

  lemma {:induction false} FirstCommandBlocks(commands: seq<Bytes>, pos: nat, count: nat)
    requires count > 0 && commands != [] && pos <= |commands[0]|
    ensures |ReadBlocks(commands, pos, count)|
      == CeilDiv(|commands[0]| - pos, count) + |ReadBlocks(commands[1..], 0, count)|
    decreases |commands[0]| - pos
  {
    hide ReadAt;
    CeilDivStep(|commands[0]| - pos, count);
    if pos == |commands[0]| {
      ReadBlocksShift(commands, pos, count);
    } else {
      ReadAtShift(commands, pos, count);
      FirstCommandBlocks(commands, pos + Min(count, |commands[0]| - pos), count);
    }
  }

  /** From position 0 the loop makes exactly ceil(size / count) non-empty reads for each command. */
  lemma {:induction false} ReadCount(commands: seq<Bytes>, count: nat)
    requires count > 0
    ensures |ReadBlocks(commands, 0, count)| == BlocksNeeded(commands, count)
  {
    if commands != [] {
      FirstCommandBlocks(commands, 0, count);
      ReadCount(commands[1..], count);
    }
  }

  /** Everything ever committed is what was evicted and then what is visible. */
  lemma ContentsAfterEvicted(d: DevLog)
    ensures Flat(d.history) == Flat(Evicted(d.history)) + Contents(d)
  {
    SplitHistory(d.history);
    FlatConcat(Evicted(d.history), Visible(d.history));
  }

  // ---------- Sizes and seeks ----------

  lemma RotationKeepsSum(s: seq<nat>, r: nat)
    requires r <= |s|
    ensures Sum(Rotate(s, r)) == Sum(s)
  {
    hide Sum;
    assert s == s[..r] + s[r..];
    SumConcat(s[..r], s[r..]);
    SumConcat(s[r..], s[..r]);
  }

  /** The sizes of the commands in the slots, slot 0 first. */
  function PhysicalSizes(history: seq<Bytes>): (ns: seq<nat>)
    ensures |ns| == CAPACITY
  {
    SlotsOf(Sizes(history), 0)
  }

  /** The sizes of the commands, oldest first. */
  function CommandSizes(history: seq<Bytes>): (ns: seq<nat>)
    ensures |ns| == CAPACITY
  {
    Sizes(Visible(history)) + Padding(|history|, 0)
  }

  lemma CommandSizesRotate(history: seq<Bytes>)
    ensures Rotate(PhysicalSizes(history), Oldest(|history|)) == CommandSizes(history)
  {
    SlotsInOrder(Sizes(history), 0);
    assert Visible(Sizes(history)) == Sizes(Visible(history));
  }

  /** The slots hold as many bytes in physical order as the flat contents has in logical order. */
  lemma SizeIgnoresRotation(d: DevLog)
    ensures Sum(PhysicalSizes(d.history)) == Sum(CommandSizes(d.history)) == |Contents(d)|
  {
    CommandSizesRotate(d.history);
    RotationKeepsSum(PhysicalSizes(d.history), Oldest(|d.history|));
    SumConcat(Sizes(Visible(d.history)), Padding(|d.history|, 0));
    SumZeros(Padding(|d.history|, 0));
    FlatSize(Visible(d.history));
  }

  /** The padding after the held commands is never found. */
  lemma LocateIgnoresPadding(history: seq<Bytes>, pos: nat)
    ensures Locate(CommandSizes(history), pos) == Locate(Sizes(Visible(history)), pos)
  {
    var s, p := Sizes(Visible(history)), Padding(|history|, 0);
    LocateInverse(s + p, pos);
    LocateInverse(s, pos);
    SumConcat(s, p);
    SumZeros(p);
    if Locate(s, pos).Some? {
      var (k, o) := Locate(s, pos).value;
      assert Names(s, pos, k, o);
      assert (s + p)[..k] == s[..k];
      assert Names(s + p, pos, k, o);
    }
  }

  /** Offset o of the k-th command when the commands have the given sizes. */
  function SeekTo(sizes: seq<nat>, k: nat, o: nat): Option<nat> {
    if k < |sizes| && o < sizes[k] then Some(Sum(sizes[..k]) + o) else None
  }

  /** Seeking to a command and finding the command at a position undo each other. */
  lemma SeekInvertsLocate(sizes: seq<nat>, k: nat, o: nat, pos: nat)
    ensures SeekTo(sizes, k, o) == Some(pos) <==> Locate(sizes, pos) == Some((k, o))
  {
    LocateInverse(sizes, pos);
    assert Names(sizes, pos, k, o) <==> SeekTo(sizes, k, o) == Some(pos);
  }

  /** An accepted ioctl lands on a byte: the next read of one byte or more is not empty. */
  lemma SeekLandsInside(d: DevLog, k: nat, o: nat, count: nat)
    requires SeekTo(PhysicalSizes(d.history), k, o).Some? && count > 0
    ensures var p := SeekTo(PhysicalSizes(d.history), k, o).value;
      && p < |Contents(d)|
      && var r := ReadAt(Visible(d.history), p, count);
        r != [] && r[0] == Contents(d)[p]
  {
    var sizes := PhysicalSizes(d.history);
    var p := SeekTo(sizes, k, o).value;
    SumPrefix(sizes, k);
    SizeIgnoresRotation(d);
    ReadIsSlice(Visible(d.history), p, count);
  }

  const UINT32_LIMIT: nat := 0x1_0000_0000

  /** Two seek tables agree on all 32-bit arguments. */
  ghost predicate SeeksAgree(a: seq<nat>, b: seq<nat>) {
    forall k: nat, o: nat :: k < UINT32_LIMIT && o < UINT32_LIMIT ==> SeekTo(a, k, o) == SeekTo(b, k, o)
  }

  lemma AgreeingSeeksHaveSameSizes(a: seq<nat>, b: seq<nat>)
    requires |a| == |b| == CAPACITY
    requires forall i :: 0 <= i < CAPACITY ==> a[i] <= UINT32_LIMIT && b[i] <= UINT32_LIMIT
    ensures SeeksAgree(a, b) <==> a == b
  {
    if SeeksAgree(a, b) {
      forall i | 0 <= i < CAPACITY ensures a[i] == b[i] {
        var o := Min(a[i], b[i]);
        assert o < UINT32_LIMIT ==> SeekTo(a, i, o) == SeekTo(b, i, o);
      }
    }
  }

  /**
   * The ioctl, which counts slots from slot 0, finds command k offset o as the reader numbers
   * commands, for all k and o, if and only if turning the ring to its oldest slot leaves the
   * slot sizes as they are.
   */
  lemma IoctlMeansLogicalCommand(history: seq<Bytes>)
    requires forall c :: c in history ==> |c| <= UINT32_LIMIT
    ensures SeeksAgree(PhysicalSizes(history), CommandSizes(history))
      <==> Rotate(PhysicalSizes(history), Oldest(|history|)) == PhysicalSizes(history)
  {
    CommandSizesRotate(history);
    AgreeingSeeksHaveSameSizes(PhysicalSizes(history), CommandSizes(history));
  }

  /** It always does before the first eviction, and whenever the ring has come round to slot 0. */
  lemma IoctlRightAtSlotZero(history: seq<Bytes>)
    requires |history| <= CAPACITY || |history| % CAPACITY == 0
    ensures PhysicalSizes(history) == CommandSizes(history)
    ensures SeeksAgree(PhysicalSizes(history), CommandSizes(history))
  {
    CommandSizesRotate(history);
  }

  /** Where the ioctl counts as the reader does, it makes the next read start at offset o of command k. */
  lemma IoctlThenReadIsCommand(history: seq<Bytes>, k: nat, o: nat, count: nat)
    requires PhysicalSizes(history) == CommandSizes(history)
    requires SeekTo(PhysicalSizes(history), k, o).Some?
    ensures k < |Visible(history)| && o < |Visible(history)[k]|
    ensures ReadAt(Visible(history), SeekTo(PhysicalSizes(history), k, o).value, count)
      == Visible(history)[k][o..o + Min(count, |Visible(history)[k]| - o)]
  {
    hide Locate, PhysicalSizes, CommandSizes, SeekTo;
    var p := SeekTo(PhysicalSizes(history), k, o).value;
    SeekInvertsLocate(CommandSizes(history), k, o, p);
    LocateIgnoresPadding(history, p);
  }

  /** Ten one-byte commands and then one of two bytes: slot 0 now holds the newest command. */
  lemma IoctlWrongAfterEviction()
    ensures var history := seq(CAPACITY, _ => [NEWLINE]) + [[97, NEWLINE]];
      && SeekTo(PhysicalSizes(history), 0, 1) == Some(1)
      && SeekTo(CommandSizes(history), 0, 1) == None
  {
  }

  /** The commands in the slots, slot 0 first. */
  function SlotContents(history: seq<Bytes>): (s: seq<Bytes>)
    ensures |s| == CAPACITY
  {
    SlotsOf(history, [])
  }

  /** Whatever slot and offset the ioctl accepts, the next read starts with that byte of that slot's command. */
  ghost predicate IoctlFindsItsByte(history: seq<Bytes>) {
    forall k: nat, o: nat :: k < CAPACITY && o < |SlotContents(history)[k]| ==>
      ReadAt(Visible(history), Sum(PhysicalSizes(history)[..k]) + o, 1) == [SlotContents(history)[k][o]]
  }

  lemma SlotContentsSizes(history: seq<Bytes>)
    ensures Sizes(SlotContents(history)) == PhysicalSizes(history)
    ensures |Flat(SlotContents(history))| == |Flat(Visible(history))|
  {
    assert Sizes(SlotContents(history)) == PhysicalSizes(history);
    FlatSize(SlotContents(history));
    SizeIgnoresRotation(DevLog(history, []));
  }

  /** What the next read starts with, against the byte of the slot's command. */
  lemma ByteAtSlot(history: seq<Bytes>, k: nat, o: nat)
    requires k < CAPACITY && o < |SlotContents(history)[k]|
    ensures var p, all := Sum(PhysicalSizes(history)[..k]) + o, Flat(Visible(history));
      && p < |all| == |Flat(SlotContents(history))|
      && ReadAt(Visible(history), p, 1) == [all[p]]
      && Flat(SlotContents(history))[p] == SlotContents(history)[k][o]
  {
    hide ReadAt, Flat, Sum, SlotContents, PhysicalSizes;
    SlotContentsSizes(history);
    FlatSlice(SlotContents(history), k, o, o + 1);
    var p, slots := Sum(PhysicalSizes(history)[..k]) + o, SlotContents(history);
    assert Flat(slots)[p..p + 1][0] == slots[k][o..o + 1][0];
    ReadIsSlice(Visible(history), p, 1);
  }

  /**
   * The ioctl takes a reader to the byte it names, for every byte of every slot, if and only if the
   * slots' commands read from slot 0 are the contents: not only their sizes but their bytes.
   */
  lemma IoctlFindsItsByteExactly(history: seq<Bytes>)
    ensures IoctlFindsItsByte(history) <==> Flat(SlotContents(history)) == Flat(Visible(history))
  {
    hide ReadAt, Flat, Sum, SlotContents, PhysicalSizes, Locate;
    var slots, all := SlotContents(history), Flat(Visible(history));
    SlotContentsSizes(history);
    forall k: nat, o: nat | k < CAPACITY && o < |slots[k]|
      ensures var p := Sum(PhysicalSizes(history)[..k]) + o;
        p < |all| == |Flat(slots)| && ReadAt(Visible(history), p, 1) == [all[p]] && Flat(slots)[p] == slots[k][o]
    {
      ByteAtSlot(history, k, o);
    }
    if IoctlFindsItsByte(history) {
      forall p | 0 <= p < |all|
        ensures Flat(slots)[p] == all[p]
      {
        LocateInverse(Sizes(slots), p);
        FlatSize(slots);
        var (k, o) := Locate(Sizes(slots), p).value;
        assert Names(Sizes(slots), p, k, o);
        assert ReadAt(Visible(history), p, 1) == [slots[k][o]];
      }
    }
  }

  /** So it does before the first eviction and whenever the ring has come round to slot 0. */
  lemma IoctlFindsItsByteAtSlotZero(history: seq<Bytes>)
    requires |history| <= CAPACITY || |history| % CAPACITY == 0
    ensures IoctlFindsItsByte(history)
  {
    hide IoctlFindsItsByte, SlotsOf, Visible;
    SlotsInOrder(history, []);
    var slots, pad := SlotContents(history), Padding<Bytes>(|history|, []);
    assert Rotate(slots, 0) == slots;
    FlatConcat(Visible(history), pad);
    FlatOfNothing(pad);
    assert Flat(Visible(history)) + [] == Flat(Visible(history));
    IoctlFindsItsByteExactly(history);
  }

  lemma {:induction false} FlatOfNothing(parts: seq<Bytes>)
    requires forall i :: 0 <= i < |parts| ==> parts[i] == []
    ensures Flat(parts) == []
  {
    if parts != [] {
      FlatOfNothing(parts[1..]);
    }
  }

  /** With the same eleven commands, byte 0 of slot 0 is "a", but the reader is taken to a newline. */
  lemma IoctlMissesItsByte()
    ensures var history := seq(CAPACITY, _ => [NEWLINE]) + [[97, NEWLINE]];
      && SlotContents(history)[0] == [97, NEWLINE]
      && SeekTo(PhysicalSizes(history), 0, 0) == Some(0)
      && ReadAt(Visible(history), 0, 1) == [NEWLINE]
      && !IoctlFindsItsByte(history)
  {
    var history := seq(CAPACITY, _ => [NEWLINE]) + [[97, NEWLINE]];
    assert SlotContents(history)[0] == [97, NEWLINE];
    assert PhysicalSizes(history)[..0] == [];
    assert Visible(history)[0] == [NEWLINE];
    assert Locate(Sizes(Visible(history)), 0) == Some((0, 0));
    var k: nat, o: nat := 0, 0;
    assert ReadAt(Visible(history), Sum(PhysicalSizes(history)[..k]) + o, 1) != [SlotContents(history)[k][o]];
  }

  datatype Whence = SeekSet | SeekCur | SeekEnd | OtherWhence

  /** Where a seek asks to go, as a whole number. */
  function SeekTarget(total: nat, pos: nat, off: int, whence: Whence): Option<int> {
    match whence
    case SeekSet => Some(off)
    case SeekCur => Some(pos + off)
    case SeekEnd => Some(total + off)
    case OtherWhence => None
  }

  predicate SeekAccepted(total: nat, pos: nat, off: int, whence: Whence) {
    var t := SeekTarget(total, pos, off, whence);
    t.Some? && 0 <= t.value <= total
  }

  /** Seeking d bytes back from the end and reading on gives exactly the last d bytes. */
  lemma SeekEndReadsTail(d: DevLog, back: nat, count: nat)
    requires back <= |Contents(d)| && count > 0
    ensures var pos := |Contents(d)| - back;
      && SeekAccepted(|Contents(d)|, 0, 0 - back, SeekEnd)
      && SeekTarget(|Contents(d)|, 0, 0 - back, SeekEnd) == Some(pos)
      && Flat(ReadBlocks(Visible(d.history), pos, count)) == Contents(d)[|Contents(d)| - back..]
  {
    hide ReadBlocks, Flat;
    ReadBlocksComplete(Visible(d.history), |Contents(d)| - back, count);
  }
}
