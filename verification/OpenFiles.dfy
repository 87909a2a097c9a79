/**
 * Any number of files open on the device at once, each with its own position, and what their
 * readers get in terms of the whole stream of committed commands.
 */
module OpenFiles {
  import opened Streams
  import opened Slots
  import opened DeviceLog
  import opened DeviceView
  import AesdChar

  /** The device and the position of each open file; a file not yet used is at position 0. */
  datatype World = World(log: DevLog, pos: map<nat, nat>) {
    function Pos(f: nat): nat {
      if f in pos then pos[f] else 0
    }
  }

  const START: World := World(FRESH, map[])

  /** One system call on file f, made under the device's lock. */
  datatype Event =
    | Write(f: nat, bytes: Bytes, fails: bool)
    | Read(f: nat, count: nat)
    | Llseek(f: nat, off: int, whence: Whence)
    | Ioctl(f: nat, cmd: nat, offset: nat)

  function Output(w: World, e: Event): Bytes {
    if e.Read? then ReadAt(Visible(w.log.history), w.Pos(e.f), e.count) else []
  }

  function Next(w: World, e: Event): World {
    match e
    case Write(f, bytes, fails) =>
      if fails then w else World(Accumulate(w.log, bytes), w.pos[f := w.Pos(f) + |bytes|])
    case Read(f, count) =>
      World(w.log, w.pos[f := w.Pos(f) + |Output(w, e)|])
    case Llseek(f, off, whence) =>
      var total := |Contents(w.log)|;
      if SeekAccepted(total, w.Pos(f), off, whence)
      then World(w.log, w.pos[f := SeekTarget(total, w.Pos(f), off, whence).value])
      else w
    case Ioctl(f, cmd, offset) =>
      var target := SeekTo(PhysicalSizes(w.log.history), cmd, offset);
      if target.Some? then World(w.log, w.pos[f := target.value]) else w
  }

  /** What an event does, in numbers: only a successful write changes the device, no event another file. */
  lemma NextMoves(w: World, e: Event)
    ensures Next(w, e).log == if e.Write? && !e.fails then Accumulate(w.log, e.bytes) else w.log
    ensures e.Write? ==> Next(w, e).Pos(e.f) == w.Pos(e.f) + if e.fails then 0 else |e.bytes|
    ensures e.Read? ==> Next(w, e).Pos(e.f) == w.Pos(e.f) + |Output(w, e)|
    ensures e.Llseek? ==>
      var total, pos := |Contents(w.log)|, w.Pos(e.f);
      Next(w, e).Pos(e.f) ==
        if e.whence == SeekSet && 0 <= e.off <= total then e.off
        else if e.whence == SeekCur && 0 <= pos + e.off <= total then pos + e.off
        else if e.whence == SeekEnd && 0 <= total + e.off <= total then total + e.off
        else pos
    ensures e.Ioctl? ==>
      var sizes := PhysicalSizes(w.log.history);
      Next(w, e).Pos(e.f) ==
        if e.cmd < CAPACITY && e.offset < sizes[e.cmd] then Sum(sizes[..e.cmd]) + e.offset else w.Pos(e.f)
    ensures forall g: nat :: g != e.f ==> Next(w, e).Pos(g) == w.Pos(g)
  {
    hide Accumulate, Contents, PhysicalSizes, Sum, ReadAt;
  }

  /** A read returns the next bytes of the contents, within one command; none only at the end or for count 0. */
  lemma OutputIsSlice(w: World, e: Event)
    ensures var out, p := Output(w, e), w.Pos(e.f);
      && (out == [] <==> !e.Read? || e.count == 0 || |Contents(w.log)| <= p)
      && (out != [] ==>
        && p + |out| <= |Contents(w.log)|
        && out == Contents(w.log)[p..p + |out|]
        && exists k :: InsideCommand(Visible(w.log.history), k, p, |out|, e.count))
  {
    hide ReadAt, InsideCommand;
    if Output(w, e) != [] {
      ReadIsSlice(Visible(w.log.history), w.Pos(e.f), e.count);
      ReadStaysInside(Visible(w.log.history), w.Pos(e.f), e.count);
    } else if e.Read? {
      ReadIsSlice(Visible(w.log.history), w.Pos(e.f), e.count);
    }
  }

  /** Seeking back by as much as was read, and reading again, gives the same bytes again. */
  lemma SeekBackReadsAgain(w: World, f: nat, count: nat)
    ensures var first := Read(f, count);
      var back := Llseek(f, 0 - |Output(w, first)|, SeekCur);
      var again := Next(Next(w, first), back);
      && again.Pos(f) == w.Pos(f) && again.log == w.log
      && Output(again, first) == Output(w, first)
  {
    hide ReadAt, Contents, Next, InsideCommand;
    var first := Read(f, count);
    var back := Llseek(f, 0 - |Output(w, first)|, SeekCur);
    OutputIsSlice(w, first);
    NextMoves(w, first);
    NextMoves(Next(w, first), back);
  }

  /** Two relative seeks, the first of which is accepted, are one by the sum of their offsets. */
  lemma RelativeSeeksAdd(w: World, f: nat, a: int, b: int)
    requires 0 <= w.Pos(f) + a <= |Contents(w.log)|
    ensures var there := Next(w, Llseek(f, a, SeekCur));
      if 0 <= w.Pos(f) + a + b <= |Contents(w.log)|
      then Next(there, Llseek(f, b, SeekCur)) == Next(w, Llseek(f, a + b, SeekCur))
      else Next(there, Llseek(f, b, SeekCur)) == there
  {
    hide Contents;
  }

  /** The events a kernel lets through: a write has bytes, and no argument leaves its C type. */
  predicate Callable(w: World, e: Event) {
    && w.Pos(e.f) <= AesdChar.LLONG_MAX
    && match e
       case Write(f, bytes, _) =>
         && bytes != [] && w.Pos(f) + |bytes| <= AesdChar.LLONG_MAX
         && AesdChar.Reachable(w.log) + |bytes| <= AesdChar.SSIZE_MAX
       case Read(_, _) => true
       case Llseek(_, off, _) => AesdChar.LLONG_MIN <= off <= AesdChar.LLONG_MAX
       case Ioctl(_, cmd, offset) => cmd < UINT32_LIMIT && offset < UINT32_LIMIT
  }

  /** The device performs an event as Next says, on the one file it names. */
  method Perform(dev: AesdChar.AesdDevice, file: AesdChar.OpenFile, e: Event, ghost w: World) returns (out: Bytes)
    requires dev.Valid() && dev.log == w.log && file.fPos == w.Pos(e.f) && Callable(w, e)
    modifies dev, dev.buffer, dev.buffer.entry, dev.heap, file
    ensures dev.Valid() && dev.log == Next(w, e).log && file.fPos == Next(w, e).Pos(e.f)
    ensures out == Output(w, e)
    ensures forall g: nat :: g != e.f ==> Next(w, e).Pos(g) == w.Pos(g)
  {
    hide ReadAt, SeekTo, PhysicalSizes, Contents, Accumulate, AesdChar.AesdDevice.Valid, AesdChar.Reachable;
    out := [];
    match e {
      case Write(_, bytes, fails) =>
        var moves := *;
        var faults := dev.IntactKernel(fails, moves);
        var _ := dev.Write(file, bytes, faults);
      case Read(_, count) =>
        ReadIsSlice(Visible(w.log.history), file.fPos, count);
        VisibleContents(w.log);
        var ret: int;
        ret, out := dev.Read(file, count, false);
      case Llseek(_, off, whence) =>
        var _ := dev.Llseek(file, off, whence);
      case Ioctl(_, cmd, offset) =>
        var _ := dev.Ioctl(file, AesdChar.AESDCHAR_IOCSEEKTO, cmd, offset, false);
    }
  }

  function After(events: seq<Event>): World {
    if events == [] then START else Next(After(events[..|events| - 1]), events[|events| - 1])
  }

  /** A whole run of calls on a new device, each file opened when it is first named. */
  method PerformAll(dev: AesdChar.AesdDevice, events: seq<Event>)
    returns (files: map<nat, AesdChar.OpenFile>, outs: seq<Bytes>)
    requires dev.Valid() && dev.log == FRESH
    requires forall i :: 0 <= i < |events| ==> Callable(After(events[..i]), events[i])
    modifies dev, dev.buffer, dev.buffer.entry, dev.heap
    ensures dev.Valid() && dev.log == After(events).log
    ensures forall f: nat :: After(events).Pos(f) == if f in files then files[f].fPos else 0
    ensures |outs| == |events|
    ensures forall i :: 0 <= i < |events| ==> outs[i] == Output(After(events[..i]), events[i])
  {
    hide AesdChar.AesdDevice.Valid, Next, Output, Callable, After, AesdChar.Reachable;
    NothingDone();
    files, outs := map[], [];
    for i := 0 to |events|
      invariant dev.Valid() && dev.log == After(events[..i]).log
      invariant forall f :: f in files ==> fresh(files[f])
      invariant forall f, g :: f in files && g in files && files[f] == files[g] ==> f == g
      invariant forall f: nat :: After(events[..i]).Pos(f) == if f in files then files[f].fPos else 0
      invariant |outs| == i
      invariant forall j :: 0 <= j < i ==> outs[j] == Output(After(events[..j]), events[j])
    {
      var e := events[i];
      if e.f !in files {
        var file := new AesdChar.OpenFile();
        files := files[e.f := file];
      }
      var out := Perform(dev, files[e.f], e, After(events[..i]));
      outs := outs + [out];
      AfterSnoc(events, i);
    }
    assert events[..|events|] == events;
  }

  lemma NothingDone()
    ensures After([]) == START
  {
  }

  function WrittenBy(e: Event): Bytes {
    if e.Write? && !e.fails then e.bytes else []
  }

  /** The bytes of all successful writes, in order. */
  function Written(events: seq<Event>): Bytes {
    if events == [] then []
    else Written(events[..|events| - 1]) + WrittenBy(events[|events| - 1])
  }

  /** What the reader of file f has received. */
  function Received(events: seq<Event>, f: nat): Bytes {
    if events == [] then []
    else
      var init, e := events[..|events| - 1], events[|events| - 1];
      Received(init, f) + if e.f == f then Output(After(init), e) else []
  }

  lemma AfterSnoc(events: seq<Event>, i: nat)
    requires i < |events|
    ensures After(events[..i + 1]) == Next(After(events[..i]), events[i])
    ensures Written(events[..i + 1]) == Written(events[..i]) + WrittenBy(events[i])
  {
    assert events[..i + 1][..i] == events[..i];
  }

  lemma NextKeepsStream(w: World, e: Event)
    requires Settled(w.log)
    ensures Stream(Next(w, e).log) == Stream(w.log) + WrittenBy(e) && Settled(Next(w, e).log)
  {
    hide Stream, SeekTo, PhysicalSizes, Contents, ReadAt, SeekAccepted;
    if e.Write? && !e.fails {
      AccumulateConserves(w.log, e.bytes);
      AccumulateKeepsSettled(w.log, e.bytes);
    } else {
      assert Stream(w.log) + [] == Stream(w.log);
    }
  }

  /** No read or seek on any file changes the device, and no written byte is lost. */
  lemma {:induction false} AllWritesKept(events: seq<Event>)
    ensures Stream(After(events).log) == Written(events)
    ensures Settled(After(events).log)
  {
    hide Stream, Next;
    if events == [] {
      StreamFromFresh([]);
    } else {
      var m := |events| - 1;
      AllWritesKept(events[..m]);
      NextKeepsStream(After(events[..m]), events[m]);
    }
  }

  lemma NextKeepsHistory(w: World, e: Event)
    ensures w.log.history <= Next(w, e).log.history
  {
  }

  lemma {:induction false} HistoryGrows(events: seq<Event>, i: nat)
    requires i <= |events|
    ensures After(events[..i]).log.history <= After(events).log.history
    decreases |events|
  {
    hide Next;
    if i < |events| {
      var init := events[..|events| - 1];
      HistoryGrows(init, i);
      NextKeepsHistory(After(init), events[|events| - 1]);
      assert init[..i] == events[..i];
    } else {
      assert events[..i] == events;
    }
  }

  /** Position p of the visible contents, in everything committed then and later. */
  lemma SliceOfLater(log: DevLog, later: seq<Bytes>, p: nat, n: nat)
    requires log.history <= later && p + n <= |Contents(log)|
    ensures var at := EvictedBytes(log) + p;
      at + n <= |Flat(later)| && Flat(later)[at..at + n] == Contents(log)[p..p + n]
  {
    assert later == log.history + later[|log.history|..];
    FlatConcat(log.history, later[|log.history|..]);
    ContentsAfterEvicted(log);
  }

  /** Command k of the visible ones is command k after the evicted ones, then and later. */
  lemma InsideLater(log: DevLog, later: seq<Bytes>, k: nat, p: nat, n: nat, count: nat)
    requires log.history <= later && InsideCommand(Visible(log.history), k, p, n, count)
    ensures InsideCommand(later, |Evicted(log.history)| + k, EvictedBytes(log) + p, n, count)
  {
    SplitHistory(log.history);
    CommandLater(Evicted(log.history), Visible(log.history), later, k);
    hide Sum, Flat, Evicted, Visible;
  }

  lemma CommandLater(a: seq<Bytes>, b: seq<Bytes>, later: seq<Bytes>, k: nat)
    requires a + b <= later && k < |b|
    ensures later[|a| + k] == b[k]
    ensures Sum(Sizes(later)[..|a| + k]) == |Flat(a)| + Sum(Sizes(b)[..k])
  {
    hide Sum, Flat;
    assert later[|a| + k] == (a + b)[|a| + k];
    SizesOfPrefix(a, b, later, k);
    SumConcat(Sizes(a), Sizes(b)[..k]);
    FlatSize(a);
  }

  lemma SizesOfPrefix(a: seq<Bytes>, b: seq<Bytes>, later: seq<Bytes>, k: nat)
    requires a + b <= later && k <= |b|
    ensures Sizes(later)[..|a| + k] == Sizes(a) + Sizes(b)[..k]
  {
  }

  /**
   * In any run, whatever other files do before and after, a read that returns bytes returns a
   * slice of the final committed stream: the one that starts at the bytes evicted by then plus
   * the file's position, all inside one command. It returns some unless its file is at the end.
   */
  lemma ReadsAreSlicesOfTheStream(events: seq<Event>, i: nat)
    requires i < |events|
    ensures var w, e := After(events[..i]), events[i];
      Output(w, e) == [] <==> !e.Read? || e.count == 0 || |Contents(w.log)| <= w.Pos(e.f)
    ensures var w, e, final := After(events[..i]), events[i], After(events).log.history;
      var out, at := Output(w, e), EvictedBytes(w.log) + w.Pos(e.f);
      out != [] ==>
        && at + |out| <= |Flat(final)|
        && out == Flat(final)[at..at + |out|]
        && exists k :: InsideCommand(final, k, at, |out|, e.count)
  {
    hide Flat, ReadAt, InsideCommand, EvictedBytes, After;
    var w, e, final := After(events[..i]), events[i], After(events).log.history;
    OutputIsSlice(w, e);
    if Output(w, e) != [] {
      var v, p := Visible(w.log.history), w.Pos(e.f);
      HistoryGrows(events, i);
      var n := |Output(w, e)|;
      SliceOfLater(w.log, final, p, n);
      var k :| InsideCommand(v, k, p, n, e.count);
      InsideLater(w.log, final, k, p, n, e.count);
    }
  }

  // ---------- Reads after seeks ----------

  /** No event from i up to j is on file f. */
  predicate OthersOnly(events: seq<Event>, i: nat, j: nat, f: nat)
    requires j <= |events|
  {
    forall m :: i <= m < j ==> events[m].f != f
  }

  lemma {:induction false} OthersMoveNothing(events: seq<Event>, i: nat, j: nat, f: nat)
    requires i <= j <= |events| && OthersOnly(events, i, j, f)
    ensures After(events[..j]).Pos(f) == After(events[..i]).Pos(f)
    decreases j
  {
    hide Next, After;
    if i < j {
      OthersMoveNothing(events, i, j - 1, f);
      AfterSnoc(events, j - 1);
      NextMoves(After(events[..j - 1]), events[j - 1]);
    }
  }

  /** Whatever happens on other files between event i and read j of a file, the read starts where i left it. */
  lemma ReadStartsWhereLeft(events: seq<Event>, i: nat, j: nat)
    requires i < j < |events| && events[j].Read? && events[i].f == events[j].f
    requires OthersOnly(events, i + 1, j, events[j].f)
    ensures var at, contents := Next(After(events[..i]), events[i]).Pos(events[j].f), Contents(After(events[..j]).log);
      var out := Output(After(events[..j]), events[j]);
      && (out == [] <==> events[j].count == 0 || |contents| <= at)
      && (out != [] ==> at + |out| <= |contents| && out == contents[at..at + |out|])
  {
    hide Next, Output, After, Contents, InsideCommand;
    AfterSnoc(events, i);
    OthersMoveNothing(events, i + 1, j, events[j].f);
    OutputIsSlice(After(events[..j]), events[j]);
  }

  /**
   * In any run, after an ioctl to slot k, offset o of a file, with a byte there, the next read of
   * the file is not empty, if nothing is committed in between: it starts with the byte of the
   * contents that the slot sizes from slot 0 name. That is byte o of the command in slot k,
   * for all of them, exactly where IoctlFindsItsByteExactly says.
   */
  lemma ReadAfterIoctl(events: seq<Event>, i: nat, j: nat, k: nat, o: nat)
    requires i < j < |events| && events[j].Read? && events[j].count > 0
    requires events[i] == Ioctl(events[j].f, k, o) && OthersOnly(events, i + 1, j, events[j].f)
    requires After(events[..j]).log.history == After(events[..i]).log.history
    requires k < CAPACITY && o < PhysicalSizes(After(events[..i]).log.history)[k]
    ensures var h, out := After(events[..i]).log.history, Output(After(events[..j]), events[j]);
      var at := Sum(PhysicalSizes(h)[..k]) + o;
      && at < |Flat(Visible(h))| && out != [] && out[0] == Flat(Visible(h))[at]
      && o < |SlotContents(h)[k]|
      && (IoctlFindsItsByte(h) ==> out[0] == SlotContents(h)[k][o])
  {
    hide Output, After, Flat, Sum, SlotContents, PhysicalSizes, ReadAt, SeekTo;
    var w := After(events[..i]);
    var at := Sum(PhysicalSizes(w.log.history)[..k]) + o;
    NextMoves(w, events[i]);
    hide Next;
    ReadStartsWhereLeft(events, i, j);
    SlotContentsSizes(w.log.history);
    ByteAtSlot(w.log.history, k, o);
    var out := Output(After(events[..j]), events[j]);
    assert out != [] ==> Flat(Visible(w.log.history))[at..at + |out|][0] == Flat(Visible(w.log.history))[at];
  }

  /** An ioctl to a slot without that byte, or a seek that leaves the contents, is as if it had not been made. */
  lemma RefusedSeekIsNothing(w: World, e: Event)
    requires match e
      case Ioctl(f, cmd, offset) => cmd >= CAPACITY || offset >= PhysicalSizes(w.log.history)[cmd]
      case Llseek(f, off, whence) =>
        && (whence == SeekSet ==> off < 0 || off > |Contents(w.log)|)
        && (whence == SeekCur ==> w.Pos(f) + off < 0 || w.Pos(f) + off > |Contents(w.log)|)
        && (whence == SeekEnd ==> off > 0 || off < 0 - |Contents(w.log)|)
      case _ => false
    ensures Next(w, e) == w
  {
    hide Contents, PhysicalSizes;
  }

  /** In any run, after an accepted llseek of a file to position p the next read of the file starts at p. */
  lemma ReadAfterLlseek(events: seq<Event>, i: nat, j: nat, p: nat)
    requires i < j < |events| && events[j].Read? && events[i].Llseek? && events[i].f == events[j].f
    requires OthersOnly(events, i + 1, j, events[j].f)
    requires var w, e := After(events[..i]), events[i];
      && p <= |Contents(w.log)|
      && match e.whence
         case SeekSet => p == e.off
         case SeekCur => p == w.Pos(e.f) + e.off
         case SeekEnd => p == |Contents(w.log)| + e.off
         case OtherWhence => false
    ensures var contents, out := Contents(After(events[..j]).log), Output(After(events[..j]), events[j]);
      && (out == [] <==> events[j].count == 0 || |contents| <= p)
      && (out != [] ==> p + |out| <= |contents| && out == contents[p..p + |out|])
  {
    hide Output, After, Contents;
    NextMoves(After(events[..i]), events[i]);
    hide Next;
    ReadStartsWhereLeft(events, i, j);
  }

  predicate OnlyReads(events: seq<Event>, f: nat) {
    forall i :: 0 <= i < |events| && events[i].f == f ==> events[i].Read?
  }

  /** Until the first eviction, a file that is only ever read receives the stream from its start. */
  lemma {:induction false} ReaderGetsPrefix(events: seq<Event>, f: nat)
    requires OnlyReads(events, f) && |After(events).log.history| <= CAPACITY
    ensures After(events).Pos(f) <= |Flat(After(events).log.history)|
    ensures Received(events, f) == Flat(After(events).log.history)[..After(events).Pos(f)]
    decreases |events|
  {
    if events != [] {
      var m := |events| - 1;
      var init, e := events[..m], events[m];
      HistoryGrows(events, m);
      ReaderGetsPrefix(init, f);
      ReaderStep(After(init), e, f, Received(init, f));
    }
  }

  lemma ReaderStep(w: World, e: Event, f: nat, got: Bytes)
    requires e.f == f ==> e.Read?
    requires |Next(w, e).log.history| <= CAPACITY
    requires w.Pos(f) <= |Flat(w.log.history)| && got == Flat(w.log.history)[..w.Pos(f)]
    ensures var w' := Next(w, e);
      && w'.Pos(f) <= |Flat(w'.log.history)|
      && got + (if e.f == f then Output(w, e) else []) == Flat(w'.log.history)[..w'.Pos(f)]
  {
    hide ReadAt, SeekTo, PhysicalSizes, Flat, SeekAccepted, Contents;
    var w' := Next(w, e);
    if e.f == f {
      assert Visible(w.log.history) == w.log.history;
      ReadIsSlice(w.log.history, w.Pos(f), e.count);
    } else if e.Write? && !e.fails && w'.log.history != w.log.history {
      FlatSnoc(w.log.history, w.log.pending + e.bytes);
    }
  }
}
