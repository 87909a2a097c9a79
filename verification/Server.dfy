/**
 * One connection of the device-backed server: server/aesdsocket.c, handle_client. A client is
 * the chunks that recv will return for it before it closes its side.
 */
module Server {
  import opened Streams
  import opened Slots
  import opened DeviceLog
  import opened DeviceView
  import opened AesdChar

  const BUFFER_SIZE: nat := 1024

  /**
   * A received chunk, as the server classifies it: plain bytes (lost if the write fails, which
   * the server does not notice), a seek command with or without a newline in the chunk, or a
   * seek command that does not parse.
   */
  datatype Chunk =
    | Data(bytes: Bytes, lost: bool)
    | Seek(cmd: nat, offset: nat, newline: bool)
    | BadSeek
  {
    predicate HasNewline() {
      match this
      case Data(bytes, _) => NEWLINE in bytes
      case Seek(_, _, newline) => newline
      case BadSeek => false
    }
  }

  type Script = seq<Chunk>

  /** How a connection ends: answered, closed by the client while file_mutex is held, or server exit. */
  datatype Fate = Replied | HungUp | Exited

  datatype Served = Served(log: DevLog, reply: Bytes, fate: Fate)

  /** The position an accepted seek reaches: inside the contents. */
  function SeekPosition(d: DevLog, cmd: nat, offset: nat): (p: nat)
    requires SeekTo(PhysicalSizes(d.history), cmd, offset).Some?
    ensures SeekTo(PhysicalSizes(d.history), cmd, offset) == Some(p) && p < |Contents(d)|
  {
    SeekLandsInside(d, cmd, offset, 1);
    SeekTo(PhysicalSizes(d.history), cmd, offset).value
  }

  /** What a data chunk leaves of the device. */
  function Stored(d: DevLog, chunk: Chunk): DevLog {
    if chunk.Data? && !chunk.lost then Accumulate(d, chunk.bytes) else d
  }

  /** After one chunk: receive on, with the device as it is now, or be done with the client. */
  datatype Progress = More(log: DevLog) | Done(served: Served)

  function ServeChunk(d: DevLog, chunk: Chunk): Progress {
    match chunk
    case Data(_, _) =>
      var after := Stored(d, chunk);
      if chunk.HasNewline() then Done(Served(after, Contents(after), Replied)) else More(after)
    case Seek(cmd, offset, newline) =>
      if SeekTo(PhysicalSizes(d.history), cmd, offset).None? then Done(Served(d, [], Exited))
      else if newline then Done(Served(d, Contents(d)[SeekPosition(d, cmd, offset)..], Replied))
      else More(d)
    case BadSeek => Done(Served(d, [], Exited))
  }

  /** What serving one client does to the device, what the client receives, and how it ends. */
  function Serve(d: DevLog, script: Script): Served
    decreases |script|
  {
    if script == [] then Served(d, [], HungUp)
    else match ServeChunk(d, script[0])
      case More(after) => Serve(after, script[1..])
      case Done(served) => served
  }

  // ---------- The running server ----------

  class FileMutex {
    var held: bool

    constructor ()
      ensures !held
    {
      held := false;
    }
  }

  /** What recv and sscanf can return: chunks of 1 to 1024 bytes, unsigned ints. */
  predicate Receivable(script: Script) {
    forall i :: 0 <= i < |script| ==>
      match script[i]
      case Data(bytes, _) => 0 < |bytes| <= BUFFER_SIZE
      case Seek(cmd, offset, _) => cmd < UINT32_LIMIT && offset < UINT32_LIMIT
      case BadSeek => true
  }

  function DataBytes(script: Script): nat {
    if script == [] then 0
    else (if script[0].Data? then |script[0].bytes| else 0) + DataBytes(script[1..])
  }

  lemma ReadBlocksStep(commands: seq<Bytes>, pos: nat)
    requires pos <= |Flat(commands)|
    ensures var r, blocks := ReadAt(commands, pos, BUFFER_SIZE), ReadBlocks(commands, pos, BUFFER_SIZE);
      && pos + |r| <= |Flat(commands)|
      && blocks == if r == [] then [] else [r] + ReadBlocks(commands, pos + |r|, BUFFER_SIZE)
  {
    hide ReadAt, Flat;
    ReadIsSlice(commands, pos, BUFFER_SIZE);
  }

  /** One read of the reply loop. */
  method ReadBlock(dev: AesdDevice, f: OpenFile) returns (ret: int, data: Bytes)
    requires dev.Valid() && f.fPos <= |Contents(dev.log)|
    modifies f
    ensures data == ReadAt(Visible(dev.log.history), old(f.fPos), BUFFER_SIZE)
    ensures ret == |data| && f.fPos == old(f.fPos) + |data| <= |Contents(dev.log)|
  {
    hide ReadAt, Flat;
    ReadIsSlice(Visible(dev.log.history), f.fPos, BUFFER_SIZE);
    ret, data := dev.Read(f, BUFFER_SIZE, false);
  }

  /** The reply loop: read until a read is empty, sending each block; one more read than blocks. */
  method SendRest(dev: AesdDevice, f: OpenFile) returns (sends: seq<Bytes>, calls: nat)
    requires dev.Valid() && f.fPos <= |Contents(dev.log)|
    modifies f
    ensures sends == ReadBlocks(Visible(dev.log.history), old(f.fPos), BUFFER_SIZE)
    ensures calls == |sends| + 1
  {
    hide ReadAt, ReadBlocks, Contents, Flat, Visible, AesdDevice.Valid;
    ghost var commands, at := Visible(dev.log.history), f.fPos;
    ghost var all := ReadBlocks(commands, at, BUFFER_SIZE);
    ghost var rest := all;
    VisibleContents(dev.log);
    sends, calls := [], 1;
    var ret, data := ReadBlock(dev, f);
    ReadBlocksStep(commands, at);
    assert sends + rest == all;
    while ret > 0
      invariant at <= f.fPos <= |Flat(commands)| && calls == |sends| + 1
      invariant ret == |data| && f.fPos == at + |data|
      invariant rest == if data == [] then [] else [data] + ReadBlocks(commands, f.fPos, BUFFER_SIZE)
      invariant sends + rest == all
      decreases |Flat(commands)| - at
    {
      rest := ReadBlocks(commands, f.fPos, BUFFER_SIZE);
      NextBlock(sends, data, rest);
      sends, calls := sends + [data], calls + 1;
      at := f.fPos;
      ret, data := ReadBlock(dev, f);
      ReadBlocksStep(commands, at);
    }
    assert sends + [] == sends;
  }

  lemma NextBlock(sends: seq<Bytes>, data: Bytes, rest: seq<Bytes>)
    ensures sends + ([data] + rest) == sends + [data] + rest
  {
  }

  /**
   * The bytes of the reply loop's blocks: all that follows the file's position. From the start
   * it takes one read for each 1024 bytes or part of them of every command, and one more.
   */
  method ReplyFrom(dev: AesdDevice, f: OpenFile) returns (reply: Bytes, calls: nat)
    requires dev.Valid() && f.fPos <= |Contents(dev.log)|
    modifies f
    ensures reply == Contents(dev.log)[old(f.fPos)..]
    ensures old(f.fPos) == 0 ==> calls == BlocksNeeded(Visible(dev.log.history), 1024) + 1
  {
    ghost var start := f.fPos;
    var sends: seq<Bytes>;
    sends, calls := SendRest(dev, f);
    ReadBlocksComplete(Visible(dev.log.history), start, BUFFER_SIZE);
    ReadCount(Visible(dev.log.history), BUFFER_SIZE);
    reply := Flat(sends);
  }

  /** The body of the receive loop, on a newly opened file: done, or receive on. */
  method HandleChunk(dev: AesdDevice, mutex: FileMutex, chunk: Chunk) returns (done: bool, reply: Bytes, fate: Fate)
    requires dev.Valid() && mutex.held && Receivable([chunk])
    requires Reachable(dev.log) + DataBytes([chunk]) <= SSIZE_MAX
    modifies dev, dev.buffer, dev.buffer.entry, dev.heap, mutex
    ensures dev.Valid()
    ensures ServeChunk(old(dev.log), chunk) == if done then Done(Served(dev.log, reply, fate)) else More(dev.log)
    ensures mutex.held <==> !done
    ensures done ==> fate != HungUp
    ensures Reachable(dev.log) <= old(Reachable(dev.log)) + DataBytes([chunk])
  {
    hide Contents, SeekTo, PhysicalSizes, Accumulate, Flat, AesdDevice.Valid;
    assert [chunk][0] == chunk;
    var f := new OpenFile();
    var calls: nat;
    done, reply, fate := true, [], Exited;
    match chunk {
      case Data(bytes, lost) =>
        WriteBound(dev.log, dev.log.pending, bytes);
        var moves := *;
        var faults := dev.IntactKernel(lost, moves);
        var _ := dev.Write(f, bytes, faults);
        if NEWLINE in bytes {
          var _ := dev.Llseek(f, 0, SeekSet);
          fate := Replied;
          reply, calls := ReplyFrom(dev, f);
          assert reply == Contents(dev.log);
        } else {
          done := false;
        }
      case Seek(cmd, offset, newline) =>
        var ret := dev.Ioctl(f, AESDCHAR_IOCSEEKTO, cmd, offset, false);
        if ret == 0 {
          assert f.fPos == SeekPosition(dev.log, cmd, offset);
          if newline {
            fate := Replied;
            reply, calls := ReplyFrom(dev, f);
          } else {
            done := false;
          }
        }
      case BadSeek =>
    }
    mutex.held := !done;
  }

  /** handle_client. The mutex is still held afterwards exactly if the client closed too early. */
  method HandleClient(dev: AesdDevice, mutex: FileMutex, script: Script) returns (reply: Bytes, fate: Fate)
    requires dev.Valid() && !mutex.held && Receivable(script)
    requires Reachable(dev.log) + DataBytes(script) <= SSIZE_MAX
    modifies dev, dev.buffer, dev.buffer.entry, dev.heap, mutex
    ensures dev.Valid()
    ensures Served(dev.log, reply, fate) == Serve(old(dev.log), script)
    ensures mutex.held <==> fate == HungUp
  {
    hide ServeChunk, Reachable, AesdDevice.Valid;
    mutex.held := true;
    var i := 0;
    assert script[0..] == script;
    while i < |script|
      invariant i <= |script| && mutex.held && dev.Valid()
      invariant Serve(dev.log, script[i..]) == Serve(old(dev.log), script)
      invariant Reachable(dev.log) + DataBytes(script[i..]) <= SSIZE_MAX
    {
      assert script[i..][0] == script[i] && script[i..][1..] == script[i + 1..];
      assert DataBytes([script[i]]) + DataBytes(script[i + 1..]) == DataBytes(script[i..]);
      var done;
      done, reply, fate := HandleChunk(dev, mutex, script[i]);
      if done {
        return;
      }
      i := i + 1;
    }
    assert script[i..] == [];
    return [], HungUp;
  }
}
