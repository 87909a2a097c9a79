/**
 * Clients one after another: each is a single write of its packet, whatever its chunks, and
 * when every command in the device is exactly one client's packet.
 */
module Packets {
  import opened Streams
  import opened Slots
  import opened DeviceLog
  import opened DeviceView
  import opened Server

  /** What a chunk brings to the device. */
  function DataOf(chunk: Chunk): Bytes {
    if chunk.Data? && !chunk.lost then chunk.bytes else []
  }

  /** The data chunks that reached the device. */
  function Written(script: Script): seq<Bytes> {
    if script == [] then []
    else (if script[0].Data? && !script[0].lost then [script[0].bytes] else []) + Written(script[1..])
  }

  /** The chunks a connection is served: up to the first that has a newline. */
  function Tenure(script: Script): Script {
    if script == [] then []
    else if script[0].HasNewline() then [script[0]]
    else [script[0]] + Tenure(script[1..])
  }

  /** What a connection writes if no seek of it makes the server exit. */
  function Packet(script: Script): Bytes {
    Flat(Written(Tenure(script)))
  }

  /** What a connection writes when it is served by a device with log d. */
  function Sent(d: DevLog, script: Script): Bytes
    decreases |script|
  {
    if script == [] then []
    else
      DataOf(script[0]) +
      match ServeChunk(d, script[0])
      case More(after) => Sent(after, script[1..])
      case Done(_) => []
  }

  predicate Completes(script: Script) {
    exists i :: 0 <= i < |script| && script[i].HasNewline()
  }

  /** Chunk i is received unless a seek before it makes the server exit. */
  predicate Reached(script: Script, i: nat) {
    i < |script| && forall j :: 0 <= j < i ==> !script[j].HasNewline()
  }

  /** Every chunk that can be received is data. */
  ghost predicate ReachesOnlyData(script: Script) {
    forall i: nat :: Reached(script, i) ==> script[i].Data?
  }

  lemma NoNewlineJoins(d: DevLog, b: Bytes, more: Bytes)
    requires NEWLINE !in b && Settled(d)
    ensures Settled(Accumulate(d, b))
    ensures Accumulate(d, b) == DevLog(d.history, d.pending + b)
    ensures Accumulate(Accumulate(d, b), more) == Accumulate(d, b + more)
  {
    if b != [] {
      assert (d.pending + b)[|d.pending + b| - 1] in b;
    } else {
      assert d.pending + b == d.pending;
    }
    assert d.pending + b + more == d.pending + (b + more);
  }

  lemma WrittenHead(script: Script)
    requires script != []
    ensures Flat(Written(script)) == DataOf(script[0]) + Flat(Written(script[1..]))
  {
    var head := if script[0].Data? && !script[0].lost then [script[0].bytes] else [];
    FlatConcat(head, Written(script[1..]));
  }

  lemma PacketHead(script: Script)
    requires script != []
    ensures Packet(script) == DataOf(script[0]) + if script[0].HasNewline() then [] else Packet(script[1..])
  {
    WrittenHead(Tenure(script));
    assert Tenure(script)[1..] == if script[0].HasNewline() then [] else Tenure(script[1..]);
  }

  lemma CompletesHead(script: Script)
    requires script != []
    ensures Completes(script) <==> script[0].HasNewline() || Completes(script[1..])
  {
    if Completes(script[1..]) {
      var i :| 0 <= i < |script[1..]| && script[1..][i].HasNewline();
      assert script[i + 1].HasNewline();
    }
  }

  /** Being received, seen from the second chunk on. */
  lemma ReachedTail(script: Script, i: nat)
    requires script != [] && !script[0].HasNewline()
    ensures Reached(script, i + 1) <==> Reached(script[1..], i)
  {
    if Reached(script, i + 1) {
      assert forall j :: 0 <= j < i ==> script[1..][j] == script[j + 1];
    } else if i + 1 < |script| {
      var j :| 0 <= j < i + 1 && script[j].HasNewline();
      assert script[1..][j - 1].HasNewline();
    }
  }

  /** A chunk that does not end the tenure leaves its bytes pending; one that does, commits or seeks. */
  lemma ChunkIsOneWrite(d: DevLog, chunk: Chunk)
    requires Settled(d)
    ensures Settled(Stored(d, chunk))
    ensures match ServeChunk(d, chunk)
      case More(after) =>
        && !chunk.HasNewline() && NEWLINE !in DataOf(chunk)
        && after == Stored(d, chunk) == Accumulate(d, DataOf(chunk))
      case Done(served) =>
        && served.log == Accumulate(d, DataOf(chunk))
        && served.fate != HungUp && (served.fate == Replied ==> chunk.HasNewline())
  {
    hide SeekTo, PhysicalSizes, Contents;
    NothingWritten(d);
  }

  /**
   * However a client's bytes were cut into chunks, serving it is one write of what it sent. It is
   * answered only if it sends a chunk with a newline, leaves with the mutex held only if it does
   * not, and in both cases has sent its packet.
   */
  lemma {:induction false} ServingIsOneWrite(d: DevLog, script: Script)
    requires Settled(d)
    ensures Serve(d, script).log == Accumulate(d, Sent(d, script))
    ensures Settled(Serve(d, script).log)
    ensures Serve(d, script).fate != Exited ==>
      && Sent(d, script) == Packet(script)
      && Serve(d, script).fate == if Completes(script) then Replied else HungUp
    decreases |script|
  {
    hide Accumulate, Completes, ServeChunk, DataOf, Settled;
    if script == [] {
      NothingWritten(d);
    } else {
      var chunk, rest := script[0], script[1..];
      PacketHead(script);
      CompletesHead(script);
      ChunkIsOneWrite(d, chunk);
      hide Packet;
      match ServeChunk(d, chunk)
      case More(after) =>
        NoNewlineJoins(d, DataOf(chunk), Sent(after, rest));
        ServingIsOneWrite(after, rest);
      case Done(_) =>
        assert DataOf(chunk) + [] == DataOf(chunk);
        AccumulateKeepsSettled(d, DataOf(chunk));
    }
  }

  lemma NothingWritten(d: DevLog)
    requires Settled(d)
    ensures Accumulate(d, []) == d && Accumulate(d, [] + []) == d && Packet([]) == []
    ensures !Completes([])
  {
  }

  /** A client whose every received chunk is data never makes the server exit. */
  lemma {:induction false} DataIsServed(d: DevLog, script: Script)
    requires ReachesOnlyData(script)
    ensures Serve(d, script).fate != Exited
    decreases |script|
  {
    if script != [] {
      assert Reached(script, 0);
      if !script[0].HasNewline() {
        forall i: nat | Reached(script[1..], i)
          ensures script[1..][i].Data?
        {
          ReachedTail(script, i);
        }
        DataIsServed(Stored(d, script[0]), script[1..]);
      }
    }
  }

  /** Chunk i is a seek that does not parse or finds no byte in the device as the client locked it. */
  predicate FailsAt(d: DevLog, script: Script, i: nat) {
    && Reached(script, i)
    && (script[i].BadSeek?
        || (script[i].Seek? && SeekTo(PhysicalSizes(d.history), script[i].cmd, script[i].offset).None?))
  }

  /** No chunk that the client can reach fails. */
  ghost predicate NoSeekFails(d: DevLog, script: Script) {
    forall i: nat :: !FailsAt(d, script, i)
  }

  lemma FailsAtTail(d: DevLog, after: DevLog, script: Script, i: nat)
    requires script != [] && !script[0].HasNewline() && after.history == d.history
    ensures FailsAt(d, script, i + 1) <==> FailsAt(after, script[1..], i)
  {
    ReachedTail(script, i);
  }

  /** Before its last chunk a client commits nothing. */
  lemma ChunkKeepsHistory(d: DevLog, chunk: Chunk)
    requires Settled(d) && !chunk.HasNewline()
    ensures Stored(d, chunk).history == d.history && Settled(Stored(d, chunk))
  {
    if chunk.Data? {
      NoNewlineJoins(d, chunk.bytes, []);
    }
  }

  /** A client that makes the server exit does so at the first seek that fails, having sent the data before it. */
  lemma {:induction false} ExitsAtASeek(d: DevLog, script: Script) returns (i: nat)
    requires Settled(d) && Serve(d, script).fate == Exited
    ensures FailsAt(d, script, i) && forall j: nat :: j < i ==> !FailsAt(d, script, j)
    ensures Sent(d, script) == Flat(Written(script[..i]))
    decreases |script|
  {
    hide Accumulate, SeekTo, PhysicalSizes, Contents, Settled, Flat;
    var chunk, rest := script[0], script[1..];
    ChunkIsOneWrite(d, chunk);
    FlatEmpty();
    match ServeChunk(d, chunk)
    case More(after) =>
      ChunkKeepsHistory(d, chunk);
      i := ExitsAtASeek(after, rest);
      FailsAtTail(d, after, script, i);
      forall j: nat | j < i + 1
        ensures !FailsAt(d, script, j)
      {
        if j > 0 {
          FailsAtTail(d, after, script, j - 1);
        }
      }
      assert script[..i + 1][0] == chunk && script[..i + 1][1..] == rest[..i];
      WrittenHead(script[..i + 1]);
      i := i + 1;
    case Done(_) =>
      i := 0;
      assert script[..0] == [];
  }

  /** A failing seek that the client reaches makes the server exit, whatever else it sends. */
  lemma {:induction false} FailingSeekExits(d: DevLog, script: Script, i: nat)
    requires Settled(d) && FailsAt(d, script, i)
    ensures Serve(d, script).fate == Exited
    decreases |script|
  {
    hide Accumulate, SeekTo, PhysicalSizes, Contents, Settled, Stored;
    if i > 0 {
      ChunkKeepsHistory(d, script[0]);
      FailsAtTail(d, Stored(d, script[0]), script, i - 1);
      if !script[0].Data? {
        StoredSeek(d, script[0]);
      }
      FailingSeekExits(Stored(d, script[0]), script[1..], i - 1);
    }
  }

  lemma StoredSeek(d: DevLog, chunk: Chunk)
    requires !chunk.Data?
    ensures Stored(d, chunk) == d
  {
  }

  /**
   * How a connection ends: the server exits exactly if the client reaches a seek that does not
   * parse or that names no byte of a command in a slot; otherwise the client is answered exactly
   * if it sends a chunk with a newline. Only an answered client is sent anything.
   */
  lemma EndsExactly(d: DevLog, script: Script)
    requires Settled(d)
    ensures Serve(d, script).fate == Exited <==>
      exists i: nat :: Reached(script, i) &&
        (script[i].BadSeek?
         || (script[i].Seek? && SeekTo(PhysicalSizes(d.history), script[i].cmd, script[i].offset).None?))
    ensures Serve(d, script).fate == Exited <==> !NoSeekFails(d, script)
    ensures Serve(d, script).fate == Replied <==> Completes(script) && NoSeekFails(d, script)
    ensures Serve(d, script).fate == HungUp <==> !Completes(script) && NoSeekFails(d, script)
    ensures Serve(d, script).fate != Replied ==> Serve(d, script).reply == []
  {
    hide Serve, SeekTo, PhysicalSizes, Completes, Sent, Packet, Settled;
    ServingIsOneWrite(d, script);
    UnansweredGetNothing(d, script);
    if Serve(d, script).fate == Exited {
      var i := ExitsAtASeek(d, script);
      assert FailsAt(d, script, i);
    }
    forall i: nat | Reached(script, i) && FailsAt(d, script, i)
      ensures Serve(d, script).fate == Exited
    {
      FailingSeekExits(d, script, i);
    }
  }

  lemma {:induction false} UnansweredGetNothing(d: DevLog, script: Script)
    ensures Serve(d, script).fate != Replied ==> Serve(d, script).reply == []
    decreases |script|
  {
    hide Stored, SeekTo, PhysicalSizes, Contents;
    if script != [] && ServeChunk(d, script[0]).More? {
      UnansweredGetNothing(ServeChunk(d, script[0]).log, script[1..]);
    }
  }

  /** A client that only seeks, to a byte of the device: it is sent the contents from that byte on. */
  lemma SeekIsServed(d: DevLog, cmd: nat, offset: nat)
    requires cmd < CAPACITY && offset < PhysicalSizes(d.history)[cmd]
    ensures var p := Sum(PhysicalSizes(d.history)[..cmd]) + offset;
      && p < |Contents(d)|
      && Serve(d, [Seek(cmd, offset, true)]) == Served(d, Contents(d)[p..], Replied)
  {
    hide PhysicalSizes, Contents, Sum;
    var p := SeekPosition(d, cmd, offset);
  }

  /** With the one command "a NL" in the device, a seek to its byte 1 is answered with the newline. */
  lemma SeekIntoOneCommand()
    ensures Serve(DevLog([[97, NEWLINE]], []), [Seek(0, 1, true)])
      == Served(DevLog([[97, NEWLINE]], []), [NEWLINE], Replied)
  {
    var d := DevLog([[97, NEWLINE]], []);
    assert d.history == [[97, NEWLINE]] + [];
    var sizes := PhysicalSizes(d.history);
    assert Sizes(d.history)[LastIndex(1, 0)] == 2;
    assert sizes[0] == 2 && sizes[..0] == [];
    SeekIsServed(d, 0, 1);
    FlatCons([97, NEWLINE], []);
    assert Contents(d) == [97, NEWLINE];
    assert Contents(d)[1..] == [NEWLINE];
  }

  /** A write that is lost leaves no trace, wherever it comes, unless its chunk has a newline. */
  lemma {:induction false} LostChunkLeavesNoTrace(d: DevLog, before: Script, bytes: Bytes, after: Script)
    requires NEWLINE !in bytes
    ensures Serve(d, before + [Data(bytes, true)] + after) == Serve(d, before + after)
    decreases |before|
  {
    hide Stored, SeekTo, PhysicalSizes, Contents;
    var lost := Data(bytes, true);
    if before == [] {
      assert ([lost] + after)[1..] == after && before + [lost] + after == [lost] + after && before + after == after;
      LostIsNotStored(d, lost);
    } else {
      var head, rest := before[0], before[1..];
      assert (before + [lost] + after)[1..] == rest + [lost] + after && (before + after)[1..] == rest + after;
      match ServeChunk(d, head)
      case More(next) => LostChunkLeavesNoTrace(next, rest, bytes, after);
      case Done(_) =>
    }
  }

  /** If it has one, the client is answered with the device as it was. */
  lemma LostChunkIsAnswered(d: DevLog, bytes: Bytes, after: Script)
    requires NEWLINE in bytes
    ensures Serve(d, [Data(bytes, true)] + after) == Served(d, Contents(d), Replied)
  {
    hide Contents;
  }

  lemma LostIsNotStored(d: DevLog, chunk: Chunk)
    requires chunk.Data? && chunk.lost
    ensures Stored(d, chunk) == d
  {
  }

  /** Where recv cuts the bytes does not matter, so long as the first part has no newline. */
  lemma {:induction false} ChunksJoin(d: DevLog, before: Script, a: Bytes, b: Bytes, after: Script)
    requires Settled(d) && NEWLINE !in a
    ensures Serve(d, before + [Data(a, false), Data(b, false)] + after)
      == Serve(d, before + [Data(a + b, false)] + after)
    decreases |before|
  {
    hide Accumulate, SeekTo, PhysicalSizes, Contents, Settled;
    var parts: Script, whole: Script := [Data(a, false), Data(b, false)], [Data(a + b, false)];
    if before == [] {
      assert before + parts + after == parts + after && before + whole + after == whole + after;
      assert (parts + after)[1..] == [Data(b, false)] + after && ([Data(b, false)] + after)[1..] == after;
      assert (whole + after)[1..] == after;
      NoNewlineJoins(d, a, b);
    } else {
      var rest := before[1..];
      assert (before + parts + after)[1..] == rest + parts + after;
      assert (before + whole + after)[1..] == rest + whole + after;
      ChunkIsOneWrite(d, before[0]);
      match ServeChunk(d, before[0])
      case More(next) => ChunksJoin(next, rest, a, b, after);
      case Done(_) =>
    }
  }

  /** No seek succeeds before the first command: a client with a seek, served first, makes the server exit. */
  lemma {:induction false} SeekExitsEmptyDevice(d: DevLog, script: Script, i: nat)
    requires Settled(d) && d.history == [] && Reached(script, i) && !script[i].Data?
    ensures Serve(d, script).fate == Exited
    decreases |script|
  {
    hide Accumulate, Settled, Contents;
    var chunk := script[0];
    ChunkIsOneWrite(d, chunk);
    if chunk.Data? {
      NoNewlineJoins(d, DataOf(chunk), []);
      ReachedTail(script, i - 1);
      SeekExitsEmptyDevice(Stored(d, chunk), script[1..], i - 1);
    } else if chunk.Seek? {
      NothingToSeek(d, chunk.cmd, chunk.offset);
    }
  }

  lemma NothingToSeek(d: DevLog, cmd: nat, offset: nat)
    requires d.history == []
    ensures SeekTo(PhysicalSizes(d.history), cmd, offset) == None
  {
  }

  /** The chunk that ends the tenure decides the reply: everything visible, or what follows the seek. */
  lemma {:induction false} ReplyOf(d: DevLog, script: Script)
    requires Settled(d) && Serve(d, script).fate == Replied
    ensures Tenure(script) != []
    ensures var after, last := Serve(d, script).log, Tenure(script)[|Tenure(script)| - 1];
      && (last.Data? ==> Serve(d, script).reply == Contents(after))
      && (last.Seek? ==>
        && after.history == d.history
        && SeekTo(PhysicalSizes(d.history), last.cmd, last.offset).Some?
        && var p := SeekTo(PhysicalSizes(d.history), last.cmd, last.offset).value;
          p < |Contents(d)| && Serve(d, script).reply == Contents(d)[p..])
    decreases |script|
  {
    hide Accumulate, SeekTo, PhysicalSizes, Contents, Settled;
    if script != [] && !script[0].HasNewline() {
      var chunk, rest := script[0], script[1..];
      if chunk.Data? && !chunk.lost {
        NoNewlineJoins(d, chunk.bytes, []);
        SameHistorySameView(d, Accumulate(d, chunk.bytes));
        ReplyOf(Accumulate(d, chunk.bytes), rest);
      } else {
        ReplyOf(d, rest);
      }
    }
  }

  lemma SameHistorySameView(d: DevLog, e: DevLog)
    requires d.history == e.history
    ensures Contents(d) == Contents(e)
  {
  }

  // ---------- Clients in a row ----------

  /** The device after serving the clients in order. */
  function ServeAll(scripts: seq<Script>): DevLog {
    if scripts == [] then FRESH
    else Serve(ServeAll(scripts[..|scripts| - 1]), scripts[|scripts| - 1]).log
  }

  function PacketsOf(scripts: seq<Script>): (ps: seq<Bytes>)
    ensures |ps| == |scripts|
    ensures forall i :: 0 <= i < |ps| ==> ps[i] == Packet(scripts[i])
  {
    seq(|scripts|, i requires 0 <= i < |scripts| => Packet(scripts[i]))
  }

  /** What each client writes, served in order. */
  function SentBy(scripts: seq<Script>): (ps: seq<Bytes>)
    ensures |ps| == |scripts|
    ensures forall i :: 0 <= i < |ps| ==> ps[i] == Sent(ServeAll(scripts[..i]), scripts[i])
  {
    seq(|scripts|, i requires 0 <= i < |scripts| => Sent(ServeAll(scripts[..i]), scripts[i]))
  }

  lemma SentBySnoc(scripts: seq<Script>, script: Script)
    ensures SentBy(scripts + [script]) == SentBy(scripts) + [Sent(ServeAll(scripts), script)]
  {
    hide Sent, ServeAll;
    var more := scripts + [script];
    assert forall i :: 0 <= i <= |scripts| ==> more[..i] == scripts[..i];
    assert scripts[..|scripts|] == scripts;
  }

  /** Clients in a row are the writes of what they sent, whether or not the server survives them. */
  lemma {:induction false} ServingAllWrites(scripts: seq<Script>)
    ensures ServeAll(scripts) == WriteAll(FRESH, SentBy(scripts))
    ensures Settled(ServeAll(scripts))
  {
    hide Sent, Serve, Accumulate;
    if scripts != [] {
      var init, script := scripts[..|scripts| - 1], scripts[|scripts| - 1];
      ServingAllWrites(init);
      ServingIsOneWrite(ServeAll(init), script);
      assert scripts == init + [script];
      SentBySnoc(init, script);
      WriteAllSnoc(FRESH, SentBy(init), Sent(ServeAll(init), script));
    }
  }

  /** No client makes the server exit. */
  ghost predicate NoneExits(scripts: seq<Script>) {
    forall i :: 0 <= i < |scripts| ==> Serve(ServeAll(scripts[..i]), scripts[i]).fate != Exited
  }

  /** Then they have written their packets. */
  lemma SurvivorsSendPackets(scripts: seq<Script>)
    requires NoneExits(scripts)
    ensures SentBy(scripts) == PacketsOf(scripts)
  {
    hide Sent, Serve, ServeAll, Packet, Settled;
    forall i | 0 <= i < |scripts|
      ensures SentBy(scripts)[i] == PacketsOf(scripts)[i]
    {
      ServingAllWrites(scripts[..i]);
      ServingIsOneWrite(ServeAll(scripts[..i]), scripts[i]);
    }
  }

  predicate CleanPacket(p: Bytes) {
    p == [] || EndsInNewline(p)
  }

  function NonEmpty(packets: seq<Bytes>): seq<Bytes> {
    if packets == [] then []
    else
      var p := packets[|packets| - 1];
      NonEmpty(packets[..|packets| - 1]) + if p == [] then [] else [p]
  }

  /** The commands are the packets, and nothing is left over. */
  ghost predicate Whole(packets: seq<Bytes>) {
    WriteAll(FRESH, packets) == DevLog(NonEmpty(packets), [])
  }

  ghost predicate WholeThroughout(packets: seq<Bytes>) {
    forall i :: 0 <= i <= |packets| ==> Whole(packets[..i])
  }

  lemma WholeStep(packets: seq<Bytes>, p: Bytes)
    requires Whole(packets)
    ensures Whole(packets + [p]) <==> CleanPacket(p)
  {
    WriteAllSnoc(FRESH, packets, p);
    assert (packets + [p])[..|packets|] == packets;
    assert [] + p == p;
  }

  lemma WholeSnoc(packets: seq<Bytes>, p: Bytes)
    ensures WholeThroughout(packets + [p]) <==> WholeThroughout(packets) && Whole(packets + [p])
  {
    var more := packets + [p];
    assert forall i :: 0 <= i <= |packets| ==> more[..i] == packets[..i];
    assert more[..|more|] == more;
  }

  /**
   * At every release of the mutex the commands are the clients' packets, one each, with nothing
   * pending, if and only if every packet ends in a newline or is empty.
   */
  lemma {:induction false} PacketsStayWhole(packets: seq<Bytes>)
    ensures WholeThroughout(packets) <==> forall i :: 0 <= i < |packets| ==> CleanPacket(packets[i])
  {
    if packets == [] {
      assert Whole([]);
    } else {
      var init, p := packets[..|packets| - 1], packets[|packets| - 1];
      assert packets == init + [p];
      PacketsStayWhole(init);
      WholeSnoc(init, p);
      if WholeThroughout(init) {
        assert init[..|init|] == init;
        WholeStep(init, p);
      }
      assert (forall i :: 0 <= i < |packets| ==> CleanPacket(packets[i]))
        <==> (forall i :: 0 <= i < |init| ==> CleanPacket(init[i])) && CleanPacket(p);
    }
  }

  lemma {:induction false} NonEmptyAll(packets: seq<Bytes>)
    requires forall i :: 0 <= i < |packets| ==> packets[i] != []
    ensures NonEmpty(packets) == packets
  {
    if packets != [] {
      NonEmptyAll(packets[..|packets| - 1]);
    }
  }

  /**
   * A chunk with a newline before its end releases the mutex with bytes pending, and the next
   * client's bytes are committed with them as one command.
   */
  lemma InnerNewlineMixesClients()
    ensures var first: Script, second: Script := [Data([97, NEWLINE, 99], false)], [Data([101, NEWLINE], false)];
      && Serve(FRESH, first).fate == Replied
      && ServeAll([first]).pending == [97, NEWLINE, 99]
      && ServeAll([first, second]) == DevLog([[97, NEWLINE, 99, 101, NEWLINE]], [])
  {
    var a: Bytes, b: Bytes := [97, NEWLINE, 99], [101, NEWLINE];
    var first: Script, second: Script := [Data(a, false)], [Data(b, false)];
    assert a[1] == NEWLINE && b[1] == NEWLINE;
    assert [] + a == a;
    assert ServeAll([]) == FRESH;
    assert [first][..0] == [] && [first, second][..1] == [first];
    assert Serve(FRESH, first).log == DevLog([], a);
    assert ServeAll([first]) == DevLog([], a);
    assert a + b == [97, NEWLINE, 99, 101, NEWLINE];
    assert Serve(DevLog([], a), second).log == DevLog([a + b], []);
  }

  // ---------- Clean clients ----------

  /**
   * A client that leaves the device as it should, whatever the device held: an answered one has
   * written nothing or bytes that end in a newline, and one that can make the server exit, at a
   * seek, has written nothing before it.
   */
  ghost predicate CleanScript(script: Script) {
    && (Completes(script) ==> CleanPacket(Packet(script)))
    && forall i: nat :: Reached(script, i) && !script[i].Data? ==> Flat(Written(script[..i])) == []
  }

  lemma CleanScriptSendsClean(d: DevLog, script: Script)
    requires Settled(d) && CleanScript(script) && Serve(d, script).fate != HungUp
    ensures CleanPacket(Sent(d, script))
  {
    hide Sent, Serve, Packet, Written, Settled, Completes;
    if Serve(d, script).fate == Exited {
      var i := ExitsAtASeek(d, script);
    } else {
      ServingIsOneWrite(d, script);
    }
  }

  /** No data reaches the device after a seek has been received. */
  ghost predicate NoDataAfterSeek(script: Script) {
    forall i: nat, j: nat :: i < j && Reached(script, j) && !script[i].Data? ==> DataOf(script[j]) == []
  }

  lemma {:induction false} NoDataWritesNothing(script: Script)
    requires forall j: nat :: Reached(script, j) ==> DataOf(script[j]) == []
    ensures Packet(script) == []
  {
    if script != [] {
      assert Reached(script, 0);
      PacketHead(script);
      if !script[0].HasNewline() {
        forall j: nat | Reached(script[1..], j)
          ensures DataOf(script[1..][j]) == []
        {
          ReachedTail(script, j);
          assert DataOf(script[j + 1]) == [];
        }
        NoDataWritesNothing(script[1..]);
      }
    }
  }

  /** If no data follows a seek, what came before the seek is the whole packet, with no newline in it. */
  lemma {:induction false} PacketBeforeSeek(script: Script, i: nat)
    requires NoDataAfterSeek(script) && Reached(script, i) && !script[i].Data?
    ensures Packet(script) == Flat(Written(script[..i])) && NEWLINE !in Packet(script)
    decreases |script|
  {
    PacketHead(script);
    if i == 0 {
      assert script[..0] == [];
      forall j: nat | Reached(script, j)
        ensures DataOf(script[j]) == []
      {
      }
      NoDataWritesNothing(script);
    } else {
      var rest := script[1..];
      forall k: nat, j: nat | k < j && Reached(rest, j) && !rest[k].Data?
        ensures DataOf(rest[j]) == []
      {
        ReachedTail(script, j);
        assert !script[k + 1].Data?;
      }
      ReachedTail(script, i - 1);
      PacketBeforeSeek(rest, i - 1);
      assert script[..i][0] == script[0] && script[..i][1..] == rest[..i - 1];
      WrittenHead(script[..i]);
    }
  }

  /** A client that sends no data after a seek sends its packet to a new device too, and is clean if that is. */
  lemma CleanOnNewDevice(script: Script)
    requires NoDataAfterSeek(script)
    ensures Sent(FRESH, script) == Packet(script)
    ensures CleanScript(script) <==>
      (Serve(FRESH, script).fate != HungUp ==> CleanPacket(Packet(script)))
  {
    hide Sent, Serve, Packet, Written, Completes, NoDataAfterSeek;
    ServingIsOneWrite(FRESH, script);
    if i: nat :| Reached(script, i) && !script[i].Data? {
      SeekExitsEmptyDevice(FRESH, script, i);
      var k := ExitsAtASeek(FRESH, script);
      PacketBeforeSeek(script, k);
      forall j: nat | Reached(script, j) && !script[j].Data?
        ensures Flat(Written(script[..j])) == Packet(script)
      {
        PacketBeforeSeek(script, j);
      }
    } else {
      DataIsServed(FRESH, script);
    }
  }

  /**
   * A client that sends a byte and then a seek that does not parse unlocks the mutex with the
   * byte pending; a client served before the process ends has its bytes committed with it.
   */
  lemma ExitMixesClients()
    ensures var first: Script, second: Script := [Data([97], false), BadSeek], [Data([99, NEWLINE], false)];
      && Serve(FRESH, first) == Served(DevLog([], [97]), [], Exited)
      && ServeAll([first, second]) == DevLog([[97, 99, NEWLINE]], [])
  {
    var a: Bytes, b: Bytes := [97], [99, NEWLINE];
    var first: Script, second: Script := [Data(a, false), BadSeek], [Data(b, false)];
    assert [] + a == a && b[1] == NEWLINE && a + b == [97, 99, NEWLINE];
    assert first[1..] == [BadSeek];
    assert Stored(FRESH, first[0]) == DevLog([], a);
    assert Serve(DevLog([], a), [BadSeek]).fate == Exited;
    assert Serve(FRESH, first) == Served(DevLog([], a), [], Exited);
    assert ServeAll([]) == FRESH;
    assert [first][..0] == [] && [first, second][..1] == [first];
    assert ServeAll([first]) == Serve(FRESH, first).log;
    assert Serve(DevLog([], a), second).log == DevLog([a + b], []);
  }
}
