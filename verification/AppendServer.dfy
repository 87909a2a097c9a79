/**
 * The file-backed server: server/aesdsocket_old.c. Its file is never cut, so it is the
 * reference for what the device-backed server answers.
 */
module AppendServer {
  import opened Streams
  import opened Slots
  import opened DeviceLog
  import opened DeviceView
  import opened Server
  import opened Packets

  /** This server knows no seek command. */
  type DataChunk = c: Chunk | c.Data? witness Data([], false)

  datatype OldServed = OldServed(file: Bytes, reply: Bytes, answered: bool)

  function OldServe(file: Bytes, script: seq<DataChunk>): OldServed
    decreases |script|
  {
    if script == [] then OldServed(file, [], false)
    else
      var after := if script[0].lost then file else file + script[0].bytes;
      if script[0].HasNewline() then OldServed(after, after, true) else OldServe(after, script[1..])
  }

  /**
   * What serving a client does: its packet goes to the end of the file; a client that sends a
   * newline is sent the whole file with its packet, and one that closes before is sent nothing.
   */
  lemma {:induction false} OldServesExactly(file: Bytes, script: seq<DataChunk>)
    ensures OldServe(file, script) ==
      if Completes(script) then OldServed(file + Packet(script), file + Packet(script), true)
      else OldServed(file + Packet(script), [], false)
    decreases |script|
  {
    hide Completes, Packet;
    if script == [] {
      NothingSent(file);
    } else {
      var chunk := script[0];
      PacketHead(script);
      CompletesHead(script);
      var after := if chunk.lost then file else file + chunk.bytes;
      AppendAssociates(file, chunk, if chunk.HasNewline() then [] else Packet(script[1..]));
      if !chunk.HasNewline() {
        OldServesExactly(after, script[1..]);
      }
    }
  }

  lemma NothingSent(file: Bytes)
    ensures !Completes([]) && file + Packet([]) == file
  {
    FlatEmpty();
  }

  lemma AppendAssociates(file: Bytes, chunk: DataChunk, more: Bytes)
    ensures (if chunk.lost then file else file + chunk.bytes) + more == file + (DataOf(chunk) + more)
    ensures chunk.lost ==> file + (DataOf(chunk) + []) == file
    ensures !chunk.lost ==> file + (DataOf(chunk) + []) == file + chunk.bytes
  {
  }

  class AppendFile {
    var bytes: Bytes

    constructor ()
      ensures bytes == []
    {
      bytes := [];
    }

    method Append(more: Bytes, fails: bool)
      modifies this
      ensures bytes == old(bytes) + if fails then [] else more
    {
      if !fails {
        bytes := bytes + more;
      } else {
        assert bytes + [] == bytes;
      }
    }

    /** read on a descriptor at position pos. */
    method Read(pos: nat, count: nat) returns (data: Bytes)
      requires pos <= |bytes|
      ensures pos + |data| <= |bytes| && data == bytes[pos..pos + |data|]
      ensures |data| == Min(count, |bytes| - pos)
    {
      data := bytes[pos..pos + Min(count, |bytes| - pos)];
    }
  }

  /** The reply loop: read from the start until a read is empty, sending each block. */
  method SendFile(file: AppendFile) returns (reply: Bytes)
    ensures reply == file.bytes
  {
    reply := [];
    var data := file.Read(0, BUFFER_SIZE);
    while data != []
      invariant |reply| + |data| <= |file.bytes|
      invariant reply == file.bytes[..|reply|]
      invariant data == file.bytes[|reply|..|reply| + |data|]
      invariant data == [] <==> |reply| == |file.bytes|
      decreases |file.bytes| - |reply|
    {
      reply := reply + data;
      data := file.Read(|reply|, BUFFER_SIZE);
    }
  }

  /** handle_client: append chunks, and send the whole file back after one with a newline. */
  method OldHandleClient(file: AppendFile, script: seq<DataChunk>) returns (reply: Bytes, answered: bool)
    modifies file
    ensures OldServed(file.bytes, reply, answered) == OldServe(old(file.bytes), script)
    ensures file.bytes == old(file.bytes) + Packet(script)
    ensures answered <==> Completes(script)
    ensures reply == if answered then file.bytes else []
  {
    hide Completes, Packet;
    OldServesExactly(file.bytes, script);
    var i := 0;
    while i < |script|
      invariant i <= |script|
      invariant OldServe(file.bytes, script[i..]) == OldServe(old(file.bytes), script)
    {
      var chunk := script[i];
      assert script[i..][0] == chunk && script[i..][1..] == script[i + 1..];
      assert file.bytes + [] == file.bytes;
      file.Append(chunk.bytes, chunk.lost);
      if NEWLINE in chunk.bytes {
        reply := SendFile(file);
        return reply, true;
      }
      i := i + 1;
    }
    return [], false;
  }

  // ---------- The two servers side by side ----------

  function OldServeAll(scripts: seq<seq<DataChunk>>): Bytes {
    if scripts == [] then [] else OldServe(OldServeAll(scripts[..|scripts| - 1]), scripts[|scripts| - 1]).file
  }

  /** One client at both servers: the file stays the device's whole stream. */
  lemma {:induction false} SameClientBothServers(d: DevLog, file: Bytes, script: seq<DataChunk>)
    requires Stream(d) == file && Settled(d)
    ensures var dev, app := Serve(d, script), OldServe(file, script);
      && Stream(dev.log) == app.file && Settled(dev.log)
      && (app.answered <==> Completes(script)) && dev.fate == (if Completes(script) then Replied else HungUp)
      && (app.answered ==> app.reply == app.file && dev.reply == Contents(dev.log))
      && (!app.answered ==> app.reply == [] && dev.reply == [])
    decreases |script|
  {
    hide Stream, Contents, Accumulate, Settled, Flat, Completes;
    if script == [] {
      NothingSent(file);
    } else {
      CompletesHead(script);
    }
    if script != [] {
      var chunk := script[0];
      var after := Stored(d, chunk);
      if !chunk.lost {
        AccumulateConserves(d, chunk.bytes);
        AccumulateKeepsSettled(d, chunk.bytes);
      }
      if !chunk.HasNewline() {
        SameClientBothServers(after, Stream(after), script[1..]);
      }
    }
  }

  /** The stream is what was evicted, then what is visible, then what is pending. */
  lemma StreamParts(d: DevLog)
    requires Settled(d)
    ensures Stream(d) == Flat(Evicted(d.history)) + Contents(d) + d.pending
    ensures Stream(d) == Contents(d) <==> |d.history| <= CAPACITY && d.pending == []
  {
    ContentsAfterEvicted(d);
    if |d.history| > CAPACITY {
      assert Evicted(d.history)[0] == d.history[0];
      assert |Flat(Evicted(d.history))| > 0;
    } else {
      assert Flat(Evicted(d.history)) == [];
    }
    assert |Stream(d)| == |Flat(Evicted(d.history))| + |Contents(d)| + |d.pending|;
  }

  lemma {:induction false} FileIsStream(scripts: seq<seq<DataChunk>>)
    ensures Stream(ServeAll(scripts)) == OldServeAll(scripts) && Settled(ServeAll(scripts))
  {
    hide Serve, OldServe;
    if scripts == [] {
      assert Stream(FRESH) == [];
    } else {
      var init := scripts[..|scripts| - 1];
      FileIsStream(init);
      SameClientBothServers(ServeAll(init), OldServeAll(init), scripts[|scripts| - 1]);
    }
  }

  /**
   * The same clients at both servers, one after the other, with no discipline on their chunks:
   * both answer exactly those that send a newline, and send nothing to the others. The file
   * server's reply is the device server's with the evicted commands before it and the pending
   * bytes after it, and the replies are equal exactly while at most ten commands have been
   * committed and nothing is pending.
   */
  lemma RepliesOfBothServers(scripts: seq<seq<DataChunk>>, i: nat)
    requires i < |scripts|
    ensures var dev := Serve(ServeAll(scripts[..i]), scripts[i]);
      var app := OldServe(OldServeAll(scripts[..i]), scripts[i]);
      var h := dev.log.history;
      && (app.answered <==> Completes(scripts[i])) && (dev.fate == Replied <==> Completes(scripts[i]))
      && (app.answered ==>
        && app.reply == Flat(Evicted(h)) + dev.reply + dev.log.pending
        && (dev.reply == app.reply <==> |h| <= CAPACITY && dev.log.pending == []))
      && (!app.answered ==> app.reply == [] && dev.reply == [])
  {
    hide Serve, OldServe, Contents, Flat, Stream, Completes;
    var before: seq<seq<DataChunk>> := scripts[..i];
    FileIsStream(before);
    SameClientBothServers(ServeAll(before), OldServeAll(before), scripts[i]);
    StreamParts(Serve(ServeAll(before), scripts[i]).log);
  }

  /** Every client sends one newline-terminated packet and then waits for the reply. */
  predicate OnePacketEach(scripts: seq<seq<DataChunk>>) {
    forall i :: 0 <= i < |scripts| ==> Completes(scripts[i]) && EndsInNewline(Packet(scripts[i]))
  }

  lemma DataNeverExits(scripts: seq<seq<DataChunk>>)
    ensures NoneExits(scripts)
  {
    forall i | 0 <= i < |scripts|
      ensures Serve(ServeAll(scripts[..i]), scripts[i]).fate != Exited
    {
      var before: seq<seq<DataChunk>> := scripts[..i];
      FileIsStream(before);
      SameClientBothServers(ServeAll(before), OldServeAll(before), scripts[i]);
    }
  }

  lemma LogOfPackets(scripts: seq<seq<DataChunk>>)
    requires OnePacketEach(scripts)
    ensures ServeAll(scripts) == DevLog(PacketsOf(scripts), [])
  {
    hide Packet, ServeAll, Serve, Sent;
    var packets := PacketsOf(scripts);
    DataNeverExits(scripts);
    ServingAllWrites(scripts);
    SurvivorsSendPackets(scripts);
    PacketsStayWhole(packets);
    assert Whole(packets[..|packets|]);
    assert packets[..|packets|] == packets;
    NonEmptyAll(packets);
  }

  /**
   * With one packet per client, the i-th client gets all packets so far from the file server and
   * the last ten of them from the device server: the same while there are at most ten.
   */
  lemma RepliesAreLastTenPackets(scripts: seq<seq<DataChunk>>, i: nat)
    requires i < |scripts| && OnePacketEach(scripts)
    ensures var packets := PacketsOf(scripts[..i + 1]);
      var dev := Serve(ServeAll(scripts[..i]), scripts[i]);
      var app := OldServe(OldServeAll(scripts[..i]), scripts[i]);
      && dev.fate == Replied && app.answered
      && dev.reply == Flat(Visible(packets)) && app.reply == Flat(packets)
      && (dev.reply == app.reply <==> i + 1 <= CAPACITY)
  {
    hide Packet, Contents, Flat, Stream, Serve, OldServe, Completes;
    var before: seq<seq<DataChunk>>, upTo: seq<seq<DataChunk>> := scripts[..i], scripts[..i + 1];
    assert upTo[..i] == before && upTo[i] == scripts[i];
    LogOfPackets(upTo);
    FileIsStream(before);
    ServingIsOneWrite(ServeAll(before), scripts[i]);
    assert ServeAll(upTo) == Serve(ServeAll(before), scripts[i]).log;
    SameClientBothServers(ServeAll(before), OldServeAll(before), scripts[i]);
    RepliesOfBothServers(scripts, i);
    NothingPending(PacketsOf(upTo));
  }

  lemma NothingPending(packets: seq<Bytes>)
    ensures Stream(DevLog(packets, [])) == Flat(packets)
    ensures Contents(DevLog(packets, [])) == Flat(Visible(packets))
  {
  }
}
