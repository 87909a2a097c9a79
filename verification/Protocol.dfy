/**
 * Any number of clients of the device-backed server at once, each in its own thread, contending
 * for file_mutex (server/aesdsocket.c, handle_client): a state machine over their steps.
 */
module Protocol {
  import opened Streams
  import opened Slots
  import opened DeviceLog
  import opened DeviceView
  import opened Server
  import opened Packets

  /**
   * Waiting for the mutex; receiving; sending the contents from a position; done; gone before a
   * newline, with the mutex locked; or in cleanup, with the mutex unlocked and the process about
   * to end.
   */
  datatype Phase = Idle | Receiving | Replying(pos: nat) | Finished | Hung | Exiting

  datatype Client = Client(phase: Phase, taken: nat, reply: Bytes)

  const ARRIVING: Client := Client(Idle, 0, [])

  /**
   * order lists the clients that have locked the mutex so far, first to last; running says that
   * the process has not ended.
   */
  datatype Sys = Sys(log: DevLog, mutex: Option<nat>, clients: seq<Client>, running: bool, order: seq<nat>)

  function Init(n: nat): Sys {
    Sys(FRESH, None, seq(n, _ => ARRIVING), true, [])
  }

  // ---------- Steps ----------

  predicate InPhase(s: Sys, c: nat, phase: Phase) {
    c < |s.clients| && s.clients[c].phase == phase
  }

  predicate CanLock(s: Sys, c: nat) {
    s.running && c < |s.clients| && s.clients[c].phase == Idle && s.mutex == None
  }

  predicate Holds(s: Sys, c: nat) {
    s.running && c < |s.clients| && s.mutex == Some(c)
  }

  function Lock(s: Sys, c: nat): Sys
    requires CanLock(s, c)
  {
    s.(mutex := Some(c), order := s.order + [c], clients := s.clients[c := Client(Receiving, 0, [])])
  }

  /** An error that ends the server first unlocks the mutex: other threads go on until the process ends. */
  function Exit(s: Sys, c: nat): Sys
    requires Holds(s, c)
  {
    s.(mutex := None, clients := s.clients[c := s.clients[c].(phase := Exiting)])
  }

  predicate CanEnd(s: Sys, c: nat) {
    s.running && InPhase(s, c, Exiting)
  }

  /** exit, at the end of cleanup: every thread stops where it is. */
  function End(s: Sys): Sys {
    s.(running := false)
  }

  /** recv and what is done with the chunk; if the client has closed, nothing unlocks the mutex. */
  function Receive(s: Sys, c: nat, script: Script): Sys
    requires Holds(s, c) && s.clients[c].phase == Receiving
  {
    var cl := s.clients[c];
    if |script| <= cl.taken then s.(clients := s.clients[c := cl.(phase := Hung)])
    else
      var chunk := script[cl.taken];
      var next := Client(Receiving, cl.taken + 1, cl.reply);
      match chunk
      case Data(_, _) =>
        var phase := if chunk.HasNewline() then Replying(0) else Receiving;
        s.(log := Stored(s.log, chunk), clients := s.clients[c := next.(phase := phase)])
      case Seek(cmd, offset, newline) =>
        if SeekTo(PhysicalSizes(s.log.history), cmd, offset).None? then Exit(s, c)
        else
          var phase := if newline then Replying(SeekPosition(s.log, cmd, offset)) else Receiving;
          s.(clients := s.clients[c := next.(phase := phase)])
      case BadSeek => Exit(s, c)
  }

  /** One read of the reply loop; an empty one unlocks the mutex. */
  function Send(s: Sys, c: nat): Sys
    requires Holds(s, c) && s.clients[c].phase.Replying?
  {
    var cl := s.clients[c];
    var r := ReadAt(Visible(s.log.history), cl.phase.pos, BUFFER_SIZE);
    if r == [] then s.(mutex := None, clients := s.clients[c := cl.(phase := Finished)])
    else s.(clients := s.clients[c := cl.(phase := Replying(cl.phase.pos + |r|), reply := cl.reply + r)])
  }

  predicate StepOf(scripts: seq<Script>, s: Sys, s': Sys, c: nat) {
    && c < |scripts|
    && ((CanLock(s, c) && s' == Lock(s, c))
        || (Holds(s, c) && s.clients[c].phase == Receiving && s' == Receive(s, c, scripts[c]))
        || (Holds(s, c) && s.clients[c].phase.Replying? && s' == Send(s, c))
        || (CanEnd(s, c) && s' == End(s)))
  }

  ghost predicate Step(scripts: seq<Script>, s: Sys, s': Sys) {
    exists c: nat :: StepOf(scripts, s, s', c)
  }

  ghost predicate Run(scripts: seq<Script>, trace: seq<Sys>) {
    && trace != [] && trace[0] == Init(|scripts|)
    && forall i :: 0 <= i < |trace| - 1 ==> Step(scripts, trace[i], trace[i + 1])
  }

  // ---------- Serial order ----------

  /** The scripts of the given clients. */
  function ScriptsOf(scripts: seq<Script>, order: seq<nat>): (r: seq<Script>)
    ensures |r| == |order|
    ensures forall i :: 0 <= i < |r| ==> r[i] == if order[i] < |scripts| then scripts[order[i]] else []
  {
    seq(|order|, i requires 0 <= i < |order| => if order[i] < |scripts| then scripts[order[i]] else [])
  }

  /** The device when the given clients have been served one after the other. */
  function Serially(scripts: seq<Script>, order: seq<nat>): DevLog {
    ServeAll(ScriptsOf(scripts, order))
  }

  lemma SeriallySnoc(scripts: seq<Script>, order: seq<nat>, c: nat)
    requires c < |scripts|
    ensures Serially(scripts, order + [c]) == Serve(Serially(scripts, order), scripts[c]).log
  {
    hide Serve;
    assert ScriptsOf(scripts, order + [c])[..|order|] == ScriptsOf(scripts, order);
  }

  /** Client c has ended as if it had been served alone, after the clients before it. */
  predicate EndedSerially(scripts: seq<Script>, s: Sys, before: seq<nat>, c: nat) {
    && c < |scripts| && c < |s.clients|
    && var served, cl := Serve(Serially(scripts, before), scripts[c]), s.clients[c];
       && cl.reply == served.reply
       && ((cl.phase == Finished && served.fate == Replied) || (cl.phase == Exiting && served.fate == Exited))
  }

  ghost predicate AllEnded(scripts: seq<Script>, s: Sys, order: seq<nat>) {
    forall i :: 0 <= i < |order| ==> EndedSerially(scripts, s, order[..i], order[i])
  }

  /** Client c, the last to lock the mutex, is on its way to what serving it alone from d would give. */
  predicate OnTheWay(d: DevLog, script: Script, s: Sys, c: nat) {
    && c < |s.clients|
    && var cl := s.clients[c];
       match cl.phase
       case Idle => false
       case Receiving =>
         && s.mutex == Some(c) && cl.taken <= |script| && cl.reply == []
         && Serve(d, script) == Serve(s.log, script[cl.taken..])
         && s.log == DevLog(d.history, d.pending + Flat(Written(script[..cl.taken])))
       case Replying(pos) =>
         && s.mutex == Some(c) && pos <= |Contents(s.log)|
         && Serve(d, script) == Served(s.log, cl.reply + Contents(s.log)[pos..], Replied)
       case Finished => s.mutex == None && Serve(d, script) == Served(s.log, cl.reply, Replied)
       case Hung => s.mutex == Some(c) && Serve(d, script) == Served(s.log, cl.reply, HungUp)
       case Exiting => s.mutex == None && Serve(d, script) == Served(s.log, cl.reply, Exited)
  }

  ghost predicate DistinctClients(order: seq<nat>, n: nat) {
    && (forall i :: 0 <= i < |order| ==> order[i] < n)
    && forall i, j :: 0 <= i < j < |order| ==> order[i] != order[j]
  }

  /** The clients that have locked, and only they, are no longer as they arrived. */
  ghost predicate LockersStarted(s: Sys) {
    forall c :: 0 <= c < |s.clients| ==>
      if c in s.order then s.clients[c].phase != Idle else s.clients[c] == ARRIVING
  }

  function Last<T>(s: seq<T>): T
    requires s != []
  {
    s[|s| - 1]
  }

  function Front<T>(s: seq<T>): seq<T>
    requires s != []
  {
    s[..|s| - 1]
  }

  ghost predicate Shape(scripts: seq<Script>, s: Sys) {
    && |s.clients| == |scripts|
    && DistinctClients(s.order, |scripts|)
    && LockersStarted(s)
    && Settled(s.log)
    && (s.running || exists c: nat :: InPhase(s, c, Exiting))
  }

  /**
   * The state is that of serving the clients one at a time in the order they locked the mutex:
   * all but the last have ended, answered or on their way out of the process, and the last is on
   * its way.
   */
  ghost predicate Serial(scripts: seq<Script>, s: Sys) {
    && Shape(scripts, s)
    && (if s.order == [] then s == Init(|scripts|)
        else
          && AllEnded(scripts, s, Front(s.order))
          && OnTheWay(Serially(scripts, Front(s.order)), scripts[Last(s.order)], s, Last(s.order)))
  }

  lemma EndedStays(scripts: seq<Script>, s: Sys, s': Sys, order: seq<nat>)
    requires AllEnded(scripts, s, order)
    requires forall i :: 0 <= i < |order| && order[i] < |s.clients| ==>
      order[i] < |s'.clients| && s'.clients[order[i]] == s.clients[order[i]]
    ensures AllEnded(scripts, s', order)
  {
    hide Serve, Serially;
    forall i | 0 <= i < |order|
      ensures EndedSerially(scripts, s', order[..i], order[i])
    {
      assert EndedSerially(scripts, s, order[..i], order[i]);
    }
  }

  lemma EndedSnoc(scripts: seq<Script>, s: Sys, order: seq<nat>, c: nat)
    requires AllEnded(scripts, s, order) && EndedSerially(scripts, s, order, c)
    ensures AllEnded(scripts, s, order + [c])
  {
    hide EndedSerially;
    var more := order + [c];
    assert forall i :: 0 <= i <= |order| ==> more[..i] == order[..i];
    assert order[..|order|] == order;
  }

  lemma EndedPrefix(scripts: seq<Script>, s: Sys, order: seq<nat>, k: nat)
    requires AllEnded(scripts, s, order) && k <= |order|
    ensures AllEnded(scripts, s, order[..k])
    ensures k < |order| ==> EndedSerially(scripts, s, order[..k], order[k])
  {
    hide EndedSerially;
    forall i | 0 <= i < k
      ensures EndedSerially(scripts, s, order[..k][..i], order[..k][i])
    {
      assert order[..k][..i] == order[..i];
    }
  }

  /** A step that only moves the last client on, and the device with it. */
  lemma LastMoves(scripts: seq<Script>, s: Sys, s': Sys)
    requires Serial(scripts, s) && s.order != [] && s.running && s'.running
    requires s'.order == s.order && Settled(s'.log) && |s'.clients| == |s.clients|
    requires var c := Last(s.order);
      && s'.clients == s.clients[c := s'.clients[c]]
      && OnTheWay(Serially(scripts, Front(s.order)), scripts[c], s', c)
    ensures Serial(scripts, s')
  {
    hide Serve, Serially, Settled, AllEnded;
    EndedStays(scripts, s, s', Front(s.order));
    assert s'.clients[Last(s.order)].phase != Idle;
  }

  /** Only the last client can hold the mutex; a free mutex means the last client has ended. */
  lemma HolderIsLast(scripts: seq<Script>, s: Sys)
    requires Serial(scripts, s)
    ensures s.mutex.Some? ==> s.order != [] && s.mutex == Some(Last(s.order))
    ensures s.mutex == None && s.order != [] ==>
      s.clients[Last(s.order)].phase == Finished || s.clients[Last(s.order)].phase == Exiting
  {
    hide Serve, Serially, Settled, AllEnded, LockersStarted;
  }

  lemma LastEnded(scripts: seq<Script>, s: Sys)
    requires Serial(scripts, s) && s.order != [] && s.mutex == None
    ensures EndedSerially(scripts, s, Front(s.order), Last(s.order))
    ensures s.log == Serve(Serially(scripts, Front(s.order)), scripts[Last(s.order)]).log
  {
    hide Serve, Serially, Settled, AllEnded, LockersStarted;
  }

  /** While the mutex is free, all who have locked it have ended, and left the device as serving them in a row. */
  lemma EndedLast(scripts: seq<Script>, s: Sys)
    requires Serial(scripts, s) && s.mutex == None
    ensures s.log == Serially(scripts, s.order) && AllEnded(scripts, s, s.order)
  {
    hide Serve, Settled, EndedSerially, OnTheWay, LockersStarted, ServeAll;
    if s.order == [] {
      NobodyYet(scripts);
    } else {
      var init, c := Front(s.order), Last(s.order);
      LastEnded(scripts, s);
      SeriallySnoc(scripts, init, c);
      EndedSnoc(scripts, s, init, c);
      assert s.order == init + [c];
    }
  }

  lemma NobodyYet(scripts: seq<Script>)
    ensures Serially(scripts, []) == FRESH
  {
    assert ScriptsOf(scripts, []) == [];
  }

  lemma LockIsOnTheWay(s: Sys, c: nat, script: Script)
    requires CanLock(s, c)
    ensures OnTheWay(s.log, script, Lock(s, c), c)
  {
    hide Serve, Contents;
    assert script[0..] == script && script[..0] == [];
    assert s.log.pending + [] == s.log.pending;
  }

  lemma LockStarts(scripts: seq<Script>, s: Sys, c: nat)
    requires Shape(scripts, s) && CanLock(s, c)
    ensures Shape(scripts, Lock(s, c)) && c !in s.order
  {
    hide Settled;
  }

  lemma LockKeepsSerial(scripts: seq<Script>, s: Sys, c: nat)
    requires Serial(scripts, s) && CanLock(s, c)
    ensures Serial(scripts, Lock(s, c))
  {
    hide Shape, Serially, OnTheWay, AllEnded;
    EndedLast(scripts, s);
    ShapeBounds(scripts, s);
    LockIsOnTheWay(s, c, scripts[c]);
    LockStarts(scripts, s, c);
    EndedStays(scripts, s, Lock(s, c), s.order);
    assert Front(Lock(s, c).order) == s.order && Last(Lock(s, c).order) == c;
  }

  lemma ShapeBounds(scripts: seq<Script>, s: Sys)
    requires Shape(scripts, s)
    ensures |s.clients| == |scripts| && forall i :: 0 <= i < |s.order| ==> s.order[i] < |scripts|
  {
  }

  lemma {:induction false} WrittenConcat(a: Script, b: Script)
    ensures Written(a + b) == Written(a) + Written(b)
  {
    if a == [] {
      assert a + b == b;
    } else {
      assert (a + b)[1..] == a[1..] + b;
      WrittenConcat(a[1..], b);
    }
  }

  lemma FlatWrittenSnoc(sent: Script, chunk: Chunk)
    ensures Flat(Written(sent + [chunk]))
      == Flat(Written(sent)) + (if chunk.Data? && !chunk.lost then chunk.bytes else [])
  {
    WrittenConcat(sent, [chunk]);
    var w := Written(sent);
    if chunk.Data? && !chunk.lost {
      assert Written([chunk]) == [chunk.bytes];
      FlatSnoc(w, chunk.bytes);
    } else {
      assert Written([chunk]) == [];
      assert w + [] == w;
    }
  }

  /** One more chunk without a newline. */
  lemma WrittenSnoc(d: DevLog, log: DevLog, script: Script, taken: nat)
    requires taken < |script| && !script[taken].HasNewline() && Settled(log)
    requires log == DevLog(d.history, d.pending + Flat(Written(script[..taken])))
    ensures Settled(Stored(log, script[taken]))
    ensures Stored(log, script[taken]) == DevLog(d.history, d.pending + Flat(Written(script[..taken + 1])))
  {
    hide Flat, Written, Settled, Accumulate;
    var chunk, sent := script[taken], Flat(Written(script[..taken]));
    assert script[..taken + 1] == script[..taken] + [chunk];
    FlatWrittenSnoc(script[..taken], chunk);
    if chunk.Data? && !chunk.lost {
      NoNewlineJoins(log, chunk.bytes, []);
      assert d.pending + sent + chunk.bytes == d.pending + (sent + chunk.bytes);
    } else {
      assert sent + [] == sent;
    }
  }

  lemma ServeNext(d: DevLog, script: Script, taken: nat)
    requires taken <= |script|
    ensures Serve(d, script[taken..]) ==
      if taken == |script| then Served(d, [], HungUp)
      else match ServeChunk(d, script[taken])
        case More(after) => Serve(after, script[taken + 1..])
        case Done(served) => served
  {
  }

  lemma ReceiveStaysOnTheWay(d: DevLog, script: Script, s: Sys, c: nat)
    requires Holds(s, c) && s.clients[c].phase == Receiving && Settled(s.log) && OnTheWay(d, script, s, c)
    ensures Settled(Receive(s, c, script).log) && OnTheWay(d, script, Receive(s, c, script), c)
  {
    hide Serve, Settled, Accumulate, Contents, SeekTo, PhysicalSizes, Flat;
    var taken := s.clients[c].taken;
    ServeNext(s.log, script, taken);
    if taken < |script| {
      var chunk := script[taken];
      var after := Stored(s.log, chunk);
      if chunk.HasNewline() {
        StoredSettled(s.log, chunk);
        assert [] + Contents(after)[0..] == Contents(after);
        assert chunk.Seek? && SeekTo(PhysicalSizes(s.log.history), chunk.cmd, chunk.offset).Some? ==>
          var rest := Contents(s.log)[SeekPosition(s.log, chunk.cmd, chunk.offset)..];
          [] + rest == rest;
      } else {
        WrittenSnoc(d, s.log, script, taken);
      }
    }
  }

  lemma StoredSettled(d: DevLog, chunk: Chunk)
    requires Settled(d)
    ensures Settled(Stored(d, chunk))
  {
  }

  lemma SendStaysOnTheWay(d: DevLog, script: Script, s: Sys, c: nat)
    requires Holds(s, c) && s.clients[c].phase.Replying? && OnTheWay(d, script, s, c)
    ensures OnTheWay(d, script, Send(s, c), c)
  {
    hide Serve, ReadAt, Flat;
    var cl, all := s.clients[c], Contents(s.log);
    var pos := cl.phase.pos;
    var r := ReadAt(Visible(s.log.history), pos, BUFFER_SIZE);
    ReadIsSlice(Visible(s.log.history), pos, BUFFER_SIZE);
    if r == [] {
      assert cl.reply + all[pos..] == cl.reply;
    } else {
      assert all[pos..] == r + all[pos + |r|..];
      assert cl.reply + (r + all[pos + |r|..]) == cl.reply + r + all[pos + |r|..];
    }
  }

  lemma ReceiveKeepsSerial(scripts: seq<Script>, s: Sys, c: nat)
    requires Serial(scripts, s) && Holds(s, c) && s.clients[c].phase == Receiving
    ensures Serial(scripts, Receive(s, c, scripts[c]))
  {
    hide Serve, Serially, Settled, SeekTo, PhysicalSizes, AllEnded, LockersStarted;
    HolderIsLast(scripts, s);
    ReceiveStaysOnTheWay(Serially(scripts, Front(s.order)), scripts[c], s, c);
    hide OnTheWay;
    LastMoves(scripts, s, Receive(s, c, scripts[c]));
  }

  lemma SendKeepsSerial(scripts: seq<Script>, s: Sys, c: nat)
    requires Serial(scripts, s) && Holds(s, c) && s.clients[c].phase.Replying?
    ensures Serial(scripts, Send(s, c))
  {
    hide Serve, Serially, Settled, ReadAt, AllEnded, LockersStarted;
    HolderIsLast(scripts, s);
    SendStaysOnTheWay(Serially(scripts, Front(s.order)), scripts[c], s, c);
    hide OnTheWay;
    LastMoves(scripts, s, Send(s, c));
  }

  /** The end of the process changes nothing but that no step follows. */
  lemma EndKeepsSerial(scripts: seq<Script>, s: Sys, c: nat)
    requires Serial(scripts, s) && CanEnd(s, c)
    ensures Serial(scripts, End(s))
  {
    hide Serve, Serially, Settled, AllEnded;
    assert InPhase(End(s), c, Exiting);
    assert s.order != [];
    EndedStays(scripts, s, End(s), Front(s.order));
  }

  lemma StepKeepsSerial(scripts: seq<Script>, s: Sys, s': Sys)
    requires Serial(scripts, s) && Step(scripts, s, s')
    ensures Serial(scripts, s')
  {
    hide Serial, Lock, Receive, Send, End;
    var c: nat :| StepOf(scripts, s, s', c);
    if CanLock(s, c) && s' == Lock(s, c) {
      LockKeepsSerial(scripts, s, c);
    } else if CanEnd(s, c) {
      EndKeepsSerial(scripts, s, c);
    } else if s.clients[c].phase == Receiving {
      ReceiveKeepsSerial(scripts, s, c);
    } else {
      SendKeepsSerial(scripts, s, c);
    }
  }

  /**
   * Whatever the clients send and however their steps interleave, up to the end of the process,
   * every reachable state is one of serving them one at a time, in the order in which they locked
   * the mutex.
   */
  lemma {:induction false} RunsAreSerial(scripts: seq<Script>, trace: seq<Sys>, i: nat)
    requires Run(scripts, trace) && i < |trace|
    ensures Serial(scripts, trace[i])
  {
    hide Serial, Step;
    if i == 0 {
      NobodyIsSerial(scripts);
    } else {
      RunsAreSerial(scripts, trace, i - 1);
      assert Step(scripts, trace[i - 1], trace[i - 1 + 1]);
      StepKeepsSerial(scripts, trace[i - 1], trace[i]);
    }
  }

  lemma NobodyIsSerial(scripts: seq<Script>)
    ensures Serial(scripts, Init(|scripts|))
  {
  }
}
