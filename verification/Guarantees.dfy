/** What every run of the contending clients guarantees: atomic packets, replies, progress. */
module Guarantees {
  import opened Streams
  import opened Slots
  import opened DeviceLog
  import opened DeviceView
  import opened Server
  import opened Packets
  import opened Protocol
  import opened AppendServer

  // ---------- Atomic packets ----------

  /** What the given clients have sent, one after the other, but for those that sent nothing. */
  function Commands(scripts: seq<Script>, order: seq<nat>): seq<Bytes> {
    NonEmpty(SentBy(ScriptsOf(scripts, order)))
  }

  lemma ScriptsOfSnoc(scripts: seq<Script>, order: seq<nat>, c: nat)
    requires c < |scripts|
    ensures ScriptsOf(scripts, order + [c]) == ScriptsOf(scripts, order) + [scripts[c]]
  {
  }

  lemma ScriptsOfPrefix(scripts: seq<Script>, order: seq<nat>, i: nat)
    requires i <= |order|
    ensures ScriptsOf(scripts, order)[..i] == ScriptsOf(scripts, order[..i])
  {
  }

  /** One more client adds one command, or none. */
  lemma CommandsSnoc(scripts: seq<Script>, order: seq<nat>, c: nat)
    requires c < |scripts|
    ensures var p := Sent(Serially(scripts, order), scripts[c]);
      Commands(scripts, order + [c]) == Commands(scripts, order) + (if p == [] then [] else [p])
  {
    hide Sent, ServeAll;
    ScriptsOfSnoc(scripts, order, c);
    SentBySnoc(ScriptsOf(scripts, order), scripts[c]);
    var sent := SentBy(ScriptsOf(scripts, order));
    assert (sent + [Sent(Serially(scripts, order), scripts[c])])[..|sent|] == sent;
  }

  /** The clients leave, in this order, with what each has sent clean. */
  ghost predicate SendClean(scripts: seq<Script>, order: seq<nat>) {
    && (forall i :: 0 <= i < |order| ==> order[i] < |scripts|)
    && forall i :: 0 <= i < |order| ==> CleanPacket(Sent(Serially(scripts, order[..i]), scripts[order[i]]))
  }

  lemma CleanLog(scripts: seq<Script>, order: seq<nat>)
    requires SendClean(scripts, order)
    ensures Serially(scripts, order) == DevLog(Commands(scripts, order), [])
  {
    hide Sent, CleanPacket, ServeAll;
    var sent := SentBy(ScriptsOf(scripts, order));
    ServingAllWrites(ScriptsOf(scripts, order));
    forall i | 0 <= i < |order|
      ensures CleanPacket(sent[i])
    {
      ScriptsOfPrefix(scripts, order, i);
      assert CleanPacket(Sent(Serially(scripts, order[..i]), scripts[order[i]]));
    }
    PacketsStayWhole(sent);
    assert Whole(sent[..|sent|]);
    assert sent[..|sent|] == sent;
  }

  ghost predicate CleanClients(scripts: seq<Script>) {
    forall c :: 0 <= c < |scripts| ==> CleanScript(scripts[c])
  }

  lemma EndedSendClean(scripts: seq<Script>, s: Sys, order: seq<nat>)
    requires AllEnded(scripts, s, order) && CleanClients(scripts)
    ensures SendClean(scripts, order)
  {
    hide Sent, Serve, ServeAll, CleanScript, CleanPacket, Settled;
    forall i | 0 <= i < |order|
      ensures order[i] < |scripts| && CleanPacket(Sent(Serially(scripts, order[..i]), scripts[order[i]]))
    {
      assert EndedSerially(scripts, s, order[..i], order[i]);
      ServingAllWrites(ScriptsOf(scripts, order[..i]));
      CleanScriptSendsClean(Serially(scripts, order[..i]), scripts[order[i]]);
    }
  }

  lemma SerialSettled(scripts: seq<Script>, order: seq<nat>)
    ensures Settled(Serially(scripts, order))
  {
    ServingAllWrites(ScriptsOf(scripts, order));
  }

  /** What the device holds, by who has the mutex and what that client is doing. */
  ghost predicate AtomicState(scripts: seq<Script>, s: Sys) {
    match s.mutex
    case None => s.log == DevLog(Commands(scripts, s.order), [])
    case Some(c) =>
      && c < |scripts| && c < |s.clients| && s.order != [] && c == Last(s.order)
      && var before := Commands(scripts, Front(s.order));
         match s.clients[c].phase
         case Receiving =>
           && s.clients[c].taken <= |scripts[c]|
           && s.log == DevLog(before, Flat(Written(scripts[c][..s.clients[c].taken])))
         case Replying(_) => s.log == DevLog(Commands(scripts, s.order), [])
         case Hung => s.log == DevLog(before, Packet(scripts[c]))
         case _ => false
  }

  /** The holder's part, from what it will have been served in the end. */
  lemma HolderIsAtomic(scripts: seq<Script>, s: Sys)
    requires Serial(scripts, s) && s.mutex.Some? && CleanClients(scripts)
    ensures AtomicState(scripts, s)
  {
    hide Serve, Sent, Settled, LockersStarted, CleanScript, Contents, Packet, Written, Flat, Commands, Serially;
    HolderIsLast(scripts, s);
    var init, c := Front(s.order), Last(s.order);
    var d, script := Serially(scripts, init), scripts[c];
    EndedSendClean(scripts, s, init);
    CleanLog(scripts, init);
    SerialSettled(scripts, init);
    ServingIsOneWrite(d, script);
    var phase := s.clients[c].phase;
    if phase == Receiving {
      var sent := Flat(Written(script[..s.clients[c].taken]));
      assert [] + sent == sent;
    } else if phase == Hung {
      UnfinishedStaysPending(script, d);
    } else if phase.Replying? {
      CleanScriptSendsClean(d, script);
      CleanIsCommitted(d, Sent(d, script));
      CommandsSnoc(scripts, init, c);
      assert s.order == init + [c];
    }
  }

  lemma CleanIsCommitted(d: DevLog, p: Bytes)
    requires d.pending == [] && CleanPacket(p)
    ensures Accumulate(d, p) == DevLog(d.history + (if p == [] then [] else [p]), [])
  {
    assert [] + p == p;
    assert d.history + [] == d.history;
  }

  /** A client that leaves early has sent no newline, so all it sent is pending. */
  lemma UnfinishedStaysPending(script: Script, d: DevLog)
    requires Settled(d) && d.pending == [] && Serve(d, script).fate == HungUp
    ensures Serve(d, script).log == DevLog(d.history, Packet(script))
  {
    hide Serve, Packet, Sent, Settled;
    ServingIsOneWrite(d, script);
    NoNewlineWithoutCompletion(script);
    NoNewlineJoins(d, Packet(script), []);
    assert [] + Packet(script) == Packet(script);
  }

  lemma {:induction false} NoNewlineWithoutCompletion(script: Script)
    requires !Completes(script)
    ensures NEWLINE !in Packet(script)
  {
    if script != [] {
      PacketHead(script);
      CompletesHead(script);
      NoNewlineWithoutCompletion(script[1..]);
    }
  }

  /**
   * With clean clients, in every reachable state: while the mutex is free, the commands are what
   * the clients served have sent, one command each and in locking order, and nothing is pending.
   * While a client is sending, its chunks since it locked are pending; while it gets its reply,
   * its packet is the last command; and if it has closed early, what it sent stays pending.
   */
  lemma PacketsAreAtomic(scripts: seq<Script>, trace: seq<Sys>, t: nat)
    requires Run(scripts, trace) && t < |trace| && CleanClients(scripts)
    ensures AtomicState(scripts, trace[t])
  {
    hide Commands, Serially, CleanClients, Serial, SendClean, AllEnded, Run;
    var s := trace[t];
    RunsAreSerial(scripts, trace, t);
    if s.mutex == None {
      EndedLast(scripts, s);
      EndedSendClean(scripts, s, s.order);
      CleanLog(scripts, s.order);
    } else {
      HolderIsAtomic(scripts, s);
    }
  }

  // ---------- Every serial order is reached ----------

  ghost predicate Steps(scripts: seq<Script>, trace: seq<Sys>) {
    trace != [] && forall i :: 0 <= i < |trace| - 1 ==> Step(scripts, trace[i], trace[i + 1])
  }

  lemma StepsPrepend(scripts: seq<Script>, s: Sys, trace: seq<Sys>)
    requires Steps(scripts, trace) && Step(scripts, s, trace[0])
    ensures Steps(scripts, [s] + trace)
  {
    hide Step;
  }

  lemma RunExtends(scripts: seq<Script>, trace: seq<Sys>, rest: seq<Sys>)
    requires Run(scripts, trace) && Steps(scripts, rest) && Step(scripts, Last(trace), rest[0])
    ensures Run(scripts, trace + rest) && Last(trace + rest) == Last(rest)
  {
    hide Step;
    var all, m := trace + rest, |trace|;
    forall i | 0 <= i < |all| - 1
      ensures Step(scripts, all[i], all[i + 1])
    {
      if i >= m {
        assert all[i] == rest[i - m] && all[i + 1] == rest[i - m + 1];
      }
    }
  }

  /** A client that is being sent its reply can go on to the end of it. */
  lemma {:induction false} SendToTheEnd(scripts: seq<Script>, s: Sys, c: nat) returns (trace: seq<Sys>)
    requires c < |scripts| && Holds(s, c) && s.clients[c].phase.Replying?
    requires s.clients[c].phase.pos <= |Contents(s.log)|
    ensures Steps(scripts, trace) && trace[0] == s
    ensures Last(trace).mutex == None && Last(trace).running && Last(trace).order == s.order
    ensures InPhase(Last(trace), c, Finished)
    decreases |Contents(s.log)| - s.clients[c].phase.pos
  {
    hide ReadAt, Flat;
    ReadIsSlice(Visible(s.log.history), s.clients[c].phase.pos, BUFFER_SIZE);
    var s' := Send(s, c);
    assert StepOf(scripts, s, s', c);
    assert Step(scripts, s, s');
    if s'.mutex == None {
      trace := [s, s'];
    } else {
      var rest := SendToTheEnd(scripts, s', c);
      StepsPrepend(scripts, s, rest);
      trace := [s] + rest;
    }
  }

  /** A client that holds the mutex can go on to its end, however that is. */
  lemma {:induction false} ReceiveToTheEnd(scripts: seq<Script>, s: Sys, c: nat) returns (trace: seq<Sys>)
    requires c < |scripts| && Holds(s, c) && s.clients[c].phase == Receiving
    requires s.clients[c].taken <= |scripts[c]|
    ensures Steps(scripts, trace) && trace[0] == s && Last(trace).running && Last(trace).order == s.order
    ensures match Serve(s.log, scripts[c][s.clients[c].taken..]).fate
      case Replied => Last(trace).mutex == None && InPhase(Last(trace), c, Finished)
      case HungUp => InPhase(Last(trace), c, Hung)
      case Exited => Last(trace).mutex == None && InPhase(Last(trace), c, Exiting)
    decreases |scripts[c]| - s.clients[c].taken
  {
    hide Serve, SeekTo, PhysicalSizes, Contents, Accumulate;
    ServeNext(s.log, scripts[c], s.clients[c].taken);
    var s' := Receive(s, c, scripts[c]);
    assert StepOf(scripts, s, s', c);
    assert Step(scripts, s, s');
    var rest := [s'];
    if s'.clients[c].phase == Receiving {
      rest := ReceiveToTheEnd(scripts, s', c);
    } else if s'.clients[c].phase.Replying? {
      rest := SendToTheEnd(scripts, s', c);
    }
    StepsPrepend(scripts, s, rest);
    trace := [s] + rest;
  }

  /**
   * A run in which the mutex is free can go on with any waiting client, to that client's end:
   * answered, if it sends a newline and every seek that it reaches finds its byte.
   */
  lemma ServeNextClient(scripts: seq<Script>, trace: seq<Sys>, c: nat) returns (longer: seq<Sys>)
    requires Run(scripts, trace) && Last(trace).mutex == None && Last(trace).running
    requires c < |scripts| && c !in Last(trace).order
    ensures Run(scripts, longer) && Last(longer).running && Last(longer).order == Last(trace).order + [c]
    ensures var d := Serially(scripts, Last(trace).order);
      if !NoSeekFails(d, scripts[c]) then Last(longer).mutex == None && InPhase(Last(longer), c, Exiting)
      else if Completes(scripts[c]) then Last(longer).mutex == None && InPhase(Last(longer), c, Finished)
      else InPhase(Last(longer), c, Hung)
  {
    hide Serve, Serially, AllEnded, OnTheWay, Settled, DistinctClients, Completes, NoSeekFails;
    var s := Last(trace);
    RunsAreSerial(scripts, trace, |trace| - 1);
    EndedLast(scripts, s);
    SerialSettled(scripts, s.order);
    EndsExactly(s.log, scripts[c]);
    assert CanLock(s, c);
    var s' := Lock(s, c);
    assert StepOf(scripts, s, s', c);
    assert Step(scripts, s, s');
    assert scripts[c][0..] == scripts[c];
    var rest := ReceiveToTheEnd(scripts, s', c);
    RunExtends(scripts, trace, rest);
    longer := trace + rest;
  }

  /** Every client has a run in which it is the first to be served, to its end. */
  lemma SoloRun(scripts: seq<Script>, c: nat) returns (trace: seq<Sys>)
    requires c < |scripts|
    ensures Run(scripts, trace) && Last(trace).running && Last(trace).order == [c]
    ensures if !NoSeekFails(FRESH, scripts[c]) then Last(trace).mutex == None && InPhase(Last(trace), c, Exiting)
      else if Completes(scripts[c]) then Last(trace).mutex == None && InPhase(Last(trace), c, Finished)
      else InPhase(Last(trace), c, Hung)
  {
    hide Serve, NoSeekFails, Completes;
    NobodyYet(scripts);
    trace := ServeNextClient(scripts, [Init(|scripts|)], c);
  }

  /** Different clients, served in this order, none of whom leaves the mutex locked. */
  ghost predicate ServedInTurn(scripts: seq<Script>, order: seq<nat>) {
    && DistinctClients(order, |scripts|)
    && forall i :: 0 <= i < |order| ==> Serve(Serially(scripts, order[..i]), scripts[order[i]]).fate != HungUp
  }

  lemma ServedFront(scripts: seq<Script>, order: seq<nat>)
    requires ServedInTurn(scripts, order) && order != []
    ensures ServedInTurn(scripts, Front(order)) && Last(order) < |scripts| && Last(order) !in Front(order)
    ensures Serve(Serially(scripts, Front(order)), scripts[Last(order)]).fate != HungUp
  {
    hide Serve, Serially;
    assert forall i :: 0 <= i < |order| ==> Front(order)[..i] == order[..i] || i == |order| - 1;
    forall i | 0 <= i < |order| - 1
      ensures Serve(Serially(scripts, Front(order)[..i]), scripts[Front(order)[i]]).fate != HungUp
    {
      assert Front(order)[..i] == order[..i];
    }
  }

  /** Every order in which clients could be served one at a time is the locking order of some run. */
  lemma {:induction false} OrderIsReached(scripts: seq<Script>, order: seq<nat>) returns (trace: seq<Sys>)
    requires ServedInTurn(scripts, order)
    ensures Run(scripts, trace) && Last(trace).running && Last(trace).mutex == None && Last(trace).order == order
  {
    hide Serve, Serially, Step, NoSeekFails, Completes, Settled;
    if order == [] {
      trace := [Init(|scripts|)];
    } else {
      ServedFront(scripts, order);
      SerialSettled(scripts, Front(order));
      EndsExactly(Serially(scripts, Front(order)), scripts[Last(order)]);
      var shorter := OrderIsReached(scripts, Front(order));
      trace := ServeNextClient(scripts, shorter, Last(order));
      assert order == Front(order) + [Last(order)];
    }
  }

  // ---------- Atomicity, exactly ----------

  ghost predicate AtomicRelease(scripts: seq<Script>, s: Sys) {
    s.mutex == None ==> s.log == DevLog(Commands(scripts, s.order), [])
  }

  /** In every run, whenever the mutex is free, the commands are what the clients served have sent. */
  ghost predicate AlwaysAtomic(scripts: seq<Script>) {
    forall trace, t :: Run(scripts, trace) && 0 <= t < |trace| ==> AtomicRelease(scripts, trace[t])
  }

  /** Served one at a time, in any order, the last client to be served sends clean bytes. */
  ghost predicate CleanInEveryOrder(scripts: seq<Script>) {
    forall order :: ServedInTurn(scripts, order) && order != [] ==>
      Last(order) < |scripts| && CleanPacket(Sent(Serially(scripts, Front(order)), scripts[Last(order)]))
  }

  lemma EndedAreServed(scripts: seq<Script>, s: Sys)
    requires Shape(scripts, s) && AllEnded(scripts, s, s.order)
    ensures forall k :: 0 <= k <= |s.order| ==> ServedInTurn(scripts, s.order[..k])
  {
    hide Serve, Serially, Settled, LockersStarted;
    forall k | 0 <= k <= |s.order|
      ensures ServedInTurn(scripts, s.order[..k])
    {
      var order := s.order[..k];
      EndedPrefix(scripts, s, s.order, k);
      forall i | 0 <= i < k
        ensures Serve(Serially(scripts, order[..i]), scripts[order[i]]).fate != HungUp
      {
        assert EndedSerially(scripts, s, order[..i], order[i]);
      }
    }
  }

  lemma CleanOrdersRelease(scripts: seq<Script>, trace: seq<Sys>, t: nat)
    requires Run(scripts, trace) && t < |trace| && CleanInEveryOrder(scripts)
    ensures AtomicRelease(scripts, trace[t])
  {
    hide Run, Commands, Serially, Sent, CleanPacket, AllEnded, OnTheWay, ServedInTurn;
    var s := trace[t];
    RunsAreSerial(scripts, trace, t);
    if s.mutex == None {
      EndedLast(scripts, s);
      EndedAreServed(scripts, s);
      hide Serial, Shape;
      forall i | 0 <= i < |s.order|
        ensures s.order[i] < |scripts|
        ensures CleanPacket(Sent(Serially(scripts, s.order[..i]), scripts[s.order[i]]))
      {
        assert ServedInTurn(scripts, s.order[..i + 1]);
        assert Front(s.order[..i + 1]) == s.order[..i];
      }
      CleanLog(scripts, s.order);
    }
  }

  lemma AtomicOrdersClean(scripts: seq<Script>, order: seq<nat>)
    requires AlwaysAtomic(scripts) && ServedInTurn(scripts, order) && order != []
    ensures Last(order) < |scripts| && CleanPacket(Sent(Serially(scripts, Front(order)), scripts[Last(order)]))
  {
    hide Serve, Sent, Serially, AlwaysAtomic, CleanPacket, Settled;
    ServedFront(scripts, order);
    var init, c := Front(order), Last(order);
    AtomicOrderLog(scripts, init);
    AtomicOrderLog(scripts, order);
    hide ServedInTurn;
    assert order == init + [c];
    SeriallySnoc(scripts, init, c);
    SerialSettled(scripts, init);
    ServingIsOneWrite(Serially(scripts, init), scripts[c]);
    DirtyStaysPending(Serially(scripts, init), Sent(Serially(scripts, init), scripts[c]));
  }

  lemma AtomicOrderLog(scripts: seq<Script>, order: seq<nat>)
    requires AlwaysAtomic(scripts) && ServedInTurn(scripts, order)
    ensures Serially(scripts, order).pending == []
  {
    hide Serially, Run, Commands, AllEnded, Serial, ServedInTurn;
    var trace := OrderIsReached(scripts, order);
    RunIsNotEmpty(scripts, trace);
    RunsAreSerial(scripts, trace, |trace| - 1);
    EndedLast(scripts, Last(trace));
    assert AtomicRelease(scripts, trace[|trace| - 1]);
  }

  lemma RunIsNotEmpty(scripts: seq<Script>, trace: seq<Sys>)
    requires Run(scripts, trace)
    ensures trace != []
  {
  }

  lemma DirtyStaysPending(d: DevLog, p: Bytes)
    requires d.pending == []
    ensures Accumulate(d, p).pending == [] <==> CleanPacket(p)
  {
    assert [] + p == p;
  }

  /**
   * For any clients: packets are atomic in every interleaved run if and only if they are when the
   * clients are served one at a time, in every order.
   */
  lemma AtomicExactlyInSerialOrders(scripts: seq<Script>)
    ensures AlwaysAtomic(scripts) <==> CleanInEveryOrder(scripts)
  {
    hide Run, AtomicRelease, ServedInTurn, CleanPacket, Sent, Serially;
    if AlwaysAtomic(scripts) {
      forall order | ServedInTurn(scripts, order) && order != []
        ensures Last(order) < |scripts| && CleanPacket(Sent(Serially(scripts, Front(order)), scripts[Last(order)]))
      {
        AtomicOrdersClean(scripts, order);
      }
    }
    if CleanInEveryOrder(scripts) {
      hide CleanInEveryOrder;
      forall trace, t | Run(scripts, trace) && 0 <= t < |trace|
        ensures AtomicRelease(scripts, trace[t])
      {
        CleanOrdersRelease(scripts, trace, t);
      }
    }
  }

  lemma CleanClientsInEveryOrder(scripts: seq<Script>)
    requires CleanClients(scripts)
    ensures CleanInEveryOrder(scripts)
  {
    hide Serve, Sent, Serially, CleanPacket, CleanScript, Settled;
    forall order | ServedInTurn(scripts, order) && order != []
      ensures Last(order) < |scripts| && CleanPacket(Sent(Serially(scripts, Front(order)), scripts[Last(order)]))
    {
      ServedFront(scripts, order);
      SerialSettled(scripts, Front(order));
      CleanScriptSendsClean(Serially(scripts, Front(order)), scripts[Last(order)]);
    }
  }

  /** A client served first, on a new device. */
  lemma AloneIsServed(scripts: seq<Script>, c: nat)
    requires c < |scripts| && Serve(FRESH, scripts[c]).fate != HungUp
    ensures ServedInTurn(scripts, [c]) && Serially(scripts, Front([c])) == FRESH
  {
    NobodyYet(scripts);
    hide Serve, Serially;
    assert [c][..0] == [];
  }

  /**
   * For clients that send no data after a seek, seek clients among them: packets are atomic in
   * every run if and only if every client is clean. A client that completes must have written
   * nothing or end its bytes in a newline, and a client that can make the server exit must have
   * written nothing before the seek that does.
   */
  lemma AtomicExactlyForCleanClients(scripts: seq<Script>)
    requires forall c :: 0 <= c < |scripts| ==> NoDataAfterSeek(scripts[c])
    ensures AlwaysAtomic(scripts) <==> CleanClients(scripts)
  {
    hide CleanScript, NoDataAfterSeek, AlwaysAtomic, ServedInTurn, Serve, Sent, Serially, CleanPacket, Packet;
    AtomicExactlyInSerialOrders(scripts);
    if CleanClients(scripts) {
      CleanClientsInEveryOrder(scripts);
    } else {
      var c :| 0 <= c < |scripts| && !CleanScript(scripts[c]);
      CleanOnNewDevice(scripts[c]);
      AloneIsServed(scripts, c);
      assert Last([c]) == c;
    }
  }

  const SHIELDED: Script := [Seek(0, 0, false), Data([97, NEWLINE, 99], false)]

  lemma ShieldedIsUnclean()
    ensures !CleanScript(SHIELDED)
  {
    var chunk := SHIELDED[1];
    assert chunk.bytes[1] == NEWLINE && SHIELDED[1..] == [chunk];
    PacketHead(SHIELDED);
    PacketHead([chunk]);
    assert Packet(SHIELDED) == chunk.bytes && chunk.HasNewline();
  }

  lemma ShieldedSendsNothing()
    ensures Sent(FRESH, SHIELDED) == []
  {
    NothingToSeek(FRESH, 0, 0);
  }

  lemma NotTwiceFirst(order: seq<nat>)
    requires |order| > 1
    ensures !DistinctClients(order, 1)
  {
    assert order[0] < 1 && order[1] < 1 ==> order[0] == order[1];
  }

  /**
   * Why data after a seek is excluded: here the seek that comes first never succeeds, so that the
   * unclean bytes behind it are never received.
   */
  lemma SeekMayShieldUncleanData()
    ensures !CleanClients([SHIELDED]) && AlwaysAtomic([SHIELDED])
  {
    ShieldedIsUnclean();
    ShieldedSendsNothing();
    NobodyYet([SHIELDED]);
    hide AlwaysAtomic, CleanScript, Sent, Serially, Serve, SHIELDED;
    var scripts := [SHIELDED];
    assert scripts[0] == SHIELDED;
    forall order | ServedInTurn(scripts, order) && order != []
      ensures Last(order) < |scripts| && CleanPacket(Sent(Serially(scripts, Front(order)), scripts[Last(order)]))
    {
      if |order| > 1 {
        NotTwiceFirst(order);
      }
      assert order == [0] && Front(order) == [];
    }
    AtomicExactlyInSerialOrders(scripts);
  }

  // ---------- Ends ----------

  /** Where a client that has locked the mutex stands in the order, and how far it has come. */
  lemma PlaceInOrder(scripts: seq<Script>, s: Sys, c: nat) returns (i: nat)
    requires Serial(scripts, s) && c < |s.clients| && s.clients[c].phase != Idle
    ensures i < |s.order| && s.order[i] == c && c < |scripts|
    ensures var d := Serially(scripts, s.order[..i]);
      EndedSerially(scripts, s, s.order[..i], c) || OnTheWay(d, scripts[c], s, c)
  {
    hide Serve, Serially, Settled, OnTheWay, EndedSerially;
    assert c in s.order;
    i :| 0 <= i < |s.order| && s.order[i] == c;
    if i < |s.order| - 1 {
      EndedPrefix(scripts, s, Front(s.order), i);
      assert Front(s.order)[..i] == s.order[..i];
    }
  }

  /** A client's part of its reply, and its end, are those of serving it alone. */
  lemma EndOfServe(scripts: seq<Script>, s: Sys, before: seq<nat>, c: nat)
    requires c < |scripts|
    requires EndedSerially(scripts, s, before, c) || OnTheWay(Serially(scripts, before), scripts[c], s, c)
    ensures c < |s.clients|
    ensures var served, cl := Serve(Serially(scripts, before), scripts[c]), s.clients[c];
      && cl.reply <= served.reply
      && (cl.phase.Replying? ==> served.fate == Replied)
      && (cl.phase == Finished ==> served.fate == Replied && cl.reply == served.reply)
      && (cl.phase == Hung ==> served.fate == HungUp)
      && (cl.phase == Exiting ==> served.fate == Exited)
  {
    hide Serve, Serially, Contents;
  }

  /**
   * In any run, a client that has locked the mutex is judged on the device that the clients before
   * it left. It makes the server exit only if it reached a seek that fails there, it leaves the
   * mutex locked only if it sent no newline, and it is answered only if it did and no seek that it
   * could reach fails; these exclude one another. What it has been sent so far is the start of
   * what serving it alone would send, and nothing if it is not to be answered.
   */
  lemma EndsInRuns(scripts: seq<Script>, trace: seq<Sys>, t: nat, c: nat) returns (i: nat)
    requires Run(scripts, trace) && t < |trace| && c < |trace[t].clients| && trace[t].clients[c].phase != Idle
    ensures i < |trace[t].order| && trace[t].order[i] == c && c < |scripts|
    ensures var d, cl := Serially(scripts, trace[t].order[..i]), trace[t].clients[c];
      && (cl.phase == Exiting ==> !NoSeekFails(d, scripts[c]))
      && (cl.phase == Hung ==> NoSeekFails(d, scripts[c]) && !Completes(scripts[c]))
      && (cl.phase == Finished || cl.phase.Replying? ==> NoSeekFails(d, scripts[c]) && Completes(scripts[c]))
      && (cl.phase == Finished ==> cl.reply == Serve(d, scripts[c]).reply)
      && cl.reply <= Serve(d, scripts[c]).reply
      && (!NoSeekFails(d, scripts[c]) || !Completes(scripts[c]) ==> cl.reply == [])
  {
    hide Run, Serve, Serially, Serial, Settled, NoSeekFails, Completes, EndedSerially, OnTheWay;
    var s := trace[t];
    RunsAreSerial(scripts, trace, t);
    i := PlaceInOrder(scripts, s, c);
    EndOfServe(scripts, s, s.order[..i], c);
    SerialSettled(scripts, s.order[..i]);
    EndsExactly(Serially(scripts, s.order[..i]), scripts[c]);
  }

  // ---------- Replies ----------

  lemma EndedBefore(scripts: seq<Script>, s: Sys, c: nat) returns (i: nat)
    requires Serial(scripts, s) && InPhase(s, c, Finished)
    ensures i < |s.order| && s.order[i] == c
    ensures AllEnded(scripts, s, s.order[..i]) && EndedSerially(scripts, s, s.order[..i], c)
    ensures AllEnded(scripts, s, s.order[..i + 1])
  {
    hide Serve, Serially, Settled, OnTheWay, EndedSerially;
    assert c in s.order;
    i :| 0 <= i < |s.order| && s.order[i] == c;
    var m := |s.order| - 1;
    if i < m {
      EndedPrefix(scripts, s, Front(s.order), i);
      EndedPrefix(scripts, s, Front(s.order), i + 1);
      assert Front(s.order)[..i] == s.order[..i] && Front(s.order)[..i + 1] == s.order[..i + 1];
    } else {
      LastHasEnded(scripts, s);
      EndedSnoc(scripts, s, Front(s.order), c);
      assert s.order[..m + 1] == Front(s.order) + [c];
    }
  }

  lemma LastHasEnded(scripts: seq<Script>, s: Sys)
    requires Serial(scripts, s) && s.order != [] && InPhase(s, Last(s.order), Finished)
    ensures EndedSerially(scripts, s, Front(s.order), Last(s.order))
  {
    hide Serve, Serially, Settled, AllEnded, LockersStarted;
  }

  /**
   * An answered client's reply, in any run of clean clients: if its newline came with data, the
   * last ten commands with its own packet last; if with a seek, the visible contents from the
   * position the seek reached.
   */
  lemma RepliesInRuns(scripts: seq<Script>, trace: seq<Sys>, t: nat, c: nat) returns (i: nat)
    requires Run(scripts, trace) && t < |trace| && CleanClients(scripts)
    requires c < |scripts| && InPhase(trace[t], c, Finished)
    ensures i < |trace[t].order| && trace[t].order[i] == c && Tenure(scripts[c]) != []
    ensures var before := Commands(scripts, trace[t].order[..i]);
      var after := Commands(scripts, trace[t].order[..i + 1]);
      var last, reply := Last(Tenure(scripts[c])), trace[t].clients[c].reply;
      && after == before + (if Packet(scripts[c]) == [] then [] else [Packet(scripts[c])])
      && (last.Data? ==> reply == Flat(Visible(after)))
      && (last.Seek? ==>
        && before == after
        && SeekTo(PhysicalSizes(before), last.cmd, last.offset).Some?
        && var p := SeekTo(PhysicalSizes(before), last.cmd, last.offset).value;
          p < |Flat(Visible(before))| && reply == Flat(Visible(before))[p..])
  {
    hide Serially, Packet, Tenure, Settled, SeekTo, PhysicalSizes, Flat, Serve, Sent;
    hide Commands, CleanClients, AllEnded, Serial, SendClean, Run;
    var s := trace[t];
    RunsAreSerial(scripts, trace, t);
    i := EndedBefore(scripts, s, c);
    var before, upTo := s.order[..i], s.order[..i + 1];
    EndedSendClean(scripts, s, before);
    EndedSendClean(scripts, s, upTo);
    CleanLog(scripts, before);
    CleanLog(scripts, upTo);
    SerialSettled(scripts, before);
    assert upTo == before + [c];
    SeriallySnoc(scripts, before, c);
    CommandsSnoc(scripts, before, c);
    ServingIsOneWrite(Serially(scripts, before), scripts[c]);
    ReplyFromLogs(scripts[c], Commands(scripts, before), Commands(scripts, upTo));
  }

  /** The reply in terms of the commands before and after the client. */
  lemma ReplyFromLogs(script: Script, before: seq<Bytes>, after: seq<Bytes>)
    requires Settled(DevLog(before, [])) && Serve(DevLog(before, []), script).fate == Replied
    requires Serve(DevLog(before, []), script).log == DevLog(after, [])
    ensures Tenure(script) != []
    ensures var last, reply := Last(Tenure(script)), Serve(DevLog(before, []), script).reply;
      && (last.Data? ==> reply == Flat(Visible(after)))
      && (last.Seek? ==>
        && before == after
        && SeekTo(PhysicalSizes(before), last.cmd, last.offset).Some?
        && var p := SeekTo(PhysicalSizes(before), last.cmd, last.offset).value;
          p < |Flat(Visible(before))| && reply == Flat(Visible(before))[p..])
  {
    hide Tenure, Settled, SeekTo, PhysicalSizes, Flat, Serve;
    ReplyOf(DevLog(before, []), script);
  }

  /** The data clients served up to client c, as the file server would see them. */
  lemma ServedUpTo(scripts: seq<seq<DataChunk>>, s: Sys, c: nat) returns (i: nat, served: seq<seq<DataChunk>>)
    requires Serial(scripts, s) && InPhase(s, c, Finished)
    ensures i < |s.order| && s.order[i] == c && c < |scripts|
    ensures |served| == i + 1 && served[i] == scripts[c]
    ensures forall j :: 0 <= j <= i ==> s.order[j] < |scripts| && served[j] == scripts[s.order[j]]
    ensures s.clients[c].reply == Serve(ServeAll(served[..i]), served[i]).reply
    ensures Serve(ServeAll(served[..i]), served[i]).fate == Replied
  {
    hide Serve, ServeAll, AllEnded, OnTheWay, Settled;
    i := EndedBefore(scripts, s, c);
    ShapeBounds(scripts, s);
    var order := s.order;
    served := seq(i + 1, j requires 0 <= j <= i => scripts[order[j]]);
    assert served[..i] == ScriptsOf(scripts, s.order[..i]);
  }

  /**
   * Any data clients, in any run: the file server would have answered each client that has been
   * answered, had it served the same clients in locking order. Its reply is the client's with the
   * evicted commands before it and the pending bytes after it, and they are equal exactly while
   * at most ten commands have been committed and nothing is pending.
   */
  lemma RunsCompareServers(scripts: seq<seq<DataChunk>>, trace: seq<Sys>, t: nat, c: nat)
    returns (i: nat, served: seq<seq<DataChunk>>)
    requires Run(scripts, trace) && t < |trace| && InPhase(trace[t], c, Finished)
    ensures i < |trace[t].order| && trace[t].order[i] == c && c < |scripts|
    ensures |served| == i + 1 && served[i] == scripts[c]
    ensures forall j :: 0 <= j <= i ==> trace[t].order[j] < |scripts| && served[j] == scripts[trace[t].order[j]]
    ensures var app, reply := OldServe(OldServeAll(served[..i]), scripts[c]), trace[t].clients[c].reply;
      var after := ServeAll(served);
      && app.answered
      && app.reply == Flat(Evicted(after.history)) + reply + after.pending
      && (reply == app.reply <==> |after.history| <= CAPACITY && after.pending == [])
  {
    hide Serial, Serve, OldServe, OldServeAll, Flat, Run;
    RunsAreSerial(scripts, trace, t);
    i, served := ServedUpTo(scripts, trace[t], c);
    RepliesOfBothServers(served, i);
    assert ServeAll(served) == Serve(ServeAll(served[..i]), served[i]).log;
  }

  /**
   * Clients of one packet each, in any run: an answered client gets the last ten packets of what
   * the file server would have sent it; the same bytes exactly if it is among the first ten.
   */
  lemma RunsMatchFileServer(scripts: seq<seq<DataChunk>>, trace: seq<Sys>, t: nat, c: nat)
    returns (i: nat, served: seq<seq<DataChunk>>)
    requires Run(scripts, trace) && t < |trace| && OnePacketEach(scripts)
    requires InPhase(trace[t], c, Finished)
    ensures i < |trace[t].order| && trace[t].order[i] == c && c < |scripts|
    ensures |served| == i + 1 && served[i] == scripts[c]
    ensures forall j :: 0 <= j <= i ==> trace[t].order[j] < |scripts| && served[j] == scripts[trace[t].order[j]]
    ensures var packets, reply := PacketsOf(served), trace[t].clients[c].reply;
      var app := OldServe(OldServeAll(served[..i]), scripts[c]);
      && app.answered && app.reply == Flat(packets) && reply == Flat(Visible(packets))
      && (reply == app.reply <==> i + 1 <= CAPACITY)
  {
    hide Serial, Packet, Serve, ServeAll, OldServe, OldServeAll, Completes, Flat, Run;
    RunsAreSerial(scripts, trace, t);
    i, served := ServedUpTo(scripts, trace[t], c);
    RepliesAreLastTenPackets(served, i);
    assert served[..i + 1] == served;
  }

  // ---------- Progress ----------

  ghost predicate SomeIn(s: Sys, phase: Phase) {
    exists c: nat :: InPhase(s, c, phase)
  }

  ghost predicate AllFinished(s: Sys) {
    forall c: nat :: c < |s.clients| ==> InPhase(s, c, Finished)
  }

  ghost predicate Stuck(scripts: seq<Script>, s: Sys) {
    !exists s' :: Step(scripts, s, s')
  }

  /** Client c can take a step. */
  predicate CanStep(s: Sys, c: nat) {
    || CanLock(s, c) || CanEnd(s, c)
    || (Holds(s, c) && (s.clients[c].phase == Receiving || s.clients[c].phase.Replying?))
  }

  lemma StuckMeansNoStep(scripts: seq<Script>, s: Sys)
    requires |s.clients| == |scripts|
    ensures Stuck(scripts, s) <==> forall c: nat :: !CanStep(s, c)
  {
    forall s' | Step(scripts, s, s')
      ensures exists c: nat :: CanStep(s, c)
    {
      var c: nat :| StepOf(scripts, s, s', c);
      assert CanStep(s, c);
    }
    if c: nat :| CanStep(s, c) {
      var s' := if CanLock(s, c) then Lock(s, c)
                else if CanEnd(s, c) then End(s)
                else if s.clients[c].phase == Receiving then Receive(s, c, scripts[c]) else Send(s, c);
      assert StepOf(scripts, s, s', c);
      assert Step(scripts, s, s');
    }
  }

  /** All lockers but the last have ended. */
  lemma OnlyLastUnended(scripts: seq<Script>, s: Sys, c: nat)
    requires Serial(scripts, s) && c < |s.clients| && s.clients[c].phase != Idle
    ensures s.order != []
    ensures s.clients[c].phase == Finished || s.clients[c].phase == Exiting || c == Last(s.order)
  {
    hide Serve, Serially, Settled, OnTheWay;
    var i :| 0 <= i < |s.order| && s.order[i] == c;
    if i < |s.order| - 1 {
      assert EndedSerially(scripts, s, Front(s.order)[..i], Front(s.order)[i]);
    }
  }

  lemma StopsWithFreeMutex(scripts: seq<Script>, s: Sys)
    requires Serial(scripts, s) && s.running && s.mutex == None
    ensures !SomeIn(s, Hung)
    ensures Stuck(scripts, s) <==> !SomeIn(s, Exiting) && AllFinished(s)
  {
    SerialSizes(scripts, s);
    HolderIsLast(scripts, s);
    StuckMeansNoStep(scripts, s);
    hide Serial, Stuck;
    forall c: nat | c < |scripts|
      ensures !InPhase(s, c, Hung)
      ensures CanStep(s, c) <==> !InPhase(s, c, Finished)
      ensures InPhase(s, c, Exiting) ==> CanStep(s, c)
    {
      if s.clients[c].phase != Idle {
        OnlyLastUnended(scripts, s, c);
      }
    }
    if AllFinished(s) {
      forall c: nat ensures !CanStep(s, c) {
        assert c < |s.clients| ==> InPhase(s, c, Finished);
      }
    }
  }

  lemma SerialSizes(scripts: seq<Script>, s: Sys)
    requires Serial(scripts, s)
    ensures |s.clients| == |scripts|
  {
  }

  lemma StopsWithHeldMutex(scripts: seq<Script>, s: Sys)
    requires Serial(scripts, s) && s.running && s.mutex.Some?
    ensures !AllFinished(s)
    ensures Stuck(scripts, s) <==> !SomeIn(s, Exiting) && SomeIn(s, Hung)
    ensures forall c: nat :: InPhase(s, c, Hung) ==> s.mutex == Some(c)
  {
    hide Serve, Serially, Settled, AllEnded, LockersStarted, Contents;
    HolderIsLast(scripts, s);
    StuckMeansNoStep(scripts, s);
    hide Stuck;
    var h := Last(s.order);
    assert !InPhase(s, h, Finished) && !InPhase(s, h, Exiting);
    assert !InPhase(s, h, Hung) ==> CanStep(s, h);
    forall c: nat
      ensures InPhase(s, c, Hung) ==> c == h
      ensures CanStep(s, c) ==> InPhase(s, c, Exiting) || c == h
      ensures InPhase(s, c, Exiting) ==> CanStep(s, c)
    {
      if c < |s.clients| && s.clients[c].phase != Idle {
        OnlyLastUnended(scripts, s, c);
      }
    }
  }

  /**
   * No step is left exactly if the process has ended, or if nobody is on the way to ending it and
   * every client has been answered or one has closed its connection before a newline, and its
   * thread has left with the mutex locked.
   */
  lemma StopsExactly(scripts: seq<Script>, trace: seq<Sys>, t: nat)
    requires Run(scripts, trace) && t < |trace|
    ensures Stuck(scripts, trace[t]) <==>
      !trace[t].running || (!SomeIn(trace[t], Exiting) && (AllFinished(trace[t]) || SomeIn(trace[t], Hung)))
    ensures trace[t].running ==> forall c: nat :: InPhase(trace[t], c, Hung) ==> trace[t].mutex == Some(c)
  {
    var s := trace[t];
    RunsAreSerial(scripts, trace, t);
    if !s.running {
      SerialSizes(scripts, s);
      StuckMeansNoStep(scripts, s);
    } else {
      hide Serial, Stuck, Run, AllFinished, SomeIn;
      if s.mutex == None {
        StopsWithFreeMutex(scripts, s);
        NobodyIn(s, Hung);
      } else {
        StopsWithHeldMutex(scripts, s);
      }
    }
  }

  lemma NobodyIn(s: Sys, phase: Phase)
    ensures !SomeIn(s, phase) <==> forall c: nat :: !InPhase(s, c, phase)
  {
  }

  lemma StepAt(scripts: seq<Script>, trace: seq<Sys>, t: nat)
    requires Run(scripts, trace) && t < |trace| - 1
    ensures Step(scripts, trace[t], trace[t + 1])
  {
  }

  /** With the mutex left locked, the only step is the end of the process. */
  lemma StepAfterDisconnect(scripts: seq<Script>, s: Sys, s': Sys, c: nat)
    requires Serial(scripts, s) && InPhase(s, c, Hung) && s.mutex == Some(c) && Step(scripts, s, s')
    ensures s' == End(s)
  {
    hide Serial;
    var k: nat :| StepOf(scripts, s, s', k);
    assert !CanLock(s, k) && (Holds(s, k) ==> k == c);
  }

  lemma HungHoldsMutex(scripts: seq<Script>, s: Sys, c: nat)
    requires Serial(scripts, s) && InPhase(s, c, Hung)
    ensures s.mutex == Some(c) && c < |scripts| && !Completes(scripts[c])
  {
    OnlyLastUnended(scripts, s, c);
    SerialSettled(scripts, Front(s.order));
    hide Serve, Serially, Settled, AllEnded, LockersStarted, Completes, Contents, Sent;
    ServingIsOneWrite(Serially(scripts, Front(s.order)), scripts[c]);
  }

  lemma {:induction false} NothingAfterDisconnect(scripts: seq<Script>, trace: seq<Sys>, t: nat, u: nat, c: nat)
    requires Run(scripts, trace) && t <= u < |trace| && InPhase(trace[t], c, Hung)
    ensures trace[u] == trace[t].(running := trace[u].running)
    decreases u
  {
    hide Run, Serial, Step, Completes;
    RunsAreSerial(scripts, trace, t);
    HungHoldsMutex(scripts, trace[t], c);
    if t < u {
      NothingAfterDisconnect(scripts, trace, t, u - 1, c);
      RunsAreSerial(scripts, trace, u - 1);
      StepAt(scripts, trace, u - 1);
      StepAfterDisconnect(scripts, trace[u - 1], trace[u], c);
    }
  }

  /**
   * After an early disconnect nobody is ever served again: the state stays as it is, and the run
   * ends there, but for the end of the process if another client has already caused that.
   */
  lemma DisconnectEndsTheRun(scripts: seq<Script>, trace: seq<Sys>, t: nat, c: nat)
    requires Run(scripts, trace) && t < |trace| && InPhase(trace[t], c, Hung)
    ensures c < |scripts| && trace[t].mutex == Some(c) && !Completes(scripts[c])
    ensures forall u :: t <= u < |trace| ==> trace[u] == trace[t].(running := trace[u].running)
    ensures !SomeIn(trace[t], Exiting) ==> t == |trace| - 1
  {
    hide Run, Serial, Completes, SomeIn;
    RunsAreSerial(scripts, trace, t);
    HungHoldsMutex(scripts, trace[t], c);
    forall u | t <= u < |trace|
      ensures trace[u] == trace[t].(running := trace[u].running)
    {
      NothingAfterDisconnect(scripts, trace, t, u, c);
    }
    if t < |trace| - 1 {
      StepAt(scripts, trace, t);
      LastStepIsExit(scripts, trace[t], trace[t + 1], c);
    }
  }

  lemma LastStepIsExit(scripts: seq<Script>, s: Sys, s': Sys, c: nat)
    requires InPhase(s, c, Hung) && s.mutex == Some(c) && Step(scripts, s, s')
    ensures SomeIn(s, Exiting)
  {
    var k: nat :| StepOf(scripts, s, s', k);
    assert !CanLock(s, k) && (Holds(s, k) ==> k == c);
    assert InPhase(s, k, Exiting);
  }

  /** How much a state has left to do: clients not yet locked, then what the holder has left. */
  function Waiting(clients: seq<Client>): nat {
    if clients == [] then 0 else (if clients[0].phase == Idle then 1 else 0) + Waiting(clients[1..])
  }

  function HolderWork(scripts: seq<Script>, s: Sys): (nat, nat) {
    if s.mutex == None || s.mutex.value >= |s.clients| || s.mutex.value >= |scripts| then (0, 0)
    else
      var cl, script := s.clients[s.mutex.value], scripts[s.mutex.value];
      match cl.phase
      case Receiving => (2 + |script| - Min(cl.taken, |script|), 0)
      case Replying(pos) => (1, |Contents(s.log)| - Min(pos, |Contents(s.log)|))
      case _ => (0, 0)
  }

  /** Fewer clients waiting, or less for the holder to do, or else the process has ended. */
  predicate LessWork(scripts: seq<Script>, s': Sys, s: Sys) {
    var (a, b), (a', b') := HolderWork(scripts, s), HolderWork(scripts, s');
    || Waiting(s'.clients) < Waiting(s.clients)
    || (Waiting(s'.clients) == Waiting(s.clients) &&
        (a' < a || (a' == a && (b' < b || (b' == b && s.running && !s'.running)))))
  }

  lemma {:induction false} WaitingUpdate(clients: seq<Client>, c: nat, cl: Client)
    requires c < |clients|
    ensures Waiting(clients[c := cl]) + (if clients[c].phase == Idle then 1 else 0)
      == Waiting(clients) + (if cl.phase == Idle then 1 else 0)
  {
    if c > 0 {
      assert clients[c := cl][1..] == clients[1..][c - 1 := cl];
      WaitingUpdate(clients[1..], c - 1, cl);
    } else {
      assert clients[c := cl][1..] == clients[1..];
    }
  }

  /** Every step leaves strictly less to do, in a well-founded order: no run goes on for ever. */
  lemma RunsAreFinite(scripts: seq<Script>, trace: seq<Sys>, t: nat)
    requires Run(scripts, trace) && t < |trace| - 1
    ensures LessWork(scripts, trace[t + 1], trace[t])
  {
    StepAt(scripts, trace, t);
    StepLeavesLess(scripts, trace[t], trace[t + 1]);
  }

  lemma StepLeavesLess(scripts: seq<Script>, s: Sys, s': Sys)
    requires Step(scripts, s, s')
    ensures LessWork(scripts, s', s)
  {
    hide Contents, Waiting, ReadAt, SeekTo, PhysicalSizes, Accumulate;
    var c: nat :| StepOf(scripts, s, s', c);
    if !CanEnd(s, c) {
      WaitingUpdate(s.clients, c, s'.clients[c]);
      if Holds(s, c) && s.clients[c].phase.Replying? {
        ReadIsSlice(Visible(s.log.history), s.clients[c].phase.pos, BUFFER_SIZE);
        VisibleContents(s.log);
      }
    }
  }

  /** If every client completes, a run that stops with the server up has answered every client. */
  lemma CompletingClientsAreAnswered(scripts: seq<Script>, trace: seq<Sys>)
    requires Run(scripts, trace) && Last(trace).running && Stuck(scripts, Last(trace))
    requires forall c :: 0 <= c < |scripts| ==> Completes(scripts[c])
    ensures AllFinished(Last(trace))
  {
    hide Run, Completes, Stuck, AllFinished, Serial;
    RunIsNotEmpty(scripts, trace);
    StopsExactly(scripts, trace, |trace| - 1);
    RunsAreSerial(scripts, trace, |trace| - 1);
    if c: nat :| InPhase(Last(trace), c, Hung) {
      HungHoldsMutex(scripts, Last(trace), c);
    }
  }

  // ---------- Progress, exactly ----------

  /** Every run that has come to a stop has answered every client. */
  ghost predicate AlwaysAnswers(scripts: seq<Script>) {
    forall trace :: Run(scripts, trace) && Stuck(scripts, Last(trace)) ==> AllFinished(Last(trace))
  }

  /** A client that is sure of its answer: it sends a newline, and data only up to it. */
  ghost predicate Answerable(script: Script) {
    Completes(script) && ReachesOnlyData(script)
  }

  /** Clients whose received chunks are all data never bring the server down. */
  lemma DataClientsNeverExit(scripts: seq<Script>, s: Sys, c: nat)
    requires Serial(scripts, s) && InPhase(s, c, Exiting)
    ensures c < |scripts| && !ReachesOnlyData(scripts[c])
  {
    hide Serve, Serially, Settled, ReachesOnlyData;
    var i :| 0 <= i < |s.order| && s.order[i] == c;
    if i < |s.order| - 1 {
      assert EndedSerially(scripts, s, Front(s.order)[..i], Front(s.order)[i]);
      if ReachesOnlyData(scripts[c]) {
        DataIsServed(Serially(scripts, Front(s.order)[..i]), scripts[c]);
      }
    } else if ReachesOnlyData(scripts[c]) {
      DataIsServed(Serially(scripts, Front(s.order)), scripts[c]);
    }
  }

  lemma AnswerableAreAnswered(scripts: seq<Script>, trace: seq<Sys>)
    requires forall c :: 0 <= c < |scripts| ==> Answerable(scripts[c])
    requires Run(scripts, trace) && Stuck(scripts, Last(trace))
    ensures AllFinished(Last(trace))
  {
    hide Run, Stuck, Completes, ReachesOnlyData, AllFinished, Serial;
    RunIsNotEmpty(scripts, trace);
    var t := |trace| - 1;
    StopsExactly(scripts, trace, t);
    RunsAreSerial(scripts, trace, t);
    if c: nat :| InPhase(trace[t], c, Hung) {
      HungHoldsMutex(scripts, trace[t], c);
    }
    if c: nat :| InPhase(trace[t], c, Exiting) {
      DataClientsNeverExit(scripts, trace[t], c);
    }
    EndedByExit(scripts, trace[t]);
  }

  lemma EndedByExit(scripts: seq<Script>, s: Sys)
    requires Serial(scripts, s)
    ensures s.running || exists c: nat :: InPhase(s, c, Exiting)
  {
  }

  /** A client that is not sure of its answer has a run that ends without it, served first. */
  lemma UnanswerableBreaksARun(scripts: seq<Script>, c: nat)
    requires c < |scripts| && !Answerable(scripts[c])
    ensures !AlwaysAnswers(scripts)
  {
    hide Serve, Completes, NoSeekFails;
    var trace := SoloRun(scripts, c);
    EndsExactly(FRESH, scripts[c]);
    if i: nat :| Reached(scripts[c], i) && !scripts[c][i].Data? {
      SeekExitsEmptyDevice(FRESH, scripts[c], i);
      trace := ProcessEnds(scripts, trace, c);
    } else {
      DataIsServed(FRESH, scripts[c]);
      hide ReachesOnlyData, Step, Run;
      HungAloneIsStuck(scripts, trace, c);
    }
    assert !InPhase(Last(trace), c, Finished);
    StoppedUnanswered(scripts, trace, c);
  }

  lemma StoppedUnanswered(scripts: seq<Script>, trace: seq<Sys>, c: nat)
    requires Run(scripts, trace) && Stuck(scripts, Last(trace))
    requires c < |Last(trace).clients| && !InPhase(Last(trace), c, Finished)
    ensures !AlwaysAnswers(scripts)
  {
    hide Run, Stuck;
  }

  lemma ProcessEnds(scripts: seq<Script>, trace: seq<Sys>, c: nat) returns (longer: seq<Sys>)
    requires Run(scripts, trace) && c < |scripts| && Last(trace).running && InPhase(Last(trace), c, Exiting)
    ensures Run(scripts, longer) && Stuck(scripts, Last(longer)) && InPhase(Last(longer), c, Exiting)
  {
    var s := Last(trace);
    assert StepOf(scripts, s, End(s), c);
    assert Step(scripts, s, End(s));
    RunExtends(scripts, trace, [End(s)]);
    longer := trace + [End(s)];
    StopsExactly(scripts, longer, |longer| - 1);
  }

  lemma HungAloneIsStuck(scripts: seq<Script>, trace: seq<Sys>, c: nat)
    requires Run(scripts, trace) && InPhase(Last(trace), c, Hung) && Last(trace).order == [c]
    ensures Stuck(scripts, Last(trace))
  {
    hide Run, Step;
    RunIsNotEmpty(scripts, trace);
    var t := |trace| - 1;
    RunsAreSerial(scripts, trace, t);
    OnlyOneStarted(scripts, trace[t], c);
    StopsExactly(scripts, trace, t);
    assert SomeIn(trace[t], Hung);
  }

  lemma OnlyOneStarted(scripts: seq<Script>, s: Sys, c: nat)
    requires Serial(scripts, s) && s.order == [c]
    ensures forall k: nat :: k < |s.clients| && k != c ==> InPhase(s, k, Idle)
    ensures s.running || InPhase(s, c, Exiting)
  {
    hide Serve, Serially, Settled, AllEnded, OnTheWay;
    assert forall k: nat :: k < |s.clients| && k != c ==> k !in s.order;
  }

  /**
   * For any clients: every run answers every client if and only if each of them sends a chunk
   * with a newline before it closes its connection, and nothing but data up to that chunk.
   */
  lemma AnswersExactlyForAnswerableClients(scripts: seq<Script>)
    ensures AlwaysAnswers(scripts) <==> forall c :: 0 <= c < |scripts| ==> Answerable(scripts[c])
  {
    hide Answerable, Stuck, AllFinished, Run;
    if forall c :: 0 <= c < |scripts| ==> Answerable(scripts[c]) {
      forall trace | Run(scripts, trace) && trace != [] && Stuck(scripts, Last(trace))
        ensures AllFinished(Last(trace))
      {
        AnswerableAreAnswered(scripts, trace);
      }
      AlwaysAnswersFrom(scripts);
    } else {
      var c :| 0 <= c < |scripts| && !Answerable(scripts[c]);
      UnanswerableBreaksARun(scripts, c);
    }
  }

  lemma AlwaysAnswersFrom(scripts: seq<Script>)
    requires forall trace :: Run(scripts, trace) && trace != [] && Stuck(scripts, Last(trace)) ==>
      AllFinished(Last(trace))
    ensures AlwaysAnswers(scripts)
  {
    hide AllFinished, Stuck;
  }

  /** A lone seek on a new device completes, but makes the server exit. */
  lemma SeekClientMayBeUnanswered()
    ensures Completes([Seek(0, 0, true)]) && !AlwaysAnswers([[Seek(0, 0, true)]])
  {
    var scripts: seq<Script> := [[Seek(0, 0, true)]];
    assert scripts[0][0].HasNewline();
    assert Reached(scripts[0], 0) && !scripts[0][0].Data?;
    UnanswerableBreaksARun(scripts, 0);
  }
}
