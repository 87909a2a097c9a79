/**
 * The device as the stream of bytes written to it: a history of committed commands and a
 * pending command (aesd-char-driver/main.c, aesd_write), and how the commands relate to the
 * lines of the stream.
 */
module DeviceLog {
  import opened Streams

  datatype DevLog = DevLog(history: seq<Bytes>, pending: Bytes)

  const FRESH: DevLog := DevLog([], [])

  /** One successful write: grow the pending command, commit it if its last byte is a newline. */
  function Accumulate(d: DevLog, bytes: Bytes): DevLog {
    var grown := d.pending + bytes;
    if EndsInNewline(grown) then DevLog(d.history + [grown], []) else DevLog(d.history, grown)
  }

  function WriteAll(d: DevLog, writes: seq<Bytes>): DevLog {
    if writes == [] then d
    else Accumulate(WriteAll(d, writes[..|writes| - 1]), writes[|writes| - 1])
  }

  /** Every byte the log stands for, oldest first. */
  function Stream(d: DevLog): Bytes {
    Flat(d.history) + d.pending
  }

  /** Commands end in a newline, the pending one does not. */
  predicate Settled(d: DevLog) {
    (forall i :: 0 <= i < |d.history| ==> EndsInNewline(d.history[i])) && !EndsInNewline(d.pending)
  }

  lemma WriteAllSnoc(d: DevLog, writes: seq<Bytes>, w: Bytes)
    ensures WriteAll(d, writes + [w]) == Accumulate(WriteAll(d, writes), w)
  {
  }

  /** A write commits, all that was pending with it, exactly if its last byte is 10. */
  lemma ByteTenCommits(d: DevLog, w: Bytes)
    requires w != []
    ensures w[|w| - 1] == 10 ==> Accumulate(d, w) == DevLog(d.history + [d.pending + w], [])
    ensures w[|w| - 1] != 10 ==> Accumulate(d, w) == DevLog(d.history, d.pending + w)
  {
    assert (d.pending + w)[|d.pending + w| - 1] == w[|w| - 1];
  }

  lemma AccumulateKeepsSettled(d: DevLog, bytes: Bytes)
    requires Settled(d)
    ensures Settled(Accumulate(d, bytes))
  {
  }

  lemma AccumulateConserves(d: DevLog, w: Bytes)
    ensures Stream(Accumulate(d, w)) == Stream(d) + w
  {
    FlatSnoc(d.history, d.pending + w);
  }

  /** No byte is lost, added or reordered, over any sequence of writes. */
  lemma {:induction false} BytesConserved(d: DevLog, writes: seq<Bytes>)
    ensures Stream(WriteAll(d, writes)) == Stream(d) + Flat(writes)
  {
    hide Stream, Accumulate, Flat;
    if writes == [] {
      FlatEmpty();
    } else {
      var init, w := writes[..|writes| - 1], writes[|writes| - 1];
      BytesConserved(d, init);
      AccumulateConserves(WriteAll(d, init), w);
      FlatSnoc(init, w);
      assert writes == init + [w];
    }
  }

  lemma StreamFromFresh(writes: seq<Bytes>)
    ensures Stream(WriteAll(FRESH, writes)) == Flat(writes)
  {
    BytesConserved(FRESH, writes);
    assert Stream(FRESH) == [];
  }

  lemma FlatEmpty()
    ensures Flat<Byte>([]) == []
  {
  }

  /** Commands always end in a newline, the pending one never does, and history is never rewritten. */
  lemma {:induction false} WritesKeepSettled(d: DevLog, writes: seq<Bytes>)
    requires Settled(d)
    ensures Settled(WriteAll(d, writes)) && d.history <= WriteAll(d, writes).history
  {
    if writes != [] {
      WritesKeepSettled(d, writes[..|writes| - 1]);
    }
  }

  // ---------- Lines ----------

  predicate IsLine(s: Bytes) {
    EndsInNewline(s) && NEWLINE !in s[..|s| - 1]
  }

  predicate NewlineOnlyLast(s: Bytes) {
    s == [] || NEWLINE !in s[..|s| - 1]
  }

  /** Each command is one line and the pending command is an unterminated one. */
  predicate SplitsLines(d: DevLog) {
    (forall i :: 0 <= i < |d.history| ==> IsLine(d.history[i])) && NEWLINE !in d.pending
  }

  function FirstNewline(s: Bytes): (n: nat)
    requires NEWLINE in s
    ensures n < |s| && IsLine(s[..n + 1])
  {
    if s[0] == NEWLINE then 0
    else
      var n := FirstNewline(s[1..]) + 1;
      assert s[..n + 1] == [s[0]] + s[1..][..n];
      n
  }

  /** The newline-terminated lines of a stream and its unterminated tail. */
  function LinesOf(s: Bytes): DevLog {
    if NEWLINE !in s then DevLog([], s)
    else
      var n := FirstNewline(s) + 1;
      var rest := LinesOf(s[n..]);
      DevLog([s[..n]] + rest.history, rest.pending)
  }

  lemma PrependLine(l: Bytes, d: DevLog)
    requires IsLine(l) && SplitsLines(d)
    ensures var e := DevLog([l] + d.history, d.pending);
      SplitsLines(e) && Stream(e) == l + Stream(d)
  {
  }

  lemma {:induction false} LinesOfSplits(s: Bytes)
    ensures SplitsLines(LinesOf(s)) && Stream(LinesOf(s)) == s
  {
    hide FirstNewline, Stream, SplitsLines;
    if NEWLINE in s {
      var n := FirstNewline(s) + 1;
      LinesOfSplits(s[n..]);
      PrependLine(s[..n], LinesOf(s[n..]));
      assert s == s[..n] + s[n..];
    } else {
      UnterminatedSplits(s);
    }
  }

  lemma UnterminatedSplits(s: Bytes)
    requires NEWLINE !in s
    ensures SplitsLines(DevLog([], s)) && Stream(DevLog([], s)) == s
  {
  }

  lemma StreamHead(d: DevLog)
    requires d.history != []
    ensures Stream(d) == d.history[0] + Stream(DevLog(d.history[1..], d.pending))
  {
  }

  lemma LineLength(s: Bytes, m: nat, n: nat)
    requires m <= |s| && n <= |s| && IsLine(s[..m]) && IsLine(s[..n])
    ensures m >= n
  {
  }

  /** Two lines that start one stream are the same line. */
  lemma FirstLineUnique(a: Bytes, x: Bytes, b: Bytes, y: Bytes)
    requires IsLine(a) && IsLine(b) && a + x == b + y
    ensures a == b && x == y
  {
    var s := a + x;
    assert a == s[..|a|] && b == s[..|b|];
    LineLength(s, |a|, |b|);
    LineLength(s, |b|, |a|);
    assert x == s[|a|..] && y == s[|b|..];
  }

  lemma CommandsHoldNewlines(d: DevLog)
    requires d.history != [] && SplitsLines(d)
    ensures NEWLINE in Stream(d)
  {
  }

  lemma NoNewlineNoLine(a: DevLog, b: DevLog)
    requires a.history == [] && NEWLINE !in a.pending && Stream(a) == Stream(b) && SplitsLines(b)
    ensures a == b
  {
    assert Stream(a) == a.pending;
    if b.history != [] {
      CommandsHoldNewlines(b);
    } else {
      assert Stream(b) == b.pending;
    }
  }

  /** A stream splits into lines in one way only. */
  lemma {:induction false} SplitUnique(a: DevLog, b: DevLog)
    requires SplitsLines(a) && SplitsLines(b) && Stream(a) == Stream(b)
    ensures a == b
    decreases |a.history|
  {
    if a.history == [] {
      NoNewlineNoLine(a, b);
    } else if b.history == [] {
      NoNewlineNoLine(b, a);
    } else {
      var a', b' := DevLog(a.history[1..], a.pending), DevLog(b.history[1..], b.pending);
      StreamHead(a);
      StreamHead(b);
      FirstLineUnique(a.history[0], Stream(a'), b.history[0], Stream(b'));
      SplitUnique(a', b');
    }
  }

  /** A write keeps lines and commands the same thing exactly if its only newline is its last byte. */
  lemma AccumulateSplits(d: DevLog, w: Bytes)
    requires Settled(d)
    ensures SplitsLines(Accumulate(d, w)) <==> SplitsLines(d) && NewlineOnlyLast(w)
  {
    var grown := d.pending + w;
    var a := Accumulate(d, w);
    if w == [] {
      assert grown == d.pending;
    } else {
      var k := |d.pending|;
      assert grown[..|grown| - 1] == d.pending + w[..|w| - 1];
      assert EndsInNewline(grown) ==> a.history[|d.history|] == grown && a.history[..|d.history|] == d.history;
      if SplitsLines(a) {
        if !EndsInNewline(grown) {
          assert grown == grown[..|grown| - 1] + [grown[|grown| - 1]];
        }
        forall i | 0 <= i < |d.history| ensures IsLine(d.history[i]) {
          assert a.history[i] == d.history[i];
        }
      }
    }
  }

  ghost predicate Disciplined(writes: seq<Bytes>) {
    forall i :: 0 <= i < |writes| ==> NewlineOnlyLast(writes[i])
  }

  lemma {:induction false} WriteAllSplits(writes: seq<Bytes>)
    ensures SplitsLines(WriteAll(FRESH, writes)) <==> Disciplined(writes)
  {
    if writes != [] {
      var init, w := writes[..|writes| - 1], writes[|writes| - 1];
      WriteAllSplits(init);
      WritesKeepSettled(FRESH, init);
      AccumulateSplits(WriteAll(FRESH, init), w);
      assert Disciplined(writes) <==> Disciplined(init) && NewlineOnlyLast(w);
    }
  }

  /**
   * The commands are exactly the lines of the written stream, and the pending command its
   * unterminated tail, if and only if no write has a newline before its last byte.
   */
  lemma CommandsAreLines(writes: seq<Bytes>)
    ensures WriteAll(FRESH, writes) == LinesOf(Flat(writes)) <==> Disciplined(writes)
  {
    hide Stream, SplitsLines, WriteAll, LinesOf, Flat, Disciplined;
    WriteAllSplits(writes);
    LinesOfSplits(Flat(writes));
    StreamFromFresh(writes);
    if Disciplined(writes) {
      SplitUnique(WriteAll(FRESH, writes), LinesOf(Flat(writes)));
    }
  }

  /** How a stream is cut into writes does not matter, so long as newlines come last in a write. */
  lemma ChunkingIrrelevant(writes: seq<Bytes>, others: seq<Bytes>)
    requires Disciplined(writes) && Disciplined(others) && Flat(writes) == Flat(others)
    ensures WriteAll(FRESH, writes) == WriteAll(FRESH, others)
  {
    CommandsAreLines(writes);
    CommandsAreLines(others);
  }

  // ---------- Without the discipline: commands are groups of lines ----------

  lemma SplitIsLinesOf(d: DevLog)
    requires SplitsLines(d)
    ensures LinesOf(Stream(d)) == d
  {
    LinesOfSplits(Stream(d));
    SplitUnique(d, LinesOf(Stream(d)));
  }

  lemma TerminatorInTail(x: Bytes, y: Bytes)
    ensures x + y == [] || EndsInNewline(x + y) ==> y == [] || NEWLINE in y
  {
  }

  lemma TerminatedHasNoTail(a: Bytes)
    requires a == [] || EndsInNewline(a)
    ensures LinesOf(a).pending == [] && Flat(LinesOf(a).history) == a
  {
    LinesOfSplits(a);
    var d := LinesOf(a);
    TerminatorInTail(Flat(d.history), d.pending);
    assert Flat(d.history) + [] == Flat(d.history);
  }

  /** A log with nothing pending, followed by another log. */
  function Followed(a: DevLog, b: DevLog): DevLog {
    DevLog(a.history + b.history, b.pending)
  }

  lemma FollowedSplits(a: DevLog, b: DevLog)
    requires SplitsLines(a) && SplitsLines(b) && a.pending == []
    ensures SplitsLines(Followed(a, b)) && Stream(Followed(a, b)) == Stream(a) + Stream(b)
  {
    FlatConcat(a.history, b.history);
    assert Stream(a) == Flat(a.history);
  }

  lemma LinesOfConcat(a: Bytes, b: Bytes)
    requires a == [] || EndsInNewline(a)
    ensures LinesOf(a + b) == Followed(LinesOf(a), LinesOf(b))
  {
    TerminatedHasNoTail(a);
    LinesOfSplits(a);
    LinesOfSplits(b);
    FollowedSplits(LinesOf(a), LinesOf(b));
    SplitIsLinesOf(Followed(LinesOf(a), LinesOf(b)));
  }

  /** The lines of each command. */
  function LinesEach(commands: seq<Bytes>): (g: seq<seq<Bytes>>)
    ensures |g| == |commands|
    ensures forall i :: 0 <= i < |g| ==> g[i] == LinesOf(commands[i]).history
  {
    seq(|commands|, i requires 0 <= i < |commands| => LinesOf(commands[i]).history)
  }

  lemma CommandHasLines(c: Bytes)
    requires EndsInNewline(c)
    ensures LinesOf(c).history != [] && Flat(LinesOf(c).history) == c
  {
    TerminatedHasNoTail(c);
  }

  lemma {:induction false} FlatTerminated(commands: seq<Bytes>)
    requires forall i :: 0 <= i < |commands| ==> EndsInNewline(commands[i])
    ensures Flat(commands) == [] || EndsInNewline(Flat(commands))
  {
    if commands != [] {
      FlatTerminated(commands[1..]);
    }
  }

  lemma {:induction false} LinesOfCommands(commands: seq<Bytes>)
    requires forall i :: 0 <= i < |commands| ==> EndsInNewline(commands[i])
    ensures LinesOf(Flat(commands)).history == Flat(LinesEach(commands))
  {
    if commands != [] {
      LinesOfCommands(commands[1..]);
      LinesOfConcat(commands[0], Flat(commands[1..]));
      assert LinesEach(commands)[1..] == LinesEach(commands[1..]);
    } else {
      assert LinesEach(commands) == [];
    }
  }

  /** Every command is one or more whole lines of the stream, in order: no line is cut or skipped. */
  lemma CommandsAreLineGroups(d: DevLog)
    requires Settled(d)
    ensures forall i :: 0 <= i < |d.history| ==>
      LinesEach(d.history)[i] != [] && Flat(LinesEach(d.history)[i]) == d.history[i]
    ensures LinesOf(Stream(d)) ==
      DevLog(Flat(LinesEach(d.history)) + LinesOf(d.pending).history, LinesOf(d.pending).pending)
  {
    LinesOfCommands(d.history);
    FlatTerminated(d.history);
    LinesOfConcat(Flat(d.history), d.pending);
    forall i | 0 <= i < |d.history|
      ensures LinesEach(d.history)[i] != [] && Flat(LinesEach(d.history)[i]) == d.history[i]
    {
      CommandHasLines(d.history[i]);
    }
  }

  lemma OneNewline(l: Bytes, rest: Bytes)
    requires IsLine(l)
    ensures multiset(l + rest)[NEWLINE] == 1 + multiset(rest)[NEWLINE]
  {
    assert l == l[..|l| - 1] + [NEWLINE];
  }

  lemma {:induction false} LineCount(s: Bytes)
    ensures |LinesOf(s).history| == multiset(s)[NEWLINE]
  {
    hide FirstNewline, IsLine;
    if NEWLINE in s {
      var n := FirstNewline(s) + 1;
      var l, rest := s[..n], s[n..];
      LineCount(rest);
      OneNewline(l, rest);
      assert s == l + rest;
      assert LinesOf(s).history == [l] + LinesOf(rest).history;
    } else {
      assert NEWLINE !in multiset(s);
      assert LinesOf(s).history == [];
    }
  }

  lemma {:induction false} GroupCount<T>(groups: seq<seq<T>>)
    requires forall i :: 0 <= i < |groups| ==> groups[i] != []
    ensures |Flat(groups)| >= |groups|
    ensures |Flat(groups)| == |groups| <==> forall i :: 0 <= i < |groups| ==> |groups[i]| == 1
  {
    if groups != [] {
      GroupCount(groups[1..]);
      assert groups == [groups[0]] + groups[1..];
    }
  }

  lemma OneLine(s: Bytes)
    requires EndsInNewline(s)
    ensures |LinesOf(s).history| == 1 <==> IsLine(s)
  {
    LinesOfSplits(s);
    TerminatedHasNoTail(s);
    var ls := LinesOf(s).history;
    if |ls| == 1 {
      assert Flat(ls) == ls[0] + Flat(ls[1..]) == ls[0];
    }
    if IsLine(s) {
      var d := DevLog([s], []);
      assert Flat([s]) == s + Flat<Byte>([]);
      assert Stream(d) == s;
      SplitUnique(d, LinesOf(s));
    }
  }

  /** For any log: the newlines in it bound the number of commands, and equal it for lines only. */
  lemma CommandCount(d: DevLog)
    requires Settled(d)
    ensures |d.history| <= multiset(Stream(d))[NEWLINE]
    ensures |d.history| == multiset(Stream(d))[NEWLINE] <==> SplitsLines(d)
  {
    var g := LinesEach(d.history);
    CommandsAreLineGroups(d);
    LineCount(Stream(d));
    LineCount(d.pending);
    GroupCount(g);
    forall i | 0 <= i < |d.history|
      ensures |g[i]| == 1 <==> IsLine(d.history[i])
    {
      OneLine(d.history[i]);
    }
  }

  /** There are never more commands than newlines written; as many exactly if newlines only end writes. */
  lemma CommitCount(writes: seq<Bytes>)
    ensures |WriteAll(FRESH, writes).history| <= multiset(Flat(writes))[NEWLINE]
    ensures |WriteAll(FRESH, writes).history| == multiset(Flat(writes))[NEWLINE] <==> Disciplined(writes)
  {
    var d := WriteAll(FRESH, writes);
    StreamFromFresh(writes);
    WritesKeepSettled(FRESH, writes);
    CommandCount(d);
    WriteAllSplits(writes);
  }

  /** Two writes, "a NL c" and then "e NL": one command with two lines in it. */
  lemma InnerNewlineMergesLines()
    ensures var writes: seq<Bytes> := [[97, NEWLINE, 99], [101, NEWLINE]];
      WriteAll(FRESH, writes) == DevLog([[97, NEWLINE, 99, 101, NEWLINE]], [])
      && LinesOf(Flat(writes)).history != WriteAll(FRESH, writes).history
  {
    var a: Bytes, b: Bytes, whole: Bytes := [97, NEWLINE, 99], [101, NEWLINE], [97, NEWLINE, 99, 101, NEWLINE];
    assert a + b == whole;
    WriteAllSnoc(FRESH, [], a);
    WriteAllSnoc(FRESH, [a], b);
    assert [] + [a] == [a] && [a] + [b] == [a, b];
    assert [] + a == a && !EndsInNewline(a) && EndsInNewline(whole);
    assert Accumulate(FRESH, a) == DevLog([], a);
    assert Accumulate(DevLog([], a), b) == DevLog([whole], []);
    LinesOfSplits(Flat([a, b]));
    assert whole[1] == NEWLINE && whole[..4][1] == NEWLINE;
    assert !IsLine(whole);
  }
}
