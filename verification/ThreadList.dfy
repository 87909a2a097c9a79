/**
 * The server's linked list of threads: server/aesdsocket.c, add_thread, remove_thread and
 * join_threads, each taken as one step.
 */
module ThreadList {

  /** Only next is ever written after add_thread has filled the node in. */
  class ThreadNode {
    const tid: nat
    var next: ThreadNode?

    constructor (tid: nat, next: ThreadNode?)
      ensures this.tid == tid && this.next == next
    {
      this.tid, this.next := tid, next;
    }
  }

  /** The list without the first occurrence of tid. */
  function Without(tids: seq<nat>, tid: nat): seq<nat> {
    if tids == [] then []
    else if tids[0] == tid then tids[1..]
    else [tids[0]] + Without(tids[1..], tid)
  }

  lemma {:induction false} WithoutAt(tids: seq<nat>, tid: nat, k: nat)
    requires k <= |tids| && tid !in tids[..k]
    requires k < |tids| ==> tids[k] == tid
    ensures Without(tids, tid) == if k < |tids| then tids[..k] + tids[k + 1..] else tids
  {
    if k > 0 {
      var rest := tids[1..];
      assert tids == [tids[0]] + rest;
      assert tids[0] in tids[..k];
      assert rest[..k - 1] == tids[..k][1..];
      WithoutAt(rest, tid, k - 1);
      assert Without(tids, tid) == [tids[0]] + Without(rest, tid);
      if k < |tids| {
        assert rest[..k - 1] + rest[k..] == (tids[..k] + tids[k + 1..])[1..];
        assert tids[..k] + tids[k + 1..] == [tids[0]] + (rest[..k - 1] + rest[k..]);
      }
    }
  }

  /** What follows the i-th node. */
  ghost function Follower(nodes: seq<ThreadNode>, i: nat): ThreadNode? {
    if i + 1 < |nodes| then nodes[i + 1] else null
  }

  ghost predicate Distinct(nodes: seq<ThreadNode>) {
    forall i, j :: 0 <= i < j < |nodes| ==> nodes[i] != nodes[j]
  }

  /** Each node but possibly one points to the node after it, the last one to null. */
  ghost predicate LinkedExcept(nodes: seq<ThreadNode>, skip: int)
    reads nodes
  {
    forall i :: 0 <= i < |nodes| && i != skip ==> nodes[i].next == Follower(nodes, i)
  }

  /** The nodes form one chain that ends in null: no sharing and no cycle. */
  ghost predicate Chain(head: ThreadNode?, nodes: seq<ThreadNode>)
    reads nodes
  {
    && head == (if nodes == [] then null else nodes[0])
    && LinkedExcept(nodes, -1)
    && Distinct(nodes)
  }

  function TidsOf(nodes: seq<ThreadNode>): (tids: seq<nat>)
    ensures |tids| == |nodes|
    ensures forall i :: 0 <= i < |tids| ==> tids[i] == nodes[i].tid
  {
    seq(|nodes|, i requires 0 <= i < |nodes| => nodes[i].tid)
  }

  ghost function NodeSet(nodes: seq<ThreadNode>): set<ThreadNode> {
    set n | n in nodes
  }

  class ThreadList {
    var head: ThreadNode?

    /** The nodes in order, and those allocated and not yet freed. */
    ghost var nodes: seq<ThreadNode>
    ghost var live: set<ThreadNode>

    ghost predicate Valid()
      reads this, nodes
    {
      Chain(head, nodes) && live == NodeSet(nodes)
    }

    ghost function Tids(): seq<nat>
      reads this
    {
      TidsOf(nodes)
    }

    constructor ()
      ensures Valid() && nodes == []
    {
      head, nodes, live := null, [], {};
    }

    /** free: only a node that was allocated and not yet freed. */
    ghost method Free(n: ThreadNode)
      requires n in live
      modifies this`live
      ensures live == old(live) - {n}
    {
      live := live - {n};
    }

    method AddThread(tid: nat)
      requires Valid()
      modifies this
      ensures Valid()
      ensures |nodes| == |old(nodes)| + 1 && fresh(nodes[0]) && nodes[1..] == old(nodes)
      ensures Tids() == [tid] + old(Tids())
    {
      hide Chain, NodeSet;
      ghost var all := nodes;
      var newNode := new ThreadNode(tid, head);
      assert Chain(head, all);
      ChainCons(newNode, head, all);
      NodeSetCons(newNode, all);
      head := newNode;
      nodes := [newNode] + nodes;
      live := live + {newNode};
    }

    /** The search loop of remove_thread: the first node with this tid and the node before it. */
    method FindThread(tid: nat) returns (prev: ThreadNode?, current: ThreadNode?, ghost k: nat)
      requires Valid()
      ensures k <= |nodes| && forall i :: 0 <= i < k ==> nodes[i].tid != tid
      ensures if k < |nodes| then current == nodes[k] && current.tid == tid else current == null
      ensures prev == if k > 0 then nodes[k - 1] else null
      ensures current == null <==> forall n :: n in nodes ==> n.tid != tid
    {
      hide Distinct, NodeSet;
      k, prev, current := 0, null, head;
      while current != null
        invariant k <= |nodes| && forall i :: 0 <= i < k ==> nodes[i].tid != tid
        invariant current == if k < |nodes| then nodes[k] else null
        invariant prev == if k > 0 then nodes[k - 1] else null
        decreases |nodes| - k
      {
        if current.tid == tid {
          return;
        }
        NextOf(nodes, k);
        prev, current, k := current, current.next, k + 1;
      }
    }

    /** The unlinking branch of remove_thread: node k leaves the chain and is freed. */
    method Unlink(prev: ThreadNode?, current: ThreadNode, ghost k: nat)
      requires Valid() && k < |nodes| && current == nodes[k]
      requires prev == if k > 0 then nodes[k - 1] else null
      modifies this, nodes
      ensures Valid()
      ensures nodes == old(nodes)[..k] + old(nodes)[k + 1..] && live == old(live) - {old(nodes)[k]}
      ensures Tids() == old(Tids())[..k] + old(Tids())[k + 1..]
    {
      hide NodeSet;
      ghost var all := nodes;
      InNodeSet(all, k);
      NextOf(all, k);
      if prev == null {
        head := current.next;
      } else {
        prev.next := current.next;
      }
      forall i | 0 <= i < |all| && i != k - 1
        ensures all[i].next == Follower(all, i)
      {
        assert prev != null ==> all[i] != all[k - 1];
      }
      nodes := all[..k] + all[k + 1..];
      ChainCut(all, k, head, nodes);
      NodesCut(all, k, nodes);
      TidsCut(all, k, nodes);
      Free(current);
    }

    /** Unlinks and frees the first node with this tid; the other nodes stay. */
    method RemoveThread(tid: nat)
      requires Valid()
      modifies this, nodes
      ensures Valid()
      ensures Tids() == Without(old(Tids()), tid)
      ensures tid !in old(Tids()) ==> nodes == old(nodes) && live == old(live)
      ensures tid in old(Tids()) ==> exists k ::
        && 0 <= k < |old(nodes)| && old(Tids())[k] == tid && tid !in old(Tids())[..k]
        && nodes == old(nodes)[..k] + old(nodes)[k + 1..] && live == old(live) - {old(nodes)[k]}
    {
      hide Chain, NodeSet, Without;
      ghost var tids := Tids();
      var prev, current, k := FindThread(tid);
      WithoutAt(tids, tid, k);
      if current != null {
        assert tids[k] == tid;
        Unlink(prev, current, k);
      } else {
        assert tids[..k] == tids;
      }
    }

    /** Joins and frees every node, each once, and leaves an empty list. */
    method JoinThreads() returns (joined: seq<nat>)
      requires Valid()
      modifies this
      ensures Valid() && nodes == [] && live == {}
      ensures joined == old(Tids())
    {
      hide Distinct, NodeSet, LinkedExcept;
      ghost var all, tids, k := nodes, Tids(), 0;
      joined := [];
      var current := head;
      assert all[0..] == all;
      while current != null
        invariant k <= |all| && current == (if k < |all| then all[k] else null)
        invariant nodes == all && LinkedExcept(all, -1)
        invariant joined == tids[..k]
        invariant live == NodeSet(all[k..])
        decreases |all| - k
      {
        joined := joined + [current.tid];
        NextOf(all, k);
        NodeSetDrop(all, k);
        var temp := current;
        current := current.next;
        Free(temp);
        k := k + 1;
      }
      NoNodes();
      assert all[k..] == [];
      head, nodes := null, [];
      EmptyChain();
    }
  }

  lemma NodeSetDrop(nodes: seq<ThreadNode>, k: nat)
    requires k < |nodes| && Distinct(nodes)
    ensures nodes[k] in NodeSet(nodes[k..])
    ensures NodeSet(nodes[k..]) - {nodes[k]} == NodeSet(nodes[k + 1..])
  {
  }

  lemma NoNodes()
    ensures NodeSet([]) == {}
  {
  }

  lemma EmptyChain()
    ensures Chain(null, [])
  {
  }

  lemma ChainCons(n: ThreadNode, head: ThreadNode?, rest: seq<ThreadNode>)
    requires Chain(head, rest) && n !in rest && n.next == head
    ensures Chain(n, [n] + rest) && TidsOf([n] + rest) == [n.tid] + TidsOf(rest)
  {
  }

  lemma NodeSetCons(n: ThreadNode, rest: seq<ThreadNode>)
    ensures NodeSet([n] + rest) == NodeSet(rest) + {n}
  {
  }

  lemma InNodeSet(nodes: seq<ThreadNode>, k: nat)
    requires k < |nodes|
    ensures nodes[k] in NodeSet(nodes)
  {
  }

  lemma NextOf(nodes: seq<ThreadNode>, k: nat)
    requires k < |nodes| && LinkedExcept(nodes, -1)
    ensures nodes[k].next == Follower(nodes, k)
  {
  }

  lemma NodesCut(all: seq<ThreadNode>, k: nat, rest: seq<ThreadNode>)
    requires k < |all| && rest == all[..k] + all[k + 1..] && Distinct(all)
    ensures Distinct(rest) && NodeSet(rest) == NodeSet(all) - {all[k]}
  {
  }

  lemma TidsCut(all: seq<ThreadNode>, k: nat, rest: seq<ThreadNode>)
    requires k < |all| && rest == all[..k] + all[k + 1..]
    ensures TidsOf(rest) == TidsOf(all)[..k] + TidsOf(all)[k + 1..]
  {
  }

  /** With node k skipped by the node before it, or by the head, the others form a chain. */
  lemma ChainCut(all: seq<ThreadNode>, k: nat, head: ThreadNode?, rest: seq<ThreadNode>)
    requires k < |all| && rest == all[..k] + all[k + 1..] && Distinct(all) && LinkedExcept(all, k - 1)
    requires if k == 0 then head == Follower(all, 0) else head == all[0] && all[k - 1].next == Follower(all, k)
    ensures Chain(head, rest)
  {
  }

  // ---------- Runs of additions and removals ----------

  datatype Op = Add(tid: nat) | Remove(tid: nat)

  /** The list after a run of steps, as AddThread and RemoveThread leave it. */
  function Listed(ops: seq<Op>): seq<nat> {
    if ops == [] then []
    else
      var before := Listed(ops[..|ops| - 1]);
      match ops[|ops| - 1]
      case Add(t) => [t] + before
      case Remove(t) => Without(before, t)
  }

  /** One step on the list. */
  method Perform(list: ThreadList, op: Op)
    requires list.Valid()
    modifies list, list.nodes
    ensures list.Valid()
    ensures forall n :: n in list.nodes ==> fresh(n) || n in old(list.nodes)
    ensures list.Tids() == match op
      case Add(t) => [t] + old(list.Tids())
      case Remove(t) => Without(old(list.Tids()), t)
  {
    hide Chain, NodeSet, Without;
    ghost var before := list.nodes;
    match op {
      case Add(t) =>
        list.AddThread(t);
        assert list.nodes == [list.nodes[0]] + before;
      case Remove(t) =>
        list.RemoveThread(t);
    }
  }

  /** A whole run of steps on a new list. */
  method PerformAll(ops: seq<Op>) returns (list: ThreadList)
    ensures fresh(list) && list.Valid() && list.Tids() == Listed(ops)
  {
    hide Chain, NodeSet, Without;
    list := new ThreadList();
    for i := 0 to |ops|
      invariant fresh(list) && list.Valid()
      invariant forall k :: 0 <= k < |list.nodes| ==> fresh(list.nodes[k])
      invariant list.Tids() == Listed(ops[..i])
    {
      assert ops[..i + 1][..i] == ops[..i];
      Perform(list, ops[i]);
      assert forall k :: 0 <= k < |list.nodes| ==> list.nodes[k] in list.nodes;
    }
    assert ops[..|ops|] == ops;
  }

  /** The tids added and not removed afterwards, newest first. */
  function Outstanding(ops: seq<Op>): seq<nat> {
    if ops == [] then []
    else
      Outstanding(ops[1..])
      + if ops[0].Add? && Remove(ops[0].tid) !in ops[1..] then [ops[0].tid] else []
  }

  function WithoutAll(tids: seq<nat>, tid: nat): seq<nat> {
    if tids == [] then []
    else (if tids[0] == tid then [] else [tids[0]]) + WithoutAll(tids[1..], tid)
  }

  lemma {:induction false} WithoutAllConcat(a: seq<nat>, b: seq<nat>, tid: nat)
    ensures WithoutAll(a + b, tid) == WithoutAll(a, tid) + WithoutAll(b, tid)
  {
    if a == [] {
      assert a + b == b;
    } else {
      assert (a + b)[1..] == a[1..] + b;
      WithoutAllConcat(a[1..], b, tid);
    }
  }

  lemma {:induction false} OutstandingSnoc(ops: seq<Op>, op: Op)
    ensures Outstanding(ops + [op]) ==
      match op
      case Add(t) => [t] + Outstanding(ops)
      case Remove(t) => WithoutAll(Outstanding(ops), t)
  {
    if ops == [] {
      assert ops + [op] == [op];
      assert Outstanding([op][1..]) == [];
    } else {
      var more, rest := ops + [op], ops[1..];
      assert more[1..] == rest + [op];
      OutstandingSnoc(rest, op);
      var last := if ops[0].Add? && Remove(ops[0].tid) !in rest then [ops[0].tid] else [];
      assert forall r: Op :: r in more[1..] <==> r in rest || r == op;
      if op.Remove? {
        WithoutAllConcat(Outstanding(rest), last, op.tid);
      } else {
        assert [op.tid] + Outstanding(rest) + last == [op.tid] + (Outstanding(rest) + last);
      }
    }
  }

  lemma {:induction false} WithoutAbsent(tids: seq<nat>, tid: nat)
    ensures tid !in tids ==> WithoutAll(tids, tid) == tids
    ensures |WithoutAll(tids, tid)| + multiset(tids)[tid] == |tids|
  {
    if tids != [] {
      WithoutAbsent(tids[1..], tid);
      assert tids == [tids[0]] + tids[1..];
    }
  }

  /** Removing the first occurrence removes them all exactly if there is at most one. */
  lemma {:induction false} WithoutOnce(tids: seq<nat>, tid: nat)
    ensures Without(tids, tid) == WithoutAll(tids, tid) <==> multiset(tids)[tid] <= 1
  {
    if tids != [] {
      assert tids == [tids[0]] + tids[1..];
      WithoutAbsent(tids[1..], tid);
      if tids[0] != tid {
        WithoutOnce(tids[1..], tid);
        assert ([tids[0]] + Without(tids[1..], tid))[1..] == Without(tids[1..], tid);
        assert ([tids[0]] + WithoutAll(tids[1..], tid))[1..] == WithoutAll(tids[1..], tid);
      }
    }
  }

  ghost predicate RefinesThroughout(ops: seq<Op>) {
    forall n :: 0 <= n <= |ops| ==> Listed(ops[..n]) == Outstanding(ops[..n])
  }

  /** No step removes a tid that is in the list twice. */
  ghost predicate NeverRemovesOneOfTwo(ops: seq<Op>) {
    forall n :: 0 <= n < |ops| && ops[n].Remove? ==> multiset(Listed(ops[..n]))[ops[n].tid] <= 1
  }

  lemma ThroughoutSnoc(ops: seq<Op>, op: Op)
    ensures RefinesThroughout(ops + [op])
      <==> RefinesThroughout(ops) && Listed(ops + [op]) == Outstanding(ops + [op])
  {
    hide Listed, Outstanding;
    var more := ops + [op];
    assert forall n :: 0 <= n <= |ops| ==> more[..n] == ops[..n];
    assert more[..|more|] == more;
  }

  lemma RemovalsSnoc(ops: seq<Op>, op: Op)
    ensures NeverRemovesOneOfTwo(ops + [op])
      <==> NeverRemovesOneOfTwo(ops) && (op.Remove? ==> multiset(Listed(ops))[op.tid] <= 1)
  {
    hide Listed;
    var more := ops + [op];
    assert forall n :: 0 <= n <= |ops| ==> more[..n] == ops[..n];
    assert ops[..|ops|] == ops;
    assert forall n :: 0 <= n < |ops| ==> more[n] == ops[n];
  }

  lemma ListStep(ops: seq<Op>, op: Op)
    requires Listed(ops) == Outstanding(ops)
    ensures Listed(ops + [op]) == Outstanding(ops + [op])
      <==> (op.Remove? ==> multiset(Listed(ops))[op.tid] <= 1)
  {
    assert (ops + [op])[..|ops|] == ops;
    OutstandingSnoc(ops, op);
    WithoutOnce(Listed(ops), op.tid);
  }

  /**
   * At every point of a run the list is the tids added and not removed since, newest first, if
   * and only if no step removes a tid that is listed twice.
   */
  lemma {:induction false} ListIsOutstanding(ops: seq<Op>)
    ensures RefinesThroughout(ops) <==> NeverRemovesOneOfTwo(ops)
  {
    if ops != [] {
      var init, op := ops[..|ops| - 1], ops[|ops| - 1];
      assert ops == init + [op];
      ListIsOutstanding(init);
      ThroughoutSnoc(init, op);
      RemovalsSnoc(init, op);
      if RefinesThroughout(init) {
        assert init[..|init|] == init;
        ListStep(init, op);
      }
    }
  }

  lemma {:induction false} WithoutCounts(tids: seq<nat>, tid: nat, t: nat)
    ensures multiset(Without(tids, tid))[t] <= multiset(tids)[t]
  {
    if tids != [] {
      assert tids == [tids[0]] + tids[1..];
      WithoutCounts(tids[1..], tid, t);
    }
  }

  lemma {:induction false} ListedCounts(ops: seq<Op>, t: nat)
    ensures multiset(Listed(ops))[t] <= multiset(ops)[Add(t)]
  {
    if ops != [] {
      var init, op := ops[..|ops| - 1], ops[|ops| - 1];
      assert ops == init + [op];
      ListedCounts(init, t);
      WithoutCounts(Listed(init), op.tid, t);
    }
  }

  /** In particular when each tid is added at most once, in whatever order its removal comes. */
  lemma AddedOnceIsOutstanding(ops: seq<Op>)
    requires forall t: nat :: multiset(ops)[Add(t)] <= 1
    ensures RefinesThroughout(ops)
  {
    forall n | 0 <= n < |ops| && ops[n].Remove?
      ensures multiset(Listed(ops[..n]))[ops[n].tid] <= 1
    {
      var t := ops[n].tid;
      ListedCounts(ops[..n], t);
      assert ops == ops[..n] + ops[n..];
      assert multiset(ops)[Add(t)] <= 1;
    }
    ListIsOutstanding(ops);
  }
}
