/** Retransmission of handshake packets until they are given up. */
module Retransmission {
  import opened Netq
  import opened Numbers

  const MAX_RETRANSMIT: nat := 7

  /** The transmissions that the nodes still have before they are freed, with the release. */
  ghost function Credit(nodes: seq<Node>): nat
    reads nodes`retransmitCnt
  {
    if |nodes| == 0 then 0
    else Credit(nodes[..|nodes| - 1]) + Left(nodes[|nodes| - 1])
  }

  ghost function Left(n: Node): nat
    reads n`retransmitCnt
  {
    if n.retransmitCnt <= MAX_RETRANSMIT then MAX_RETRANSMIT + 1 - n.retransmitCnt else 1
  }

  lemma {:induction false} CreditConcat(a: seq<Node>, b: seq<Node>)
    ensures Credit(a + b) == Credit(a) + Credit(b)
  {
    if |b| == 0 {
      assert a + b == a;
    } else {
      var c := b[..|b| - 1];
      assert (a + b)[..|a + b| - 1] == a + c;
      CreditConcat(a, c);
    }
  }

  lemma CreditOne(node: Node)
    ensures Credit([node]) == Left(node)
  {
    assert [node][..0] == [];
  }

  lemma CreditInsert(was: seq<Node>, node: Node, k: nat)
    requires k <= |was|
    ensures Credit(was[..k] + [node] + was[k..]) == Credit(was) + Left(node)
  {
    hide Credit;
    var a, b := was[..k], was[k..];
    assert a + b == was;
    CreditConcat(a + [node], b);
    CreditConcat(a, [node]);
    CreditConcat(a, b);
    CreditOne(node);
  }

  lemma CreditPop(was: seq<Node>)
    requires |was| > 0
    ensures Credit(was) == Left(was[0]) + Credit(was[1..])
  {
    hide Credit;
    CreditConcat([was[0]], was[1..]);
    assert [was[0]] + was[1..] == was;
    CreditOne(was[0]);
  }

  ghost predicate WithinLimit(nodes: seq<Node>)
    reads nodes`retransmitCnt
  {
    forall i :: 0 <= i < |nodes| ==> nodes[i].retransmitCnt <= MAX_RETRANSMIT
  }

  /** The delay before the next transmission, as a 32-bit shift. */
  function Delay(timeout: nat, cnt: nat): nat { timeout * Pow2(cnt) % 0x1_0000_0000 }

  /** The first delay is the timeout, and every retransmission doubles it, within 32 bits. */
  lemma DelayDoubles(timeout: nat, cnt: nat)
    requires timeout < 0x1_0000_0000
    ensures Delay(timeout, 0) == timeout
    ensures Delay(timeout, cnt + 1) == 2 * Delay(timeout, cnt) % 0x1_0000_0000
  {
    assert timeout * Pow2(0) == timeout;
    assert timeout * Pow2(cnt + 1) == 2 * (timeout * Pow2(cnt)) by {
      MulAssoc(timeout, 2, Pow2(cnt));
    }
    DoubledResidue(timeout * Pow2(cnt));
  }

  lemma DoubledResidue(x: int)
    ensures 2 * x % 0x1_0000_0000 == 2 * (x % 0x1_0000_0000) % 0x1_0000_0000
  {
  }

  /** A queue in the order of the due times, in which no packet has been sent too often. */
  ghost predicate Scheduled(q: Queue)
    reads q, q.nodes
  {
    q.Valid() && Sorted(q.nodes) && WithinLimit(q.nodes)
  }

  lemma InsertWithin(was: seq<Node>, node: Node, k: nat)
    requires WithinLimit(was) && node.retransmitCnt <= MAX_RETRANSMIT && k <= |was|
    ensures WithinLimit(was[..k] + [node] + was[k..])
  {
  }

  lemma InsertElements(was: seq<Node>, node: Node, k: nat)
    requires k <= |was|
    ensures multiset(was[..k] + [node] + was[k..]) == multiset(was) + multiset{node}
    ensures node in was[..k] + [node] + was[k..]
  {
    assert was == was[..k] + was[k..];
  }

  /** Puts a node back with its next due time. */
  method Requeue(q: Queue, node: Node, now: nat)
    requires Scheduled(q) && node !in q.nodes && node.retransmitCnt < MAX_RETRANSMIT
    modifies q, q.nodes`next, node`next, node`t, node`retransmitCnt
    ensures Scheduled(q) && node in q.nodes
    ensures node.retransmitCnt == old(node.retransmitCnt) + 1
    ensures node.t == now + Delay(node.timeout, node.retransmitCnt)
    ensures multiset(q.nodes) == old(multiset(q.nodes)) + multiset{node}
    ensures Credit(q.nodes) == old(Credit(q.nodes)) + Left(node)
  {
    hide Sorted, Credit, WithinLimit, Delay, Left, Linked, IsPlace;
    ghost var was := q.nodes;
    node.retransmitCnt := node.retransmitCnt + 1;
    node.t := now + Delay(node.timeout, node.retransmitCnt);
    ghost var k := q.Insert(node);
    InsertSorted(was, node, k);
    InsertWithin(was, node, k);
    CreditInsert(was, node, k);
    InsertElements(was, node, k);
  }

  /** The nodes that were in the queue are in it still or gone, each once. */
  ghost predicate Divided(before: seq<Node>, nodes: seq<Node>, gone: seq<Node>) {
    multiset(nodes) + multiset(gone) == multiset(before)
  }

  /** The nodes have been sent as often as allowed, or have no receiver. */
  ghost predicate GivenUp(gone: seq<Node>)
    reads gone`retransmitCnt, gone`peer
  {
    forall i :: 0 <= i < |gone| ==> gone[i].retransmitCnt == MAX_RETRANSMIT || gone[i].peer == Nowhere
  }

  /** Every node that has entered the queue is in it still or has been freed, each once. */
  ghost predicate Balanced(entered: seq<Node>, nodes: seq<Node>, freed: seq<Node>) {
    multiset(nodes) + multiset(freed) == multiset(entered)
  }

  ghost function Counts(nodes: seq<Node>): map<Node, nat>
    reads nodes`retransmitCnt
  {
    map n | n in nodes :: n.retransmitCnt
  }

  /** The counter of a queued node is the number of its retransmissions, a node that was given
      up has been resent as often as allowed, unless it has no receiver, and none more often. */
  ghost predicate Tallied(counts: map<Node, nat>, expired: seq<Node>, resent: seq<Node>)
    reads expired`peer
  {
    && (forall n :: n in counts ==> multiset(resent)[n] == counts[n])
    && (forall n :: n in expired && n.peer != Nowhere ==> multiset(resent)[n] == MAX_RETRANSMIT)
    && (forall n :: n in resent ==> multiset(resent)[n] <= MAX_RETRANSMIT)
  }

  /** The first k nodes without those of a session. */
  ghost function Others(nodes: seq<Node>, id: nat, k: nat): seq<Node>
    requires k <= |nodes|
    reads nodes`peer
  {
    if k == 0 then []
    else if nodes[k - 1].peer == Session(id) then Others(nodes, id, k - 1)
    else Others(nodes, id, k - 1) + [nodes[k - 1]]
  }

  class Transmitter {
    const sendqueue: Queue
    /** The reading that the k-th look at the clock gives. */
    const clock: nat -> nat
    var looks: nat
    /** The nodes whose packets have been written again, in order, and those given up. */
    var resent: seq<Node>
    var freed: seq<Node>
    /** The nodes that ever entered the queue, and the freed ones that were given up. */
    ghost var entered: seq<Node>
    ghost var expired: seq<Node>

    /** What every operation keeps. */
    ghost predicate Valid()
      reads this, sendqueue, sendqueue.nodes, expired
    {
      && Scheduled(sendqueue) && Distinct(entered) && Balanced(entered, sendqueue.nodes, freed)
      && (forall n :: n in expired ==> n in freed)
      && (forall n :: n in resent ==> n in entered)
      && Tallied(Counts(sendqueue.nodes), expired, resent)
    }

    constructor (clock: nat -> nat)
      ensures Valid() && fresh(sendqueue) && sendqueue.nodes == [] && this.clock == clock
      ensures resent == [] && freed == [] && entered == [] && expired == []
    {
      this.clock := clock;
      sendqueue := new Queue();
      looks, resent, freed, entered, expired := 0, [], [], [], [];
    }

    method Ticks() returns (now: nat)
      modifies this`looks
      ensures now == clock(old(looks)) && looks == old(looks) + 1
    {
      now := clock(looks);
      looks := looks + 1;
    }

    /** Resends the packet of a node that has been taken off the queue and puts the node back
        with its next due time; after the last retransmission the node is freed instead. */
    method Retransmit(node: Node) returns (again: bool)
      requires Scheduled(sendqueue) && node !in sendqueue.nodes && node.retransmitCnt <= MAX_RETRANSMIT
      modifies this`looks, this`resent, this`freed, this`expired, sendqueue, sendqueue.nodes`next
      modifies node`next, node`t, node`retransmitCnt
      ensures Scheduled(sendqueue) && looks >= old(looks)
      ensures expired == old(expired) + (if again then [] else [node])
      ensures again <==> old(node.retransmitCnt) < MAX_RETRANSMIT && node.peer != Nowhere
      ensures again ==> node.retransmitCnt == old(node.retransmitCnt) + 1
      ensures again ==> node.t == clock(old(looks)) + Delay(node.timeout, node.retransmitCnt)
      ensures again ==> resent == old(resent) + [node] && freed == old(freed)
      ensures again ==> multiset(sendqueue.nodes) == old(multiset(sendqueue.nodes)) + multiset{node}
      ensures again ==> Credit(sendqueue.nodes) == old(Credit(sendqueue.nodes)) + Left(node)
      ensures !again ==> sendqueue.nodes == old(sendqueue.nodes) && node.retransmitCnt == old(node.retransmitCnt)
      ensures !again ==> resent == old(resent) && freed == old(freed) + [node]
      ensures !again ==> Credit(sendqueue.nodes) == old(Credit(sendqueue.nodes))
    {
      hide Credit, Left, Scheduled, Delay;
      if node.retransmitCnt < MAX_RETRANSMIT && node.peer != Nowhere {
        var now := Ticks();
        Requeue(sendqueue, node, now);
        resent := resent + [node];
        return true;
      }
      freed, expired := freed + [node], expired + [node];
      return false;
    }

    /** Copies a handshake packet to the queue when it is first sent; it is due again after
        two seconds. */
    method Enqueue(peer: Destination, length: nat, ticksPerSecond: nat) returns (n: Node, ghost k: nat)
      requires Valid()
      modifies this`looks, this`entered, sendqueue, sendqueue.nodes`next
      ensures Valid() && fresh(n) && entered == old(entered) + [n]
      ensures n.t == clock(old(looks)) + 2 * ticksPerSecond && n.timeout == 2 * ticksPerSecond
      ensures n.peer == peer && n.length == length && n.retransmitCnt == 0
      ensures IsPlace(old(sendqueue.nodes), n.t, k)
      ensures sendqueue.nodes == old(sendqueue.nodes[..k]) + [n] + old(sendqueue.nodes[k..])
    {
      hide Scheduled, IsPlace, Distinct, Balanced, Tallied, Counts;
      ghost var was, counts := sendqueue.nodes, Counts(sendqueue.nodes);
      QueuedEntered(this);
      n := NewPacket(peer, length, ticksPerSecond);
      k := InsertNew(n);
      EnteredStep(entered, was, freed, sendqueue.nodes, n);
      TalliedNew(counts, expired, resent, n);
      CountsWithNew(counts, was, sendqueue.nodes, n);
      entered := entered + [n];
    }

    method NewPacket(peer: Destination, length: nat, ticksPerSecond: nat) returns (n: Node)
      modifies this`looks
      ensures fresh(n) && n.t == clock(old(looks)) + 2 * ticksPerSecond && n.timeout == 2 * ticksPerSecond
      ensures n.peer == peer && n.length == length && n.retransmitCnt == 0
    {
      n := new Node();
      var now := Ticks();
      n.t := now + 2 * ticksPerSecond;
      n.timeout := 2 * ticksPerSecond;
      n.peer, n.length := peer, length;
    }

    /** Inserts a node that has not been sent yet. */
    method InsertNew(n: Node) returns (ghost k: nat)
      requires Scheduled(sendqueue) && n !in sendqueue.nodes && n.retransmitCnt == 0
      modifies sendqueue, sendqueue.nodes`next, n`next
      ensures Scheduled(sendqueue) && IsPlace(old(sendqueue.nodes), n.t, k)
      ensures sendqueue.nodes == old(sendqueue.nodes[..k]) + [n] + old(sendqueue.nodes[k..])
      ensures multiset(sendqueue.nodes) == multiset(old(sendqueue.nodes)) + multiset{n}
      ensures forall x :: x in sendqueue.nodes <==> x in old(sendqueue.nodes) || x == n
    {
      hide Sorted, WithinLimit, Linked, LinkedBut, IsPlace;
      ghost var was := sendqueue.nodes;
      k := sendqueue.Insert(n);
      InsertSorted(was, n, k);
      InsertWithin(was, n, k);
      InsertElements(was, n, k);
      assert was == was[..k] + was[k..];
    }

    /** Removes the node at position k and frees it. */
    method FreeNode(node: Node, ghost k: nat)
      requires Valid() && k < |sendqueue.nodes| && sendqueue.nodes[k] == node
      modifies this`freed, sendqueue, sendqueue.nodes`next
      ensures Valid() && freed == old(freed) + [node]
      ensures sendqueue.nodes == old(sendqueue.nodes[..k]) + old(sendqueue.nodes[k + 1..])
    {
      hide Scheduled, Distinct, Balanced, Tallied, Counts;
      ghost var nodes, counts := sendqueue.nodes, Counts(sendqueue.nodes);
      RemoveElements(nodes, k);
      RemoveNode(node, k);
      BalancedStep(entered, nodes, freed, sendqueue.nodes, node, false);
      FewerCounts(counts, nodes, sendqueue.nodes, k);
      TalliedFewer(counts, Counts(sendqueue.nodes), expired, resent);
      freed := freed + [node];
    }

    method RemoveNode(node: Node, ghost k: nat)
      requires Scheduled(sendqueue) && k < |sendqueue.nodes| && sendqueue.nodes[k] == node
      modifies sendqueue, sendqueue.nodes`next
      ensures Scheduled(sendqueue) && sendqueue.nodes == old(sendqueue.nodes[..k]) + old(sendqueue.nodes[k + 1..])
    {
      hide Sorted, WithinLimit, Linked;
      RemoveSorted(sendqueue.nodes, k);
      RemoveWithin(sendqueue.nodes, k);
      sendqueue.Remove(node);
    }

    /** Looks at one node and returns the next one. */
    method StopOrKeep(node: Node, id: nat, ghost kept: seq<Node>, ghost rest: seq<Node>) returns (next: Node?)
      requires Valid() && sendqueue.nodes == kept + [node] + rest
      modifies this`freed, sendqueue, sendqueue.nodes`next
      ensures Valid() && next == At(rest, 0)
      ensures freed == old(freed) || (node.peer == Session(id) && freed == old(freed) + [node])
      ensures sendqueue.nodes == (if node.peer == Session(id) then kept else kept + [node]) + rest
    {
      hide Scheduled, Linked, LinkedBut, Tallied, Balanced, Distinct;
      NextOf(sendqueue, |kept|);
      next := node.next;
      if node.peer == Session(id) {
        FreeNode(node, |kept|);
      }
    }

    /** Frees every node of a session and leaves the others in their order. */
    method StopRetransmission(id: nat)
      requires Valid() && forall i :: 0 <= i < |sendqueue.nodes| ==> sendqueue.nodes[i].peer.Session?
      modifies this`freed, sendqueue, sendqueue.nodes`next
      ensures Valid() && forall n :: n in freed ==> n in old(freed) || n.peer == Session(id)
      ensures sendqueue.nodes == Others(old(sendqueue.nodes), id, |old(sendqueue.nodes)|)
    {
      hide Scheduled, Others, Linked, LinkedBut, Sorted, WithinLimit, Tallied, Balanced, Distinct;
      ghost var all, i := sendqueue.nodes, 0;
      var node := sendqueue.head;
      HeadIsFirst(sendqueue);
      NoneStopped(all, id);
      hide Valid;
      while node != null
        invariant i <= |all| && node == At(all, i) && Valid()
        invariant forall n :: n in freed ==> n in old(freed) || n.peer == Session(id)
        invariant sendqueue.nodes == Others(all, id, i) + all[i..]
        decreases |all| - i
      {
        StopStep(all, id, i);
        node := StopOrKeep(node, id, Others(all, id, i), all[i + 1..]);
        i := i + 1;
      }
    }

    /** Takes the first node off the queue. */
    method TakeFirst(node: Node)
      requires Scheduled(sendqueue) && |sendqueue.nodes| > 0 && node == sendqueue.nodes[0]
      modifies sendqueue, sendqueue.nodes`next
      ensures Scheduled(sendqueue) && node !in sendqueue.nodes && node.retransmitCnt <= MAX_RETRANSMIT
      ensures old(Credit(sendqueue.nodes)) == Left(node) + Credit(sendqueue.nodes)
      ensures multiset(sendqueue.nodes) + multiset{node} == multiset(old(sendqueue.nodes))
      ensures sendqueue.nodes == old(sendqueue.nodes)[1..]
    {
      hide Credit, Linked, LinkedBut, Sorted, WithinLimit, Left;
      Popped(sendqueue.nodes);
      FirstIsAlone(sendqueue);
      var p := sendqueue.PopFirst();
    }

    /** Takes the first node off the queue and resends its packet or gives it up. */
    method SendFirst(node: Node) returns (again: bool)
      requires Valid() && |sendqueue.nodes| > 0 && node == sendqueue.nodes[0]
      modifies this`looks, this`resent, this`freed, this`expired, sendqueue, sendqueue.nodes`next
      modifies node`t, node`retransmitCnt
      ensures Valid() && Credit(sendqueue.nodes) < old(Credit(sendqueue.nodes)) && looks >= old(looks)
      ensures again <==> old(node.retransmitCnt) < MAX_RETRANSMIT && node.peer != Nowhere
      ensures again || node.retransmitCnt == MAX_RETRANSMIT || node.peer == Nowhere
      ensures node.retransmitCnt == old(node.retransmitCnt) + (if again then 1 else 0)
      ensures resent == old(resent) + (if again then [node] else [])
      ensures freed == old(freed) + (if again then [] else [node])
      ensures expired == old(expired) + (if again then [] else [node])
      ensures multiset(sendqueue.nodes) + (if again then multiset{} else multiset{node})
           == multiset(old(sendqueue.nodes))
    {
      hide Credit, Scheduled, Distinct, Balanced, Tallied;
      ghost var nodes0, freed0, expired0, resent0 := sendqueue.nodes, freed, expired, resent;
      ghost var counts := Counts(nodes0);
      NotExpired(entered, nodes0, freed0, expired0, node);
      TakeFirst(node);
      again := Retransmit(node);
      BalancedStep(entered, nodes0, freed0, sendqueue.nodes, node, again);
      StillQueued(nodes0, sendqueue.nodes, node, again);
      CountsAfter(counts, nodes0, sendqueue.nodes, node, again);
      TalliedStep(counts, Counts(sendqueue.nodes), expired0, resent0, node, again);
      assert freed == freed0 + (if again then [] else [node]) && expired == expired0 + (if again then [] else [node]);
      assert resent == resent0 + (if again then [node] else []);
    }

    /** What holds between two rounds of the check. */
    ghost predicate InProgress(before: seq<Node>, freed0: seq<Node>, expired0: seq<Node>, gone: seq<Node>)
      reads this, sendqueue, sendqueue.nodes, expired, gone
    {
      && Valid() && Divided(before, sendqueue.nodes, gone) && GivenUp(gone)
      && freed == freed0 + gone && expired == expired0 + gone
    }

    /** One round: the first node is sent again or given up. */
    method HandleFirst(first: Node, ghost before: seq<Node>, ghost freed0: seq<Node>, ghost expired0: seq<Node>,
                       ghost gone: seq<Node>) returns (ghost gone': seq<Node>)
      requires InProgress(before, freed0, expired0, gone)
      requires |sendqueue.nodes| > 0 && first == sendqueue.nodes[0]
      modifies this`looks, this`resent, this`freed, this`expired, sendqueue, sendqueue.nodes`next
      modifies first`t, first`retransmitCnt
      ensures InProgress(before, freed0, expired0, gone')
      ensures Credit(sendqueue.nodes) < old(Credit(sendqueue.nodes)) && looks >= old(looks)
      ensures var again := old(first.retransmitCnt) < MAX_RETRANSMIT && first.peer != Nowhere;
              && resent == old(resent) + (if again then [first] else [])
              && gone' == if again then gone else gone + [first]
    {
      hide Credit, Divided, Scheduled, Balanced, Tallied, Distinct;
      ghost var nodes := sendqueue.nodes;
      DividedElements(before, nodes, gone);
      var again := SendFirst(first);
      gone' := if again then gone else gone + [first];
      DividedStep(before, nodes, gone, sendqueue.nodes, first, again);
    }

    /** Resends what is due, everything or only the first packet, and returns the time of the
        next transmission, or 0 when nothing is left to send. A node is resent at most seven
        times and then freed; none is lost or doubled, and none that is not due is touched. */
    method CheckRetransmit(all: bool) returns (next: nat, ghost gone: seq<Node>)
      requires Valid()
      modifies this`looks, this`resent, this`freed, this`expired
      modifies sendqueue, sendqueue.nodes`next, sendqueue.nodes`t, sendqueue.nodes`retransmitCnt
      ensures Valid() && looks > old(looks)
      ensures all ==> forall n :: n in sendqueue.nodes ==> n.t > clock(old(looks))
      ensures next == if |sendqueue.nodes| > 0 then sendqueue.nodes[0].t else 0
      ensures freed == old(freed) + gone && expired == old(expired) + gone
      ensures Divided(old(sendqueue.nodes), sendqueue.nodes, gone) && GivenUp(gone)
      ensures forall n :: n in old(sendqueue.nodes) && old(n.t) > clock(old(looks)) ==>
        n.t == old(n.t) && n.retransmitCnt == old(n.retransmitCnt)
      ensures !all && (|old(sendqueue.nodes)| == 0 || old(sendqueue.nodes[0].t) > clock(old(looks))) ==>
        resent == old(resent) && gone == []
      ensures !all && |old(sendqueue.nodes)| > 0 && old(sendqueue.nodes[0].t) <= clock(old(looks)) ==>
        var first := old(sendqueue.nodes)[0];
        var again := old(first.retransmitCnt) < MAX_RETRANSMIT && old(first.peer) != Nowhere;
        && resent == old(resent) + (if again then [first] else [])
        && gone == if again then [] else [first]
    {
      hide Credit, Divided, Scheduled, GivenUp, Tallied, Balanced, Distinct;
      var now := Ticks();
      gone := [];
      ghost var before: seq<Node>, freed0: seq<Node>, expired0: seq<Node> := sendqueue.nodes, freed, expired;
      DividedStart(before);
      HeadIsFirst(sendqueue);
      var node := sendqueue.head;
      while node != null && node.t <= now
        invariant InProgress(before, freed0, expired0, gone) && node == At(sendqueue.nodes, 0) && looks > old(looks)
        invariant forall n :: n in before && old(n.t) > now ==>
          n.t == old(n.t) && n.retransmitCnt == old(n.retransmitCnt)
        invariant !all ==> resent == old(resent) && gone == [] && sendqueue.nodes == before && unchanged(before)
        decreases Credit(sendqueue.nodes)
      {
        DividedElements(before, sendqueue.nodes, gone);
        assert sendqueue.nodes[0] in before;
        gone := HandleFirst(node, before, freed0, expired0, gone);
        HeadIsFirst(sendqueue);
        node := sendqueue.head;
        if !all {
          break;
        }
      }
      FirstIsEarliest(sendqueue);
      return if node != null then node.t else 0, gone;
    }

    /** No node is ever resent more than seven times. */
    lemma AtMostSeven(n: Node)
      requires Valid()
      ensures multiset(resent)[n] <= MAX_RETRANSMIT
    {
      if n !in resent {
        assert multiset(resent)[n] == 0;
      }
    }
  }

  // ---- whole runs ----

  datatype Operation = Send(id: nat, length: nat, ticksPerSecond: nat) | Check(all: bool) | Stop(id: nat)

  /** The places of the first n operations at which a packet is sent. */
  function Sends(ops: seq<Operation>, n: nat): (ps: seq<nat>)
    requires n <= |ops|
    ensures forall j :: 0 <= j < |ps| ==> ps[j] < n && ops[ps[j]].Send?
  {
    if n == 0 then [] else Sends(ops, n - 1) + (if ops[n - 1].Send? then [n - 1] else [])
  }

  /** The session is stopped by one of the operations from first on, before n. */
  predicate Stopped(ops: seq<Operation>, first: nat, n: nat, id: nat)
    requires n <= |ops|
  {
    exists i :: first <= i < n && ops[i] == Stop(id)
  }

  ghost predicate AllLater(nodes: seq<Node>, time: nat)
    reads nodes`t
  {
    forall n :: n in nodes ==> n.t > time
  }

  /** What an operation changes. */
  ghost predicate Effect(op: Operation, entered: seq<Node>, freed: seq<Node>, expired: seq<Node>, nodes: seq<Node>,
                         entered': seq<Node>, freed': seq<Node>, expired': seq<Node>, nodes': seq<Node>)
    reads (set n | n in entered' + freed' + nodes')`peer
  {
    match op
    case Send(id, _, _) =>
      && |entered'| == |entered| + 1 && entered'[..|entered|] == entered && entered'[|entered|].peer == Session(id)
      && freed' == freed && expired' == expired
      && forall n :: n in nodes' ==> n in nodes || n == entered'[|entered|]
    case Check(_) =>
      && entered' == entered && (forall n :: n in expired ==> n in expired')
      && (forall n :: n in freed' ==> n in freed || n in expired') && forall n :: n in nodes' ==> n in nodes
    case Stop(id) =>
      && entered' == entered && expired' == expired
      && (forall n :: n in freed' ==> n in freed || n.peer == Session(id))
      && forall n :: n in nodes' ==> n in nodes && n.peer != Session(id)
  }

  /** What a run has done after i operations: one packet for every one that was sent, in that
      order; a freed one was given up or its session stopped; none is left of a session that
      was stopped after it was sent. */
  ghost predicate History(ops: seq<Operation>, i: nat, entered: seq<Node>, freed: seq<Node>, expired: seq<Node>,
                          nodes: seq<Node>)
    requires i <= |ops|
    reads (set n | n in entered + freed)`peer
  {
    var sends := Sends(ops, i);
    && |entered| == |sends|
    && (forall j :: 0 <= j < |entered| ==> entered[j].peer == Session(ops[sends[j]].id))
    && (forall n :: n in freed ==> n in expired || (n.peer.Session? && Stopped(ops, 0, i, n.peer.id)))
    && (forall j :: 0 <= j < |entered| && entered[j] in nodes ==> !Stopped(ops, sends[j] + 1, i, ops[sends[j]].id))
  }

  lemma HistoryStep(ops: seq<Operation>, i: nat, entered: seq<Node>, freed: seq<Node>, expired: seq<Node>,
                    nodes: seq<Node>, entered': seq<Node>, freed': seq<Node>, expired': seq<Node>, nodes': seq<Node>)
    requires i < |ops| && History(ops, i, entered, freed, expired, nodes) && Distinct(entered')
    requires Effect(ops[i], entered, freed, expired, nodes, entered', freed', expired', nodes')
    ensures History(ops, i + 1, entered', freed', expired', nodes')
  {
    hide Sends;
    SendsStep(ops, i);
    var sends := Sends(ops, i + 1);
    forall n | n in freed'
      ensures n in expired' || (n.peer.Session? && Stopped(ops, 0, i + 1, n.peer.id))
    {
      if n in freed && n !in expired {
        StoppedStill(ops, 0, i, n.peer.id);
      }
    }
    forall j | 0 <= j < |entered'| && entered'[j] in nodes'
      ensures !Stopped(ops, sends[j] + 1, i + 1, ops[sends[j]].id)
    {
      if j < |entered| {
        assert entered'[j] == entered[j];
      }
    }
  }

  lemma SendsStep(ops: seq<Operation>, i: nat)
    requires i < |ops|
    ensures Sends(ops, i + 1) == Sends(ops, i) + (if ops[i].Send? then [i] else [])
  {
  }

  lemma StoppedStill(ops: seq<Operation>, first: nat, n: nat, id: nat)
    requires n < |ops| && Stopped(ops, first, n, id)
    ensures Stopped(ops, first, n + 1, id)
  {
  }

  method Perform(tr: Transmitter, op: Operation)
    requires tr.Valid() && forall n :: n in tr.entered ==> n.peer.Session?
    modifies tr, tr.sendqueue, tr.sendqueue.nodes`next, tr.sendqueue.nodes`t, tr.sendqueue.nodes`retransmitCnt
    ensures tr.Valid() && forall n :: n in tr.entered ==> n.peer.Session?
    ensures forall n :: n in tr.entered ==> n in old(tr.entered) || fresh(n)
    ensures Effect(op, old(tr.entered), old(tr.freed), old(tr.expired), old(tr.sendqueue.nodes),
                   tr.entered, tr.freed, tr.expired, tr.sendqueue.nodes)
    ensures op == Check(true) ==> old(tr.looks) < tr.looks && AllLater(tr.sendqueue.nodes, tr.clock(old(tr.looks)))
  {
    hide Scheduled, Distinct, Balanced, Tallied, Divided, GivenUp, IsPlace, Others;
    QueuedEntered(tr);
    ghost var nodes := tr.sendqueue.nodes;
    match op
    case Send(id, length, ticksPerSecond) =>
      var _, k := tr.Enqueue(Session(id), length, ticksPerSecond);
    case Check(all) =>
      var _, gone := tr.CheckRetransmit(all);
      DividedElements(nodes, tr.sendqueue.nodes, gone);
    case Stop(id) =>
      tr.StopRetransmission(id);
      NoneOfSession(nodes, id, |nodes|);
  }

  /** Over every run: packets are sent as the operations say; each is in the queue still or has
      been freed, once; a freed one was resent exactly seven times or its session was stopped,
      and none stays in the queue whose session was stopped later; the counter of a queued one
      is the number of times it has been resent, at most seven; after a check of all, those
      left are due later. */
  method Run(clock: nat -> nat, ops: seq<Operation>) returns (tr: Transmitter)
    ensures tr.clock == clock && Scheduled(tr.sendqueue) && Distinct(tr.entered)
    ensures multiset(tr.sendqueue.nodes) + multiset(tr.freed) == multiset(tr.entered)
    ensures History(ops, |ops|, tr.entered, tr.freed, tr.expired, tr.sendqueue.nodes)
    ensures forall n :: n in tr.sendqueue.nodes ==> multiset(tr.resent)[n] == n.retransmitCnt
    ensures forall n :: n in tr.expired ==> n in tr.freed && multiset(tr.resent)[n] == MAX_RETRANSMIT
    ensures forall n :: n in tr.entered ==> multiset(tr.resent)[n] <= MAX_RETRANSMIT
    ensures forall n :: n in tr.resent ==> n in tr.entered
    ensures |ops| > 0 && ops[|ops| - 1] == Check(true) ==>
      exists look :: 0 <= look < tr.looks && AllLater(tr.sendqueue.nodes, clock(look))
  {
    tr := new Transmitter(clock);
    hide History, Effect;
    NoHistory(ops);
    for i := 0 to |ops|
      invariant fresh(tr) && fresh(tr.sendqueue) && tr.Valid() && tr.clock == clock
      invariant forall n :: n in tr.entered ==> fresh(n) && n.peer.Session?
      invariant forall k :: 0 <= k < |tr.sendqueue.nodes| ==> fresh(tr.sendqueue.nodes[k])
      invariant History(ops, i, tr.entered, tr.freed, tr.expired, tr.sendqueue.nodes)
      invariant i > 0 && ops[i - 1] == Check(true) ==>
        exists look :: 0 <= look < tr.looks && AllLater(tr.sendqueue.nodes, clock(look))
    {
      ghost var entered, freed, expired, nodes := tr.entered, tr.freed, tr.expired, tr.sendqueue.nodes;
      ghost var look := tr.looks;
      QueuedEntered(tr);
      Perform(tr, ops[i]);
      QueuedEntered(tr);
      HistoryStep(ops, i, entered, freed, expired, nodes, tr.entered, tr.freed, tr.expired, tr.sendqueue.nodes);
      assert ops[i] == Check(true) ==> AllLater(tr.sendqueue.nodes, clock(look));
      assert forall k :: 0 <= k < |tr.sendqueue.nodes| ==> tr.sendqueue.nodes[k] in tr.entered;
    }
    QueuedEntered(tr);
    forall n | n in tr.entered
      ensures multiset(tr.resent)[n] <= MAX_RETRANSMIT
    {
      tr.AtMostSeven(n);
    }
  }

  lemma NoHistory(ops: seq<Operation>)
    ensures History(ops, 0, [], [], [], [])
  {
  }

  lemma {:induction false} NoneOfSession(nodes: seq<Node>, id: nat, k: nat)
    requires k <= |nodes|
    ensures forall n :: n in Others(nodes, id, k) ==> n in nodes && n.peer != Session(id)
  {
    if k > 0 {
      NoneOfSession(nodes, id, k - 1);
    }
  }

  lemma QueuedEntered(tr: Transmitter)
    requires tr.Valid()
    ensures forall n :: n in tr.sendqueue.nodes || n in tr.freed ==> n in tr.entered
  {
    forall n | n in tr.sendqueue.nodes || n in tr.freed
      ensures n in tr.entered
    {
      assert n in multiset(tr.sendqueue.nodes) + multiset(tr.freed);
    }
  }

  // ---- what the steps keep ----

  lemma {:induction false} DistinctOnce(nodes: seq<Node>, n: Node)
    requires Distinct(nodes)
    ensures multiset(nodes)[n] <= 1
  {
    if |nodes| > 0 {
      var last := |nodes| - 1;
      assert nodes == nodes[..last] + [nodes[last]];
      DistinctOnce(nodes[..last], n);
    }
  }

  lemma EnteredStep(entered: seq<Node>, nodes: seq<Node>, freed: seq<Node>, nodes': seq<Node>, n: Node)
    requires Distinct(entered) && Balanced(entered, nodes, freed) && n !in entered
    requires multiset(nodes') == multiset(nodes) + multiset{n}
    ensures Distinct(entered + [n]) && Balanced(entered + [n], nodes', freed)
  {
  }

  lemma TalliedNew(counts: map<Node, nat>, expired: seq<Node>, resent: seq<Node>, n: Node)
    requires Tallied(counts, expired, resent) && n !in resent
    ensures Tallied(counts[n := 0], expired, resent)
  {
  }

  lemma CountsWithNew(counts: map<Node, nat>, was: seq<Node>, nodes: seq<Node>, n: Node)
    requires counts == Counts(was) && n.retransmitCnt == 0 && n !in was
    requires forall x :: x in nodes <==> x in was || x == n
    ensures Counts(nodes) == counts[n := 0]
  {
  }

  lemma FewerCounts(counts: map<Node, nat>, was: seq<Node>, nodes: seq<Node>, k: nat)
    requires counts == Counts(was) && k < |was| && nodes == was[..k] + was[k + 1..]
    ensures forall n :: n in Counts(nodes) ==> n in counts && Counts(nodes)[n] == counts[n]
  {
    forall n | n in nodes
      ensures n in was
    {
      assert n in was[..k] || n in was[k + 1..];
    }
  }

  lemma TalliedFewer(counts: map<Node, nat>, counts': map<Node, nat>, expired: seq<Node>, resent: seq<Node>)
    requires Tallied(counts, expired, resent)
    requires forall n :: n in counts' ==> n in counts && counts'[n] == counts[n]
    ensures Tallied(counts', expired, resent)
  {
  }

  /** The counters once a node has been sent again or given up. */
  lemma CountsAfter(counts: map<Node, nat>, nodes: seq<Node>, nodes': seq<Node>, node: Node, again: bool)
    requires forall n :: n in counts <==> n in nodes
    requires forall n :: n in nodes && n != node ==> counts[n] == n.retransmitCnt
    requires node in nodes && (again ==> node.retransmitCnt == counts[node] + 1) && (!again ==> node !in nodes')
    requires forall n :: n in nodes' ==> n in nodes
    requires forall n :: n in nodes && n != node ==> n in nodes'
    requires again ==> node in nodes'
    ensures Counts(nodes') == if again then counts[node := counts[node] + 1] else counts - {node}
  {
  }

  /** A queued node has not been freed, let alone given up. */
  lemma NotExpired(entered: seq<Node>, nodes: seq<Node>, freed: seq<Node>, expired: seq<Node>, node: Node)
    requires Distinct(entered) && Balanced(entered, nodes, freed) && node in nodes
    requires forall n :: n in expired ==> n in freed
    ensures node !in expired && node in entered
  {
    DistinctOnce(entered, node);
    assert (multiset(nodes) + multiset(freed))[node] == multiset(nodes)[node] + multiset(freed)[node];
  }

  lemma StillQueued(nodes: seq<Node>, nodes': seq<Node>, node: Node, again: bool)
    requires multiset(nodes') + (if again then multiset{} else multiset{node}) == multiset(nodes)
    ensures forall n :: n in nodes' ==> n in nodes
    ensures forall n :: n in nodes && n != node ==> n in nodes'
    ensures again && node in nodes ==> node in nodes'
  {
    forall n | n in nodes'
      ensures n in nodes
    {
      assert multiset(nodes)[n] >= multiset(nodes')[n] > 0;
    }
    if again && node in nodes {
      assert node in multiset(nodes);
    }
    forall n | n in nodes && n != node
      ensures n in nodes'
    {
      assert n in multiset(nodes);
    }
  }

  lemma BalancedStep(entered: seq<Node>, nodes: seq<Node>, freed: seq<Node>, nodes': seq<Node>, node: Node, again: bool)
    requires Balanced(entered, nodes, freed)
    requires multiset(nodes') + (if again then multiset{} else multiset{node}) == multiset(nodes)
    ensures Balanced(entered, nodes', freed + (if again then [] else [node]))
  {
    var more := if again then [] else [node];
    assert multiset(freed + more) == multiset(freed) + (if again then multiset{} else multiset{node});
  }

  /** Resending raises the counter and the tally of the node alike; a node is given up with
      its counter at the limit. */
  lemma TalliedStep(counts: map<Node, nat>, counts': map<Node, nat>, expired: seq<Node>, resent: seq<Node>, node: Node,
                    again: bool)
    requires Tallied(counts, expired, resent) && node in counts && node !in expired
    requires again ==> counts[node] < MAX_RETRANSMIT && counts' == counts[node := counts[node] + 1]
    requires !again ==> (counts[node] == MAX_RETRANSMIT || node.peer == Nowhere) && counts' == counts - {node}
    ensures Tallied(counts', expired + (if again then [] else [node]), resent + (if again then [node] else []))
  {
    var more := if again then [node] else [];
    assert multiset(resent + more) == multiset(resent) + (if again then multiset{node} else multiset{});
  }

  lemma DividedStart(before: seq<Node>)
    ensures Divided(before, before, []) && GivenUp([])
  {
  }

  lemma FirstIsAlone(q: Queue)
    requires Scheduled(q) && |q.nodes| > 0
    ensures q.nodes[0] !in q.nodes[1..] && q.nodes[0].retransmitCnt <= MAX_RETRANSMIT
  {
  }

  lemma Popped(was: seq<Node>)
    requires |was| > 0 && Sorted(was) && WithinLimit(was)
    ensures Sorted(was[1..]) && WithinLimit(was[1..])
    ensures multiset(was) == multiset(was[1..]) + multiset{was[0]}
    ensures Credit(was) == Left(was[0]) + Credit(was[1..])
  {
    hide Credit, Left;
    CreditPop(was);
    PopElements(was);
    PopWithin(was);
    RemoveSorted(was, 0);
    assert was[..0] + was[1..] == was[1..];
  }

  lemma DividedElements(before: seq<Node>, nodes: seq<Node>, gone: seq<Node>)
    requires Divided(before, nodes, gone)
    ensures forall i :: 0 <= i < |nodes| ==> nodes[i] in before
  {
    forall i | 0 <= i < |nodes|
      ensures nodes[i] in before
    {
      assert nodes[i] in multiset(nodes) + multiset(gone);
    }
  }

  lemma DividedStep(before: seq<Node>, nodes: seq<Node>, gone: seq<Node>, nodes': seq<Node>, first: Node, again: bool)
    requires Divided(before, nodes, gone)
    requires multiset(nodes') + (if again then multiset{} else multiset{first}) == multiset(nodes)
    ensures Divided(before, nodes', if again then gone else gone + [first])
  {
    var gone' := if again then gone else gone + [first];
    assert multiset(gone') == multiset(gone) + (if again then multiset{} else multiset{first});
  }

  lemma HeadIsFirst(q: Queue)
    requires Scheduled(q)
    ensures q.head == At(q.nodes, 0)
  {
  }

  lemma FirstIsEarliest(q: Queue)
    requires Scheduled(q)
    ensures forall n :: n in q.nodes ==> q.nodes[0].t <= n.t
  {
  }

  lemma PopElements(was: seq<Node>)
    requires |was| > 0
    ensures multiset(was) == multiset(was[1..]) + multiset{was[0]}
  {
    assert was == [was[0]] + was[1..];
  }

  lemma NoneStopped(all: seq<Node>, id: nat)
    ensures Others(all, id, 0) + all[0..] == all
  {
  }

  /** The next node stays or goes. */
  lemma StopStep(all: seq<Node>, id: nat, i: nat)
    requires i < |all|
    ensures var kept, queue := Others(all, id, i), Others(all, id, i) + all[i..];
            && queue == kept + [all[i]] + all[i + 1..]
            && (forall j :: 0 <= j < |queue| ==> queue[j] in all)
            && Others(all, id, i + 1) == (if all[i].peer == Session(id) then kept else kept + [all[i]])
  {
    OthersIn(all, id, i);
  }

  lemma {:induction false} OthersIn(nodes: seq<Node>, id: nat, k: nat)
    requires k <= |nodes|
    ensures forall j :: 0 <= j < |Others(nodes, id, k)| ==> Others(nodes, id, k)[j] in nodes
  {
    if k > 0 {
      OthersIn(nodes, id, k - 1);
    }
  }

  lemma NextOf(q: Queue, k: nat)
    requires Scheduled(q) && k < |q.nodes|
    ensures q.nodes[k].next == At(q.nodes, k + 1)
  {
  }

  lemma RemoveElements(was: seq<Node>, k: nat)
    requires k < |was|
    ensures multiset(was[..k] + was[k + 1..]) + multiset{was[k]} == multiset(was)
  {
    assert was == was[..k] + [was[k]] + was[k + 1..];
  }

  lemma RemoveWithin(was: seq<Node>, k: nat)
    requires k < |was| && WithinLimit(was)
    ensures WithinLimit(was[..k] + was[k + 1..])
  {
  }

  lemma PopWithin(was: seq<Node>)
    requires |was| > 0 && WithinLimit(was)
    ensures WithinLimit(was[1..])
  {
  }
}
