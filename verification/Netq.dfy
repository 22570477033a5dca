/** The packet queue: a singly linked list ordered by the time of the next transmission. */
module Netq {
  datatype Destination = Nowhere | Session(id: nat)

  class Node {
    var next: Node?
    var t: nat
    var timeout: nat
    var peer: Destination
    var retransmitCnt: nat
    var length: nat

    /** A new node is cleared. */
    constructor ()
      ensures next == null && t == 0 && timeout == 0 && peer == Nowhere && retransmitCnt == 0 && length == 0
    {
      next := null;
      t, timeout, peer, retransmitCnt, length := 0, 0, Nowhere, 0, 0;
    }
  }

  /** The node at position i, or none behind the last. */
  ghost function At(nodes: seq<Node>, i: int): Node? {
    if 0 <= i < |nodes| then nodes[i] else null
  }

  ghost predicate Distinct(nodes: seq<Node>) {
    forall i, j :: 0 <= i < j < |nodes| ==> nodes[i] != nodes[j]
  }

  /** Every node but the one at skip links to the next one. */
  ghost predicate LinkedBut(nodes: seq<Node>, skip: int)
    reads nodes`next
  {
    forall i {:trigger nodes[i].next} :: 0 <= i < |nodes| && i != skip ==> nodes[i].next == At(nodes, i + 1)
  }

  /** The nodes in the order of the links that connect them. */
  ghost predicate Linked(head: Node?, nodes: seq<Node>)
    reads nodes`next
  {
    Distinct(nodes) && head == At(nodes, 0) && LinkedBut(nodes, -1)
  }

  lemma InsertLinked(was: seq<Node>, node: Node, k: nat)
    requires k <= |was| && Distinct(was) && node !in was && LinkedBut(was, k - 1)
    requires k > 0 ==> was[k - 1].next == node
    requires node.next == At(was, k)
    ensures Linked(if k == 0 then node else was[0], was[..k] + [node] + was[k..])
  {
    var now := was[..k] + [node] + was[k..];
    forall i {:trigger now[i].next} | 0 <= i < |now|
      ensures now[i].next == At(now, i + 1)
    {
      if i < k - 1 {
        assert now[i] == was[i] && was[i].next == At(was, i + 1);
      } else if i > k {
        assert now[i] == was[i - 1] && was[i - 1].next == At(was, i);
      }
    }
    forall i, j | 0 <= i < j < |now|
      ensures now[i] != now[j]
    {
      assert now[i] == if i < k then was[i] else if i == k then node else was[i - 1];
      assert now[j] == if j < k then was[j] else if j == k then node else was[j - 1];
    }
  }

  lemma RemoveLinked(was: seq<Node>, k: nat)
    requires k < |was| && Distinct(was)
    requires forall i {:trigger was[i].next} :: 0 <= i < |was| && i != k && i != k - 1 ==> was[i].next == At(was, i + 1)
    requires k > 0 ==> was[k - 1].next == At(was, k + 1)
    ensures Linked(if k == 0 then At(was, 1) else was[0], was[..k] + was[k + 1..])
  {
    var now := was[..k] + was[k + 1..];
    forall i {:trigger now[i].next} | 0 <= i < |now|
      ensures now[i].next == At(now, i + 1)
    {
      if i < k {
        assert now[i] == was[i];
        assert i < k - 1 ==> was[i].next == At(was, i + 1);
      } else {
        assert now[i] == was[i + 1] && was[i + 1].next == At(was, i + 2);
      }
    }
    forall i, j | 0 <= i < j < |now|
      ensures now[i] != now[j]
    {
      assert now[i] == if i < k then was[i] else was[i + 1];
      assert now[j] == if j < k then was[j] else was[j + 1];
    }
  }

  ghost predicate Sorted(nodes: seq<Node>)
    reads nodes`t
  {
    forall i, j :: 0 <= i < j < |nodes| ==> nodes[i].t <= nodes[j].t
  }

  /** The first position whose node is due later than t. */
  ghost predicate IsPlace(nodes: seq<Node>, t: nat, k: nat)
    reads nodes`t
  {
    k <= |nodes| && (forall i :: 0 <= i < k ==> nodes[i].t <= t) && (k < |nodes| ==> nodes[k].t > t)
  }

  /** Insertion keeps the queue sorted; nodes due at the same time stay in the order in
      which they were inserted. */
  lemma InsertSorted(was: seq<Node>, node: Node, k: nat)
    requires Sorted(was) && IsPlace(was, node.t, k)
    ensures Sorted(was[..k] + [node] + was[k..])
    ensures forall i :: 0 <= i < |was| ==> (was[i].t <= node.t <==> i < k)
  {
  }

  lemma RemoveSorted(was: seq<Node>, k: nat)
    requires Sorted(was) && k < |was|
    ensures Sorted(was[..k] + was[k + 1..])
  {
  }

  class Queue {
    var head: Node?
    ghost var nodes: seq<Node>

    ghost predicate Valid()
      reads this, nodes`next
    {
      Linked(head, nodes)
    }

    constructor ()
      ensures Valid() && nodes == []
    {
      head := null;
      nodes := [];
    }

    /** Finds the place for a node that is due at t, and the node before it. */
    method FindPlace(t: nat) returns (p: Node?, op: Node?, ghost k: nat)
      requires Valid()
      ensures IsPlace(nodes, t, k) && p == At(nodes, k) && op == At(nodes, k - 1)
    {
      p, op, k := head, null, 0;
      while p != null && p.t <= t
        invariant k <= |nodes| && p == At(nodes, k) && op == At(nodes, k - 1)
        invariant forall i :: 0 <= i < k ==> nodes[i].t <= t
        decreases |nodes| - k
      {
        assert nodes[k].next == At(nodes, k + 1);
        op := p;
        p := p.next;
        k := k + 1;
      }
    }

    /** Inserts the node behind all nodes that are due no later than it. */
    method Insert(node: Node) returns (ghost k: nat)
      requires Valid() && node !in nodes
      modifies this, node`next, nodes`next
      ensures Valid() && IsPlace(old(nodes), node.t, k)
      ensures nodes == old(nodes[..k]) + [node] + old(nodes[k..])
    {
      var p, op;
      ghost var was := nodes;
      p, op, k := FindPlace(node.t);
      node.next := p;
      if op != null {
        op.next := node;
      } else {
        head := node;
      }
      nodes := was[..k] + [node] + was[k..];
      InsertLinked(was, node, k);
    }

    /** Unlinks the node, if it is in the queue. */
    method Remove(item: Node)
      requires Valid()
      modifies this, nodes`next
      ensures Valid()
      ensures item !in old(nodes) ==> nodes == old(nodes)
      ensures item in old(nodes) ==> item.next == null && item !in nodes
      ensures forall i :: 0 <= i < |old(nodes)| && old(nodes)[i] == item ==>
        nodes == old(nodes[..i]) + old(nodes[i + 1..])
    {
      var curr, prev: Node? := head, null;
      ghost var k, was := 0, nodes;
      while curr != null
        invariant k <= |nodes| && curr == At(nodes, k) && prev == At(nodes, k - 1)
        invariant Valid() && nodes == was
        invariant forall i :: 0 <= i < k ==> nodes[i] != item
        decreases |nodes| - k
      {
        assert nodes[k].next == At(nodes, k + 1);
        if curr == item {
          Unlink(curr, prev, k);
          return;
        }
        prev := curr;
        curr := curr.next;
        k := k + 1;
      }
    }

    /** Unlinks the node at position k, which prev links to. */
    method Unlink(curr: Node, prev: Node?, ghost k: nat)
      requires Valid() && k < |nodes| && curr == nodes[k] && prev == At(nodes, k - 1)
      modifies this, nodes`next
      ensures Valid() && nodes == old(nodes[..k]) + old(nodes[k + 1..]) && curr !in nodes && curr.next == null
    {
      ghost var was := nodes;
      assert nodes[k].next == At(nodes, k + 1);
      if prev == null {
        head := curr.next;
      } else {
        prev.next := curr.next;
      }
      curr.next := null;
      nodes := was[..k] + was[k + 1..];
      RemoveLinked(was, k);
    }

    /** Takes the first node off. */
    method PopFirst() returns (p: Node?)
      requires Valid()
      modifies this, nodes`next
      ensures Valid()
      ensures |old(nodes)| == 0 ==> p == null && nodes == []
      ensures |old(nodes)| > 0 ==> p == old(nodes)[0] && nodes == old(nodes)[1..] && p.next == null
    {
      p := head;
      if p != null {
        ghost var was := nodes;
        assert nodes[0].next == At(nodes, 1);
        head := p.next;
        p.next := null;
        nodes := was[1..];
        RemoveLinked(was, 0);
        assert was[..0] + was[1..] == was[1..];
      }
    }

    /** Empties the queue and unlinks every node. */
    method DeleteAll()
      requires Valid()
      modifies this, nodes`next
      ensures Valid() && nodes == [] && forall i :: 0 <= i < |old(nodes)| ==> old(nodes)[i].next == null
    {
      ghost var all, k := nodes, 0;
      var p := head;
      while p != null
        invariant k <= |all| && p == At(all, k) && nodes == all
        invariant forall i :: 0 <= i < k ==> all[i].next == null
        invariant forall i {:trigger all[i].next} :: k <= i < |all| ==> all[i].next == At(all, i + 1)
        decreases |all| - k
      {
        var tmp := p.next;
        p.next := null;
        p := tmp;
        k := k + 1;
      }
      head := null;
      nodes := [];
    }
  }
}
