/** The mutable state of the signer: the auth path of the next leaf, the kept right
    children, the retained node and the treehash instances. */
module Signer {
  import opened Numbers
  import opened MerkleTree
  import opened Scheduler
  import opened Traversal

  class TreeState {
    const s: Scheme
    const auth: array<Node>
    const keep: array<Node>
    const instance: array<TreeHash>
    var retain: Node
    var mssPk: Node
    ghost var done: seq<nat>

    ghost predicate Shape()
    {
      && s.height >= 4 && s.height % 2 == 0 && s.height < INFY
      && auth.Length == s.height && keep.Length == s.height - 1 && auth != keep
      && instance.Length == s.height - 2
    }

    /** The instances after n prepared signatures, with slots leaves of the last one paid. */
    ghost predicate Instances(n: nat, slots: nat)
      reads this, instance
      requires Shape()
    {
      InstancesOk(s, instance[..], n, done) && Progress(done, s.height) && Budgeted(done, s.height, n, slots)
    }

    /** Signing is about to use leaf id. */
    ghost predicate Ready(id: nat)
      reads this, auth, keep, instance
    {
      && Shape()
      && IsAuthPath(s, id, auth[..]) && KeepOk(s, keep[..], id)
      && retain == TreeNode(s, s.height - 2, 3)
      && mssPk == Root(s)
      && Instances(id, UpdateIter(s.height))
    }

    constructor (s: Scheme)
      requires s.height >= 4 && s.height % 2 == 0 && s.height < INFY
      ensures Shape() && this.s == s
      ensures fresh(auth) && fresh(keep) && fresh(instance)
      ensures StackSizes()
    {
      this.s := s;
      auth := new Node[s.height](_ => Node([]));
      keep := new Node[s.height - 1](_ => Node([]));
      var empty := TreeHash(Node([]), seq(s.height - 1, _ => MssNode(Node([]), 0, 0)), 0, 0, 0, 0);
      instance := new TreeHash[s.height - 2](_ => empty);
      retain, mssPk := Node([]), Node([]);
    }

    // ---- key generation ----

    ghost predicate StackSizes()
      reads instance
    {
      forall i :: 0 <= i < instance.Length ==> |instance[i].treestack| == s.height - 1
    }

    /** What key generation has stored after the first count leaves. */
    ghost predicate Stored(count: nat, below: nat)
      reads this, auth, instance
      requires Shape()
    {
      StoredValues(s, auth[..], instance[..], retain, count, below)
    }

    /** Node indx of a height is stored in the place reserved for it when it is merged. */
    method Store(node: MssNode)
      requires Shape() && StackSizes() && node.height < s.height
      modifies this`retain, auth, instance
      ensures StackSizes()
      ensures auth[..] == if node.indx == 1 then old(auth[..])[node.height := node.key] else old(auth[..])
      ensures instance[..] == if node.indx == 3 && node.height < s.height - 2
                              then old(instance[..])[node.height :=
                                   FinishedInstance(old(instance[node.height]), node.key)]
                              else old(instance[..])
      ensures retain == if node.indx == 3 && node.height == s.height - 2 then node.key else old(retain)
    {
      if node.indx == 1 {
        auth[node.height] := node.key;
      }
      if node.indx == 3 {
        if node.height < s.height - 2 {
          instance[node.height] := instance[node.height].(v := node.key, finalized := 1, lowheight := INFY, top := -1);
        } else if node.height == s.height - 2 {
          retain := node.key;
        }
      }
    }

    method StoreMerged(node: MssNode, ghost count: nat)
      requires Shape() && StackSizes() && Stored(count, node.height)
      requires node.height < s.height && node.height <= Tau(count)
      requires node == NodeAt(s, node.height, Ancestor(count, node.height))
      modifies this`retain, auth, instance
      ensures StackSizes() && Stored(count, node.height + 1)
    {
      StoredByMerge(s, auth[..], instance[..], retain, node, count);
      Store(node);
    }

    /** Merges leaf id with the finished subtrees on the stack, which this only reads, and
        stores the nodes it merges. */
    method MergeUp(cells: seq<MssNode>, top0: int, id: nat) returns (top: int, node: MssNode, ghost st: Stack)
      requires Shape() && StackSizes() && id < Pow2(s.height)
      requires Holds(cells, top0, Canon(s, 0, id, 0)) && Stored(id, 0)
      modifies this`retain, auth, instance
      ensures StackSizes() && Stored(id, Tau(id))
      ensures Holds(cells, top, st) && Canon(s, 0, id + 1, 0) == Push(st, node)
    {
      ScaledIsAligned(0, s.height);
      top := top0;
      node := MssNode(s.leaf(id), 0, id);
      st := Canon(s, 0, id, 0);
      ghost var d := id;
      MergeStart(s, node, 0, id, s.height);
      hide Canon, TreeNode;
      while top != -1 && cells[top].height == node.height
        invariant Holds(cells, top, st)
        invariant Merging(s, st, node, 0, d, s.height)
        invariant Cut(s, 0, id, 0, d, node.height)
        invariant StackSizes() && Stored(id, node.height)
        decreases st
      {
        MergeAndCut(s, st, node, 0, d, s.height, 0, id);
        StoreMerged(node, id);
        node := MergedNode(s, cells[top], node);
        top := top - 1;
        st := st.below;
        d := d / 2;
      }
      MergeEnd(s, st, node, 0, d, s.height);
      CutEnd(s, 0, id, 0, d, node.height, s.height);
    }

    method AddLeaf(treestack: array<MssNode>, top0: int, id: nat) returns (top: int)
      requires Shape() && StackSizes() && id < Pow2(s.height) && treestack.Length == s.height + 1
      requires Holds(treestack[..], top0, Canon(s, 0, id, 0)) && Stored(id, 0)
      modifies this`retain, auth, instance, treestack
      ensures StackSizes() && Stored(id + 1, 0)
      ensures Holds(treestack[..], top, Canon(s, 0, id + 1, 0))
    {
      ghost var cells := treestack[..];
      CanonSize(s, 0, id, 0, s.height);
      HoldsFacts(cells, top0, Canon(s, 0, id, 0));
      var node; ghost var st;
      top, node, st := MergeUp(treestack[..], top0, id);
      StoredByLeaf(s, auth[..], instance[..], retain, id);
      RoomOnStack(cells, top, st, node, id);
      PushCell(cells, top, st, node);
      top := top + 1;
      treestack[top] := node;
      assert treestack[..] == cells[top := node];
    }

    /** hlength + 1 cells are enough for every leaf count up to 2^hlength. */
    lemma RoomOnStack(cells: seq<MssNode>, top: int, st: Stack, node: MssNode, id: nat)
      requires Holds(cells, top, st) && Canon(s, 0, id + 1, 0) == Push(st, node) && id < Pow2(s.height)
      ensures top + 1 <= s.height
    {
      HoldsFacts(cells, top, st);
      if id + 1 == Pow2(s.height) {
        CanonFull(s, 0, s.height);
      } else {
        CanonSize(s, 0, id + 1, 0, s.height);
      }
    }

    lemma NoLeaves(cells: seq<MssNode>)
      ensures Holds(cells, -1, Canon(s, 0, 0, 0))
    {
    }

    /** Builds the whole tree with a stack of at most height + 1 nodes; every instance is
        finalized with node 3 of its height. */
    method KeyGeneration()
      requires Shape() && StackSizes()
      modifies this, auth, instance
      ensures Ready(0)
      ensures forall g :: 0 <= g < instance.Length ==> Initial(s, instance[g], g)
    {
      hide StoredValues, Canon, TreeNode;
      NothingStored(s, auth[..], instance[..], retain);
      var treestack := new MssNode[s.height + 1](_ => MssNode(Node([]), 0, 0));
      var top := -1;
      var id := 0;
      NoLeaves(treestack[..]);
      while id < Pow2(s.height)
        invariant 0 <= id <= Pow2(s.height)
        invariant Holds(treestack[..], top, Canon(s, 0, id, 0))
        invariant StackSizes() && Stored(id, 0)
      {
        top := AddLeaf(treestack, top, id);
        id := id + 1;
      }
      CanonFull(s, 0, s.height);
      Publish(treestack[top].key);
    }

    method Publish(root: Node)
      requires Shape() && StackSizes() && Stored(Pow2(s.height), 0) && root == Root(s)
      modifies this`mssPk, this`done
      ensures Ready(0)
      ensures forall g :: 0 <= g < instance.Length ==> Initial(s, instance[g], g)
    {
      mssPk := root;
      AllInitial(s, auth[..], instance[..], retain);
      done := seq(s.height - 2, i requires i >= 0 => Pow2(i));
      StoredIsReady(s, auth[..], keep[..], instance[..], retain, done);
    }

    // ---- the update after a signature ----

    /** Saves the right child that a later path hashes. */
    method SaveRightChild(id: nat, tau: nat)
      requires Shape() && IsAuthPath(s, id, auth[..]) && KeepOk(s, keep[..], id) && tau == Tau(id)
      modifies keep
      ensures KeepOk(s, keep[..], id + 1)
      ensures forall g :: 0 <= g < keep.Length && g != tau ==> keep[g] == old(keep[g])
    {
      ghost var keep0 := keep[..];
      if Ancestor(id, tau + 1) % 2 == 0 && tau < s.height - 1 {
        keep[tau] := auth[tau];
      }
      KeepNext(s, auth[..], keep0, keep[..], id);
    }

    /** The left child made by signature id: the leaf itself, or the hash of the old sibling
        and the kept node, which is not the one just saved. */
    method LeftChild(id: nat, leaf: Node, tau: nat, ghost keep0: seq<Node>)
      requires Shape() && IsAuthPath(s, id, auth[..]) && KeepOk(s, keep0, id) && |keep0| == s.height - 1
      requires leaf == s.leaf(id) && tau == Tau(id) && tau < s.height
      requires tau > 0 ==> keep[tau - 1] == keep0[tau - 1]
      modifies auth
      ensures auth[tau] == SiblingNode(s, id + 1, tau)
      ensures forall g :: tau < g < s.height ==> auth[g] == old(auth[g])
    {
      NextAncestor(id, 0);
      if id % 2 == 0 {
        auth[0] := leaf;
      }
      if tau > 0 {
        NewLeftNode(s, auth[..], keep0, id);
        auth[tau] := s.hash(tau + LLENGTH, Ancestor(id, tau), auth[tau - 1], keep[tau - 1]);
      }
    }

    /** Moves the path of leaf id on to the path of leaf id + 1. */
    method MovePath(id: nat, leaf: Node, tau: nat)
      requires Ready(id) && id + 1 < Leaves(s) && leaf == s.leaf(id) && tau == Tau(id)
      modifies auth, keep
      ensures IsAuthPath(s, id + 1, auth[..]) && KeepOk(s, keep[..], id + 1)
    {
      ghost var auth0, keep0 := auth[..], keep[..];
      TauInRange(s.height, id);
      SaveRightChild(id, tau);
      LeftChild(id, leaf, tau, keep0);
      CopySiblings(id, tau);
      PathNext(s, auth0, auth[..], id);
    }

    /** Below height tau the new siblings are right children, ready in the instances. */
    method CopySiblings(id: nat, tau: nat)
      requires Shape() && id + 1 < Leaves(s) && tau == Tau(id) && tau < s.height
      requires Instances(id, UpdateIter(s.height)) && retain == TreeNode(s, s.height - 2, 3)
      modifies auth
      ensures forall g :: 0 <= g < tau ==> auth[g] == SiblingNode(s, id + 1, g)
      ensures forall g :: tau <= g < s.height ==> auth[g] == old(auth[g])
    {
      hide TreeNode;
      ghost var ts := instance[..];
      for i := 0 to tau
        invariant forall g :: 0 <= g < i ==> auth[g] == SiblingNode(s, id + 1, g)
        invariant forall g :: tau <= g < s.height ==> auth[g] == old(auth[g])
      {
        NewSibling(s, ts, retain, done, id, i);
        if i < s.height - 2 {
          auth[i] := instance[i].v;
        } else if i == s.height - 2 {
          auth[i] := retain;
        }
      }
    }

    /** Starts the instances whose node has just been used on their next node, as long as
        there are leaves for it. */
    method Restart(id: nat, tau: nat)
      requires Shape() && Instances(id, UpdateIter(s.height)) && tau == Tau(id) && id + 1 < Leaves(s)
      modifies this`done, instance
      ensures Instances(id + 1, 0)
    {
      ghost var ts, done0 := instance[..], done;
      TauInRange(s.height, id);
      for i := 0 to tau
        invariant RestartedTo(s, ts, instance[..], id, Least(i, s.height - 2))
      {
        TargetSteps(id, i);
        var first := id + 1 + 3 * Pow2(i);
        if first < Leaves(s) {
          LastIsNotRestarted(s, id, i);
          StartInstance(i, first);
        }
      }
      RestartAll(s, ts, instance[..], done0, id);
      done := DoneAfterRestart(s, done0, id, Least(tau, s.height - 2));
    }

    method StartInstance(i: nat, first: nat)
      requires Shape() && i < instance.Length
      modifies instance
      ensures instance[..] == old(instance[..])[i := RestartInstance(old(instance[i]), first)]
    {
      instance[i] := instance[i].(finalized := 0, startleaf := first);
      if instance[i].top == -1 {
        instance[i] := instance[i].(lowheight := 0);
      }
    }

    /** The running instance with the least (lowheight, index), if any instance runs. */
    method Select(ghost n: nat, ghost slots: nat) returns (minh: nat, minindx: nat)
      requires Shape() && Instances(n, slots)
      ensures minh < INFY ==> First(done, minindx)
      ensures minh >= INFY ==> forall j :: 0 <= j < |done| ==> !Running(done, j)
    {
      hide Canon, TreeNode, Budgeted, InstanceOk, Log2;
      minh, minindx := INFY, 0;
      for j := 0 to s.height - 2
        invariant minh <= INFY
        invariant minh < INFY ==> minindx < j && Running(done, minindx) && minh == Log2(done[minindx])
        invariant minh < INFY ==> forall i :: 0 <= i < j && Running(done, i) ==>
          minh < Log2(done[i]) || (minh == Log2(done[i]) && minindx <= i)
        invariant minh == INFY ==> forall i :: 0 <= i < j ==> !Running(done, i)
      {
        WhatInstanceShows(s, instance[..], j, n, done);
        if instance[j].lowheight != INFY && instance[j].finalized != 1 {
          if minh > instance[j].lowheight {
            minh, minindx := instance[j].lowheight, j;
          }
        }
      }
    }

    /** Spends the leaves of one signature. */
    method ServeInstances(ghost n: nat)
      requires Shape() && Instances(n, 0)
      modifies this`done, instance
      ensures Instances(n, UpdateIter(s.height))
    {
      var i := 0;
      while i < UpdateIter(s.height)
        invariant 0 <= i <= UpdateIter(s.height)
        invariant Instances(n, i)
      {
        var minh, minindx := Select(n, i);
        if minh >= INFY {
          AllFinished(n, i);
          return;
        }
        ServeOne(n, i, minindx);
        i := i + 1;
      }
    }

    /** Gives one leaf to the instance whose turn it is. */
    method ServeOne(ghost n: nat, ghost slots: nat, m: nat)
      requires Shape() && Instances(n, slots) && First(done, m)
      modifies this`done, instance
      ensures Instances(n, slots + 1)
      ensures done == old(done)[m := old(done[m]) + 1]
      ensures instance[..] == old(instance[..])[m := instance[m]]
    {
      ServeKeepsBudget(done, s.height, n, slots, m);
      ScaledIsAligned(Target(n, m), m);
      ghost var before := instance[..];
      assert InstanceOk(s, before[m], m, n, done[m]);
      var t := ServeLeaf(s, instance[m], m, Target(n, m), Base(n, m), done[m]);
      instance[m] := t;
      done := done[m := done[m] + 1];
      assert instance[..] == before[m := t];
    }

    lemma AllFinished(n: nat, slots: nat)
      requires Shape() && Instances(n, slots) && forall j :: 0 <= j < |done| ==> !Running(done, j)
      ensures Instances(n, UpdateIter(s.height))
    {
    }

    /** Everything after the signature of leaf id has been put together: the state moves on
        to leaf id + 1. */
    method Update(id: nat, leaf: Node)
      requires Ready(id) && id + 1 < Leaves(s) && leaf == s.leaf(id)
      modifies this`done, auth, keep, instance
      ensures Ready(id + 1)
    {
      var tau := CountTau(id);
      MovePath(id, leaf, tau);
      Restart(id, tau);
      ServeInstances(id + 1);
    }
  }
}
