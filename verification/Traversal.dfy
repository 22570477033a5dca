/** Key generation and the tree traversal of the signer: after every signature the auth
    array is moved on to the sibling path of the next leaf. */
module Traversal {
  import opened Numbers
  import opened MerkleTree
  import opened Scheduler

  /** Marks an instance that waits for no leaf. */
  const INFY: nat := 999999

  datatype TreeHash =
    TreeHash(v: Node, treestack: seq<MssNode>, finalized: nat, startleaf: nat, lowheight: nat, top: int)

  // ---- trailing zeros and ancestors ----

  function Tz(n: nat): nat
    requires n > 0
  {
    if n % 2 == 1 then 0 else 1 + Tz(n / 2)
  }

  /** Height of the first ancestor of leaf id that is a left child. */
  function Tau(id: nat): nat { Tz(id + 1) }

  lemma {:induction false} TzOfAncestor(n: nat, g: nat)
    requires n > 0 && g <= Tz(n)
    ensures Ancestor(n, g) > 0 && Tz(Ancestor(n, g)) == Tz(n) - g
  {
    if g > 0 {
      TzOfAncestor(n, g - 1);
    }
  }

  /** How the ancestors change from leaf id to leaf id + 1. */
  lemma {:induction false} NextAncestor(id: nat, g: nat)
    ensures g <= Tau(id) ==> Ancestor(id + 1, g) == Ancestor(id, g) + 1
    ensures g < Tau(id) ==> Ancestor(id, g) % 2 == 1
    ensures g == Tau(id) ==> Ancestor(id, g) % 2 == 0
    ensures g > Tau(id) ==> Ancestor(id + 1, g) == Ancestor(id, g)
  {
    if g > 0 {
      NextAncestor(id, g - 1);
      HalfSteps(Ancestor(id, g - 1));
    }
    if g <= Tau(id) {
      TzOfAncestor(id + 1, g);
      HalfSteps(Ancestor(id, g));
    }
  }

  /** n is its ancestor at any height up to Tz(n), scaled back. */
  lemma {:induction false} AncestorScaled(n: nat, g: nat)
    requires n > 0 && g <= Tz(n)
    ensures n == Ancestor(n, g) * Pow2(g)
  {
    if g > 0 {
      AncestorScaled(n, g - 1);
      TzOfAncestor(n, g - 1);
      MulAssoc(Ancestor(n, g), 2, Pow2(g - 1));
    }
  }

  lemma HalfOfMultiple(n: nat, p: nat)
    requires p > 0
    ensures n % (2 * p) == 0 <==> n % 2 == 0 && (n / 2) % p == 0
  {
    var q, r := (n / 2) / p, (n / 2) % p;
    assert n / 2 == q * p + r;
    assert q * (2 * p) == 2 * (q * p);
    DivModUnique(n, 2 * p, q, 2 * r + n % 2);
  }

  lemma {:induction false} DueIffTz(n: nat, j: nat)
    requires n > 0
    ensures Due(n, j) <==> j < Tz(n)
    decreases n
  {
    HalfOfMultiple(n, Pow2(j));
    if n % 2 == 0 && j > 0 {
      DueIffTz(n / 2, j - 1);
    }
  }

  /** Beyond the last leaf but one the path would need a sibling above the root. */
  lemma TauInRange(h: nat, id: nat)
    requires id < Pow2(h)
    ensures Tau(id) < h <==> id + 1 < Pow2(h)
    ensures id + 1 == Pow2(h) ==> Tau(id) == h
  {
    var t := Tau(id);
    AncestorScaled(id + 1, t);
    TzOfAncestor(id + 1, t);
    MulMono(1, Ancestor(id + 1, t), Pow2(t));
    if id + 1 == Pow2(h) {
      TzOfPow2(h);
    } else if t >= h {
      Pow2Mono(h, t);
    }
  }

  lemma {:induction false} TzOfPow2(h: nat)
    ensures Tz(Pow2(h)) == h
  {
    if h > 0 {
      TzOfPow2(h - 1);
    }
  }

  lemma TzHalf(t: nat)
    requires t > 0 && t % 2 == 0
    ensures Tz(t) == 1 + Tz(t / 2)
  {
  }

  lemma TzOdd(t: nat)
    requires t % 2 == 1
    ensures Tz(t) == 0
  {
  }

  /** Counts the trailing zeros of id + 1. */
  method CountTau(id: nat) returns (tau: nat)
    ensures tau == Tau(id)
  {
    hide Tz;
    tau := 0;
    if id % 2 == 1 {
      var t := id + 1;
      while t % 2 == 0
        invariant t > 0 && Tz(id + 1) == tau + Tz(t)
        decreases t
      {
        TzHalf(t);
        tau := tau + 1;
        t := t / 2;
      }
      TzOdd(t);
    } else {
      TzOdd(id + 1);
    }
  }

  // ---- what an instance owes ----

  /** Index of the node of height i that instance i has to have ready for its next use,
      when n signatures have been prepared. */
  function Target(n: nat, i: nat): nat { 2 * Ancestor(n, i + 1) + 3 }

  /** Its first leaf. */
  function Base(n: nat, i: nat): nat { Times(Target(n, i), Pow2(i)) }

  /** Instance i after d of the leaves from base on, on its way to the node of index target. */
  ghost predicate InstanceAt(s: Scheme, t: TreeHash, i: nat, target: nat, base: nat, d: nat)
    requires s.height >= 4
  {
    && |t.treestack| == s.height - 1
    && if t.finalized == 1 then
         && d == Pow2(i) && t.lowheight == INFY && t.top == -1
         && (base < Leaves(s) ==> t.v == TreeNode(s, i, target))
       else
         && t.finalized == 0 && d < Pow2(i) && t.lowheight == Log2(d)
         && base < Leaves(s) && t.startleaf == base + d
         && Holds(t.treestack, t.top, Canon(s, base, d, 0))
  }

  ghost predicate InstanceOk(s: Scheme, t: TreeHash, i: nat, n: nat, d: nat)
    requires s.height >= 4
  {
    InstanceAt(s, t, i, Target(n, i), Base(n, i), d)
  }

  ghost predicate InstancesOk(s: Scheme, ts: seq<TreeHash>, n: nat, done: seq<nat>)
    requires s.height >= 4
  {
    |done| == |ts| && forall i :: 0 <= i < |ts| ==> InstanceOk(s, ts[i], i, n, done[i])
  }

  /** An instance runs exactly if it is not finalized, and shows the height of its stack. */
  lemma WhatInstanceShows(s: Scheme, ts: seq<TreeHash>, j: nat, n: nat, done: seq<nat>)
    requires s.height >= 4 && |ts| == s.height - 2 && InstancesOk(s, ts, n, done) && j < |ts| && s.height < INFY
    ensures Running(done, j) <==> ts[j].finalized != 1
    ensures Running(done, j) <==> ts[j].lowheight != INFY
    ensures Running(done, j) ==> ts[j].lowheight == Log2(done[j]) < INFY
  {
    assert InstanceOk(s, ts[j], j, n, done[j]);
    if Running(done, j) {
      Log2Below(done[j], j);
    }
  }

  // ---- merging into a stack ----

  /** Two adjacent subtrees of height g, the left of even index, make one of height g + 1. */
  lemma MergeNodes(s: Scheme, g: nat, x: nat)
    requires x % 2 == 1
    ensures TreeNode(s, g + 1, x / 2) == s.hash(g + 1 + LLENGTH, x / 2, TreeNode(s, g, x - 1), TreeNode(s, g, x))
  {
    assert 2 * (x / 2) == x - 1;
  }

  /** b is a multiple of 2^k. */
  predicate Aligned(b: nat, k: nat) {
    k == 0 || (b % 2 == 0 && Aligned(b / 2, k - 1))
  }

  lemma {:induction false} ScaledIsAligned(t: nat, k: nat)
    ensures Aligned(Times(t, Pow2(k)), k) && Ancestor(Times(t, Pow2(k)), k) == t
  {
    var b := Times(t, Pow2(k));
    if k > 0 {
      MulAssoc(t, 2, Pow2(k - 1));
      assert b == 2 * Times(t, Pow2(k - 1));
      ScaledIsAligned(t, k - 1);
      AncestorOfHalf(b, k);
    }
  }

  lemma {:induction false} AncestorOfHalf(b: nat, k: nat)
    requires k > 0
    ensures Ancestor(b, k) == Ancestor(b / 2, k - 1)
  {
    if k > 1 {
      AncestorOfHalf(b, k - 1);
    }
  }

  /** The state of a merge: the stack covers d subtrees of the height of node, the first of
      index b, node is the next one, and together they fit below one node of height m. */
  ghost predicate Merging(s: Scheme, st: Stack, node: MssNode, b: nat, d: nat, m: nat) {
    && node.height <= m && d < Pow2(m - node.height) && Aligned(b, m - node.height)
    && node == NodeAt(s, node.height, b + d)
    && st == Canon(s, b, d, node.height)
  }

  function MergedNode(s: Scheme, left: MssNode, right: MssNode): MssNode {
    MssNode(s.hash(right.height + 1 + LLENGTH, right.indx / 2, left.key, right.key), right.height + 1, right.indx / 2)
  }

  /** Whether the top of the stack has the height of the next subtree tells the parity. */
  lemma TopTellsParity(s: Scheme, b: nat, d: nat, g: nat)
    ensures Canon(s, b, d, g).Push? && Canon(s, b, d, g).top.height == g <==> d % 2 == 1
  {
    if d % 2 == 0 {
      CanonFalls(s, b / 2, d / 2, g + 1);
    }
  }

  /** An odd count means a finished subtree on top, which merges with the next one. */
  lemma CanonMerge(s: Scheme, b: nat, d: nat, g: nat)
    requires d % 2 == 1
    ensures Canon(s, b, d, g) == Push(Canon(s, b / 2, d / 2, g + 1), NodeAt(s, g, b + d - 1))
    ensures Canon(s, b, d + 1, g) == Canon(s, b / 2, d / 2 + 1, g + 1)
  {
    HalfSteps(d);
  }

  /** An even count means that the next subtree is only put on top. */
  lemma CanonPush(s: Scheme, b: nat, d: nat, g: nat)
    requires d % 2 == 0
    ensures Canon(s, b, d + 1, g) == Push(Canon(s, b, d, g), NodeAt(s, g, b + d))
  {
    HalfSteps(d);
  }

  lemma MergedIsNode(s: Scheme, b: nat, d: nat, g: nat)
    requires b % 2 == 0 && d % 2 == 1
    ensures MergedNode(s, NodeAt(s, g, b + d - 1), NodeAt(s, g, b + d)) == NodeAt(s, g + 1, b / 2 + d / 2)
  {
    Halves(b, d);
    MergeNodes(s, g, b + d);
  }

  lemma RoomAbove(b: nat, d: nat, k: nat)
    requires Aligned(b, k) && d < Pow2(k) && d % 2 == 1
    ensures k > 0 && b % 2 == 0 && Aligned(b / 2, k - 1) && d / 2 < Pow2(k - 1)
  {
  }

  /** Two subtrees of equal height are merged exactly when the count is odd. */
  lemma MergeStep(s: Scheme, st: Stack, node: MssNode, b: nat, d: nat, m: nat)
    requires Merging(s, st, node, b, d, m)
    requires st.Push? && st.top.height == node.height
    ensures d % 2 == 1 && node.height < m
    ensures Merging(s, st.below, MergedNode(s, st.top, node), b / 2, d / 2, m)
    ensures Canon(s, b, d + 1, node.height) == Canon(s, b / 2, d / 2 + 1, node.height + 1)
  {
    hide Canon, TreeNode;
    TopTellsParity(s, b, d, node.height);
    RoomAbove(b, d, m - node.height);
    CanonMerge(s, b, d, node.height);
    MergedIsNode(s, b, d, node.height);
  }

  lemma MergeEnd(s: Scheme, st: Stack, node: MssNode, b: nat, d: nat, m: nat)
    requires Merging(s, st, node, b, d, m)
    requires st.Push? ==> st.top.height != node.height
    ensures d % 2 == 0
    ensures Canon(s, b, d + 1, node.height) == Push(st, node)
    ensures node.height == m ==> node == NodeAt(s, m, b)
  {
    hide Canon, TreeNode;
    TopTellsParity(s, b, d, node.height);
    CanonPush(s, b, d, node.height);
  }

  /** Ties the running counters of a merge to the leaf it started with. */
  ghost predicate Cut(s: Scheme, base: nat, leaves: nat, b: nat, d: nat, g: nat) {
    && b == Ancestor(base, g) && d == Ancestor(leaves, g) && g <= Tau(leaves)
    && Canon(s, base, leaves + 1, 0) == Canon(s, b, d + 1, g)
  }

  lemma CutStep(s: Scheme, base: nat, leaves: nat, b: nat, d: nat, g: nat)
    requires Cut(s, base, leaves, b, d, g) && d % 2 == 1
    requires Canon(s, b, d + 1, g) == Canon(s, b / 2, d / 2 + 1, g + 1)
    ensures Cut(s, base, leaves, b / 2, d / 2, g + 1)
  {
    NextAncestor(leaves, g);
  }

  lemma CutEnd(s: Scheme, base: nat, leaves: nat, b: nat, d: nat, g: nat, m: nat)
    requires Cut(s, base, leaves, b, d, g) && d % 2 == 0 && leaves < Pow2(m)
    ensures g == Tau(leaves)
    ensures g < m <==> leaves + 1 < Pow2(m)
    ensures g == m ==> leaves + 1 == Pow2(m)
  {
    NextAncestor(leaves, g);
    TauInRange(m, leaves);
  }

  lemma MergeStart(s: Scheme, node: MssNode, base: nat, leaves: nat, m: nat)
    requires leaves < Pow2(m) && Aligned(base, m)
    requires node == MssNode(s.leaf(base + leaves), 0, base + leaves)
    ensures Merging(s, Canon(s, base, leaves, 0), node, base, leaves, m)
    ensures Cut(s, base, leaves, base, leaves, 0)
  {
    hide Canon;
  }

  lemma MergeAndCut(s: Scheme, st: Stack, node: MssNode, b: nat, d: nat, m: nat, base: nat, leaves: nat)
    requires Merging(s, st, node, b, d, m) && Cut(s, base, leaves, b, d, node.height)
    requires st.Push? && st.top.height == node.height
    ensures node.height < m && d % 2 == 1
    ensures Merging(s, st.below, MergedNode(s, st.top, node), b / 2, d / 2, m)
    ensures Cut(s, base, leaves, b / 2, d / 2, node.height + 1)
  {
    hide Canon, TreeNode;
    MergeStep(s, st, node, b, d, m);
    CutStep(s, base, leaves, b, d, node.height);
  }

  // ---- one leaf for one instance ----

  /** The treehash loop: merges the next leaf with the finished subtrees on the stack and
      returns the cell below which the stack is left, with the node that goes on top. */
  method MergeLeaf(s: Scheme, cells: seq<MssNode>, top0: int, indx: nat, leaf: Node, m: nat, ghost base: nat,
                   ghost d: nat)
    returns (top: int, node: MssNode, ghost st: Stack)
    requires Holds(cells, top0, Canon(s, base, d, 0)) && indx == base + d
    requires d < Pow2(m) && Aligned(base, m) && leaf == s.leaf(indx)
    ensures top <= top0 && Holds(cells, top, st)
    ensures Canon(s, base, d + 1, 0) == Push(st, node)
    ensures node.height == Tau(d) <= m
    ensures node.height < m <==> d + 1 < Pow2(m)
    ensures node.height == m ==> node == NodeAt(s, m, Ancestor(base, m))
  {
    top := top0;
    node := MssNode(leaf, 0, indx);
    st := Canon(s, base, d, 0);
    ghost var b', d' := base, d;
    MergeStart(s, node, base, d, m);
    hide Canon, TreeNode;
    while top != -1 && node.height == cells[top].height
      invariant top <= top0 && Holds(cells, top, st)
      invariant Merging(s, st, node, b', d', m)
      invariant Cut(s, base, d, b', d', node.height)
      decreases st
    {
      MergeAndCut(s, st, node, b', d', m, base, d);
      node := MergedNode(s, cells[top], node);
      top := top - 1;
      st := st.below;
      b', d' := b' / 2, d' / 2;
    }
    MergeEnd(s, st, node, b', d', m);
    CutEnd(s, base, d, b', d', node.height, m);
  }

  function PushNode(t: TreeHash, top: int, node: MssNode): TreeHash
    requires -1 <= top && top + 1 < |t.treestack|
  {
    t.(top := top + 1, treestack := t.treestack[top + 1 := node], startleaf := t.startleaf + 1,
       lowheight := if top + 1 == 0 then node.height else t.lowheight)
  }

  lemma RoomFor(s: Scheme, t: TreeHash, m: nat, target: nat, base: nat, d: nat, top: int, st: Stack)
    requires s.height >= 4 && m < s.height - 2 && InstanceAt(s, t, m, target, base, d) && 0 < d < Pow2(m)
    requires top <= t.top && Holds(t.treestack, top, st)
    ensures -1 <= top && top + 1 < |t.treestack|
  {
    CanonSize(s, base, d, 0, m);
    hide Canon, TreeNode, Pow2, Log2;
    HoldsFacts(t.treestack, t.top, Canon(s, base, d, 0));
    HoldsFacts(t.treestack, top, st);
  }

  /** An instance that is not finished yet keeps the merged node on its stack. */
  lemma StillRunning(s: Scheme, t: TreeHash, m: nat, target: nat, base: nat, d: nat, top: int, st: Stack, node: MssNode)
    requires s.height >= 4 && m < s.height - 2 && InstanceAt(s, t, m, target, base, d) && 0 < d && d + 1 < Pow2(m)
    requires top <= t.top && Holds(t.treestack, top, st) && Canon(s, base, d + 1, 0) == Push(st, node)
    ensures -1 <= top && top + 1 < |t.treestack|
    ensures InstanceAt(s, PushNode(t, top, node), m, target, base, d + 1)
  {
    RoomFor(s, t, m, target, base, d, top, st);
    CanonBottomOf(s, base, d);
    CanonBottomOf(s, base, d + 1);
    hide Canon, TreeNode, Pow2, Log2;
    HoldsFacts(t.treestack, t.top, Canon(s, base, d, 0));
    PushCell(t.treestack, top, st, node);
    HoldsFacts(t.treestack[top + 1 := node], top + 1, Push(st, node));
  }

  /** Computes the next leaf of instance m and merges it in. */
  method ServeLeaf(s: Scheme, t: TreeHash, m: nat, ghost target: nat, ghost base: nat, ghost d: nat)
    returns (t': TreeHash)
    requires s.height >= 4 && m < s.height - 2 && Aligned(base, m) && Ancestor(base, m) == target
    requires InstanceAt(s, t, m, target, base, d) && d < Pow2(m)
    ensures InstanceAt(s, t', m, target, base, d + 1)
  {
    var leaf := s.leaf(t.startleaf);
    CanonBottomOf(s, base, d);
    CanonBottomOf(s, base, d + 1);
    if m == 0 {
      t' := t.(v := leaf, finalized := 1, lowheight := INFY);
    } else if t.top == -1 {
      t' := t.(top := 0, treestack := t.treestack[0 := MssNode(leaf, 0, t.startleaf)], startleaf := t.startleaf + 1);
    } else {
      var top, node, st := MergeLeaf(s, t.treestack, t.top, t.startleaf, leaf, m, base, d);
      if node.height == m {
        t' := t.(v := node.key, finalized := 1, lowheight := INFY, top := -1);
      } else {
        StillRunning(s, t, m, target, base, d, top, st, node);
        t' := PushNode(t, top, node);
      }
    }
  }

  // ---- facts about one step of the traversal ----

  /** keep[g] is the right child the path will have to hash next on that height. */
  ghost predicate KeepOk(s: Scheme, keep: seq<Node>, id: nat) {
    forall g :: 0 <= g < |keep| && Ancestor(id, g) % 2 == 1 && Ancestor(id, g + 1) % 2 == 0 ==>
      keep[g] == TreeNode(s, g, Ancestor(id, g))
  }

  /** The target of an instance after signature id is prepared: the next one if its window
      ended, otherwise the same. */
  lemma TargetSteps(id: nat, i: nat)
    ensures i < Tau(id) ==> Target(id, i) == Sibling(Ancestor(id + 1, i))
    ensures i < Tau(id) ==> Base(id + 1, i) == id + 1 + 3 * Pow2(i)
    ensures i >= Tau(id) ==> Target(id + 1, i) == Target(id, i)
  {
    NextAncestor(id, i);
    NextAncestor(id, i + 1);
    if i < Tau(id) {
      TzOfAncestor(id + 1, i);
      AncestorScaled(id + 1, i);
      var a, p := Ancestor(id + 1, i), Pow2(i);
      assert (a + 3) * p == a * p + 3 * p;
    }
  }

  /** A node that the path of leaf id + 1 needs lies inside the tree. */
  lemma TargetInTree(s: Scheme, id: nat, i: nat)
    requires id + 1 < Leaves(s) && i < Tau(id) && i < s.height
    ensures Base(id, i) < Leaves(s)
  {
    hide Ancestor, Pow2, Times;
    TargetSteps(id, i);
    AncestorInRange(id + 1, s.height, i);
    TzOfAncestor(id + 1, i);
    TauInRange(s.height, id);
    EvenBelowPow(Ancestor(id + 1, i), s.height - i);
    Pow2Add(s.height - i, i);
    TimesBelow(Target(id, i), Pow2(s.height - i), Pow2(i));
  }

  /** Signature id has moved every instance on. */
  ghost predicate RestartedTo(s: Scheme, ts: seq<TreeHash>, ts': seq<TreeHash>, id: nat, k: nat)
    requires k <= |ts|
  {
    && |ts'| == |ts|
    && (forall i :: k <= i < |ts| ==> ts'[i] == ts[i])
    && (forall i :: 0 <= i < k ==>
          ts'[i] == if Base(id + 1, i) < Leaves(s) then RestartInstance(ts[i], Base(id + 1, i)) else ts[i])
  }

  function RestartInstance(t: TreeHash, startleaf: nat): TreeHash {
    t.(finalized := 0, startleaf := startleaf, lowheight := if t.top == -1 then 0 else t.lowheight)
  }

  ghost function DoneAfterRestart(s: Scheme, done: seq<nat>, id: nat, k: nat): (done': seq<nat>)
    requires k <= |done|
    ensures |done'| == |done|
    ensures forall i :: 0 <= i < |done| ==> done'[i] == if i < k && Base(id + 1, i) < Leaves(s) then 0 else done[i]
  {
    seq(|done|, i requires 0 <= i < |done| => if i < k && Base(id + 1, i) < Leaves(s) then 0 else done[i])
  }

  lemma RestartOne(s: Scheme, t: TreeHash, id: nat, i: nat, d: nat)
    requires s.height >= 4 && InstanceOk(s, t, i, id, d)
    requires i < Tau(id) ==> d == Pow2(i)
    ensures if i < Tau(id) && Base(id + 1, i) < Leaves(s)
            then InstanceOk(s, RestartInstance(t, Base(id + 1, i)), i, id + 1, 0)
            else InstanceOk(s, t, i, id + 1, d)
  {
    TargetSteps(id, i);
    if i < Tau(id) {
      assert Canon(s, Base(id + 1, i), 0, 0) == Empty;
    }
  }

  function Least(a: nat, b: nat): nat { if a <= b then a else b }

  /** The restarts of one signature keep every instance and the leaf budget in order. */
  lemma RestartAll(s: Scheme, ts: seq<TreeHash>, ts': seq<TreeHash>, done: seq<nat>, id: nat)
    requires s.height >= 4 && |ts| == s.height - 2 && InstancesOk(s, ts, id, done)
    requires Progress(done, s.height) && Budgeted(done, s.height, id, UpdateIter(s.height))
    requires RestartedTo(s, ts, ts', id, Least(Tau(id), |ts|))
    ensures var done' := DoneAfterRestart(s, done, id, Least(Tau(id), |ts|));
            InstancesOk(s, ts', id + 1, done') && Progress(done', s.height) && Budgeted(done', s.height, id + 1, 0)
  {
    var done' := DoneAfterRestart(s, done, id, Least(Tau(id), |ts|));
    forall i | 0 <= i < |ts|
      ensures InstanceOk(s, ts'[i], i, id + 1, done'[i])
    {
      InstanceDone(s, done, id, i);
      assert InstanceOk(s, ts[i], i, id, done[i]);
      RestartOne(s, ts[i], id, i, done[i]);
    }
    forall j | 0 <= j < |done|
      ensures done'[j] == done[j] || (Due(id + 1, j) && (done'[j] == 0 || done'[j] == Pow2(j)))
    {
      DueIffTz(id + 1, j);
    }
    RestartKeepsBudget(done, done', s.height, id);
  }

  /** An instance whose window ends with signature id is finished by then. */
  lemma InstanceDone(s: Scheme, done: seq<nat>, id: nat, i: nat)
    requires s.height >= 4 && Progress(done, s.height) && i < |done|
    requires Budgeted(done, s.height, id, UpdateIter(s.height))
    ensures i < Tau(id) ==> done[i] == Pow2(i)
  {
    if i < Tau(id) {
      DueIffTz(id + 1, i);
      Deadline(done, s.height, id, i);
    }
  }

  /** So its node can be read: it is the sibling that the path of leaf id + 1 needs. */
  lemma InstanceReady(s: Scheme, ts: seq<TreeHash>, done: seq<nat>, id: nat, i: nat)
    requires s.height >= 4 && |ts| == s.height - 2 && InstancesOk(s, ts, id, done)
    requires Progress(done, s.height) && Budgeted(done, s.height, id, UpdateIter(s.height))
    requires id + 1 < Leaves(s) && i < Tau(id) && i < |ts|
    ensures ts[i].finalized == 1 && ts[i].v == SiblingNode(s, id + 1, i)
  {
    InstanceDone(s, done, id, i);
    assert InstanceOk(s, ts[i], i, id, done[i]);
    TargetSteps(id, i);
    TargetInTree(s, id, i);
  }

  /** Node Tau(id) of the new path is hashed from the old path and a kept right child. */
  lemma NewLeftNode(s: Scheme, auth: seq<Node>, keep: seq<Node>, id: nat)
    requires IsAuthPath(s, id, auth) && KeepOk(s, keep, id)
    requires 0 < Tau(id) < s.height && |keep| == s.height - 1
    ensures s.hash(Tau(id) + LLENGTH, Ancestor(id, Tau(id)), auth[Tau(id) - 1], keep[Tau(id) - 1])
         == SiblingNode(s, id + 1, Tau(id))
  {
    hide Pow2;
    var t := Tau(id);
    NextAncestor(id, t - 1);
    NextAncestor(id, t);
    var x := Ancestor(id, t - 1);
    assert x / 2 == Ancestor(id, t) && 2 * (x / 2) == x - 1;
    assert auth[t - 1] == SiblingNode(s, id, t - 1);
    assert keep[t - 1] == TreeNode(s, t - 1, x);
    TzOfAncestor(id + 1, t);
  }

  lemma {:induction false} CanonFull(s: Scheme, g: nat, k: nat)
    ensures Canon(s, 0, Pow2(k), g) == Push(Empty, NodeAt(s, g + k, 0))
    decreases k
  {
    if k > 0 {
      CanonFull(s, g + 1, k - 1);
    }
  }

  lemma {:induction false} AncestorOfZero(g: nat)
    ensures Ancestor(0, g) == 0
  {
    if g > 0 {
      AncestorOfZero(g - 1);
    }
  }

  /** 2^e subtrees of height g are complete after count leaves, or will be when the leaf
      being added has been merged up to height below. */
  predicate Reached(g: nat, e: nat, count: nat, below: nat) {
    Pow2(g + e) <= count || (g < below && Pow2(g + e) == count + 1)
  }

  /** A leaf count that is 2^e times a subtree is reached by a merge above that subtree. */
  lemma CountReached(id: nat, g: nat, e: nat)
    requires id + 1 == Pow2(g + e)
    ensures Tau(id) == g + e
    ensures Ancestor(id + 1, g) == Pow2(e)
  {
    TzOfPow2(g + e);
    AncestorScaled(id + 1, g);
    Pow2Add(e, g);
    var a, p := Ancestor(id + 1, g), Pow2(g);
    MulCancel(a, Pow2(e), p);
    MulCancel(Pow2(e), a, p);
  }

  lemma ReachedByMerge(g: nat, e: nat, count: nat, below: nat)
    requires Reached(g, e, count, below + 1) && below <= Tau(count)
    ensures Reached(g, e, count, below) || (g == below && Ancestor(count, g) == Pow2(e) - 1)
  {
    if !Reached(g, e, count, below) {
      CountReached(count, g, e);
      NextAncestor(count, g);
    }
  }

  lemma ReachedByLeaf(g: nat, e: nat, count: nat)
    requires Reached(g, e, count + 1, 0) && e > 0
    ensures Reached(g, e, count, Tau(count))
  {
    if Pow2(g + e) == count + 1 {
      CountReached(count, g, e);
    }
  }

  /** The node kept since key generation is the sibling needed once, below the root. */
  lemma RetainedNode(s: Scheme, id: nat, i: nat)
    requires s.height >= 4 && id + 1 < Leaves(s) && i < Tau(id) && i >= s.height - 2
    ensures i == s.height - 2 && SiblingNode(s, id + 1, i) == TreeNode(s, i, 3)
  {
    SmallPowers();
    hide Ancestor, TreeNode, Pow2;
    TauInRange(s.height, id);
    AncestorInRange(id + 1, s.height, i);
    TzOfAncestor(id + 1, i);
  }

  /** On the heights above Tau(id) nothing changes. */
  lemma PathNext(s: Scheme, auth: seq<Node>, auth': seq<Node>, id: nat)
    requires s.height >= 4 && IsAuthPath(s, id, auth) && |auth'| == |auth|
    requires forall g :: Tau(id) < g < |auth| ==> auth'[g] == auth[g]
    requires forall g :: 0 <= g <= Tau(id) && g < |auth| ==> auth'[g] == SiblingNode(s, id + 1, g)
    ensures IsAuthPath(s, id + 1, auth')
  {
    forall g | 0 <= g < |auth'|
      ensures auth'[g] == SiblingNode(s, id + 1, g)
    {
      if g > Tau(id) {
        NextAncestor(id, g);
        assert auth[g] == SiblingNode(s, id, g);
      }
    }
  }

  lemma KeepNext(s: Scheme, auth: seq<Node>, keep: seq<Node>, keep': seq<Node>, id: nat)
    requires s.height >= 4 && IsAuthPath(s, id, auth) && KeepOk(s, keep, id) && |keep| == s.height - 1
    requires keep' == if Ancestor(id, Tau(id) + 1) % 2 == 0 && Tau(id) < s.height - 1
                      then keep[Tau(id) := auth[Tau(id)]] else keep
    ensures KeepOk(s, keep', id + 1)
  {
    hide TreeNode;
    forall g | 0 <= g < |keep'| && Ancestor(id + 1, g) % 2 == 1 && Ancestor(id + 1, g + 1) % 2 == 0
      ensures keep'[g] == TreeNode(s, g, Ancestor(id + 1, g))
    {
      NextAncestor(id, g);
      NextAncestor(id, g + 1);
      if g < Tau(id) {
        assert false;
      } else if g == Tau(id) {
        assert auth[g] == SiblingNode(s, id, g);
      } else {
        assert keep[g] == TreeNode(s, g, Ancestor(id, g));
      }
    }
  }

  lemma LastIsNotRestarted(s: Scheme, id: nat, i: nat)
    requires s.height >= 4 && i < Tau(id) && id + 1 + 3 * Pow2(i) < Leaves(s)
    ensures i + 2 < s.height
  {
    AncestorScaled(id + 1, i);
    TzOfAncestor(id + 1, i);
    MulMono(2, Ancestor(id + 1, i), Pow2(i));
    Pow2Add(2, i);
    assert Pow2(2) == 4;
    Pow2Converse(i + 2, s.height);
  }

  /** Where the traversal finds the sibling of height i below the new left child. */
  lemma NewSibling(s: Scheme, ts: seq<TreeHash>, retain: Node, done: seq<nat>, id: nat, i: nat)
    requires s.height >= 4 && |ts| == s.height - 2 && InstancesOk(s, ts, id, done)
    requires Progress(done, s.height) && Budgeted(done, s.height, id, UpdateIter(s.height))
    requires id + 1 < Leaves(s) && i < Tau(id) && retain == TreeNode(s, s.height - 2, 3)
    ensures SiblingNode(s, id + 1, i) == if i < s.height - 2 then ts[i].v else retain
    ensures i <= s.height - 2
  {
    if i < s.height - 2 {
      InstanceReady(s, ts, done, id, i);
    } else {
      RetainedNode(s, id, i);
    }
  }

  // ---- what key generation stores ----

  ghost predicate Initial(s: Scheme, t: TreeHash, g: nat) {
    t.v == TreeNode(s, g, 3) && t.finalized == 1 && t.lowheight == INFY && t.top == -1
  }

  function FinishedInstance(t: TreeHash, v: Node): TreeHash {
    t.(v := v, finalized := 1, lowheight := INFY, top := -1)
  }

  /** Nodes 1 and 3 of every height that the leaves so far complete are in their places. */
  ghost predicate StoredValues(s: Scheme, auth: seq<Node>, ts: seq<TreeHash>, retain: Node, count: nat, below: nat) {
    && s.height >= 4 && |auth| == s.height && |ts| == s.height - 2
    && (forall g :: 0 <= g < |auth| && Reached(g, 1, count, below) ==> auth[g] == TreeNode(s, g, 1))
    && (forall g :: 0 <= g < |ts| && Reached(g, 2, count, below) ==> Initial(s, ts[g], g))
    && (Reached(s.height - 2, 2, count, below) ==> retain == TreeNode(s, s.height - 2, 3))
  }

  lemma NothingStored(s: Scheme, auth: seq<Node>, ts: seq<TreeHash>, retain: Node)
    requires s.height >= 4 && |auth| == s.height && |ts| == s.height - 2
    ensures StoredValues(s, auth, ts, retain, 0, 0)
  {
  }

  lemma SmallPowers()
    ensures Pow2(1) == 2 && Pow2(2) == 4
  {
  }

  /** Storing the node about to be merged, if it is node 1 or node 3 of its height. */
  lemma StoredByMerge(s: Scheme, auth: seq<Node>, ts: seq<TreeHash>, retain: Node, node: MssNode, count: nat)
    requires StoredValues(s, auth, ts, retain, count, node.height)
    requires node.height < s.height && node.height <= Tau(count)
    requires node == NodeAt(s, node.height, Ancestor(count, node.height))
    ensures var g := node.height;
            StoredValues(s, if node.indx == 1 then auth[g := node.key] else auth,
                         if node.indx == 3 && g < s.height - 2 then ts[g := FinishedInstance(ts[g], node.key)] else ts,
                         if node.indx == 3 && g == s.height - 2 then node.key else retain, count, g + 1)
  {
    SmallPowers();
    hide Ancestor, TreeNode, Reached, Pow2;
    var below := node.height;
    var auth' := if node.indx == 1 then auth[below := node.key] else auth;
    var ts' := if node.indx == 3 && below < s.height - 2
               then ts[below := FinishedInstance(ts[below], node.key)] else ts;
    forall g | 0 <= g < |auth'| && Reached(g, 1, count, below + 1)
      ensures auth'[g] == TreeNode(s, g, 1)
    {
      ReachedByMerge(g, 1, count, below);
    }
    forall g | 0 <= g < |ts'| && Reached(g, 2, count, below + 1)
      ensures Initial(s, ts'[g], g)
    {
      ReachedByMerge(g, 2, count, below);
    }
    if Reached(s.height - 2, 2, count, below + 1) {
      ReachedByMerge(s.height - 2, 2, count, below);
    }
  }

  /** Everything that count + 1 leaves complete is stored once the last of them is merged. */
  lemma StoredByLeaf(s: Scheme, auth: seq<Node>, ts: seq<TreeHash>, retain: Node, count: nat)
    requires StoredValues(s, auth, ts, retain, count, Tau(count))
    ensures StoredValues(s, auth, ts, retain, count + 1, 0)
  {
    forall g: nat, e: nat {:trigger Reached(g, e, count + 1, 0)} | Reached(g, e, count + 1, 0) && e > 0
      ensures Reached(g, e, count, Tau(count))
    {
      ReachedByLeaf(g, e, count);
    }
  }

  /** After all leaves every instance holds node 3 of its height and is finalized. */
  lemma AllInitial(s: Scheme, auth: seq<Node>, ts: seq<TreeHash>, retain: Node)
    requires StoredValues(s, auth, ts, retain, Pow2(s.height), 0)
    ensures forall g :: 0 <= g < |ts| ==> Initial(s, ts[g], g)
  {
    hide Initial;
    forall g | 0 <= g < |ts|
      ensures Initial(s, ts[g], g)
    {
      Pow2Mono(g + 2, s.height);
      assert Reached(g, 2, Pow2(s.height), 0);
    }
  }

  /** What is stored after all leaves is the state in which leaf 0 is signed. */
  lemma StoredIsReady(s: Scheme, auth: seq<Node>, keep: seq<Node>, ts: seq<TreeHash>, retain: Node, done: seq<nat>)
    requires StoredValues(s, auth, ts, retain, Pow2(s.height), 0) && s.height % 2 == 0
    requires forall i :: 0 <= i < |ts| ==> |ts[i].treestack| == s.height - 1
    requires |done| == s.height - 2 && forall i :: 0 <= i < |done| ==> done[i] == Pow2(i)
    ensures IsAuthPath(s, 0, auth) && KeepOk(s, keep, 0) && retain == TreeNode(s, s.height - 2, 3)
    ensures InstancesOk(s, ts, 0, done) && Progress(done, s.height)
    ensures Budgeted(done, s.height, 0, UpdateIter(s.height))
  {
    forall g: nat
      ensures Ancestor(0, g) == 0
    {
      AncestorOfZero(g);
    }
    forall g: nat, e: nat {:trigger Reached(g, e, Pow2(s.height), 0)} | g + e <= s.height
      ensures Reached(g, e, Pow2(s.height), 0)
    {
      Pow2Mono(g + e, s.height);
    }
  }
}
