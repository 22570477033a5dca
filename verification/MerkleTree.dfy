/** The hash tree of the K2SN multi-time signature: leaves under inner nodes of an
    addressed hash, sibling paths, and the stack of finished subtrees. */
module MerkleTree {
  import opened Numbers
  import opened Octets

  /** A public value: 72 bytes. */
  datatype Node = Node(key: seq<Octet>)

  const LLENGTH: nat := 9

  /** hash(height, index, left, right) stands for merging two nodes, adding the random
      pad of the address, choosing the SWIFFT key of the address and hashing. */
  type AddressedHash = (nat, nat, Node, Node) -> Node

  /** leaf(id) stands for the root of the L-tree of instance id. */
  datatype Scheme = Scheme(height: nat, leaf: nat -> Node, hash: AddressedHash)

  function Leaves(s: Scheme): nat { Pow2(s.height) }

  /** Node i of height g; the address height of an inner node counts from the L-tree. */
  function TreeNode(s: Scheme, g: nat, i: nat): Node
    decreases g
  {
    if g == 0 then s.leaf(i)
    else s.hash(g + LLENGTH, i, TreeNode(s, g - 1, 2 * i), TreeNode(s, g - 1, 2 * i + 1))
  }

  function Root(s: Scheme): Node { TreeNode(s, s.height, 0) }

  function Sibling(i: nat): nat { if i % 2 == 0 then i + 1 else i - 1 }

  /** Index of the ancestor of leaf k at height g. */
  function Ancestor(k: nat, g: nat): nat {
    if g == 0 then k else Ancestor(k, g - 1) / 2
  }

  lemma {:induction false} AncestorIsQuotient(k: nat, g: nat)
    ensures Ancestor(k, g) == k / Pow2(g)
  {
    if g > 0 {
      AncestorIsQuotient(k, g - 1);
      HalfOfPow(k, g - 1);
    }
  }

  lemma {:induction false} AncestorInRange(k: nat, h: nat, g: nat)
    requires k < Pow2(h) && g <= h
    ensures Ancestor(k, g) < Pow2(h - g)
  {
    if g > 0 {
      AncestorInRange(k, h, g - 1);
    }
  }

  function SiblingNode(s: Scheme, k: nat, g: nat): Node {
    TreeNode(s, g, Sibling(Ancestor(k, g)))
  }

  /** path is the sibling path of leaf k, from the bottom up. */
  ghost predicate IsAuthPath(s: Scheme, k: nat, path: seq<Node>) {
    |path| == s.height && forall g :: 0 <= g < |path| ==> path[g] == SiblingNode(s, k, g)
  }

  /** The climb of the verifier: hash the running node with each sibling in turn. */
  function Climb(s: Scheme, node: Node, id: nat, path: seq<Node>, g: nat): Node
    requires g <= |path|
    decreases |path| - g
  {
    if g == |path| then node
    else
      var up := if id % 2 == 0 then s.hash(g + 1 + LLENGTH, id / 2, node, path[g])
                else s.hash(g + 1 + LLENGTH, id / 2, path[g], node);
      Climb(s, up, id / 2, path, g + 1)
  }

  /** Hashing a node with its sibling, in the order its parity gives, makes the parent. */
  lemma ClimbStep(s: Scheme, g: nat, i: nat)
    ensures TreeNode(s, g + 1, i / 2)
         == if i % 2 == 0 then s.hash(g + 1 + LLENGTH, i / 2, TreeNode(s, g, i), TreeNode(s, g, Sibling(i)))
            else s.hash(g + 1 + LLENGTH, i / 2, TreeNode(s, g, Sibling(i)), TreeNode(s, g, i))
  {
    assert TreeNode(s, g + 1, i / 2)
        == s.hash(g + 1 + LLENGTH, i / 2, TreeNode(s, g, 2 * (i / 2)), TreeNode(s, g, 2 * (i / 2) + 1));
  }

  lemma ClimbOneLevel(s: Scheme, k: nat, g: nat, path: seq<Node>)
    requires g < s.height && IsAuthPath(s, k, path)
    ensures Climb(s, TreeNode(s, g, Ancestor(k, g)), Ancestor(k, g), path, g)
         == Climb(s, TreeNode(s, g + 1, Ancestor(k, g + 1)), Ancestor(k, g + 1), path, g + 1)
  {
    var i := Ancestor(k, g);
    assert path[g] == TreeNode(s, g, Sibling(i));
    ClimbStep(s, g, i);
  }

  lemma ClimbAtTop(s: Scheme, k: nat, path: seq<Node>)
    requires k < Leaves(s) && IsAuthPath(s, k, path)
    ensures Climb(s, TreeNode(s, s.height, Ancestor(k, s.height)), Ancestor(k, s.height), path, s.height) == Root(s)
  {
    AncestorInRange(k, s.height, s.height);
    assert Ancestor(k, s.height) == 0;
    hide TreeNode, Ancestor;
  }

  /** Climbing the sibling path of any leaf reaches the root. */
  lemma {:induction false} ClimbReachesRoot(s: Scheme, k: nat, g: nat, path: seq<Node>)
    requires k < Leaves(s) && g <= s.height && IsAuthPath(s, k, path)
    ensures Climb(s, TreeNode(s, g, Ancestor(k, g)), Ancestor(k, g), path, g) == Root(s)
    decreases s.height - g
  {
    hide Climb, TreeNode, Ancestor;
    if g == s.height {
      ClimbAtTop(s, k, path);
    } else {
      ClimbOneLevel(s, k, g, path);
      ClimbReachesRoot(s, k, g + 1, path);
    }
  }

  // ---- the stack of finished subtrees ----

  datatype MssNode = MssNode(key: Node, height: nat, indx: nat)

  function NodeAt(s: Scheme, g: nat, i: nat): MssNode { MssNode(TreeNode(s, g, i), g, i) }

  datatype Stack = Empty | Push(below: Stack, top: MssNode)

  function Size(st: Stack): nat {
    if st.Empty? then 0 else Size(st.below) + 1
  }

  function Bottom(st: Stack): MssNode
    requires st.Push?
  {
    if st.below.Empty? then st.top else Bottom(st.below)
  }

  /** The cells up to index top hold the stack. */
  predicate Holds(cells: seq<MssNode>, top: int, st: Stack) {
    match st
    case Empty => top == -1
    case Push(below, x) => 0 <= top < |cells| && cells[top] == x && Holds(cells, top - 1, below)
  }

  lemma {:induction false} HoldsFacts(cells: seq<MssNode>, top: int, st: Stack)
    requires Holds(cells, top, st)
    ensures -1 <= top < |cells| && Size(st) == top + 1
    ensures st.Push? ==> cells[0] == Bottom(st)
  {
    if st.Push? {
      HoldsFacts(cells, top - 1, st.below);
    }
  }

  /** Cells above the top do not matter. */
  lemma {:induction false} HoldsFrame(cells: seq<MssNode>, cells': seq<MssNode>, top: int, st: Stack)
    requires Holds(cells, top, st) && top < |cells'|
    requires forall i :: 0 <= i <= top && i < |cells| ==> cells'[i] == cells[i]
    ensures Holds(cells', top, st)
  {
    if st.Push? {
      HoldsFrame(cells, cells', top - 1, st.below);
    }
  }

  lemma PushCell(cells: seq<MssNode>, top: int, st: Stack, node: MssNode)
    requires Holds(cells, top, st) && top + 1 < |cells|
    ensures top >= -1 && Holds(cells[top + 1 := node], top + 1, Push(st, node))
  {
    HoldsFacts(cells, top, st);
    HoldsFrame(cells, cells[top + 1 := node], top, st);
  }

  /** The stack after d consecutive subtrees of height g, the first of index b: one node
      for each set bit of d, the highest at the bottom. */
  function Canon(s: Scheme, b: nat, d: nat, g: nat): Stack
    decreases d
  {
    if d == 0 then Empty
    else if d % 2 == 1 then Push(Canon(s, b / 2, d / 2, g + 1), NodeAt(s, g, b + d - 1))
    else Canon(s, b / 2, d / 2, g + 1)
  }

  /** Height of the bottom of a stack that covers d leaves. */
  function Log2(d: nat): nat {
    if d <= 1 then 0 else 1 + Log2(d / 2)
  }

  lemma {:induction false} CanonBottom(s: Scheme, b: nat, d: nat, g: nat)
    requires d > 0
    ensures Canon(s, b, d, g).Push? && Bottom(Canon(s, b, d, g)).height == g + Log2(d)
    decreases d
  {
    if d == 1 {
    } else {
      CanonBottom(s, b / 2, d / 2, g + 1);
    }
  }

  lemma CanonBottomOf(s: Scheme, b: nat, d: nat)
    ensures Canon(s, b, d, 0).Empty? <==> d == 0
    ensures d > 0 ==> Bottom(Canon(s, b, d, 0)).height == Log2(d)
    ensures d == 1 ==> Canon(s, b, d, 0) == Push(Empty, NodeAt(s, 0, b))
  {
    if d > 0 {
      CanonBottom(s, b, d, 0);
    }
  }

  /** Heights rise strictly from the top to the bottom, never below g. */
  predicate Falling(st: Stack, g: nat) {
    st.Push? ==> st.top.height >= g && Falling(st.below, st.top.height + 1)
  }

  lemma {:induction false} FallingFrom(st: Stack, g: nat, g': nat)
    requires Falling(st, g) && g' <= g
    ensures Falling(st, g')
  {
  }

  lemma {:induction false} CanonFalls(s: Scheme, b: nat, d: nat, g: nat)
    ensures Falling(Canon(s, b, d, g), g)
    decreases d
  {
    if d > 0 {
      CanonFalls(s, b / 2, d / 2, g + 1);
      FallingFrom(Canon(s, b / 2, d / 2, g + 1), g + 1, g);
    }
  }

  /** A stack never holds more nodes than the binary form of its leaf count has digits. */
  lemma {:induction false} CanonSize(s: Scheme, b: nat, d: nat, g: nat, k: nat)
    requires d < Pow2(k)
    ensures Size(Canon(s, b, d, g)) <= k
    decreases d
  {
    if d > 0 {
      assert k > 0;
      CanonSize(s, b / 2, d / 2, g + 1, k - 1);
    }
  }

  lemma Log2Below(d: nat, k: nat)
    requires d < Pow2(k)
    ensures k > 0 ==> Log2(d) < k
    decreases d
  {
    if d > 1 {
      Log2Below(d / 2, k - 1);
    }
  }

  lemma Log2Small(d: nat, e: nat)
    requires Log2(d) < e
    ensures d < Pow2(e)
    decreases d
  {
    if d > 1 {
      Log2Small(d / 2, e - 1);
    }
  }
}
