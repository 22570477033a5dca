/** What the public root stands for: one binary tree over all component keys of all instances. */
module KeyTree {
  import opened Numbers
  import opened MerkleTree
  import opened LTree

  /** A tree of hash calls, each with the address it is made at. */
  datatype HashTree = Tip(node: Node) | Fork(height: nat, index: nat, left: HashTree, right: HashTree)

  function Value(hash: AddressedHash, t: HashTree): Node {
    match t
    case Tip(node) => node
    case Fork(height, index, left, right) => hash(height, index, Value(hash, left), Value(hash, right))
  }

  /** The nodes that are hashed, from left to right. */
  function Frontier(t: HashTree): seq<Node> {
    match t
    case Tip(node) => [node]
    case Fork(_, _, left, right) => Frontier(left) + Frontier(right)
  }

  /** How often an address occurs. */
  function Uses(t: HashTree, h: nat, j: nat): nat {
    match t
    case Tip(_) => 0
    case Fork(height, index, left, right) =>
      (if height == h && index == j then 1 else 0) + Uses(left, h, j) + Uses(right, h, j)
  }

  predicate SameShape(t: HashTree, u: HashTree) {
    match t
    case Tip(_) => u.Tip?
    case Fork(height, index, left, right) =>
      u.Fork? && u.height == height && u.index == index && SameShape(left, u.left) && SameShape(right, u.right)
  }

  ghost predicate Injective(hash: AddressedHash) {
    forall h: nat, i: nat, a, b, a', b' {:trigger hash(h, i, a, b), hash(h, i, a', b')} ::
      hash(h, i, a, b) == hash(h, i, a', b') ==> a == a' && b == b'
  }

  /** Without collisions the value of a tree determines what is hashed in it. */
  lemma {:induction false} ValueBinds(hash: AddressedHash, t: HashTree, u: HashTree)
    requires Injective(hash) && SameShape(t, u) && Value(hash, t) == Value(hash, u)
    ensures t == u
  {
    if t.Fork? {
      ValueBinds(hash, t.left, u.left);
      ValueBinds(hash, t.right, u.right);
    }
  }

  // ---- the L-tree ----

  /** The hash calls of layer 1 and, for the first three, of layer 0. */
  function Bottom(pk: ComponentKeys, id: nat, i: nat): HashTree
    requires i < 128
  {
    if i < 3 then
      Fork(1, Times(id, Pow2(8)) + i,
           Fork(0, Times(id, Pow2(9)) + 2 * i, Tip(pk[4 * i]), Tip(pk[4 * i + 1])),
           Fork(0, Times(id, Pow2(9)) + (2 * i + 1), Tip(pk[4 * i + 2]), Tip(pk[4 * i + 3])))
    else
      Fork(1, Times(id, Pow2(8)) + i + 3, Tip(pk[2 * i + 6]), Tip(pk[2 * i + 7]))
  }

  function LTreeOf(pk: ComponentKeys, id: nat, l: nat, i: nat): HashTree
    requires 1 <= l <= 8 && i < Pow2(8 - l)
  {
    if l == 1 then
      assert Pow2(7) == 128;
      Bottom(pk, id, i)
    else
      assert Pow2(8 - (l - 1)) == 2 * Pow2(8 - l);
      Fork(l, Times(id, Pow2(9 - l)) + i, LTreeOf(pk, id, l - 1, 2 * i), LTreeOf(pk, id, l - 1, 2 * i + 1))
  }

  lemma LTreeParts(pk: ComponentKeys, id: nat, l: nat, i: nat)
    requires 1 <= l <= 8 && i < Pow2(8 - l)
    ensures l == 1 ==> i < 128 && LTreeOf(pk, id, l, i) == Bottom(pk, id, i)
    ensures l > 1 ==> 2 * i + 1 < Pow2(8 - (l - 1))
    ensures l > 1 ==> LTreeOf(pk, id, l, i) == Fork(l, Times(id, Pow2(9 - l)) + i, LTreeOf(pk, id, l - 1, 2 * i),
                                                    LTreeOf(pk, id, l - 1, 2 * i + 1))
  {
    assert Pow2(7) == 128;
    hide Bottom, Times;
  }

  lemma {:induction false} LTreeValue(hash: AddressedHash, pk: ComponentKeys, id: nat, l: nat, i: nat)
    requires 1 <= l <= 8 && i < Pow2(8 - l)
    ensures Value(hash, LTreeOf(pk, id, l, i)) == LNode(hash, pk, id, l, i)
  {
    hide Pow2, LTreeOf, LNode, Value;
    LTreeParts(pk, id, l, i);
    if l == 1 {
      BottomValue(hash, pk, id, i);
      BottomLayer(hash, pk, id);
    } else {
      LTreeValue(hash, pk, id, l - 1, 2 * i);
      LTreeValue(hash, pk, id, l - 1, 2 * i + 1);
      ValueOfChildren(hash, pk, id, l, i);
    }
  }

  lemma ValueOfChildren(hash: AddressedHash, pk: ComponentKeys, id: nat, l: nat, i: nat)
    requires 2 <= l <= 8 && i < Pow2(8 - l) && 2 * i + 1 < Pow2(8 - (l - 1))
    requires Value(hash, LTreeOf(pk, id, l - 1, 2 * i)) == LNode(hash, pk, id, l - 1, 2 * i)
    requires Value(hash, LTreeOf(pk, id, l - 1, 2 * i + 1)) == LNode(hash, pk, id, l - 1, 2 * i + 1)
    ensures Value(hash, LTreeOf(pk, id, l, i)) == LNode(hash, pk, id, l, i)
  {
    LTreeParts(pk, id, l, i);
    LNodeOfChildren(hash, pk, id, l, i);
    hide Pow2, Times, LTreeOf, LNode;
  }

  lemma BottomValue(hash: AddressedHash, pk: ComponentKeys, id: nat, i: nat)
    requires i < 128
    ensures Value(hash, Bottom(pk, id, i)) == LNode1(hash, pk, id, i)
  {
    hide Pow2, Times;
    if i < 3 {
      assert Value(hash, Bottom(pk, id, i).left) == LNode0(hash, pk, id, 2 * i);
      assert Value(hash, Bottom(pk, id, i).right) == LNode0(hash, pk, id, 2 * i + 1);
    }
  }

  /** The first component key below node i of layer 1. */
  function First(i: nat): nat { if i < 3 then 4 * i else 2 * i + 6 }

  lemma BottomFrontier(pk: ComponentKeys, id: nat, i: nat)
    requires i < 128
    ensures Frontier(Bottom(pk, id, i)) == pk[First(i)..First(i + 1)]
  {
    hide Pow2, Times;
    var t := Bottom(pk, id, i);
    if i < 3 {
      assert Frontier(t.left) == [pk[4 * i], pk[4 * i + 1]];
      assert Frontier(t.right) == [pk[4 * i + 2], pk[4 * i + 3]];
    } else {
      assert Frontier(t) == [pk[2 * i + 6], pk[2 * i + 7]];
    }
  }

  /** The component keys below nodes i to k of layer 1. */
  function Stretch(pk: ComponentKeys, i: nat, k: nat): seq<Node>
    requires i <= k <= 128
  {
    pk[First(i)..First(k)]
  }

  lemma StretchesJoin(pk: ComponentKeys, i: nat, j: nat, k: nat)
    requires i <= j <= k <= 128
    ensures Stretch(pk, i, j) + Stretch(pk, j, k) == Stretch(pk, i, k)
  {
    assert First(i) <= First(j) <= First(k) <= |pk|;
    hide First;
    assert pk[First(i)..First(j)] + pk[First(j)..First(k)] == pk[First(i)..First(k)];
  }

  /** Below node i of layer l lie Pow2(l - 1) nodes of layer 1. */
  lemma {:induction false} LTreeFrontier(pk: ComponentKeys, id: nat, l: nat, i: nat)
    requires 1 <= l <= 8 && i < Pow2(8 - l)
    ensures Times(i, Pow2(l - 1)) <= Times(i + 1, Pow2(l - 1)) <= 128
    ensures Frontier(LTreeOf(pk, id, l, i)) == Stretch(pk, Times(i, Pow2(l - 1)), Times(i + 1, Pow2(l - 1)))
  {
    hide Pow2, Times, LTreeOf, Frontier, Stretch;
    SpanInside(l, i);
    LTreeParts(pk, id, l, i);
    if l == 1 {
      LayerOneFrontier(pk, id, i);
    } else {
      LTreeFrontier(pk, id, l - 1, 2 * i);
      LTreeFrontier(pk, id, l - 1, 2 * i + 1);
      FrontierOfChildren(pk, id, l, i);
    }
  }

  lemma LayerOneFrontier(pk: ComponentKeys, id: nat, i: nat)
    requires i < 128 && i < Pow2(7)
    ensures Times(i, Pow2(0)) == i && Times(i + 1, Pow2(0)) == i + 1
    ensures Frontier(LTreeOf(pk, id, 1, i)) == Stretch(pk, i, i + 1)
  {
    BottomFrontier(pk, id, i);
    hide Frontier, Bottom;
  }

  lemma FrontierOfChildren(pk: ComponentKeys, id: nat, l: nat, i: nat)
    requires 2 <= l <= 8 && i < Pow2(8 - l) && 2 * i + 1 < Pow2(8 - (l - 1))
    requires Times(2 * i, Pow2(l - 2)) <= Times(2 * i + 1, Pow2(l - 2)) <= Times(2 * i + 2, Pow2(l - 2)) <= 128
    requires Frontier(LTreeOf(pk, id, l - 1, 2 * i))
          == Stretch(pk, Times(2 * i, Pow2(l - 2)), Times(2 * i + 1, Pow2(l - 2)))
    requires Frontier(LTreeOf(pk, id, l - 1, 2 * i + 1))
          == Stretch(pk, Times(2 * i + 1, Pow2(l - 2)), Times(2 * i + 2, Pow2(l - 2)))
    ensures Times(i, Pow2(l - 1)) <= Times(i + 1, Pow2(l - 1)) <= 128
    ensures Frontier(LTreeOf(pk, id, l, i)) == Stretch(pk, Times(i, Pow2(l - 1)), Times(i + 1, Pow2(l - 1)))
  {
    hide Pow2, Times, LTreeOf, Frontier, Stretch;
    SpanHalves(l, i);
    LTreeParts(pk, id, l, i);
    FrontierOfFork(LTreeOf(pk, id, l, i));
    var w := Pow2(l - 2);
    StretchesJoin(pk, Times(2 * i, w), Times(2 * i + 1, w), Times(2 * i + 2, w));
  }

  lemma FrontierOfFork(t: HashTree)
    requires t.Fork?
    ensures Frontier(t) == Frontier(t.left) + Frontier(t.right)
  {
  }

  lemma SpanInside(l: nat, i: nat)
    requires 1 <= l <= 8 && i < Pow2(8 - l)
    ensures Times(i, Pow2(l - 1)) < Times(i + 1, Pow2(l - 1)) <= 128
  {
    Pow2Add(8 - l, l - 1);
    assert Pow2(7) == 128;
    MulMono(i + 1, Pow2(8 - l), Pow2(l - 1));
    TimesSteps(i, Pow2(l - 1));
  }

  lemma SpanHalves(l: nat, i: nat)
    requires 2 <= l <= 8
    ensures Times(2 * i, Pow2(l - 2)) == Times(i, Pow2(l - 1))
    ensures Times(2 * i + 2, Pow2(l - 2)) == Times(i + 1, Pow2(l - 1))
  {
    HalfSpans(i, Pow2(l - 2));
  }

  lemma HalfSpans(i: nat, w: nat)
    ensures Times(2 * i, w) == Times(i, 2 * w) && Times(2 * i + 2, w) == Times(i + 1, 2 * w)
    ensures Times(2 * i + 1, w) == Times(2 * i, w) + w
  {
    MulAssoc(i, 2, w);
    MulAssoc(i + 1, 2, w);
    TimesSteps(2 * i, w);
  }

  /** The L-tree root is the value of a binary tree whose frontier is exactly the 262 component
      keys in their order. */
  lemma LRootCovers(hash: AddressedHash, pk: ComponentKeys, id: nat)
    ensures Pow2(0) == 1
    ensures Value(hash, LTreeOf(pk, id, 8, 0)) == LRoot(hash, pk, id)
    ensures Frontier(LTreeOf(pk, id, 8, 0)) == pk
  {
    assert Pow2(0) == 1 && Pow2(7) == 128;
    LTreeValue(hash, pk, id, 8, 0);
    LTreeFrontier(pk, id, 8, 0);
    assert Times(0, 128) == 0 && Times(1, 128) == 128;
    hide Frontier, Value, LTreeOf, LNode;
    assert Stretch(pk, 0, 128) == pk;
  }

  lemma {:induction false} LTreeShape(pk: ComponentKeys, pk': ComponentKeys, id: nat, l: nat, i: nat)
    requires 1 <= l <= 8 && i < Pow2(8 - l)
    ensures SameShape(LTreeOf(pk, id, l, i), LTreeOf(pk', id, l, i))
  {
    LTreeParts(pk, id, l, i);
    LTreeParts(pk', id, l, i);
    if l > 1 {
      hide Pow2, Times, LTreeOf;
      LTreeShape(pk, pk', id, l - 1, 2 * i);
      LTreeShape(pk, pk', id, l - 1, 2 * i + 1);
    } else {
      BottomShape(pk, pk', id, i);
    }
  }

  lemma BottomShape(pk: ComponentKeys, pk': ComponentKeys, id: nat, i: nat)
    requires i < 128
    ensures SameShape(Bottom(pk, id, i), Bottom(pk', id, i))
  {
    hide Pow2, Times;
    if i < 3 {
      assert SameShape(Bottom(pk, id, i).left, Bottom(pk', id, i).left);
      assert SameShape(Bottom(pk, id, i).right, Bottom(pk', id, i).right);
    }
  }

  /** Without collisions equal L-tree roots have equal component keys. */
  lemma LRootBinds(hash: AddressedHash, pk: ComponentKeys, pk': ComponentKeys, id: nat)
    requires Injective(hash) && LRoot(hash, pk, id) == LRoot(hash, pk', id)
    ensures pk == pk'
  {
    LRootCovers(hash, pk, id);
    LRootCovers(hash, pk', id);
    LTreeShape(pk, pk', id, 8, 0);
    ValueBinds(hash, LTreeOf(pk, id, 8, 0), LTreeOf(pk', id, 8, 0));
  }

  // ---- the whole tree ----

  /** The hash calls below node i of height g of the Merkle tree. */
  function Forest(pks: nat -> ComponentKeys, g: nat, i: nat): HashTree {
    if g == 0 then
      assert Pow2(0) == 1;
      LTreeOf(pks(i), i, 8, 0)
    else Fork(g + LLENGTH, i, Forest(pks, g - 1, 2 * i), Forest(pks, g - 1, 2 * i + 1))
  }

  /** The leaves of the scheme are the L-tree roots. */
  ghost predicate OverKeys(s: Scheme, pks: nat -> ComponentKeys) {
    forall id: nat {:trigger s.leaf(id)} :: s.leaf(id) == LRoot(s.hash, pks(id), id)
  }

  lemma {:induction false} ForestValue(s: Scheme, pks: nat -> ComponentKeys, g: nat, i: nat)
    requires OverKeys(s, pks)
    ensures Value(s.hash, Forest(pks, g, i)) == TreeNode(s, g, i)
  {
    if g == 0 {
      LRootCovers(s.hash, pks(i), i);
      hide LTreeOf, LRoot;
    } else {
      ForestValue(s, pks, g - 1, 2 * i);
      ForestValue(s, pks, g - 1, 2 * i + 1);
    }
  }

  /** The component keys of n instances from id on. */
  function AllKeys(pks: nat -> ComponentKeys, id: nat, n: nat): seq<Node> {
    if n == 0 then [] else AllKeys(pks, id, n - 1) + pks(id + n - 1)
  }

  lemma {:induction false} AllKeysJoin(pks: nat -> ComponentKeys, id: nat, n: nat, k: nat)
    ensures AllKeys(pks, id, n) + AllKeys(pks, id + n, k) == AllKeys(pks, id, n + k)
  {
    if k > 0 {
      AllKeysJoin(pks, id, n, k - 1);
      assert AllKeys(pks, id, n) + (AllKeys(pks, id + n, k - 1) + pks(id + n + k - 1))
          == AllKeys(pks, id, n) + AllKeys(pks, id + n, k - 1) + pks(id + n + k - 1);
    }
  }

  lemma {:induction false} ForestFrontier(pks: nat -> ComponentKeys, g: nat, i: nat)
    ensures Frontier(Forest(pks, g, i)) == AllKeys(pks, Times(i, Pow2(g)), Pow2(g))
  {
    if g == 0 {
      LeafFrontier(pks, i);
      assert Times(i, 1) == i;
    } else {
      var w := Pow2(g - 1);
      assert Pow2(g) == 2 * w;
      HalfSpans(i, w);
      hide Pow2, AllKeys, Times;
      ForestFrontier(pks, g - 1, 2 * i);
      ForestFrontier(pks, g - 1, 2 * i + 1);
      AllKeysJoin(pks, Times(i, 2 * w), w, w);
    }
  }

  lemma LeafFrontier(pks: nat -> ComponentKeys, i: nat)
    ensures Frontier(Forest(pks, 0, i)) == AllKeys(pks, i, 1)
  {
    LRootCovers((_, _, a, _) => a, pks(i), i);
    hide LTreeOf, Frontier;
    assert AllKeys(pks, i, 0) + pks(i) == pks(i);
  }

  /** The public root is the value of a binary tree whose frontier is exactly the component keys
      of all instances in their order. */
  lemma RootCovers(s: Scheme, pks: nat -> ComponentKeys)
    requires OverKeys(s, pks)
    ensures Value(s.hash, Forest(pks, s.height, 0)) == Root(s)
    ensures Frontier(Forest(pks, s.height, 0)) == AllKeys(pks, 0, Leaves(s))
  {
    ForestValue(s, pks, s.height, 0);
    ForestFrontier(pks, s.height, 0);
  }

  lemma {:induction false} ForestShape(pks: nat -> ComponentKeys, pks': nat -> ComponentKeys, g: nat, i: nat)
    ensures SameShape(Forest(pks, g, i), Forest(pks', g, i))
  {
    if g == 0 {
      assert Pow2(0) == 1;
      LTreeShape(pks(i), pks'(i), i, 8, 0);
    } else {
      ForestShape(pks, pks', g - 1, 2 * i);
      ForestShape(pks, pks', g - 1, 2 * i + 1);
    }
  }

  lemma {:induction false} ForestBinds(hash: AddressedHash, pks: nat -> ComponentKeys, pks': nat -> ComponentKeys,
                                       g: nat, i: nat, id: nat)
    requires Forest(pks, g, i) == Forest(pks', g, i) && Ancestor(id, g) == i
    ensures pks(id) == pks'(id)
  {
    if g == 0 {
      LRootCovers(hash, pks(i), i);
      LRootCovers(hash, pks'(i), i);
    } else {
      ForestBinds(hash, pks, pks', g - 1, Ancestor(id, g - 1), id);
    }
  }

  /** Without collisions two keys with the same root have the same component keys throughout. */
  lemma RootBinds(s: Scheme, s': Scheme, pks: nat -> ComponentKeys, pks': nat -> ComponentKeys, id: nat)
    requires OverKeys(s, pks) && OverKeys(s', pks') && s.hash == s'.hash && s.height == s'.height
    requires Injective(s.hash) && Root(s) == Root(s') && id < Leaves(s)
    ensures pks(id) == pks'(id)
  {
    RootCovers(s, pks);
    RootCovers(s', pks');
    ForestShape(pks, pks', s.height, 0);
    ValueBinds(s.hash, Forest(pks, s.height, 0), Forest(pks', s.height, 0));
    AncestorInRange(id, s.height, s.height);
    ForestBinds(s.hash, pks, pks', s.height, 0, id);
  }

  /** Without collisions the climb determines where it started and the path it took. */
  lemma {:induction false} ClimbBinds(s: Scheme, node: Node, node': Node, id: nat, path: seq<Node>, path': seq<Node>,
                                      g: nat)
    requires Injective(s.hash) && g <= |path| == |path'|
    requires Climb(s, node, id, path, g) == Climb(s, node', id, path', g)
    ensures node == node' && path[g..] == path'[g..]
    decreases |path| - g
  {
    if g < |path| {
      var up := if id % 2 == 0 then s.hash(g + 1 + LLENGTH, id / 2, node, path[g])
                else s.hash(g + 1 + LLENGTH, id / 2, path[g], node);
      var up' := if id % 2 == 0 then s.hash(g + 1 + LLENGTH, id / 2, node', path'[g])
                 else s.hash(g + 1 + LLENGTH, id / 2, path'[g], node');
      ClimbBinds(s, up, up', id / 2, path, path', g + 1);
      assert path[g..] == [path[g]] + path[g + 1..] && path'[g..] == [path'[g]] + path'[g + 1..];
    }
  }

  // ---- no address is used twice ----

  /** Node k of layer h of an L-tree lies below this node of layer l. */
  function Up(h: nat, k: nat, l: nat): nat
    requires h <= l && l >= 1
  {
    if h == 0 then Ancestor(k / 2, l - 1)
    else if h == 1 then Ancestor(if k < 3 then k else k - 3, l - 1)
    else Ancestor(k, l - h)
  }

  /** The address is that of a node of this L-tree below node i of layer l. */
  predicate Below(id: nat, l: nat, i: nat, h: nat, j: nat)
    requires l >= 1
  {
    && h <= l <= 8 && 0 <= j - Times(id, Pow2(9 - h)) < Pow2(9 - h)
    && Up(h, j - Times(id, Pow2(9 - h)), l) == i
  }

  lemma BottomUses(pk: ComponentKeys, id: nat, i: nat, h: nat, j: nat)
    requires i < 128
    ensures Uses(Bottom(pk, id, i), h, j) <= 1
    ensures Uses(Bottom(pk, id, i), h, j) > 0 ==> Below(id, 1, i, h, j)
  {
    assert Pow2(8) == 256 && Pow2(9) == 512;
    hide Pow2, Times;
    var t := Bottom(pk, id, i);
    if i < 3 {
      assert Uses(t.left, h, j) == if h == 0 && j == Times(id, Pow2(9)) + 2 * i then 1 else 0;
      assert Uses(t.right, h, j) == if h == 0 && j == Times(id, Pow2(9)) + (2 * i + 1) then 1 else 0;
    }
  }

  lemma UpTwice(h: nat, k: nat, l: nat)
    requires h < l && l >= 2
    ensures Up(h, k, l) == Up(h, k, l - 1) / 2
  {
  }

  lemma BelowParent(id: nat, l: nat, i: nat, h: nat, j: nat)
    requires 2 <= l <= 8 && (Below(id, l - 1, 2 * i, h, j) || Below(id, l - 1, 2 * i + 1, h, j))
    ensures Below(id, l, i, h, j) && h < l
    ensures !(Below(id, l - 1, 2 * i, h, j) && Below(id, l - 1, 2 * i + 1, h, j))
  {
    hide Pow2, Times;
    UpTwice(h, j - Times(id, Pow2(9 - h)), l);
  }

  lemma {:induction false} LTreeUses(pk: ComponentKeys, id: nat, l: nat, i: nat, h: nat, j: nat)
    requires 1 <= l <= 8 && i < Pow2(8 - l)
    ensures Uses(LTreeOf(pk, id, l, i), h, j) <= 1
    ensures Uses(LTreeOf(pk, id, l, i), h, j) > 0 ==> Below(id, l, i, h, j)
  {
    hide Pow2, LTreeOf, Uses, Below;
    LTreeParts(pk, id, l, i);
    if l == 1 {
      BottomUses(pk, id, i, h, j);
    } else {
      LTreeUses(pk, id, l - 1, 2 * i, h, j);
      LTreeUses(pk, id, l - 1, 2 * i + 1, h, j);
      UsesOfChildren(pk, id, l, i, h, j);
    }
  }

  lemma UsesOfChildren(pk: ComponentKeys, id: nat, l: nat, i: nat, h: nat, j: nat)
    requires 2 <= l <= 8 && i < Pow2(8 - l) && 2 * i + 1 < Pow2(8 - (l - 1))
    requires Uses(LTreeOf(pk, id, l - 1, 2 * i), h, j) <= 1
    requires Uses(LTreeOf(pk, id, l - 1, 2 * i), h, j) > 0 ==> Below(id, l - 1, 2 * i, h, j)
    requires Uses(LTreeOf(pk, id, l - 1, 2 * i + 1), h, j) <= 1
    requires Uses(LTreeOf(pk, id, l - 1, 2 * i + 1), h, j) > 0 ==> Below(id, l - 1, 2 * i + 1, h, j)
    ensures Uses(LTreeOf(pk, id, l, i), h, j) <= 1
    ensures Uses(LTreeOf(pk, id, l, i), h, j) > 0 ==> Below(id, l, i, h, j)
  {
    LTreeParts(pk, id, l, i);
    assert Pow2(9 - l) == 2 * Pow2(8 - l);
    hide Pow2, Times, Below, LTreeOf;
    if Below(id, l - 1, 2 * i, h, j) || Below(id, l - 1, 2 * i + 1, h, j) {
      BelowParent(id, l, i, h, j);
    } else if h == l && j == Times(id, Pow2(9 - l)) + i {
      OwnAddress(id, l, i);
    }
  }

  lemma OwnAddress(id: nat, l: nat, i: nat)
    requires 2 <= l <= 8 && i < Pow2(8 - l) && Pow2(9 - l) == 2 * Pow2(8 - l)
    ensures Below(id, l, i, l, Times(id, Pow2(9 - l)) + i)
  {
    hide Pow2, Times;
  }

  /** Which stretch of w numbers j lies in. */
  function Share(j: nat, w: nat): nat
    requires w > 0
  {
    j / w
  }

  /** The node of height g of the Merkle tree above an address. */
  function Above(h: nat, j: nat, g: nat): nat
    requires h < LLENGTH || LLENGTH < h <= g + LLENGTH
  {
    if h < LLENGTH then Ancestor(Share(j, Pow2(9 - h)), g) else Ancestor(j, g + LLENGTH - h)
  }

  predicate Under(g: nat, i: nat, h: nat, j: nat) {
    (h < LLENGTH || LLENGTH < h <= g + LLENGTH) && Above(h, j, g) == i
  }

  lemma UnderParent(g: nat, i: nat, h: nat, j: nat)
    requires g > 0 && (Under(g - 1, 2 * i, h, j) || Under(g - 1, 2 * i + 1, h, j))
    ensures Under(g, i, h, j) && h < g + LLENGTH
    ensures !(Under(g - 1, 2 * i, h, j) && Under(g - 1, 2 * i + 1, h, j))
  {
    hide Pow2;
  }

  lemma UnderLeaf(id: nat, h: nat, j: nat)
    requires Below(id, 8, 0, h, j)
    ensures Under(0, id, h, j)
  {
    var w := Pow2(9 - h);
    hide Pow2, Up;
    DivModUnique(j, w, id, j - Times(id, w));
  }

  /** Over the L-trees of all instances and the inner nodes of the Merkle tree no address occurs
      twice. */
  lemma {:induction false} AddressesDiffer(pks: nat -> ComponentKeys, g: nat, i: nat, h: nat, j: nat)
    ensures Uses(Forest(pks, g, i), h, j) <= 1
    ensures Uses(Forest(pks, g, i), h, j) > 0 ==> Under(g, i, h, j)
  {
    if g == 0 {
      assert Pow2(0) == 1;
      LTreeUses(pks(i), i, 8, 0, h, j);
      if Uses(LTreeOf(pks(i), i, 8, 0), h, j) > 0 {
        UnderLeaf(i, h, j);
      }
    } else {
      AddressesDiffer(pks, g - 1, 2 * i, h, j);
      AddressesDiffer(pks, g - 1, 2 * i + 1, h, j);
      hide Under, Pow2;
      if Under(g - 1, 2 * i, h, j) || Under(g - 1, 2 * i + 1, h, j) {
        UnderParent(g, i, h, j);
      } else if h == g + LLENGTH && j == i {
        OwnPlace(g, i);
      }
    }
  }

  lemma OwnPlace(g: nat, i: nat)
    requires g > 0
    ensures Under(g, i, g + LLENGTH, i)
  {
  }
}
