/** The L-tree: one leaf of the Merkle tree from the 262 component keys of an instance. */
module LTree {
  import opened Numbers
  import opened MerkleTree

  const COMPONENTS: nat := 262

  type ComponentKeys = s: seq<Node> | |s| == COMPONENTS witness seq(COMPONENTS, _ => Node([]))

  /** Layer 0 of the L-tree: the six hashed pairs of the first twelve component keys. */
  function LNode0(hash: AddressedHash, pk: ComponentKeys, id: nat, i: nat): Node
    requires i < 6
  {
    hash(0, Times(id, Pow2(9)) + i, pk[2 * i], pk[2 * i + 1])
  }

  /** Layer 1 holds 128 nodes, the first three above layer 0 and the others above the
      remaining 250 component keys. */
  function LNode1(hash: AddressedHash, pk: ComponentKeys, id: nat, i: nat): Node
    requires i < 128
  {
    if i < 3 then
      hash(1, Times(id, Pow2(8)) + i, LNode0(hash, pk, id, 2 * i), LNode0(hash, pk, id, 2 * i + 1))
    else
      hash(1, Times(id, Pow2(8)) + i + 3, pk[2 * (i + 3)], pk[2 * (i + 3) + 1])
  }

  /** Node i of layer l; from layer 2 on the tree is a complete binary tree. */
  function LNode(hash: AddressedHash, pk: ComponentKeys, id: nat, l: nat, i: nat): Node
    requires 1 <= l <= 8 && i < Pow2(8 - l)
  {
    if l == 1 then
      assert Pow2(7) == 128;
      LNode1(hash, pk, id, i)
    else
      assert Pow2(8 - (l - 1)) == 2 * Pow2(8 - l);
      hash(l, Times(id, Pow2(9 - l)) + i, LNode(hash, pk, id, l - 1, 2 * i), LNode(hash, pk, id, l - 1, 2 * i + 1))
  }

  function LRoot(hash: AddressedHash, pk: ComponentKeys, id: nat): Node {
    LNode(hash, pk, id, 8, 0)
  }

  /** The L-tree is folded inside one buffer: each layer overwrites the front half of the
      layer below it. */
  method CreateLTree(hash: AddressedHash, pk: ComponentKeys, id: nat) returns (root: Node)
    ensures root == LRoot(hash, pk, id)
  {
    var internal := new Node[COMPONENTS / 2](_ => Node([]));
    FoldComponents(internal, hash, pk, id);
    assert Pow2(0) == 1 && Pow2(6) == 64 && Pow2(7) == 128;
    hide LNode0, LNode1;
    BottomLayer(hash, pk, id);
    hide LNode;
    var idT := Times(id, Pow2(8));
    var w, layer := 64, 2;
    while layer <= 8
      invariant 2 <= layer <= 9
      invariant layer <= 8 ==> w == Pow2(8 - layer)
      invariant idT == Times(id, Pow2(10 - layer))
      invariant forall j :: 0 <= j < Pow2(9 - layer) ==> internal[j] == LNode(hash, pk, id, layer - 1, j)
      decreases 9 - layer
    {
      Pow2Mono(8 - layer, 6);
      NextOffset(id, 9 - layer);
      idT := idT / 2;
      FoldLayer(internal, hash, pk, id, layer, idT, w);
      w := w / 2;
      layer := layer + 1;
    }
    root := internal[0];
  }

  lemma BottomLayer(hash: AddressedHash, pk: ComponentKeys, id: nat)
    ensures forall j: nat :: j < 128 && j < Pow2(7) ==> LNode(hash, pk, id, 1, j) == LNode1(hash, pk, id, j)
  {
  }

  /** The node numbers of the next layer start at half the offset. */
  lemma NextOffset(id: nat, e: nat)
    ensures Times(id, Pow2(e + 1)) == 2 * Times(id, Pow2(e))
  {
    MulAssoc(id, 2, Pow2(e));
  }

  /** The two bottom layers, which take the component keys in. */
  method FoldComponents(internal: array<Node>, hash: AddressedHash, pk: ComponentKeys, id: nat)
    requires internal.Length == COMPONENTS / 2
    modifies internal
    ensures forall j :: 0 <= j < 128 ==> internal[j] == LNode1(hash, pk, id, j)
  {
    var idT := Times(id, Pow2(9));
    FoldFirstPairs(internal, hash, pk, id, idT);
    assert idT == 2 * Times(id, Pow2(8)) by {
      MulAssoc(id, 2, Pow2(8));
    }
    idT := idT / 2;
    FoldFirstTriple(internal, hash, pk, id, idT);
    FoldRemaining(internal, hash, pk, id, idT);
  }

  method FoldFirstPairs(internal: array<Node>, hash: AddressedHash, pk: ComponentKeys, id: nat, idT: nat)
    requires internal.Length == COMPONENTS / 2 && idT == Times(id, Pow2(9))
    modifies internal
    ensures forall j :: 0 <= j < 6 ==> internal[j] == LNode0(hash, pk, id, j)
  {
    for i := 0 to 6
      invariant forall j :: 0 <= j < i ==> internal[j] == LNode0(hash, pk, id, j)
    {
      internal[i] := hash(0, idT + i, pk[2 * i], pk[2 * i + 1]);
    }
  }

  method FoldFirstTriple(internal: array<Node>, hash: AddressedHash, pk: ComponentKeys, id: nat, idT: nat)
    requires internal.Length == COMPONENTS / 2 && idT == Times(id, Pow2(8))
    requires forall j :: 0 <= j < 6 ==> internal[j] == LNode0(hash, pk, id, j)
    modifies internal
    ensures forall j :: 0 <= j < 3 ==> internal[j] == LNode1(hash, pk, id, j)
  {
    hide LNode0, LNode1;
    for i := 0 to 3
      invariant forall j :: 0 <= j < i ==> internal[j] == LNode1(hash, pk, id, j)
      invariant forall j :: i <= j < 6 ==> internal[j] == LNode0(hash, pk, id, j)
    {
      LNode1OfChildren(hash, pk, id, i);
      internal[i] := hash(1, idT + i, internal[2 * i], internal[2 * i + 1]);
    }
  }

  lemma LNode1OfChildren(hash: AddressedHash, pk: ComponentKeys, id: nat, i: nat)
    requires i < 3
    ensures LNode1(hash, pk, id, i)
         == hash(1, Times(id, Pow2(8)) + i, LNode0(hash, pk, id, 2 * i), LNode0(hash, pk, id, 2 * i + 1))
  {
  }

  method FoldRemaining(internal: array<Node>, hash: AddressedHash, pk: ComponentKeys, id: nat, idT: nat)
    requires internal.Length == COMPONENTS / 2 && idT == Times(id, Pow2(8))
    requires forall j :: 0 <= j < 3 ==> internal[j] == LNode1(hash, pk, id, j)
    modifies internal
    ensures forall j :: 0 <= j < 128 ==> internal[j] == LNode1(hash, pk, id, j)
  {
    var k := 3;
    for i := 6 to 131
      invariant k == i - 3
      invariant forall j :: 0 <= j < k ==> internal[j] == LNode1(hash, pk, id, j)
    {
      internal[k] := hash(1, idT + i, pk[2 * i], pk[2 * i + 1]);
      k := k + 1;
    }
  }

  lemma LNodeOfChildren(hash: AddressedHash, pk: ComponentKeys, id: nat, l: nat, i: nat)
    requires 2 <= l <= 8 && i < Pow2(8 - l)
    ensures 2 * i + 1 < Pow2(8 - (l - 1)) == 2 * Pow2(8 - l)
    ensures LNode(hash, pk, id, l, i)
         == hash(l, Times(id, Pow2(9 - l)) + i, LNode(hash, pk, id, l - 1, 2 * i),
                 LNode(hash, pk, id, l - 1, 2 * i + 1))
  {
  }

  /** One layer: node i is written over the buffer slot it has just read. */
  method FoldLayer(internal: array<Node>, hash: AddressedHash, pk: ComponentKeys, id: nat, l: nat, idT: nat, w: nat)
    requires 2 <= l <= 8 && w == Pow2(8 - l) && idT == Times(id, Pow2(9 - l)) && 2 * w <= internal.Length
    requires forall j :: 0 <= j < 2 * w ==> internal[j] == LNode(hash, pk, id, l - 1, j)
    modifies internal
    ensures forall j :: 0 <= j < w ==> internal[j] == LNode(hash, pk, id, l, j)
  {
    hide LNode;
    for i := 0 to w
      invariant forall j :: 0 <= j < i ==> internal[j] == LNode(hash, pk, id, l, j)
      invariant forall j :: i <= j < 2 * w ==> internal[j] == LNode(hash, pk, id, l - 1, j)
    {
      LNodeOfChildren(hash, pk, id, l, i);
      internal[i] := hash(l, idT + i, internal[2 * i], internal[2 * i + 1]);
    }
  }
}
