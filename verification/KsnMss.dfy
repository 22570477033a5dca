/** Signing and verification of the K2SN multi-time signature. */
module KsnMss {
  import opened Octets
  import opened MerkleTree
  import opened LTree
  import opened Signer
  import opened Unranking
  import opened Encoder
  import opened Packing
  import opened OneTime

  /** secret(id, j) is component key j of instance id, and matrix(id) the SWIFFT key of the
      instance: both are what the stream cipher derives from the seeds. */
  datatype Keys = Keys(secret: (nat, nat) -> SecretKey, matrix: nat -> Matrix)

  datatype Signature = Signature(id: nat, message: Message, sksum: seq<int>, pk: seq<Packed>, auth: seq<Node>)

  function Secret(k: Keys, id: nat): Secrets { (j: nat) => k.secret(id, j) }

  function Public(k: Keys, id: nat): (pk: seq<Packed>)
    ensures |pk| == COMPONENTS
  {
    seq<Packed>(COMPONENTS, j requires 0 <= j < COMPONENTS => Pack(Image(k.matrix(id), k.secret(id, j))))
  }

  /** Every public component holds the image of its secret one, coefficient by coefficient. */
  lemma PublicCoefficient(k: Keys, id: nat, j: nat, i: nat)
    requires j < COMPONENTS && i < RGLEN
    ensures Unpack(Public(k, id)[j])[i] as int == Swifft(k.matrix(id), Bits(k.secret(id, j)), i)
  {
    UnpackedImage(k.matrix(id), k.secret(id, j), i);
  }

  function AsNodes(pk: seq<Packed>): ComponentKeys
    requires |pk| == COMPONENTS
  {
    seq(COMPONENTS, j requires 0 <= j < COMPONENTS => Node(pk[j]))
  }

  /** As nodes of the L-tree the components keep their bytes and their places. */
  lemma AsNodesInjective(pk: seq<Packed>, pk': seq<Packed>)
    requires |pk| == |pk'| == COMPONENTS && AsNodes(pk) == AsNodes(pk')
    ensures pk == pk'
  {
    forall j | 0 <= j < COMPONENTS
      ensures pk[j] == pk'[j]
    {
      assert AsNodes(pk)[j].key == AsNodes(pk')[j].key;
    }
  }

  /** The leaves are the L-trees over the public component keys. */
  ghost predicate SchemeOf(s: Scheme, k: Keys) {
    forall id: nat :: s.leaf(id) == LRoot(s.hash, AsNodes(Public(k, id)), id)
  }

  /** A signature as the signer makes it for instance id. */
  ghost predicate Honest(s: Scheme, k: Keys, id: nat, ms: Message, keys: seq<int>, sig: Signature) {
    && Encodes(keys, ms)
    && sig.id == id && sig.message == ms
    && (forall i :: 0 <= i < PICK ==> 0 <= keys[i] < TOTAL)
    && sig.sksum == SubsetSum(Secret(k, id), keys, PICK)
    && sig.pk == Public(k, id)
    && IsAuthPath(s, id, sig.auth)
  }

  lemma {:induction false} KeysInRange(keys: seq<int>, n: nat, t: nat)
    requires Increasing(keys, n, t)
    ensures forall i :: 0 <= i < n ==> 0 <= keys[i] < t
  {
    if n > 0 {
      KeysInRange(keys, n - 1, t);
      NextIsNat(keys, n - 1, t);
      assert Next(keys, n - 1) <= keys[n - 1];
    }
  }

  // ---- signing ----

  class KsnSigner {
    const k: Keys
    const tree: TreeState
    const cff: CffState

    constructor (k: Keys, tree: TreeState, cff: CffState)
      ensures this.k == k && this.tree == tree && this.cff == cff
    {
      this.k, this.tree, this.cff := k, tree, cff;
    }

    ghost predicate Ready(id: nat)
      reads tree, tree.auth, tree.keep, tree.instance, cff, cff.binoTab
    {
      && tree.Ready(id) && id < Leaves(tree.s) && SchemeOf(tree.s, k)
      && cff.Ready()
    }

    /** Adds the selected secret keys bit by bit; with 131 of them no byte overflows. */
    method SumSecrets(id: nat, keys: seq<int>) returns (sksum: seq<int>)
      requires |keys| == PICK && forall i :: 0 <= i < PICK ==> 0 <= keys[i] < TOTAL
      ensures sksum == SubsetSum(Secret(k, id), keys, PICK)
    {
      ghost var sk := Secret(k, id);
      var sum := new int[SKBITS](_ => 0);
      for le := 0 to PICK
        invariant forall b :: 0 <= b < SKBITS ==> sum[b] == SubsetBit(sk, keys, b, le)
      {
        AddBits(k.secret(id, keys[le]), sum);
      }
      sksum := sum[..];
    }

    method AddBits(key: SecretKey, sum: array<int>)
      requires sum.Length == SKBITS
      modifies sum
      ensures forall b :: 0 <= b < SKBITS ==> sum[b] == old(sum[b]) + BitAt(key, b)
    {
      hide Bit;
      var b := 0;
      for i := 0 to SKLEN
        invariant b == 8 * i
        invariant forall c :: 0 <= c < b ==> sum[c] == old(sum[c]) + BitAt(key, c)
        invariant forall c :: b <= c < SKBITS ==> sum[c] == old(sum[c])
      {
        for j := 0 to 8
          invariant b == 8 * i + j
          invariant forall c :: 0 <= c < b ==> sum[c] == old(sum[c]) + BitAt(key, c)
          invariant forall c :: b <= c < SKBITS ==> sum[c] == old(sum[c])
        {
          assert b / 8 == i && b % 8 == j;
          sum[b] := sum[b] + Bit(key[i], j);
          b := b + 1;
        }
      }
    }

    /** Signs with instance id and moves the tree on, unless this was the last leaf. */
    method Sign(id: nat, ms: Message) returns (sig: Signature, ghost keys: seq<int>)
      requires Ready(id)
      modifies cff`msg, cff.componentKey, tree`done, tree.auth, tree.keep, tree.instance
      ensures Honest(tree.s, k, id, ms, keys, sig)
      ensures id + 1 < Leaves(tree.s) ==> Ready(id + 1)
    {
      var pk := Public(k, id);
      cff.Encode(ms);
      keys := cff.componentKey[..];
      KeysInRange(keys, PICK, TOTAL);
      var sksum := SumSecrets(id, cff.componentKey[..]);
      sig := Signature(id, ms, sksum, pk, tree.auth[..]);
      if id + 1 < Leaves(tree.s) {
        var leaf := CreateLTree(tree.s.hash, AsNodes(pk), id);
        tree.Update(id, leaf);
      }
    }
  }

  // ---- verification ----

  /** A 32-bit accumulator of differences. */
  function Gap(a: seq<int>, b: seq<int>, n: nat): int
    requires n <= |a| && n <= |b|
  {
    if n == 0 then 0 else (Gap(a, b, n - 1) + (a[n - 1] - b[n - 1])) % 0x1_0000_0000
  }

  /** The accumulator is the difference of the totals, taken modulo 2^32. */
  lemma {:induction false} GapIsDifference(a: seq<int>, b: seq<int>, n: nat)
    requires n <= |a| && n <= |b|
    ensures Gap(a, b, n) == (Total(a[..n]) - Total(b[..n])) % 0x1_0000_0000
  {
    if n > 0 {
      GapIsDifference(a, b, n - 1);
      TotalOfNext(a, n - 1);
      TotalOfNext(b, n - 1);
    }
  }

  /** For up to 72 values of at most 256 it shows whether the totals agree. */
  lemma GapDecides(a: seq<int>, b: seq<int>)
    requires |a| == |b| <= PKLEN && forall i :: 0 <= i < |a| ==> 0 <= a[i] <= 256 && 0 <= b[i] <= 256
    ensures Gap(a, b, |a|) == 0 <==> Total(a) == Total(b)
  {
    assert a[..|a|] == a && b[..|b|] == b;
    GapIsDifference(a, b, |a|);
    TotalRange(a);
    TotalRange(b);
  }

  function ImageOf(m: Matrix, x: Vector): (r: seq<int>)
    ensures |r| == RGLEN
  {
    seq(RGLEN, i requires 0 <= i < RGLEN => Swifft(m, x, i))
  }

  function PublicSum(pk: seq<Packed>, keys: seq<int>): (r: seq<int>)
    requires |pk| == COMPONENTS && |keys| == PICK && forall l :: 0 <= l < PICK ==> 0 <= keys[l] < TOTAL
    ensures |r| == RGLEN
  {
    seq(RGLEN, i requires 0 <= i < RGLEN => CoefSum(At(pk), keys, i, PICK) % 257)
  }

  function At(pk: seq<Packed>): PublicKeys { (j: nat) => if j < |pk| then pk[j] else seq(PKLEN, _ => 0) }

  /** The 72 bytes of a node. */
  function BytesOf(n: Node): seq<int> {
    seq(PKLEN, i requires 0 <= i < PKLEN => if i < |n.key| then n.key[i] as int else 0)
  }

  /** Changing one byte of a node changes the total of its bytes by the difference. */
  lemma OneByteChanged(n: Node, j: nat, v: Octet)
    requires |n.key| == PKLEN && j < PKLEN
    ensures Total(BytesOf(Node(n.key[j := v]))) - Total(BytesOf(n)) == v as int - n.key[j] as int
  {
    TotalOfUpdate(BytesOf(n), j, v as int);
    assert BytesOf(Node(n.key[j := v])) == BytesOf(n)[j := v as int];
  }

  /** Every coefficient of the public sum is the total, modulo 257, of that coefficient over
      the selected components. */
  lemma PublicSumIsTotal(pk: seq<Packed>, keys: seq<int>, i: nat)
    requires |pk| == COMPONENTS && |keys| == PICK && forall l :: 0 <= l < PICK ==> 0 <= keys[l] < TOTAL
    requires i < RGLEN
    ensures PublicSum(pk, keys)[i]
         == Total(seq(PICK, l requires 0 <= l < PICK => Unpack(pk[keys[l]])[i] as int)) % 257
  {
    hide Unpack, Total;
    CoefSumIsTotal(At(pk), keys, i, PICK);
    assert seq(PICK, l requires 0 <= l < PICK => Unpack(pk[keys[l]])[i] as int)
        == seq(PICK, l requires 0 <= l < PICK => Unpack(At(pk)(keys[l]))[i] as int);
  }

  /** The summed secret is in range, and the two accumulated differences vanish. */
  ghost predicate Passes(s: Scheme, k: Keys, id: nat, keys: seq<int>, sig: Signature, root: Node) {
    && |keys| == PICK && (forall l :: 0 <= l < PICK ==> 0 <= keys[l] < TOTAL)
    && |sig.sksum| == SKBITS && |sig.pk| == COMPONENTS
    && (forall i :: 0 <= i < SKBITS ==> sig.sksum[i] <= 131)
    && Total(ImageOf(k.matrix(id), sig.sksum)) == Total(PublicSum(sig.pk, keys))
    && Total(BytesOf(root)) == Total(BytesOf(Climb(s, LRoot(s.hash, AsNodes(sig.pk), id), id, sig.auth, 0)))
  }

  /** An honest signature is in range, its image is the sum of the selected public components
      and its path leads to the root, whatever the message. */
  lemma HonestIsAccepted(s: Scheme, k: Keys, id: nat, ms: Message, keys: seq<int>, sig: Signature)
    requires SchemeOf(s, k) && id < Leaves(s) && Honest(s, k, id, ms, keys, sig)
    ensures forall i :: 0 <= i < SKBITS ==> sig.sksum[i] <= 131
    ensures ImageOf(k.matrix(id), sig.sksum) == PublicSum(sig.pk, keys)
    ensures Climb(s, LRoot(s.hash, AsNodes(sig.pk), id), id, sig.auth, 0) == Root(s)
    ensures Passes(s, k, id, keys, sig, Root(s))
  {
    HonestRoot(s, k, id, sig.auth);
    HonestRange(k, id, keys);
    HonestSum(k, id, keys);
    hide Climb, LRoot, TreeNode, Public, SubsetSum, IsAuthPath, Encodes, ImageOf, PublicSum;
  }

  lemma HonestRoot(s: Scheme, k: Keys, id: nat, auth: seq<Node>)
    requires SchemeOf(s, k) && id < Leaves(s) && IsAuthPath(s, id, auth)
    ensures Climb(s, LRoot(s.hash, AsNodes(Public(k, id)), id), id, auth, 0) == Root(s)
  {
    hide Climb, LRoot, Public;
    ClimbReachesRoot(s, id, 0, auth);
  }

  lemma HonestRange(k: Keys, id: nat, keys: seq<int>)
    requires |keys| == PICK && forall i :: 0 <= i < PICK ==> 0 <= keys[i] < TOTAL
    ensures forall i :: 0 <= i < SKBITS ==> SubsetSum(Secret(k, id), keys, PICK)[i] <= 131
  {
    forall i | 0 <= i < SKBITS
      ensures SubsetSum(Secret(k, id), keys, PICK)[i] <= 131
    {
      SubsetBitRange(Secret(k, id), keys, i, PICK);
    }
  }

  lemma HonestSum(k: Keys, id: nat, keys: seq<int>)
    requires |keys| == PICK && forall i :: 0 <= i < PICK ==> 0 <= keys[i] < TOTAL
    ensures ImageOf(k.matrix(id), SubsetSum(Secret(k, id), keys, PICK)) == PublicSum(Public(k, id), keys)
  {
    var m, sk := k.matrix(id), Secret(k, id);
    forall i: nat | i < RGLEN
      ensures Swifft(m, SubsetSum(sk, keys, PICK), i) == CoefSum(At(Public(k, id)), keys, i, PICK) % 257
    {
      ImageOfSum(m, sk, keys, i, PICK);
      CoefSumOfImages(m, sk, At(Public(k, id)), keys, i, PICK);
    }
  }

  method GapOf(a: seq<int>, b: seq<int>) returns (gap: int)
    requires |a| == |b|
    ensures gap == Gap(a, b, |a|)
  {
    gap := 0;
    for i := 0 to |a|
      invariant gap == Gap(a, b, i)
    {
      gap := (gap + (a[i] - b[i])) % 0x1_0000_0000;
    }
  }

  /** Unpacks the selected public components and adds them up, reducing once at the end. */
  method AddPublic(pk: seq<Packed>, keys: seq<int>) returns (sum: seq<int>)
    requires |pk| == COMPONENTS && |keys| == PICK && forall l :: 0 <= l < PICK ==> 0 <= keys[l] < TOTAL
    ensures sum == PublicSum(pk, keys)
  {
    hide Unpack;
    var acc := new int[RGLEN](_ => 0);
    var temp := new bv16[RGLEN](_ => 0);
    for le := 0 to PICK
      invariant forall i :: 0 <= i < RGLEN ==> acc[i] == CoefSum(At(pk), keys, i, le)
    {
      ConvertRing(pk[keys[le]], temp);
      AddRing(temp[..], acc);
    }
    sum := seq(RGLEN, i requires 0 <= i < RGLEN reads acc => acc[i] % 257);
  }

  method AddRing(coefs: seq<bv16>, acc: array<int>)
    requires |coefs| == acc.Length == RGLEN
    modifies acc
    ensures forall c :: 0 <= c < RGLEN ==> acc[c] == old(acc[c]) + coefs[c] as int
  {
    for i := 0 to RGLEN
      invariant forall c :: 0 <= c < i ==> acc[c] == old(acc[c]) + coefs[c] as int
      invariant forall c :: i <= c < RGLEN ==> acc[c] == old(acc[c])
    {
      acc[i] := acc[i] + coefs[i] as int;
    }
  }

  /** Recomputes the root from the component keys and the path of the signature. */
  method RecomputeRoot(s: Scheme, id0: nat, sig: Signature) returns (present: Node)
    requires |sig.pk| == COMPONENTS && |sig.auth| == s.height
    ensures present == Climb(s, LRoot(s.hash, AsNodes(sig.pk), id0), id0, sig.auth, 0)
  {
    hide LRoot;
    present := CreateLTree(s.hash, AsNodes(sig.pk), id0);
    var id := id0;
    for i := 0 to s.height
      invariant Climb(s, present, id, sig.auth, i) == Climb(s, LRoot(s.hash, AsNodes(sig.pk), id0), id0, sig.auth, 0)
    {
      present := if id % 2 == 0 then s.hash(i + LLENGTH + 1, id / 2, present, sig.auth[i])
                 else s.hash(i + LLENGTH + 1, id / 2, sig.auth[i], present);
      id := id / 2;
    }
  }

  /** The exact answer on every signature. 3: an entry of the summed secret exceeds 131. 2: the
      coefficients of its image and of the public sum differ in total. 1: those agree, but the
      bytes of the public root and of the recomputed one differ in total. 0: all agree. */
  method Verify(s: Scheme, k: Keys, cff: CffState, mssPk: Node, id: nat, ms: Message, sig: Signature)
    returns (res: int, ghost keys: seq<int>)
    requires cff.Ready() && |sig.sksum| == SKBITS && |sig.pk| == COMPONENTS && |sig.auth| == s.height
    modifies cff`msg, cff.componentKey
    ensures 0 <= res <= 3
    ensures res == 3 <==> exists i :: 0 <= i < SKBITS && sig.sksum[i] > 131
    ensures res != 3 ==> Encodes(keys, ms) && |keys| == PICK && forall l :: 0 <= l < PICK ==> 0 <= keys[l] < TOTAL
    ensures res != 3 ==>
      (res == 2 <==> Total(ImageOf(k.matrix(id), sig.sksum)) != Total(PublicSum(sig.pk, keys)))
    ensures res < 2 ==>
      (res == 0 <==>
         Total(BytesOf(mssPk)) == Total(BytesOf(Climb(s, LRoot(s.hash, AsNodes(sig.pk), id), id, sig.auth, 0))))
  {
    keys := [];
    hide Climb, LRoot, Encodes, Gap, Total;
    for i := 0 to SKBITS
      invariant forall j :: 0 <= j < i ==> sig.sksum[j] <= 131
    {
      if sig.sksum[i] > 131 {
        return 3, keys;
      }
    }
    cff.Encode(ms);
    keys := cff.componentKey[..];
    EncodingInRange(keys, ms);
    var sum := AddPublic(sig.pk, cff.componentKey[..]);
    var image := ImageOf(k.matrix(id), sig.sksum);
    var gap := GapOf(image, sum);
    Residues(k.matrix(id), sig.sksum, sig.pk, keys);
    hide PublicSum, ImageOf;
    GapDecides(image, sum);
    if gap != 0 {
      return 2, keys;
    }
    var present := RecomputeRoot(s, id, sig);
    gap := GapOf(BytesOf(mssPk), BytesOf(present));
    GapDecides(BytesOf(mssPk), BytesOf(present));
    res := if gap == 0 then 0 else 1;
  }

  lemma Residues(m: Matrix, x: Vector, pk: seq<Packed>, keys: seq<int>)
    requires |pk| == COMPONENTS && |keys| == PICK && forall l :: 0 <= l < PICK ==> 0 <= keys[l] < TOTAL
    ensures forall i :: 0 <= i < RGLEN ==> 0 <= ImageOf(m, x)[i] <= 256 && 0 <= PublicSum(pk, keys)[i] <= 256
  {
    hide Dot, CoefSum;
  }

  lemma EncodingInRange(keys: seq<int>, ms: Message)
    requires Encodes(keys, ms)
    ensures |keys| == PICK && forall l :: 0 <= l < PICK ==> 0 <= keys[l] < TOTAL
  {
    KeysInRange(keys, PICK, TOTAL);
  }

  /** A verifier that encodes the same message accepts the signature: the two encodings are
      the same, and the signature is honest for it. */
  lemma SignatureVerifies(s: Scheme, k: Keys, id: nat, ms: Message, keys: seq<int>, keys': seq<int>, sig: Signature)
    requires SchemeOf(s, k) && id < Leaves(s) && Honest(s, k, id, ms, keys, sig)
    requires Encodes(keys', ms)
    ensures keys' == keys && Passes(s, k, id, keys', sig, Root(s))
  {
    EncodingIsUnique(ms, keys, keys');
    HonestIsAccepted(s, k, id, ms, keys, sig);
  }

  lemma HonestShape(s: Scheme, k: Keys, id: nat, ms: Message, keys: seq<int>, sig: Signature)
    requires Honest(s, k, id, ms, keys, sig)
    ensures |sig.sksum| == SKBITS && |sig.pk| == COMPONENTS && |sig.auth| == s.height
    ensures sig.id == id && sig.message == ms && IsAuthPath(s, id, sig.auth)
    ensures !(exists i :: 0 <= i < SKBITS && sig.sksum[i] > 131)
  {
    HonestRange(k, id, keys);
  }

  /** The signature is honest for the message, it passes the checks, and the verifier accepts it. */
  ghost predicate Accepted(s: Scheme, k: Keys, id: nat, ms: Message, keys: seq<int>, sig: Signature, res: int) {
    Honest(s, k, id, ms, keys, sig) && Passes(s, k, id, keys, sig, Root(s)) && res == 0
  }

  /** One signature, checked at once against the public root. */
  method SignAndVerify(signer: KsnSigner, id: nat, ms: Message)
    returns (sig: Signature, res: int, ghost keys: seq<int>)
    requires signer.Ready(id) && signer.tree.mssPk == Root(signer.tree.s)
    modifies signer.cff`msg, signer.cff.componentKey, signer.tree`done, signer.tree.auth
    modifies signer.tree.keep, signer.tree.instance
    ensures Accepted(signer.tree.s, signer.k, id, ms, keys, sig, res)
    ensures id + 1 < Leaves(signer.tree.s) ==> signer.Ready(id + 1)
    ensures signer.cff.Ready()
  {
    var s, k := signer.tree.s, signer.k;
    hide Honest, Encodes, SubsetSum, SchemeOf, IsAuthPath, Root, Climb;
    sig, keys := signer.Sign(id, ms);
    HonestShape(s, k, id, ms, keys, sig);
    ghost var keys';
    res, keys' := Verify(s, k, signer.cff, signer.tree.mssPk, id, ms, sig);
    if res != 3 {
      SignatureVerifies(s, k, id, ms, keys, keys', sig);
    }
  }

  /** Key generation, then one signature for every leaf in order, each checked at once: over
      the whole life of the key every signature is honest, so that it holds the exact path of
      its leaf, and the verdict on it is acceptance. */
  method SignAndVerifyAll(k: Keys, tree: TreeState, cff: CffState, ms: nat -> Message)
    returns (sigs: seq<Signature>, results: seq<int>, ghost keys: seq<seq<int>>)
    requires tree.Shape() && tree.StackSizes() && SchemeOf(tree.s, k) && cff.Ready()
    modifies tree, tree.auth, tree.keep, tree.instance, cff, cff.componentKey
    ensures |sigs| == |results| == |keys| == Leaves(tree.s)
    ensures forall id :: 0 <= id < |sigs| ==> Accepted(tree.s, k, id, ms(id), keys[id], sigs[id], results[id])
  {
    hide Root, SchemeOf, Accepted;
    tree.KeyGeneration();
    var signer := new KsnSigner(k, tree, cff);
    sigs, results, keys := [], [], [];
    var id := 0;
    while id < Leaves(tree.s)
      invariant 0 <= id <= Leaves(tree.s) && |sigs| == |results| == |keys| == id
      invariant id < Leaves(tree.s) ==> signer.Ready(id)
      invariant tree.mssPk == Root(tree.s)
      invariant forall i :: 0 <= i < |sigs| ==> Accepted(tree.s, k, i, ms(i), keys[i], sigs[i], results[i])
    {
      var sig, res; ghost var subset;
      sig, res, subset := SignAndVerify(signer, id, ms(id));
      sigs, results, keys := sigs + [sig], results + [res], keys + [subset];
      id := id + 1;
    }
  }
}
