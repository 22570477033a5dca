/** The one-time signature: SWIFFT as a linear map over Z_257, sums of secret component
    keys, and why their image is the sum of the public component keys. */
module OneTime {
  import opened Octets
  import opened Packing

  const SKLEN: nat := 128
  const SKBITS: nat := 1024

  type SecretKey = k: seq<Octet> | |k| == SKLEN witness seq(SKLEN, _ => 0)
  type Vector = x: seq<int> | |x| == SKBITS witness seq(SKBITS, _ => 0)

  /** matrix(i, k): the weight of input coordinate k in output coordinate i, for the SWIFFT
      key of one instance. */
  type Matrix = (nat, nat) -> int

  // ---- bits ----

  function BitAt(sk: SecretKey, k: nat): int
    requires k < SKBITS
  {
    Bit(sk[k / 8], k % 8)
  }

  function Bits(sk: SecretKey): Vector { seq(SKBITS, k requires 0 <= k < SKBITS => BitAt(sk, k)) }

  // ---- totals ----

  function Total(s: seq<int>): int { if s == [] then 0 else Total(s[..|s| - 1]) + s[|s| - 1] }

  lemma TotalOfNext(s: seq<int>, n: nat)
    requires n < |s|
    ensures Total(s[..n + 1]) == Total(s[..n]) + s[n]
  {
    assert s[..n + 1][..n] == s[..n];
  }

  /** Changing one entry changes the total by the difference. */
  lemma {:induction false} TotalOfUpdate(s: seq<int>, i: nat, v: int)
    requires i < |s|
    ensures Total(s[i := v]) - Total(s) == v - s[i]
  {
    var n := |s| - 1;
    if i < n {
      TotalOfUpdate(s[..n], i, v);
      assert s[i := v][..n] == s[..n][i := v];
    } else {
      assert s[i := v][..n] == s[..n];
    }
  }

  lemma {:induction false} TotalOfZeros(s: seq<int>)
    requires forall i :: 0 <= i < |s| ==> s[i] == 0
    ensures Total(s) == 0
  {
    if s != [] {
      TotalOfZeros(s[..|s| - 1]);
    }
  }

  lemma {:induction false} TotalRange(s: seq<int>)
    requires forall i :: 0 <= i < |s| ==> 0 <= s[i] <= 256
    ensures 0 <= Total(s) <= 256 * |s|
  {
    if s != [] {
      TotalRange(s[..|s| - 1]);
    }
  }

  // ---- the linear map ----

  function Dot(m: Matrix, i: nat, x: Vector, n: nat): int
    requires n <= SKBITS
  {
    if n == 0 then 0 else Dot(m, i, x, n - 1) + m(i, n - 1) * x[n - 1]
  }

  /** SWIFFT on a 0/1 vector, and gSWIFFT on any vector: the image modulo 257. */
  function Swifft(m: Matrix, x: Vector, i: nat): int { Dot(m, i, x, SKBITS) % 257 }

  lemma {:induction false} DotAdds(m: Matrix, i: nat, x: Vector, y: Vector, z: Vector, n: nat)
    requires n <= SKBITS && forall k :: 0 <= k < SKBITS ==> z[k] == x[k] + y[k]
    ensures Dot(m, i, z, n) == Dot(m, i, x, n) + Dot(m, i, y, n)
  {
    if n > 0 {
      DotAdds(m, i, x, y, z, n - 1);
      assert m(i, n - 1) * (x[n - 1] + y[n - 1]) == m(i, n - 1) * x[n - 1] + m(i, n - 1) * y[n - 1];
    }
  }

  lemma {:induction false} DotZero(m: Matrix, i: nat, x: Vector, n: nat)
    requires n <= SKBITS && forall k :: 0 <= k < SKBITS ==> x[k] == 0
    ensures Dot(m, i, x, n) == 0
  {
    if n > 0 {
      DotZero(m, i, x, n - 1);
    }
  }

  function Unit(k: nat): Vector { seq(SKBITS, j => if j == k then 1 else 0) }

  /** The image of a unit vector is a column of the matrix. With DotAdds this determines the map. */
  lemma ImageOfUnit(m: Matrix, i: nat, k: nat)
    requires k < SKBITS
    ensures Swifft(m, Unit(k), i) == m(i, k) % 257
  {
    DotOfUnit(m, i, k, SKBITS);
  }

  lemma {:induction false} DotOfUnit(m: Matrix, i: nat, k: nat, n: nat)
    requires k < SKBITS && n <= SKBITS
    ensures Dot(m, i, Unit(k), n) == if k < n then m(i, k) else 0
  {
    if n > 0 {
      DotOfUnit(m, i, k, n - 1);
    }
  }

  /** The image of a secret component key: 64 coefficients. */
  function Image(m: Matrix, sk: SecretKey): RingElement {
    seq(RGLEN, i requires 0 <= i < RGLEN => Swifft(m, Bits(sk), i) as bv16)
  }

  /** A vector that holds the image modulo 257 is packed to the public component key. */
  lemma ReducedIsImage(m: Matrix, sk: SecretKey, w: Words)
    requires forall i: nat :: i < RGLEN ==> w[i] % 257 == Swifft(m, Bits(sk), i)
    ensures Pack(Reduced(w)) == Pack(Image(m, sk))
  {
    hide Bits, Swifft, Pack;
    assert Reduced(w) == Image(m, sk);
  }

  // ---- sums over a subset of components ----

  type Secrets = (nat) -> SecretKey

  /** Coordinate k of the sum of the first n selected secret keys, over the integers. */
  function SubsetBit(sk: Secrets, keys: seq<int>, k: nat, n: nat): int
    requires k < SKBITS && n <= |keys| && forall l :: 0 <= l < n ==> 0 <= keys[l]
  {
    if n == 0 then 0 else SubsetBit(sk, keys, k, n - 1) + BitAt(sk(keys[n - 1]), k)
  }

  function SubsetSum(sk: Secrets, keys: seq<int>, n: nat): Vector
    requires n <= |keys| && forall l :: 0 <= l < n ==> 0 <= keys[l]
  {
    seq(SKBITS, k requires 0 <= k < SKBITS => SubsetBit(sk, keys, k, n))
  }

  lemma {:induction false} SubsetBitRange(sk: Secrets, keys: seq<int>, k: nat, n: nat)
    requires k < SKBITS && n <= |keys| && forall l :: 0 <= l < n ==> 0 <= keys[l]
    ensures 0 <= SubsetBit(sk, keys, k, n) <= n
  {
    if n > 0 {
      SubsetBitRange(sk, keys, k, n - 1);
    }
  }

  /** Each coordinate of the sum counts the selected secret keys that have this bit set. */
  lemma {:induction false} SubsetBitCounts(sk: Secrets, keys: seq<int>, k: nat, n: nat)
    requires k < SKBITS && n <= |keys| && forall l :: 0 <= l < n ==> 0 <= keys[l]
    ensures SubsetBit(sk, keys, k, n) == |set l | 0 <= l < n && BitAt(sk(keys[l]), k) == 1|
  {
    hide Bit;
    if n > 0 {
      SubsetBitCounts(sk, keys, k, n - 1);
      var before := set l | 0 <= l < n - 1 && BitAt(sk(keys[l]), k) == 1;
      assert (set l | 0 <= l < n && BitAt(sk(keys[l]), k) == 1)
          == if BitAt(sk(keys[n - 1]), k) == 1 then before + {n - 1} else before;
      BitIsBinary(sk(keys[n - 1])[k / 8], k % 8);
    }
  }

  /** Sum of coordinate i of the first n selected public components, before reduction. */
  function ImageSum(m: Matrix, sk: Secrets, keys: seq<int>, i: nat, n: nat): int
    requires i < RGLEN && n <= |keys| && forall l :: 0 <= l < n ==> 0 <= keys[l]
  {
    if n == 0 then 0 else ImageSum(m, sk, keys, i, n - 1) + Swifft(m, Bits(sk(keys[n - 1])), i)
  }

  lemma ModAdds(a: int, b: int, c: int)
    requires a % 257 == b % 257
    ensures (a + c) % 257 == (b + c % 257) % 257
  {
  }

  /** The image of the sum is the sum of the images, modulo 257. */
  lemma {:induction false} ImageOfSum(m: Matrix, sk: Secrets, keys: seq<int>, i: nat, n: nat)
    requires i < RGLEN && n <= |keys| && forall l :: 0 <= l < n ==> 0 <= keys[l]
    ensures Swifft(m, SubsetSum(sk, keys, n), i) == ImageSum(m, sk, keys, i, n) % 257
  {
    if n == 0 {
      DotZero(m, i, SubsetSum(sk, keys, 0), SKBITS);
    } else {
      ImageOfSum(m, sk, keys, i, n - 1);
      var x, y, z := SubsetSum(sk, keys, n - 1), Bits(sk(keys[n - 1])), SubsetSum(sk, keys, n);
      DotAdds(m, i, x, y, z, SKBITS);
      ModAdds(Dot(m, i, x, SKBITS), ImageSum(m, sk, keys, i, n - 1), Dot(m, i, y, SKBITS));
    }
  }

  // ---- what the verifier adds up ----

  type PublicKeys = (nat) -> Packed

  function CoefSum(pk: PublicKeys, keys: seq<int>, i: nat, n: nat): nat
    requires i < RGLEN && n <= |keys| && forall l :: 0 <= l < n ==> 0 <= keys[l]
  {
    if n == 0 then 0 else CoefSum(pk, keys, i, n - 1) + Unpack(pk(keys[n - 1]))[i] as nat
  }

  /** The sum is the total of that coefficient over the selected components. */
  lemma {:induction false} CoefSumIsTotal(pk: PublicKeys, keys: seq<int>, i: nat, n: nat)
    requires i < RGLEN && n <= |keys| && forall l :: 0 <= l < n ==> 0 <= keys[l]
    ensures CoefSum(pk, keys, i, n) == Total(seq(n, l requires 0 <= l < n => Unpack(pk(keys[l]))[i] as int))
  {
    hide Unpack;
    if n > 0 {
      CoefSumIsTotal(pk, keys, i, n - 1);
      var s := seq(n, l requires 0 <= l < n => Unpack(pk(keys[l]))[i] as int);
      assert s[..n - 1] == seq(n - 1, l requires 0 <= l < n - 1 => Unpack(pk(keys[l]))[i] as int);
    }
  }

  lemma UnpackedImage(m: Matrix, sk: SecretKey, i: nat)
    requires i < RGLEN
    ensures Unpack(Pack(Image(m, sk)))[i] as int == Swifft(m, Bits(sk), i)
  {
    UnpackPack(Image(m, sk));
    CoefOfImage(m, sk, i);
  }

  /** Unpacked honest components add up to the images of the secret ones. */
  lemma {:induction false} CoefSumOfImages(m: Matrix, sk: Secrets, pk: PublicKeys, keys: seq<int>, i: nat, n: nat)
    requires i < RGLEN && n <= |keys| && forall l :: 0 <= l < n ==> 0 <= keys[l]
    requires forall l :: 0 <= l < n ==> pk(keys[l]) == Pack(Image(m, sk(keys[l])))
    ensures CoefSum(pk, keys, i, n) == ImageSum(m, sk, keys, i, n)
  {
    hide Unpack, Pack, Image, Swifft;
    if n > 0 {
      CoefSumOfImages(m, sk, pk, keys, i, n - 1);
      UnpackedImage(m, sk(keys[n - 1]), i);
    }
  }

  lemma Successor(b: bv16)
    requires b as int < 1000
    ensures (b + 1) as int == b as int + 1
  {
  }

  lemma BackFromInt(b: bv16)
    ensures (b as int) as bv16 == b
  {
  }

  lemma {:induction false} WordOf(c: int) returns (b: bv16)
    requires 0 <= c < 512
    ensures b as int == c
  {
    if c == 0 {
      b := 0;
    } else {
      var d := WordOf(c - 1);
      Successor(d);
      b := d + 1;
    }
  }

  lemma CoefValue(c: int)
    requires 0 <= c < 512
    ensures (c as bv16) as int == c
  {
    var b := WordOf(c);
    BackFromInt(b);
  }

  lemma CoefOfImage(m: Matrix, sk: SecretKey, i: nat)
    requires i < RGLEN
    ensures Image(m, sk)[i] as int == Swifft(m, Bits(sk), i)
  {
    CoefValue(Swifft(m, Bits(sk), i));
    hide Swifft;
  }
}
