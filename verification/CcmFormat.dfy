/** What the blocks of CCM carry: the fields read back from them, the blocks as a chain, and why
    no two inputs are formatted alike. */
module CcmFormat {
  import opened Octets
  import opened Ccm

  // ---- counter blocks ----

  /** A block with the flags and the nonce of a key stream and this number in its counter field. */
  predicate Counts(a: seq<Octet>, l: nat, nonce: seq<Octet>, counter: nat) {
    && (l == 2 || l == 3) && |a| == 16 && |nonce| >= 15 - l
    && OctetNumber(a[0]) == l - 1 && a[1..16 - l] == nonce[..15 - l] && FromBigEndian(a, 16 - l, l) == counter
  }

  lemma CounterReadBack(l: nat, nonce: seq<Octet>, counter: nat)
    requires (l == 2 || l == 3) && |nonce| >= 15 - l && counter < Range(l)
    ensures Counts(CounterBlock(l, nonce, counter), l, nonce, counter)
  {
    hide Range, BigEndian, FromBigEndian, ByteOf, OctetNumber;
    var a := CounterBlock(l, nonce, counter);
    Fields(ByteOf(l - 1), nonce[..15 - l], BigEndian(counter, l));
    ReadBack(a, 16 - l, l, counter);
    NumberOfByte(l - 1);
  }

  lemma Fields(flags: Octet, nonce: seq<Octet>, field: seq<Octet>)
    ensures var a, n := [flags] + nonce + field, 1 + |nonce|;
            a[0] == flags && a[1..n] == nonce && a[n..n + |field|] == field
  {
  }

  /** The blocks for the tag and for all bytes of a message that fits are pairwise different. */
  lemma CountersDiffer(l: nat, nonce: seq<Octet>, lm: nat, i: nat, j: nat)
    requires (l == 2 || l == 3) && |nonce| >= 15 - l && lm < Range(l) && i < j <= lm / 16 + 1
    ensures CounterBlock(l, nonce, i) != CounterBlock(l, nonce, j)
  {
    assert Range(2) == 65536 && Range(3) == 16777216;
    CounterReadBack(l, nonce, i);
    CounterReadBack(l, nonce, j);
  }

  /** Byte k of an encrypted message is masked by the enciphered block that counts k / 16 + 1, and
      the authentication value by the one that counts 0. */
  lemma MaskedByCounter(e: Cipher, m: nat, l: nat, nonce: seq<Octet>, plain: seq<Octet>, aad: seq<Octet>, k: nat,
                        a: Block)
    requires Parameters(m, l) && |nonce| >= 15 - l && |plain| < Range(l) && k < |plain| + m
    requires Counts(a, l, nonce, if k < |plain| then k / 16 + 1 else 0)
    ensures k < |plain| ==> Sealed(e, m, l, nonce, plain, aad)[k] == XorByte(plain[k], e(a)[k % 16])
    ensures k >= |plain| ==>
      Sealed(e, m, l, nonce, plain, aad)[k]
      == XorByte(Authentication(e, m, l, nonce, plain, aad)[k - |plain|], e(a)[k - |plain|])
  {
    hide XorByte, Authentication, CounterBlock, Range, Counts;
    var counter := if k < |plain| then k / 16 + 1 else 0;
    CounterInRange(|plain|, l, k);
    CounterReadBack(l, nonce, counter);
    CountsOnce(l, nonce, counter, a, CounterBlock(l, nonce, counter));
  }

  lemma CounterInRange(lm: nat, l: nat, k: nat)
    requires (l == 2 || l == 3) && lm < Range(l)
    ensures k <= lm ==> k / 16 + 1 < Range(l)
    ensures 0 < Range(l)
  {
    assert Range(2) == 65536 && Range(3) == 16777216;
  }

  lemma CountsOnce(l: nat, nonce: seq<Octet>, counter: nat, a: Block, b: Block)
    requires Counts(a, l, nonce, counter) && Counts(b, l, nonce, counter)
    ensures a == b
  {
    SameNumber(a, b, 16 - l, l);
    Apart(a, l);
    Apart(b, l);
  }

  lemma Apart(a: Block, l: nat)
    requires 0 < l < 15
    ensures a == [a[0]] + a[1..16 - l] + a[16 - l..16 - l + l]
  {
  }

  /** Bytes that denote the same number are the same. */
  lemma {:induction false} SameNumber(a: seq<Octet>, b: seq<Octet>, at: nat, n: nat)
    requires at + n <= |a| && at + n <= |b| && FromBigEndian(a, at, n) == FromBigEndian(b, at, n)
    ensures a[at..at + n] == b[at..at + n]
  {
    hide FromBigEndian, OctetNumber;
    if n > 0 {
      LastOctet(a, at, n);
      LastOctet(b, at, n);
      SameNumber(a, b, at, n - 1);
      SameOctet(a[at + n - 1], b[at + n - 1]);
    }
  }

  lemma LastOctet(a: seq<Octet>, at: nat, n: nat)
    requires 0 < n && at + n <= |a|
    ensures FromBigEndian(a, at, n) == 256 * FromBigEndian(a, at, n - 1) + OctetNumber(a[at + n - 1])
    ensures a[at..at + n] == a[at..at + (n - 1)] + [a[at + n - 1]]
  {
  }

  // ---- the first block and the length of the data ----

  /** The first authentication block tells whether there is data, both parameters, the nonce and
      the length of the message. */
  lemma Block0ReadBack(m: nat, l: nat, la: nat, lm: nat, nonce: seq<Octet>)
    requires Parameters(m, l) && |nonce| >= 15 - l && lm < Range(l)
    ensures var b := Block0(m, l, la, lm, nonce);
            && OctetNumber(b[0]) / 64 == (if la > 0 then 1 else 0)
            && 2 * (OctetNumber(b[0]) / 8 % 8) + 2 == m && OctetNumber(b[0]) % 8 + 1 == l
            && b[1..16 - l] == nonce[..15 - l] && FromBigEndian(b, 16 - l, l) == lm
  {
    hide Range, BigEndian, FromBigEndian, ByteOf, OctetNumber;
    var b := Block0(m, l, la, lm, nonce);
    var adata := if la > 0 then 1 else 0;
    Fields(ByteOf(64 * adata + 8 * ((m - 2) / 2) + (l - 1)), nonce[..15 - l], BigEndian(lm, l));
    ReadBack(b, 16 - l, l, lm);
    FlagsReadBack(adata, m, l, b[0]);
  }

  lemma FlagsReadBack(adata: nat, m: nat, l: nat, b: Octet)
    requires adata < 2 && Parameters(m, l) && b == ByteOf(64 * adata + 8 * ((m - 2) / 2) + (l - 1))
    ensures OctetNumber(b) / 64 == adata && 2 * (OctetNumber(b) / 8 % 8) + 2 == m && OctetNumber(b) % 8 + 1 == l
  {
    hide ByteOf, OctetNumber;
    var x := (m - 2) / 2;
    Halved(m);
    NumberOfByte(64 * adata + 8 * x + (l - 1));
    FlagParts(adata, x, l - 1, OctetNumber(b));
  }

  lemma Halved(m: nat)
    requires 4 <= m <= 16 && m % 2 == 0
    ensures 2 * ((m - 2) / 2) + 2 == m && 0 <= (m - 2) / 2 < 8
  {
  }

  lemma FlagParts(adata: nat, x: nat, y: nat, f: nat)
    requires adata < 2 && x < 8 && y < 8 && f == (64 * adata + 8 * x + y) % 256
    ensures f / 64 == adata && f / 8 % 8 == x && f % 8 == y
  {
    assert f == 64 * adata + 8 * x + y;
    assert f / 8 == 8 * adata + x;
  }

  /** The length that a string of authentication data starts with. */
  function LengthAhead(s: seq<Octet>): nat
    requires |s| >= 2
  {
    var first := FromBigEndian(s, 0, 2);
    if first < 0xFF00 then first
    else if first == 0xFFFE && |s| >= 6 then FromBigEndian(s, 2, 4)
    else if first == 0xFFFF && |s| >= 10 then FromBigEndian(s, 2, 8)
    else 0
  }

  lemma LengthReadBack(la: nat, rest: seq<Octet>)
    requires 0 < la < 0x1_0000_0000_0000_0000
    ensures 2 <= |AadLength(la)| && LengthAhead(AadLength(la) + rest) == la
  {
    var s := AadLength(la) + rest;
    Ranges();
    hide Range;
    if la < 0xFF00 {
      assert s[0..0 + 2] == BigEndian(la, 2);
      ReadBack(s, 0, 2, la);
    } else if la < 0x1_0000_0000 {
      ReadMark(s, 0xFE);
      assert s[2..2 + 4] == BigEndian(la, 4);
      ReadBack(s, 2, 4, la);
    } else {
      ReadMark(s, 0xFF);
      assert s[2..2 + 8] == BigEndian(la, 8);
      ReadBack(s, 2, 8, la);
    }
  }

  lemma Ranges()
    ensures Range(2) == 65536 && Range(4) == 0x1_0000_0000 && Range(8) == 0x1_0000_0000_0000_0000
  {
    assert Range(4) == 65536 * Range(2);
    assert Range(6) == 65536 * Range(4) && Range(8) == 65536 * Range(6);
  }

  lemma ReadMark(s: seq<Octet>, low: Octet)
    requires |s| >= 2 && s[0] == 0xFF && s[1] == low
    ensures FromBigEndian(s, 0, 2) == 0xFF00 + low as nat
  {
    assert FromBigEndian(s, 0, 1) == 255;
  }

  /** Strings with different lengths never start alike, and with the same length only if they are
      the same. */
  lemma LengthsDiffer(la: nat, la': nat, rest: seq<Octet>, rest': seq<Octet>)
    requires 0 < la < 0x1_0000_0000_0000_0000 && 0 < la' < 0x1_0000_0000_0000_0000
    requires AadLength(la) + rest == AadLength(la') + rest'
    ensures la == la' && rest == rest'
  {
    LengthReadBack(la, rest);
    LengthReadBack(la', rest');
    hide AadLength, LengthAhead;
    assert (AadLength(la) + rest)[|AadLength(la)|..] == rest;
    assert (AadLength(la) + rest')[|AadLength(la)|..] == rest';
  }

  // ---- the blocks of the authentication value ----

  function Zeros16(): Block { seq(16, _ => 0) }

  /** CBC-MAC of a list of blocks: each is added to what the blocks before it have left. */
  function Cbc(e: Cipher, blocks: seq<Block>): Block {
    if blocks == [] then Zeros16()
    else e(Xor(Cbc(e, blocks[..|blocks| - 1]), blocks[|blocks| - 1]))
  }

  /** The first n blocks of a string. */
  function Cut(s: seq<Octet>, n: nat): (blocks: seq<Block>)
    ensures |blocks| == n
  {
    seq(n, i requires 0 <= i < n => BlockAt(s, i))
  }

  /** The blocks B_0, B_1, ... of section 2.2 of RFC 3610. */
  function Formatted(m: nat, l: nat, nonce: seq<Octet>, plain: seq<Octet>, aad: seq<Octet>): seq<Block>
    requires Parameters(m, l) && |nonce| >= 15 - l
  {
    var a := AadLength(|aad|) + aad;
    [Block0(m, l, |aad|, |plain|, nonce)] + Cut(a, Blocks(|a|)) + Cut(plain, Blocks(|plain|))
  }

  lemma {:induction false} CbcOfCut(e: Cipher, blocks: seq<Block>, s: seq<Octet>, n: nat)
    ensures Cbc(e, blocks + Cut(s, n)) == MacUpTo(e, Cbc(e, blocks), s, n)
  {
    hide BlockAt, Xor;
    if n == 0 {
      assert blocks + Cut(s, 0) == blocks;
    } else {
      CbcOfCut(e, blocks, s, n - 1);
      var all := blocks + Cut(s, n);
      assert all[..|all| - 1] == blocks + Cut(s, n - 1) && all[|all| - 1] == BlockAt(s, n - 1);
    }
  }

  lemma CbcOfOne(e: Cipher, b: Block)
    ensures Cbc(e, [b]) == e(b)
  {
    forall i | 0 <= i < 16
      ensures XorByte(Zeros16()[i], b[i]) == b[i]
    {
      XorTwice(b[i], 0);
      XorZero(b[i]);
    }
    hide XorByte;
    assert Xor(Zeros16(), b) == b;
    assert [b][..0] == [] && Cbc(e, []) == Zeros16();
  }

  /** The authentication value is the CBC-MAC of the formatted blocks. */
  lemma AuthenticationIsCbc(e: Cipher, m: nat, l: nat, nonce: seq<Octet>, plain: seq<Octet>, aad: seq<Octet>)
    requires Parameters(m, l) && |nonce| >= 15 - l
    ensures Authentication(e, m, l, nonce, plain, aad) == Cbc(e, Formatted(m, l, nonce, plain, aad))
  {
    hide Cbc, MacUpTo, Block0, AadLength, Cut;
    var a, b0 := AadLength(|aad|) + aad, Block0(m, l, |aad|, |plain|, nonce);
    CbcOfOne(e, b0);
    CbcOfCut(e, [b0], a, Blocks(|a|));
    CbcOfCut(e, [b0] + Cut(a, Blocks(|a|)), plain, Blocks(|plain|));
  }

  /** Under a cipher that merges no blocks, changing one block changes the chain. */
  lemma {:induction false} OneBlockChanged(e: Cipher, blocks: seq<Block>, i: nat, v: Block)
    requires (forall x, y :: e(x) == e(y) ==> x == y) && i < |blocks| && v != blocks[i]
    ensures Cbc(e, blocks[i := v]) != Cbc(e, blocks)
  {
    hide Xor;
    var n := |blocks| - 1;
    if i < n {
      OneBlockChanged(e, blocks[..n], i, v);
      assert blocks[i := v][..n] == blocks[..n][i := v];
      XorDiffers(Cbc(e, blocks[..n]), Cbc(e, blocks[..n][i := v]), blocks[n]);
    } else {
      assert blocks[i := v][..n] == blocks[..n];
      XorDiffers(blocks[n], v, Cbc(e, blocks[..n]));
      XorCommutes(Cbc(e, blocks[..n]), v);
      XorCommutes(Cbc(e, blocks[..n]), blocks[n]);
    }
  }

  lemma XorDiffers(a: Block, b: Block, c: Block)
    requires a != b
    ensures Xor(a, c) != Xor(b, c)
  {
    var i :| 0 <= i < 16 && a[i] != b[i];
    XorTwice(a[i], c[i]);
    XorTwice(b[i], c[i]);
    hide XorByte;
    assert Xor(a, c)[i] != Xor(b, c)[i];
  }

  lemma XorCommutes(a: Block, b: Block)
    ensures Xor(a, b) == Xor(b, a)
  {
    forall i | 0 <= i < 16
      ensures XorByte(a[i], b[i]) == XorByte(b[i], a[i])
    {
      XorTwice(a[i], b[i]);
    }
    hide XorByte;
  }

  /** The sum of two bytes has the bits that are set in exactly one of them. */
  lemma XorIsEither(a: Octet, b: Octet)
    ensures XorByte(a, b) == (a | b) & !(a & b)
  {
  }

  // ---- no two inputs are formatted alike ----

  lemma CutAt(s: seq<Octet>, n: nat, k: nat)
    requires k < |s| && k < 16 * n
    ensures Cut(s, n)[k / 16][k % 16] == s[k]
  {
  }

  /** Strings of the same length with the same blocks are the same. */
  lemma CutInjective(s: seq<Octet>, s': seq<Octet>)
    requires |s| == |s'| && Cut(s, Blocks(|s|)) == Cut(s', Blocks(|s|))
    ensures s == s'
  {
    var n := Blocks(|s|);
    forall k | 0 <= k < |s|
      ensures s[k] == s'[k]
    {
      CutAt(s, n, k);
      CutAt(s', n, k);
    }
  }

  /** The first block of the authentication data starts with its length. */
  lemma FirstBlock(aad: seq<Octet>)
    requires 0 < |aad|
    ensures var j := |AadLength(|aad|)|;
            BlockAt(AadLength(|aad|) + aad, 0) == AadLength(|aad|) + BlockAt(AadLength(|aad|) + aad, 0)[j..]
  {
    hide AadLength;
  }

  lemma SameData(aad: seq<Octet>, aad': seq<Octet>)
    requires 0 < |aad| < 0x1_0000_0000_0000_0000 && 0 < |aad'| < 0x1_0000_0000_0000_0000
    requires BlockAt(AadLength(|aad|) + aad, 0) == BlockAt(AadLength(|aad'|) + aad', 0)
    ensures |aad| == |aad'|
  {
    hide AadLength, BlockAt;
    var j, j' := |AadLength(|aad|)|, |AadLength(|aad'|)|;
    FirstBlock(aad);
    FirstBlock(aad');
    LengthsDiffer(|aad|, |aad'|, BlockAt(AadLength(|aad|) + aad, 0)[j..], BlockAt(AadLength(|aad'|) + aad', 0)[j'..]);
  }

  /** The blocks determine the parameters, the nonce, the data and the message. */
  lemma FormattedInjective(m: nat, l: nat, nonce: seq<Octet>, plain: seq<Octet>, aad: seq<Octet>,
                           m': nat, l': nat, nonce': seq<Octet>, plain': seq<Octet>, aad': seq<Octet>)
    requires Parameters(m, l) && |nonce| >= 15 - l && |plain| < Range(l) && |aad| < 0x1_0000_0000_0000_0000
    requires Parameters(m', l') && |nonce'| >= 15 - l' && |plain'| < Range(l') && |aad'| < 0x1_0000_0000_0000_0000
    requires Formatted(m, l, nonce, plain, aad) == Formatted(m', l', nonce', plain', aad')
    ensures m == m' && l == l' && nonce[..15 - l] == nonce'[..15 - l'] && plain == plain' && aad == aad'
  {
    hide Range, Block0, AadLength, FromBigEndian, Blocks, BlockAt, Cut;
    var f, f' := Formatted(m, l, nonce, plain, aad), Formatted(m', l', nonce', plain', aad');
    assert f[0] == f'[0];
    Block0ReadBack(m, l, |aad|, |plain|, nonce);
    Block0ReadBack(m', l', |aad'|, |plain'|, nonce');
    DataFromBlocks(f[0], aad, plain, f'[0], aad', plain', f);
  }

  lemma DataFromBlocks(b: Block, aad: seq<Octet>, plain: seq<Octet>, b': Block, aad': seq<Octet>, plain': seq<Octet>,
                       f: seq<Block>)
    requires |plain| == |plain'| && (|aad| > 0 <==> |aad'| > 0)
    requires |aad| < 0x1_0000_0000_0000_0000 && |aad'| < 0x1_0000_0000_0000_0000
    requires var a := AadLength(|aad|) + aad; f == [b] + Cut(a, Blocks(|a|)) + Cut(plain, Blocks(|plain|))
    requires var a' := AadLength(|aad'|) + aad'; f == [b'] + Cut(a', Blocks(|a'|)) + Cut(plain', Blocks(|plain'|))
    ensures plain == plain' && aad == aad'
  {
    hide AadLength, BlockAt;
    var a, a' := AadLength(|aad|) + aad, AadLength(|aad'|) + aad';
    var n := Blocks(|a|);
    AadLengthRange(|aad|);
    AadLengthRange(|aad'|);
    if |aad| > 0 {
      assert f[1] == BlockAt(a, 0) == BlockAt(a', 0);
      SameData(aad, aad');
    }
    assert f[1..1 + n] == Cut(a, n) == Cut(a', n);
    CutInjective(a, a');
    assert aad == a[|AadLength(|aad|)|..] == aad';
    assert f[1 + n..] == Cut(plain, Blocks(|plain|)) == Cut(plain', Blocks(|plain|));
    CutInjective(plain, plain');
  }
}
