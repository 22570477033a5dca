/** Counter mode with CBC-MAC over an arbitrary block cipher. */
module Ccm {
  import opened Numbers
  import opened Octets

  type Block = b: seq<Octet> | |b| == 16 witness seq(16, _ => 0)

  type Cipher = Block -> Block

  // ---- sections 2.2 to 2.4 of RFC 3610 ----

  function XorByte(a: Octet, b: Octet): Octet { a ^ b }

  function Xor(a: Block, b: Block): Block {
    seq(16, i requires 0 <= i < 16 => XorByte(a[i], b[i]))
  }

  /** Block i of s, filled up with zeros. */
  function BlockAt(s: seq<Octet>, i: nat): Block {
    seq(16, j requires 0 <= j < 16 => if 16 * i + j < |s| then s[16 * i + j] else 0)
  }

  function Blocks(n: nat): nat { (n + 15) / 16 }

  /** The CBC-MAC state after n blocks of s. */
  function MacUpTo(e: Cipher, x: Block, s: seq<Octet>, n: nat): Block {
    if n == 0 then x else e(Xor(MacUpTo(e, x, s, n - 1), BlockAt(s, n - 1)))
  }

  function Mac(e: Cipher, x: Block, s: seq<Octet>): Block { MacUpTo(e, x, s, Blocks(|s|)) }

  predicate Parameters(m: nat, l: nat) { 4 <= m <= 16 && m % 2 == 0 && (l == 2 || l == 3) }

  function Block0(m: nat, l: nat, la: nat, lm: nat, nonce: seq<Octet>): Block
    requires Parameters(m, l) && |nonce| >= 15 - l
  {
    [ByteOf(64 * (if la > 0 then 1 else 0) + 8 * ((m - 2) / 2) + (l - 1))] + nonce[..15 - l] + BigEndian(lm, l)
  }

  function AadLength(la: nat): (s: seq<Octet>)
    ensures |s| <= 10
  {
    if la == 0 then []
    else if la < 0xFF00 then BigEndian(la, 2)
    else if la < 0x1_0000_0000 then [0xFF, 0xFE] + BigEndian(la, 4)
    else [0xFF, 0xFF] + BigEndian(la, 8)
  }

  function CounterBlock(l: nat, nonce: seq<Octet>, counter: nat): Block
    requires (l == 2 || l == 3) && |nonce| >= 15 - l
  {
    [ByteOf(l - 1)] + nonce[..15 - l] + BigEndian(counter, l)
  }

  /** The authentication value before encryption. */
  function Authentication(e: Cipher, m: nat, l: nat, nonce: seq<Octet>, plain: seq<Octet>, aad: seq<Octet>): Block
    requires Parameters(m, l) && |nonce| >= 15 - l
  {
    var x1 := e(Block0(m, l, |aad|, |plain|, nonce));
    Mac(e, Mac(e, x1, AadLength(|aad|) + aad), plain)
  }

  /** Byte k of the message is masked with byte k of S_1 S_2 ... */
  function Stream(e: Cipher, l: nat, nonce: seq<Octet>, k: nat): Octet
    requires (l == 2 || l == 3) && |nonce| >= 15 - l
  {
    e(CounterBlock(l, nonce, k / 16 + 1))[k % 16]
  }

  /** The encrypted message followed by the encrypted authentication value. */
  function Sealed(e: Cipher, m: nat, l: nat, nonce: seq<Octet>, plain: seq<Octet>, aad: seq<Octet>): (c: seq<Octet>)
    requires Parameters(m, l) && |nonce| >= 15 - l
    ensures |c| == |plain| + m
  {
    var t := Authentication(e, m, l, nonce, plain, aad);
    var s0 := e(CounterBlock(l, nonce, 0));
    seq(|plain| + m, k requires 0 <= k < |plain| + m =>
      if k < |plain| then XorByte(plain[k], Stream(e, l, nonce, k)) else XorByte(t[k - |plain|], s0[k - |plain|]))
  }

  // ---- bytes ----

  lemma XorTwice(a: Octet, b: Octet)
    ensures XorByte(XorByte(a, b), b) == a
    ensures XorByte(a, b) == XorByte(b, a)
  {
  }

  // ---- the pieces of the algorithm ----

  method EncryptBlock(e: Cipher, a: array<Octet>, s: array<Octet>)
    requires a.Length == 16 && s.Length == 16
    modifies s
    ensures s[..] == e(old(a[..]))
  {
    var r := e(a[..]);
    for i := 0 to 16
      invariant forall j :: 0 <= j < i ==> s[j] == r[j]
    {
      s[i] := r[i];
    }
  }

  /** Fills the first authentication block. */
  method FillBlock0(m: nat, l: nat, la: nat, lm: nat, nonce: seq<Octet>, result: array<Octet>)
    requires Parameters(m, l) && |nonce| >= 15 - l && result.Length == 16
    modifies result
    ensures result[..] == Block0(m, l, la, lm, nonce)
  {
    hide BigEndian, ByteOf;
    result[0] := ByteOf(64 * (if la > 0 then 1 else 0) + 8 * ((m - 2) / 2) + (l - 1));
    CopyNonce(nonce, l, result);
    PutBigEndian(lm, result, 16 - l, l);
  }

  method CopyNonce(nonce: seq<Octet>, l: nat, a: array<Octet>)
    requires (l == 2 || l == 3) && |nonce| >= 15 - l && a.Length == 16
    modifies a
    ensures a[0] == old(a[0]) && forall i :: 1 <= i < 16 - l ==> a[i] == nonce[i - 1]
  {
    for i := 1 to 16 - l
      invariant a[0] == old(a[0]) && forall j :: 1 <= j < i ==> a[j] == nonce[j - 1]
    {
      a[i] := nonce[i - 1];
    }
  }

  /** The template of the counter blocks: flags and nonce. */
  predicate IsTemplate(a: seq<Octet>, l: nat, nonce: seq<Octet>) {
    && (l == 2 || l == 3) && |nonce| >= 15 - l && |a| == 16
    && a[0] == ByteOf(l - 1) && forall i :: 1 <= i < 16 - l ==> a[i] == nonce[i - 1]
  }

  /** Sets the counter field of the template: only as many bytes are written as the counter has. */
  method SetCounter(a: array<Octet>, l: nat, counter: nat, ghost nonce: seq<Octet>)
    requires a.Length == 16 && IsTemplate(a[..], l, nonce) && counter < Range(l)
    modifies a
    ensures a[..] == CounterBlock(l, nonce, counter)
    ensures IsTemplate(a[..], l, nonce)
  {
    hide BigEndian, ByteOf, Range;
    ZeroField(a, l);
    ghost var field, n: nat := BigEndian(counter, l), l;
    MaskKeeps(counter, l);
    var c: nat := counter % Range(l);
    var i: nat := 15;
    while c != 0 && i > l
      invariant 0 <= n <= l && i == 15 - l + n && c < Range(n)
      invariant forall j :: 0 <= j < 16 - l ==> a[j] == old(a[j])
      invariant forall j :: 16 - l <= j <= i ==> a[j] == 0
      invariant forall j :: 0 <= j < n ==> field[j] == BigEndian(c, n)[j]
      invariant forall j :: n <= j < l ==> a[16 - l + j] == field[j]
    {
      LastByte(c, n);
      a[i] := a[i] | ByteOf(c);
      c := c / 256;
      i := i - 1;
      n := n - 1;
    }
    ZeroBytes(n);
  }

  lemma LastByte(c: nat, n: nat)
    requires 0 < c < Range(n)
    ensures n > 0 && c / 256 < Range(n - 1)
    ensures BigEndian(c, n)[n - 1] == ByteOf(c) == 0 | ByteOf(c)
    ensures forall j :: 0 <= j < n - 1 ==> BigEndian(c, n)[j] == BigEndian(c / 256, n - 1)[j]
  {
  }

  lemma MaskKeeps(counter: nat, l: nat)
    requires counter < Range(l)
    ensures counter % Range(l) == counter
  {
    hide Range;
    DivModUnique(counter, Range(l), 0, counter);
  }

  lemma ZeroBytes(n: nat)
    ensures forall j {:trigger BigEndian(0, n)[j]} :: 0 <= j < n ==> BigEndian(0, n)[j] == 0
  {
    forall j {:trigger BigEndian(0, n)[j]} | 0 <= j < n
      ensures BigEndian(0, n)[j] == 0
    {
      BigEndianOfZero(n, j);
    }
  }

  method ZeroField(a: array<Octet>, l: nat)
    requires a.Length == 16 && l <= 16
    modifies a
    ensures forall i :: 16 - l <= i < 16 ==> a[i] == 0
    ensures forall i :: 0 <= i < 16 - l ==> a[i] == old(a[i])
  {
    for i := 16 - l to 16
      invariant forall j :: 16 - l <= j < i ==> a[j] == 0
      invariant forall j :: 0 <= j < 16 - l ==> a[j] == old(a[j])
    {
      a[i] := 0;
    }
  }

  // ---- authentication data ----

  /** B becomes X xor the block of s, of which the first len bytes are given and the rest is zero. */
  lemma PaddedBlock(x: Block, s: seq<Octet>, i: nat, b: seq<Octet>)
    requires |b| == 16
    requires forall j :: 0 <= j < 16 ==> b[j] in {XorByte(x[j], BlockAt(s, i)[j]), XorByte(BlockAt(s, i)[j], x[j])}
    ensures b == Xor(x, BlockAt(s, i))
  {
  }

  /** Writes the length prefix of the data into a block of zeros. */
  method PutAadLength(b: array<Octet>, la: nat) returns (j: nat)
    requires b.Length == 16 && 0 < la < 0x1_0000_0000_0000_0000 && forall i :: 0 <= i < 16 ==> b[i] == 0
    modifies b
    ensures j == |AadLength(la)| && j <= 10
    ensures forall i :: 0 <= i < j ==> b[i] == AadLength(la)[i]
    ensures forall i :: j <= i < 16 ==> b[i] == 0
  {
    hide BigEndian;
    if la < 0xFF00 {
      j := 2;
      PutBigEndian(la, b, 0, 2);
    } else if la <= 0xFFFF_FFFF {
      j := 6;
      b[0], b[1] := 0xFF, 0xFE;
      PutBigEndian(la, b, 2, 4);
    } else {
      j := 10;
      b[0], b[1] := 0xFF, 0xFF;
      PutBigEndian(la, b, 2, 8);
    }
  }

  method MemXor(b: array<Octet>, at: nat, x: array<Octet>, n: nat)
    requires at + n <= b.Length && n <= x.Length && b != x
    modifies b
    ensures forall k :: at <= k < at + n ==> b[k] == XorByte(old(b[k]), x[k - at])
    ensures forall k :: 0 <= k < b.Length && !(at <= k < at + n) ==> b[k] == old(b[k])
  {
    hide XorByte;
    for i := 0 to n
      invariant forall k :: at <= k < at + i ==> b[k] == XorByte(old(b[k]), x[k - at])
      invariant forall k :: 0 <= k < b.Length && !(at <= k < at + i) ==> b[k] == old(b[k])
    {
      b[at + i] := XorByte(b[at + i], x[i]);
    }
  }

  /** B becomes X xor the n bytes of s from p on. */
  method XorFrom(b: array<Octet>, x: array<Octet>, s: seq<Octet>, p: nat, n: nat)
    requires n <= b.Length && n <= x.Length && p + n <= |s| && b != x
    modifies b
    ensures forall k :: 0 <= k < n ==> b[k] == XorByte(x[k], s[p + k])
    ensures forall k :: n <= k < b.Length ==> b[k] == old(b[k])
  {
    hide XorByte;
    for i := 0 to n
      invariant forall k :: 0 <= k < i ==> b[k] == XorByte(x[k], s[p + k])
      invariant forall k :: i <= k < b.Length ==> b[k] == old(b[k])
    {
      b[i] := XorByte(x[i], s[p + i]);
    }
  }

  /** Takes the zero-padded block i of s, which has been copied to B, into the MAC. */
  method MacBlock(e: Cipher, b: array<Octet>, x: array<Octet>, ghost x1: Block, ghost s: seq<Octet>, ghost i: nat)
    requires b.Length == 16 && x.Length == 16 && b != x && b[..] == BlockAt(s, i)
    requires x[..] == MacUpTo(e, x1, s, i)
    modifies b, x
    ensures x[..] == MacUpTo(e, x1, s, i + 1)
  {
    MemXor(b, 0, x, 16);
    PaddedBlock(MacUpTo(e, x1, s, i), s, i, b[..]);
    EncryptBlock(e, b, x);
  }

  /** Runs the authentication data through the MAC; B holds the first block at the start. */
  method AddAuthData(e: Cipher, aad: seq<Octet>, b: array<Octet>, x: array<Octet>)
    requires b.Length == 16 && x.Length == 16 && b != x && |aad| < 0x1_0000_0000_0000_0000
    modifies b, x
    ensures x[..] == Mac(e, e(old(b[..])), AadLength(|aad|) + aad)
  {
    hide AadLength;
    ghost var s := AadLength(|aad|) + aad;
    ghost var x1 := e(b[..]);
    EncryptBlock(e, b, x);
    ZeroField(b, 16);
    AadLengthRange(|aad|);
    if |aad| == 0 {
      return;
    }
    var j := PutAadLength(b, |aad|);
    var p := if 16 - j < |aad| then 16 - j else |aad|;
    MemCopy(aad, 0, b, j, p);
    MacBlock(e, b, x, x1, s, 0);
    AuthRest(e, aad, p, j, b, x, x1);
  }

  lemma AadLengthRange(la: nat)
    ensures |AadLength(la)| == 0 <==> la == 0
    ensures la > 0 ==> 0 < |AadLength(la)| <= 10
  {
    hide BigEndian;
  }

  /** The blocks of the authentication data after the first. */
  method AuthRest(e: Cipher, aad: seq<Octet>, start: nat, j: nat, b: array<Octet>, x: array<Octet>, ghost x1: Block)
    requires b.Length == 16 && x.Length == 16 && b != x && 0 < |aad|
    requires 0 < j == |AadLength(|aad|)| && start == if 16 - j < |aad| then 16 - j else |aad|
    requires x[..] == MacUpTo(e, x1, AadLength(|aad|) + aad, 1)
    modifies b, x
    ensures x[..] == Mac(e, x1, AadLength(|aad|) + aad)
  {
    hide AadLength, MacUpTo;
    ghost var s := AadLength(|aad|) + aad;
    var p, la := start, |aad| - start;
    ghost var i: nat := 1;
    while la > 16
      invariant 0 <= la && p + la == |aad| && (la > 0 ==> p == 16 * i - j)
      invariant la == 0 ==> i == Blocks(|s|)
      invariant x[..] == MacUpTo(e, x1, s, i)
    {
      XorFrom(b, x, aad, p, 16);
      PaddedBlock(MacUpTo(e, x1, s, i), s, i, b[..]);
      EncryptBlock(e, b, x);
      NextMac(e, x1, s, i);
      la := la - 16;
      p := p + 16;
      i := i + 1;
    }
    if la > 0 {
      ZeroField(b, 16);
      MemCopy(aad, p, b, 0, la);
      BlocksOfLast(|s|, i, la);
      MacBlock(e, b, x, x1, s, i);
    }
  }

  lemma BlocksOfLast(n: nat, i: nat, la: nat)
    requires n == 16 * i + la && 0 < la <= 16
    ensures Blocks(n) == i + 1
  {
  }

  lemma NextMac(e: Cipher, x: Block, s: seq<Octet>, n: nat)
    ensures MacUpTo(e, x, s, n + 1) == e(Xor(MacUpTo(e, x, s, n), BlockAt(s, n)))
  {
  }

  // ---- encryption and decryption in place ----

  lemma XorZero(a: Octet)
    ensures XorByte(a, 0) == a
  {
  }

  /** B is X xor the zero-padded block i of the message when its tail is left as X. */
  lemma UnpaddedBlock(x: Block, plain: seq<Octet>, i: nat, len: nat, b: seq<Octet>)
    requires |b| == 16 && len <= 16 && 16 * i + len <= |plain| && (len == 16 || 16 * i + len == |plain|)
    requires forall k :: 0 <= k < len ==> b[k] == XorByte(x[k], plain[16 * i + k])
    requires forall k :: len <= k < 16 ==> b[k] == x[k]
    ensures b == Xor(x, BlockAt(plain, i))
  {
    forall k | len <= k < 16
      ensures b[k] == XorByte(x[k], 0)
    {
      XorZero(x[k]);
    }
    hide XorByte;
  }

  /** Takes block i of the message, which is the len bytes at p, into the MAC. The tail of B
      is X when the block is not full. */
  method MacStep(e: Cipher, msg: array<Octet>, p: nat, len: nat, b: array<Octet>, x: array<Octet>,
                 ghost x1: Block, ghost plain: seq<Octet>, ghost i: nat)
    requires p + len <= msg.Length && b.Length == 16 && x.Length == 16 && b != x && msg != b && msg != x
    requires len <= 16 && 16 * i + len <= |plain| && (len == 16 || 16 * i + len == |plain|)
    requires forall k :: p <= k < p + len ==> msg[k] == plain[16 * i + k - p]
    requires forall k :: len <= k < 16 ==> b[k] == x[k]
    requires x[..] == MacUpTo(e, x1, plain, i)
    modifies b, x
    ensures x[..] == MacUpTo(e, x1, plain, i + 1)
  {
    hide XorByte;
    XorFrom(b, x, msg[..], p, len);
    UnpaddedBlock(x[..], plain, i, len, b[..]);
    EncryptBlock(e, b, x);
  }

  /** Masks the len bytes at p with the counter block. */
  method CryptStep(e: Cipher, l: nat, counter: nat, msg: array<Octet>, p: nat, len: nat, a: array<Octet>,
                   s: array<Octet>, ghost nonce: seq<Octet>)
    requires p + len <= msg.Length && len <= 16 && a.Length == 16 && s.Length == 16 && a != s && msg != a && msg != s
    requires (l == 2 || l == 3) && |nonce| >= 15 - l && IsTemplate(a[..], l, nonce) && 0 < counter < Range(l)
    modifies msg, a, s
    ensures IsTemplate(a[..], l, nonce)
    ensures forall k :: p <= k < p + len ==>
      msg[k] == XorByte(old(msg[k]), Stream(e, l, nonce, 16 * (counter - 1) + k - p))
    ensures forall k :: 0 <= k < msg.Length && !(p <= k < p + len) ==> msg[k] == old(msg[k])
  {
    hide XorByte, Range, CounterBlock, IsTemplate;
    SetCounter(a, l, counter, nonce);
    EncryptBlock(e, a, s);
    StreamBlock(e, l, nonce, counter);
    MemXor(msg, p, s, len);
  }

  lemma StreamBlock(e: Cipher, l: nat, nonce: seq<Octet>, counter: nat)
    requires (l == 2 || l == 3) && |nonce| >= 15 - l && counter > 0
    ensures forall k :: 0 <= k < 16 ==>
      e(CounterBlock(l, nonce, counter))[k] == Stream(e, l, nonce, 16 * (counter - 1) + k)
  {
    hide CounterBlock;
    forall k | 0 <= k < 16
      ensures e(CounterBlock(l, nonce, counter))[k] == Stream(e, l, nonce, 16 * (counter - 1) + k)
    {
      BlockIndex(counter - 1, k);
    }
  }

  lemma BlockIndex(i: nat, k: nat)
    requires k < 16
    ensures (16 * i + k) / 16 == i && (16 * i + k) % 16 == k
  {
  }

  /** The first done bytes at at are masked, the rest is still the plain text. */
  ghost predicate Masked(e: Cipher, l: nat, nonce: seq<Octet>, msg: seq<Octet>, at: nat, plain: seq<Octet>, done: nat)
    requires (l == 2 || l == 3) && |nonce| >= 15 - l
  {
    && at + |plain| <= |msg| && done <= |plain|
    && (forall k :: 0 <= k < done ==> msg[at + k] == XorByte(plain[k], Stream(e, l, nonce, k)))
    && (forall k :: done <= k < |plain| ==> msg[at + k] == plain[k])
  }

  /** Block i of the message: into the MAC while it is plain text, then masked. */
  method SealBlock(e: Cipher, l: nat, msg: array<Octet>, at: nat, len: nat, i: nat,
                   a: array<Octet>, b: array<Octet>, x: array<Octet>, s: array<Octet>,
                   ghost nonce: seq<Octet>, ghost x1: Block, ghost plain: seq<Octet>)
    requires a.Length == 16 && b.Length == 16 && x.Length == 16 && s.Length == 16
    requires a !in {b, x, s, msg} && b !in {x, s, msg} && x !in {s, msg} && s != msg
    requires (l == 2 || l == 3) && |nonce| >= 15 - l && IsTemplate(a[..], l, nonce) && i + 1 < Range(l)
    requires 0 < len <= 16 && 16 * i + len <= |plain| && (len == 16 || 16 * i + len == |plain|)
    requires Masked(e, l, nonce, msg[..], at, plain, 16 * i)
    requires forall k :: len <= k < 16 ==> b[k] == x[k]
    requires x[..] == MacUpTo(e, x1, plain, i)
    modifies msg, a, b, x, s
    ensures IsTemplate(a[..], l, nonce)
    ensures Masked(e, l, nonce, msg[..], at, plain, 16 * i + len)
    ensures x[..] == MacUpTo(e, x1, plain, i + 1)
    ensures forall k :: 0 <= k < msg.Length && !(at <= k < at + |plain|) ==> msg[k] == old(msg[k])
  {
    hide XorByte, Range, IsTemplate, MacUpTo, Stream, Masked;
    ghost var before := msg[..];
    StillPlain(e, l, nonce, before, at, plain, i, len);
    MacStep(e, msg, at + 16 * i, len, b, x, x1, plain, i);
    CryptStep(e, l, i + 1, msg, at + 16 * i, len, a, s, nonce);
    MaskedStep(e, l, nonce, before, msg[..], at, plain, i, len);
  }

  lemma StillPlain(e: Cipher, l: nat, nonce: seq<Octet>, msg: seq<Octet>, at: nat, plain: seq<Octet>, i: nat, len: nat)
    requires (l == 2 || l == 3) && |nonce| >= 15 - l && 16 * i + len <= |plain|
    requires Masked(e, l, nonce, msg, at, plain, 16 * i)
    ensures at + |plain| <= |msg|
    ensures forall k :: at + 16 * i <= k < at + 16 * i + len ==> msg[k] == plain[16 * i + k - (at + 16 * i)]
  {
    hide XorByte, Stream;
    assert forall k :: at + 16 * i <= k < at + |plain| ==> msg[k] == msg[at + (k - at)];
  }

  lemma MaskedStep(e: Cipher, l: nat, nonce: seq<Octet>, before: seq<Octet>, after: seq<Octet>, at: nat,
                   plain: seq<Octet>, i: nat, len: nat)
    requires (l == 2 || l == 3) && |nonce| >= 15 - l && 16 * i + len <= |plain| && |before| == |after|
    requires Masked(e, l, nonce, before, at, plain, 16 * i)
    requires forall k :: at + 16 * i <= k < at + 16 * i + len ==>
      after[k] == XorByte(before[k], Stream(e, l, nonce, 16 * i + k - (at + 16 * i)))
    requires forall k :: 0 <= k < |after| && !(at + 16 * i <= k < at + 16 * i + len) ==> after[k] == before[k]
    ensures Masked(e, l, nonce, after, at, plain, 16 * i + len)
  {
    hide XorByte, Stream;
  }

  lemma CounterFits(lm: nat, l: nat, i: nat)
    requires lm < Range(l) && 16 * i < lm
    ensures i + 1 < Range(l)
  {
  }

  lemma BlocksOfAll(n: nat, i: nat)
    requires n == 16 * i
    ensures Blocks(n) == i
  {
  }

  /** The tail of B takes over X where the last block has no message bytes. */
  method CopyTail(b: array<Octet>, x: array<Octet>, len: nat)
    requires b.Length == 16 && x.Length == 16 && b != x && len <= 16
    modifies b
    ensures forall k :: len <= k < 16 ==> b[k] == x[k]
  {
    for i := len to 16
      invariant forall k :: len <= k < i ==> b[k] == x[k]
    {
      b[i] := x[i];
    }
  }

  /** All blocks of the message. */
  method SealBlocks(e: Cipher, l: nat, msg: array<Octet>, at: nat, lm: nat,
                    a: array<Octet>, b: array<Octet>, x: array<Octet>, s: array<Octet>,
                    ghost nonce: seq<Octet>, ghost x1: Block, ghost plain: seq<Octet>)
    requires a.Length == 16 && b.Length == 16 && x.Length == 16 && s.Length == 16
    requires a !in {b, x, s, msg} && b !in {x, s, msg} && x !in {s, msg} && s != msg
    requires (l == 2 || l == 3) && |nonce| >= 15 - l && IsTemplate(a[..], l, nonce) && |plain| == lm < Range(l)
    requires Masked(e, l, nonce, msg[..], at, plain, 0) && x[..] == x1
    modifies msg, a, b, x, s
    ensures IsTemplate(a[..], l, nonce)
    ensures Masked(e, l, nonce, msg[..], at, plain, lm)
    ensures x[..] == Mac(e, x1, plain)
    ensures forall k :: 0 <= k < msg.Length && !(at <= k < at + lm) ==> msg[k] == old(msg[k])
  {
    hide XorByte, Range, IsTemplate, Stream, Masked;
    var rest, i := lm, 0;
    while rest >= 16
      invariant rest >= 0 && 16 * i + rest == lm
      invariant IsTemplate(a[..], l, nonce)
      invariant Masked(e, l, nonce, msg[..], at, plain, 16 * i)
      invariant x[..] == MacUpTo(e, x1, plain, i)
      invariant forall k :: 0 <= k < msg.Length && !(at <= k < at + lm) ==> msg[k] == old(msg[k])
    {
      CounterFits(lm, l, i);
      SealBlock(e, l, msg, at, 16, i, a, b, x, s, nonce, x1, plain);
      rest := rest - 16;
      i := i + 1;
    }
    if rest > 0 {
      CounterFits(lm, l, i);
      CopyTail(b, x, rest);
      SealBlock(e, l, msg, at, rest, i, a, b, x, s, nonce, x1, plain);
      BlocksOfLast(lm, i, rest);
    } else {
      BlocksOfAll(lm, i);
    }
  }

  /** The MAC state after the first block and the authentication data. */
  function AuthStart(e: Cipher, m: nat, l: nat, nonce: seq<Octet>, lm: nat, aad: seq<Octet>): Block
    requires Parameters(m, l) && |nonce| >= 15 - l
  {
    Mac(e, e(Block0(m, l, |aad|, lm, nonce)), AadLength(|aad|) + aad)
  }

  method Prepare(e: Cipher, m: nat, l: nat, nonce: seq<Octet>, lm: nat, aad: seq<Octet>,
                 a: array<Octet>, b: array<Octet>, x: array<Octet>)
    requires Parameters(m, l) && |nonce| >= 15 - l && |aad| < 0x1_0000_0000_0000_0000
    requires a.Length == 16 && b.Length == 16 && x.Length == 16 && a !in {b, x} && b != x
    modifies a, b, x
    ensures IsTemplate(a[..], l, nonce)
    ensures x[..] == AuthStart(e, m, l, nonce, lm, aad)
  {
    hide Mac, Block0, ByteOf;
    FillBlock0(m, l, |aad|, lm, nonce, b);
    AddAuthData(e, aad, b, x);
    a[0] := ByteOf(l - 1);
    CopyNonce(nonce, l, a);
  }

  /** S_0, with which the authentication value is masked. */
  method ZeroBlock(e: Cipher, l: nat, a: array<Octet>, s: array<Octet>, ghost nonce: seq<Octet>)
    requires (l == 2 || l == 3) && |nonce| >= 15 - l && a.Length == 16 && s.Length == 16 && a != s
    requires IsTemplate(a[..], l, nonce)
    modifies a, s
    ensures s[..] == e(CounterBlock(l, nonce, 0))
  {
    SetCounter(a, l, 0, nonce);
    EncryptBlock(e, a, s);
  }

  /** Masks the message; X receives its authentication value and S the block that masks it. */
  method SealBody(e: Cipher, m: nat, l: nat, nonce: seq<Octet>, msg: array<Octet>, at: nat, lm: nat, aad: seq<Octet>,
                  x: array<Octet>, s: array<Octet>)
    requires Parameters(m, l) && |nonce| >= 15 - l && |aad| < 0x1_0000_0000_0000_0000
    requires at + lm <= msg.Length && lm < Range(l) && x.Length == 16 && s.Length == 16 && x !in {s, msg} && s != msg
    modifies msg, x, s
    ensures Masked(e, l, nonce, msg[..], at, old(msg[at..at + lm]), lm)
    ensures x[..] == Mac(e, AuthStart(e, m, l, nonce, lm, aad), old(msg[at..at + lm]))
    ensures s[..] == e(CounterBlock(l, nonce, 0))
    ensures forall k :: 0 <= k < msg.Length && !(at <= k < at + lm) ==> msg[k] == old(msg[k])
  {
    hide Range, AuthStart, IsTemplate, Stream, XorByte, CounterBlock, Mac;
    ghost var plain := msg[at..at + lm];
    var a, b := new Octet[16](_ => 0), new Octet[16](_ => 0);
    Prepare(e, m, l, nonce, lm, aad, a, b, x);
    SealBlocks(e, l, msg, at, lm, a, b, x, s, nonce, AuthStart(e, m, l, nonce, lm, aad), plain);
    ZeroBlock(e, l, a, s, nonce);
  }

  /** Encrypts the lm bytes at at in place and appends the authentication value. */
  method EncryptMessage(e: Cipher, m: nat, l: nat, nonce: seq<Octet>, msg: array<Octet>, at: nat, lm: nat,
                        aad: seq<Octet>)
    returns (r: int)
    requires Parameters(m, l) && |nonce| >= 15 - l && |aad| < 0x1_0000_0000_0000_0000
    requires at + lm + m <= msg.Length && lm < Range(l)
    modifies msg
    ensures r == lm + m
    ensures msg[at..at + lm + m] == Sealed(e, m, l, nonce, old(msg[at..at + lm]), aad)
    ensures forall k :: 0 <= k < msg.Length && !(at <= k < at + lm + m) ==> msg[k] == old(msg[k])
  {
    hide Range, AuthStart, Stream, XorByte, CounterBlock, Mac, Masked, Sealed;
    ghost var plain := msg[at..at + lm];
    var x, s := new Octet[16](_ => 0), new Octet[16](_ => 0);
    SealBody(e, m, l, nonce, msg, at, lm, aad, x, s);
    ghost var masked := msg[..];
    PutTag(msg, at + lm, m, x, s);
    SealedResult(e, m, l, nonce, plain, aad, masked, msg[..], at, x[..], s[..]);
    assert msg[at..at + lm + m] == msg[..][at..at + lm + m];
    return lm + m;
  }

  method PutTag(msg: array<Octet>, p: nat, m: nat, x: array<Octet>, s: array<Octet>)
    requires p + m <= msg.Length && m <= 16 && x.Length == 16 && s.Length == 16 && msg != x && msg != s
    modifies msg
    ensures forall k :: p <= k < p + m ==> msg[k] == XorByte(x[k - p], s[k - p])
    ensures forall k :: 0 <= k < msg.Length && !(p <= k < p + m) ==> msg[k] == old(msg[k])
  {
    hide XorByte;
    for i := 0 to m
      invariant forall k :: p <= k < p + i ==> msg[k] == XorByte(x[k - p], s[k - p])
      invariant forall k :: 0 <= k < msg.Length && !(p <= k < p + i) ==> msg[k] == old(msg[k])
    {
      msg[p + i] := XorByte(x[i], s[i]);
    }
  }

  lemma SealedResult(e: Cipher, m: nat, l: nat, nonce: seq<Octet>, plain: seq<Octet>, aad: seq<Octet>,
                     masked: seq<Octet>, result: seq<Octet>, at: nat, x: seq<Octet>, s: seq<Octet>)
    requires Parameters(m, l) && |nonce| >= 15 - l && |x| == 16 && |s| == 16 && |result| == |masked|
    requires at + |plain| + m <= |result| && Masked(e, l, nonce, masked, at, plain, |plain|)
    requires x == Mac(e, AuthStart(e, m, l, nonce, |plain|, aad), plain) && s == e(CounterBlock(l, nonce, 0))
    requires forall k :: at + |plain| <= k < at + |plain| + m ==>
      result[k] == XorByte(x[k - at - |plain|], s[k - at - |plain|])
    requires forall k :: 0 <= k < |result| && !(at + |plain| <= k < at + |plain| + m) ==> result[k] == masked[k]
    ensures result[at..at + |plain| + m] == Sealed(e, m, l, nonce, plain, aad)
  {
    hide XorByte, Stream, CounterBlock, Mac;
    var c, n := Sealed(e, m, l, nonce, plain, aad), |plain|;
    forall k | 0 <= k < n + m
      ensures result[at + k] == c[k]
    {
      if k < n {
        assert result[at + k] == masked[at + k];
      }
    }
  }

  // ---- decryption ----

  /** Masking again takes the mask off. */
  function Unmasked(e: Cipher, l: nat, nonce: seq<Octet>, c: seq<Octet>): (plain: seq<Octet>)
    requires (l == 2 || l == 3) && |nonce| >= 15 - l
    ensures |plain| == |c|
  {
    seq(|c|, k requires 0 <= k < |c| => XorByte(c[k], Stream(e, l, nonce, k)))
  }

  /** The first done bytes at at are plain text, the rest is still masked. */
  ghost predicate Opening(msg: seq<Octet>, at: nat, plain: seq<Octet>, c: seq<Octet>, done: nat) {
    && at + |plain| <= |msg| && |c| == |plain| && done <= |plain|
    && (forall k :: 0 <= k < done ==> msg[at + k] == plain[k])
    && (forall k :: done <= k < |plain| ==> msg[at + k] == c[k])
  }

  lemma OpeningStep(e: Cipher, l: nat, nonce: seq<Octet>, before: seq<Octet>, after: seq<Octet>, at: nat, c: seq<Octet>,
                    i: nat, len: nat)
    requires (l == 2 || l == 3) && |nonce| >= 15 - l && 16 * i + len <= |c| && |before| == |after|
    requires Opening(before, at, Unmasked(e, l, nonce, c), c, 16 * i)
    requires forall k :: at + 16 * i <= k < at + 16 * i + len ==>
      after[k] == XorByte(before[k], Stream(e, l, nonce, 16 * i + k - (at + 16 * i)))
    requires forall k :: 0 <= k < |after| && !(at + 16 * i <= k < at + 16 * i + len) ==> after[k] == before[k]
    ensures Opening(after, at, Unmasked(e, l, nonce, c), c, 16 * i + len)
    ensures forall k :: at + 16 * i <= k < at + 16 * i + len ==>
      after[k] == Unmasked(e, l, nonce, c)[16 * i + k - (at + 16 * i)]
  {
    hide XorByte, Stream;
  }

  /** Block i of the message: unmasked, then into the MAC. */
  method OpenBlock(e: Cipher, l: nat, msg: array<Octet>, at: nat, len: nat, i: nat,
                   a: array<Octet>, b: array<Octet>, x: array<Octet>, s: array<Octet>,
                   ghost nonce: seq<Octet>, ghost x1: Block, ghost c: seq<Octet>)
    requires a.Length == 16 && b.Length == 16 && x.Length == 16 && s.Length == 16
    requires a !in {b, x, s, msg} && b !in {x, s, msg} && x !in {s, msg} && s != msg
    requires (l == 2 || l == 3) && |nonce| >= 15 - l && IsTemplate(a[..], l, nonce) && i + 1 < Range(l)
    requires 0 < len <= 16 && 16 * i + len <= |c| && (len == 16 || 16 * i + len == |c|)
    requires Opening(msg[..], at, Unmasked(e, l, nonce, c), c, 16 * i)
    requires x[..] == MacUpTo(e, x1, Unmasked(e, l, nonce, c), i)
    modifies msg, a, b, x, s
    ensures IsTemplate(a[..], l, nonce)
    ensures Opening(msg[..], at, Unmasked(e, l, nonce, c), c, 16 * i + len)
    ensures x[..] == MacUpTo(e, x1, Unmasked(e, l, nonce, c), i + 1)
    ensures forall k :: 0 <= k < msg.Length && !(at <= k < at + |c|) ==> msg[k] == old(msg[k])
  {
    hide XorByte, Range, IsTemplate, MacUpTo, Stream, Unmasked, Opening;
    ghost var before := msg[..];
    assert at + |c| <= |before| by { OpeningShape(before, at, Unmasked(e, l, nonce, c), c, 16 * i); }
    CryptStep(e, l, i + 1, msg, at + 16 * i, len, a, s, nonce);
    OpeningStep(e, l, nonce, before, msg[..], at, c, i, len);
    CopyTail(b, x, len);
    MacStep(e, msg, at + 16 * i, len, b, x, x1, Unmasked(e, l, nonce, c), i);
  }

  lemma OpeningShape(msg: seq<Octet>, at: nat, plain: seq<Octet>, c: seq<Octet>, done: nat)
    requires Opening(msg, at, plain, c, done)
    ensures at + |c| <= |msg|
  {
  }

  method OpenBlocks(e: Cipher, l: nat, msg: array<Octet>, at: nat, lm: nat,
                    a: array<Octet>, b: array<Octet>, x: array<Octet>, s: array<Octet>,
                    ghost nonce: seq<Octet>, ghost x1: Block, ghost c: seq<Octet>)
    requires a.Length == 16 && b.Length == 16 && x.Length == 16 && s.Length == 16
    requires a !in {b, x, s, msg} && b !in {x, s, msg} && x !in {s, msg} && s != msg
    requires (l == 2 || l == 3) && |nonce| >= 15 - l && IsTemplate(a[..], l, nonce) && |c| == lm < Range(l)
    requires Opening(msg[..], at, Unmasked(e, l, nonce, c), c, 0) && x[..] == x1
    modifies msg, a, b, x, s
    ensures IsTemplate(a[..], l, nonce)
    ensures Opening(msg[..], at, Unmasked(e, l, nonce, c), c, lm)
    ensures x[..] == Mac(e, x1, Unmasked(e, l, nonce, c))
    ensures forall k :: 0 <= k < msg.Length && !(at <= k < at + lm) ==> msg[k] == old(msg[k])
  {
    hide XorByte, Range, IsTemplate, Stream, Opening, Unmasked;
    var rest, i := lm, 0;
    while rest >= 16
      invariant rest >= 0 && 16 * i + rest == lm
      invariant IsTemplate(a[..], l, nonce)
      invariant Opening(msg[..], at, Unmasked(e, l, nonce, c), c, 16 * i)
      invariant x[..] == MacUpTo(e, x1, Unmasked(e, l, nonce, c), i)
      invariant forall k :: 0 <= k < msg.Length && !(at <= k < at + lm) ==> msg[k] == old(msg[k])
    {
      CounterFits(lm, l, i);
      OpenBlock(e, l, msg, at, 16, i, a, b, x, s, nonce, x1, c);
      rest := rest - 16;
      i := i + 1;
    }
    if rest > 0 {
      CounterFits(lm, l, i);
      OpenBlock(e, l, msg, at, rest, i, a, b, x, s, nonce, x1, c);
      BlocksOfLast(lm, i, rest);
    } else {
      BlocksOfAll(lm, i);
    }
  }

  /** Unmasks the message; X receives the authentication value of the plain text. */
  method OpenBody(e: Cipher, m: nat, l: nat, nonce: seq<Octet>, msg: array<Octet>, at: nat, lm: nat, aad: seq<Octet>,
                  x: array<Octet>, s: array<Octet>)
    requires Parameters(m, l) && |nonce| >= 15 - l && |aad| < 0x1_0000_0000_0000_0000
    requires at + lm <= msg.Length && lm < Range(l) && x.Length == 16 && s.Length == 16 && x !in {s, msg} && s != msg
    modifies msg, x, s
    ensures msg[at..at + lm] == Unmasked(e, l, nonce, old(msg[at..at + lm]))
    ensures x[..] == Mac(e, AuthStart(e, m, l, nonce, lm, aad), msg[at..at + lm])
    ensures s[..] == e(CounterBlock(l, nonce, 0))
    ensures forall k :: 0 <= k < msg.Length && !(at <= k < at + lm) ==> msg[k] == old(msg[k])
  {
    hide Range, AuthStart, IsTemplate, Stream, XorByte, CounterBlock, Mac, Unmasked;
    ghost var c := msg[at..at + lm];
    var a, b := new Octet[16](_ => 0), new Octet[16](_ => 0);
    Prepare(e, m, l, nonce, lm, aad, a, b, x);
    OpenBlocks(e, l, msg, at, lm, a, b, x, s, nonce, AuthStart(e, m, l, nonce, lm, aad), c);
    ZeroBlock(e, l, a, s, nonce);
  }

  /** Compares the first m bytes of X with the bytes at p. */
  method Equals(x: array<Octet>, msg: array<Octet>, p: nat, m: nat) returns (same: bool)
    requires m <= x.Length && p + m <= msg.Length
    ensures same <==> forall k :: p <= k < p + m ==> msg[k] == x[k - p]
  {
    same := true;
    for i := 0 to m
      invariant same <==> forall k :: p <= k < p + i ==> msg[k] == x[k - p]
    {
      same := same && x[i] == msg[p + i];
    }
  }

  /** The received tag, unmasked, is the start of X. */
  predicate TagHolds(tag: seq<Octet>, x: seq<Octet>, s: seq<Octet>) {
    |tag| <= |x| && |tag| <= |s| && forall i :: 0 <= i < |tag| ==> XorByte(tag[i], s[i]) == x[i]
  }

  /** Unmasks the authentication value at p and compares it with X. */
  method CheckTag(msg: array<Octet>, p: nat, m: nat, x: array<Octet>, s: array<Octet>) returns (same: bool)
    requires p + m <= msg.Length && m <= 16 && x.Length == 16 && s.Length == 16 && msg != x && msg != s
    modifies msg
    ensures same <==> TagHolds(old(msg[p..p + m]), x[..], s[..])
    ensures forall k :: 0 <= k < msg.Length && !(p <= k < p + m) ==> msg[k] == old(msg[k])
  {
    hide XorByte;
    ghost var tag := msg[p..p + m];
    MemXor(msg, p, s, m);
    same := Equals(x, msg, p, m);
    if TagHolds(tag, x[..], s[..]) {
      assert forall k :: p <= k < p + m ==> msg[k] == x[k - p];
    } else {
      var i: nat :| i < |tag| && XorByte(tag[i], s[i]) != x[i];
      assert msg[p + i] != x[i];
    }
  }

  /** Unmasks n bytes and checks the authentication value behind them. */
  method OpenMessage(e: Cipher, m: nat, l: nat, nonce: seq<Octet>, msg: array<Octet>, at: nat, n: nat, aad: seq<Octet>)
    returns (same: bool)
    requires Parameters(m, l) && |nonce| >= 15 - l && |aad| < 0x1_0000_0000_0000_0000
    requires at + n + m <= msg.Length && n < Range(l)
    modifies msg
    ensures msg[at..at + n] == Unmasked(e, l, nonce, old(msg[at..at + n]))
    ensures same <==> old(msg[at..at + n + m]) == Sealed(e, m, l, nonce, msg[at..at + n], aad)
    ensures forall k :: 0 <= k < msg.Length && !(at <= k < at + n + m) ==> msg[k] == old(msg[k])
  {
    hide Range, AuthStart, Stream, XorByte, CounterBlock, Mac, Unmasked, Sealed, TagHolds;
    ghost var c := msg[at..at + n + m];
    assert c[..n] == msg[at..at + n];
    var x, s := new Octet[16](_ => 0), new Octet[16](_ => 0);
    OpenBody(e, m, l, nonce, msg, at, n, aad, x, s);
    ghost var plain := msg[at..at + n];
    assert c[n..] == msg[at + n..at + n + m];
    same := CheckTag(msg, at + n, m, x, s);
    assert msg[at..at + n] == plain;
    TagMatches(e, m, l, nonce, plain, aad, c, x[..], s[..]);
  }

  /** Decrypts the lm bytes at at in place; the last m of them are the authentication value.
      The message is accepted if and only if it is what encrypting the result would give. */
  method DecryptMessage(e: Cipher, m: nat, l: nat, nonce: seq<Octet>, msg: array<Octet>, at: nat, lm: nat,
                        aad: seq<Octet>)
    returns (r: int)
    requires Parameters(m, l) && |nonce| >= 15 - l && |aad| < 0x1_0000_0000_0000_0000
    requires at + lm <= msg.Length && lm < Range(l) + m
    modifies msg
    ensures lm < m ==> r == -1 && msg[..] == old(msg[..])
    ensures lm >= m ==> msg[at..at + lm - m] == Unmasked(e, l, nonce, old(msg[at..at + lm - m]))
    ensures lm >= m ==>
      r == if old(msg[at..at + lm]) == Sealed(e, m, l, nonce, msg[at..at + lm - m], aad) then lm - m else -1
    ensures forall k :: 0 <= k < msg.Length && !(at <= k < at + lm) ==> msg[k] == old(msg[k])
  {
    hide Range, Unmasked, Sealed;
    if lm < m {
      return -1;
    }
    var same := OpenMessage(e, m, l, nonce, msg, at, lm - m, aad);
    return if same then lm - m else -1;
  }

  /** The received bytes are those of the encryption exactly if their tail, unmasked, is the
      authentication value of the unmasked message. */
  lemma TagMatches(e: Cipher, m: nat, l: nat, nonce: seq<Octet>, plain: seq<Octet>, aad: seq<Octet>,
                   c: seq<Octet>, x: seq<Octet>, s: seq<Octet>)
    requires Parameters(m, l) && |nonce| >= 15 - l && |x| == 16 && |s| == 16 && |c| == |plain| + m
    requires plain == Unmasked(e, l, nonce, c[..|plain|])
    requires x == Mac(e, AuthStart(e, m, l, nonce, |plain|, aad), plain) && s == e(CounterBlock(l, nonce, 0))
    ensures c == Sealed(e, m, l, nonce, plain, aad) <==>
            TagHolds(c[|plain|..], x, s)
  {
    hide XorByte, Stream, CounterBlock, Mac, Sealed, Unmasked, TagHolds;
    var n, t := |plain|, Sealed(e, m, l, nonce, plain, aad);
    SealedHead(e, m, l, nonce, plain, aad, c);
    SealedTail(e, m, l, nonce, plain, aad, x, s);
    TagIsTail(c[n..], t[n..], x, s);
    SameParts(c, t, n);
  }

  lemma TagIsTail(tag: seq<Octet>, t: seq<Octet>, x: seq<Octet>, s: seq<Octet>)
    requires |tag| == |t| <= 16 == |x| == |s| && forall i :: 0 <= i < |t| ==> t[i] == XorByte(x[i], s[i])
    ensures TagHolds(tag, x, s) <==> tag == t
  {
    hide XorByte;
    forall i | 0 <= i < |t|
      ensures XorByte(tag[i], s[i]) == x[i] <==> tag[i] == t[i]
    {
      TagByte(tag[i], x[i], s[i]);
    }
  }

  lemma SameParts(c: seq<Octet>, t: seq<Octet>, n: nat)
    requires n <= |c| == |t| && c[..n] == t[..n]
    ensures c == t <==> c[n..] == t[n..]
  {
    assert c == c[..n] + c[n..] && t == t[..n] + t[n..];
  }

  lemma SealedTail(e: Cipher, m: nat, l: nat, nonce: seq<Octet>, plain: seq<Octet>, aad: seq<Octet>, x: seq<Octet>,
                   s: seq<Octet>)
    requires Parameters(m, l) && |nonce| >= 15 - l && |x| == 16 && |s| == 16
    requires x == Mac(e, AuthStart(e, m, l, nonce, |plain|, aad), plain) && s == e(CounterBlock(l, nonce, 0))
    ensures var t := Sealed(e, m, l, nonce, plain, aad);
            forall i :: |plain| <= i < |t| ==> t[i] == XorByte(x[i - |plain|], s[i - |plain|])
  {
    hide XorByte, Stream, CounterBlock, Mac, Block0, AadLength;
    assert Authentication(e, m, l, nonce, plain, aad) == x;
  }

  lemma TagByte(c: Octet, x: Octet, s: Octet)
    ensures XorByte(c, s) == x <==> c == XorByte(x, s)
  {
    hide XorByte;
    XorTwice(c, s);
    XorTwice(x, s);
  }

  /** The message part of the encryption of what was received is what was received. */
  lemma SealedHead(e: Cipher, m: nat, l: nat, nonce: seq<Octet>, plain: seq<Octet>, aad: seq<Octet>, c: seq<Octet>)
    requires Parameters(m, l) && |nonce| >= 15 - l && |c| >= |plain| && plain == Unmasked(e, l, nonce, c[..|plain|])
    ensures Sealed(e, m, l, nonce, plain, aad)[..|plain|] == c[..|plain|]
  {
    hide XorByte, Stream, CounterBlock, Authentication;
    var t := Sealed(e, m, l, nonce, plain, aad);
    forall k | 0 <= k < |plain|
      ensures t[k] == c[k]
    {
      XorTwice(c[k], Stream(e, l, nonce, k));
    }
  }

  /** Unmasking what was sealed gives the plain text back. */
  lemma UnmaskSealed(e: Cipher, m: nat, l: nat, nonce: seq<Octet>, plain: seq<Octet>, aad: seq<Octet>)
    requires Parameters(m, l) && |nonce| >= 15 - l
    ensures Unmasked(e, l, nonce, Sealed(e, m, l, nonce, plain, aad)[..|plain|]) == plain
  {
    hide XorByte, Stream, CounterBlock;
    var c := Sealed(e, m, l, nonce, plain, aad)[..|plain|];
    forall k | 0 <= k < |plain|
      ensures Unmasked(e, l, nonce, c)[k] == plain[k]
    {
      XorTwice(plain[k], Stream(e, l, nonce, k));
    }
  }

  /** Encryption followed by decryption under the same nonce and data restores the message. */
  method EncryptDecrypt(e: Cipher, m: nat, l: nat, nonce: seq<Octet>, msg: array<Octet>, at: nat, lm: nat,
                        aad: seq<Octet>)
    returns (r: int)
    requires Parameters(m, l) && |nonce| >= 15 - l && |aad| < 0x1_0000_0000_0000_0000
    requires at + lm + m <= msg.Length && lm < Range(l)
    modifies msg
    ensures r == lm && msg[at..at + lm] == old(msg[at..at + lm])
  {
    hide Range, Unmasked, Sealed;
    ghost var plain := msg[at..at + lm];
    var sealedLength := EncryptMessage(e, m, l, nonce, msg, at, lm, aad);
    ghost var c := msg[at..at + lm + m];
    assert c[..lm] == msg[at..at + lm];
    UnmaskSealed(e, m, l, nonce, plain, aad);
    r := DecryptMessage(e, m, l, nonce, msg, at, sealedLength, aad);
  }
}
