/** SHA-256 fed piece by piece, with a message schedule of 16 words that overlays the buffer. */
module Sha256 {
  import opened Octets

  type Word = bv32

  /** The eight words of the state, and of the working variables. */
  datatype Regs = Regs(a: Word, b: Word, c: Word, d: Word, e: Word, f: Word, g: Word, h: Word)

  const K256: seq<Word> :=
    [0x428a2f98, 0x71374491, 0xb5c0fbcf, 0xe9b5dba5, 0x3956c25b, 0x59f111f1, 0x923f82a4, 0xab1c5ed5] +
    [0xd807aa98, 0x12835b01, 0x243185be, 0x550c7dc3, 0x72be5d74, 0x80deb1fe, 0x9bdc06a7, 0xc19bf174] +
    [0xe49b69c1, 0xefbe4786, 0x0fc19dc6, 0x240ca1cc, 0x2de92c6f, 0x4a7484aa, 0x5cb0a9dc, 0x76f988da] +
    [0x983e5152, 0xa831c66d, 0xb00327c8, 0xbf597fc7, 0xc6e00bf3, 0xd5a79147, 0x06ca6351, 0x14292967] +
    [0x27b70a85, 0x2e1b2138, 0x4d2c6dfc, 0x53380d13, 0x650a7354, 0x766a0abb, 0x81c2c92e, 0x92722c85] +
    [0xa2bfe8a1, 0xa81a664b, 0xc24b8b70, 0xc76c51a3, 0xd192e819, 0xd6990624, 0xf40e3585, 0x106aa070] +
    [0x19a4c116, 0x1e376c08, 0x2748774c, 0x34b0bcb5, 0x391c0cb3, 0x4ed8aa4a, 0x5b9cca4f, 0x682e6ff3] +
    [0x748f82ee, 0x78a5636f, 0x84c87814, 0x8cc70208, 0x90befffa, 0xa4506ceb, 0xbef9a3f7, 0xc67178f2]

  const INITIAL: Regs :=
    Regs(0x6a09e667, 0xbb67ae85, 0x3c6ef372, 0xa54ff53a, 0x510e527f, 0x9b05688c, 0x1f83d9ab, 0x5be0cd19)

  // ---- the logical functions ----

  function R(n: Word, x: Word): Word
    requires 0 < n < 32
  {
    x >> n
  }

  function S32(n: Word, x: Word): Word
    requires 0 < n < 32
  {
    (x >> n) | (x << (32 - n))
  }

  function Ch(x: Word, y: Word, z: Word): Word { (x & y) ^ ((!x) & z) }

  function Maj(x: Word, y: Word, z: Word): Word { (x & y) ^ (x & z) ^ (y & z) }

  function BigSigma0(x: Word): Word { S32(2, x) ^ S32(13, x) ^ S32(22, x) }

  function BigSigma1(x: Word): Word { S32(6, x) ^ S32(11, x) ^ S32(25, x) }

  function Sigma0(x: Word): Word { S32(7, x) ^ S32(18, x) ^ R(3, x) }

  function Sigma1(x: Word): Word { S32(17, x) ^ S32(19, x) ^ R(10, x) }

  // ---- sections 5.1.1 and 6.2.2 of FIPS 180-4 ----

  function BigWord(b0: Octet, b1: Octet, b2: Octet, b3: Octet): Word {
    ((b0 as bv32) << 24) | ((b1 as bv32) << 16) | ((b2 as bv32) << 8) | (b3 as bv32)
  }

  type Message = m: seq<Octet> | |m| == 64 witness seq(64, _ => 0)

  function Sum(x: Word, y: Word): Word { x + y }

  /** Word t of the 64-word schedule. */
  function Schedule(m: Message, t: nat): Word {
    if t < 16 then BigWord(m[4 * t], m[4 * t + 1], m[4 * t + 2], m[4 * t + 3])
    else Later(Schedule(m, t - 2), Schedule(m, t - 7), Schedule(m, t - 15), Schedule(m, t - 16))
  }

  /** A word of the schedule from those 2, 7, 15 and 16 places before it. */
  function Later(x: Word, y: Word, z: Word, w: Word): Word { Sum(Sum(Sum(Sigma1(x), y), Sigma0(z)), w) }

  function Round(r: Regs, k: Word, w: Word): Regs {
    var t1 := T1(r.e, r.f, r.g, r.h, k, w);
    Regs(Sum(t1, T2(r.a, r.b, r.c)), r.a, r.b, r.c, Sum(r.d, t1), r.e, r.f, r.g)
  }

  function T1(e: Word, f: Word, g: Word, h: Word, k: Word, w: Word): Word {
    Sum(Sum(Sum(Sum(h, BigSigma1(e)), Ch(e, f, g)), k), w)
  }

  function T2(a: Word, b: Word, c: Word): Word { Sum(BigSigma0(a), Maj(a, b, c)) }

  function Rounds(r: Regs, m: Message, t: nat): Regs
    requires t <= 64
  {
    if t == 0 then r else Round(Rounds(r, m, t - 1), K256[t - 1], Schedule(m, t - 1))
  }

  function Plus(r: Regs, q: Regs): Regs {
    Regs(Sum(r.a, q.a), Sum(r.b, q.b), Sum(r.c, q.c), Sum(r.d, q.d),
         Sum(r.e, q.e), Sum(r.f, q.f), Sum(r.g, q.g), Sum(r.h, q.h))
  }

  function Compress(r: Regs, m: Message): Regs { Plus(r, Rounds(r, m, 64)) }

  /** The hash value after n blocks. */
  function Chain(s: seq<Octet>, n: nat): Regs
    requires 64 * n <= |s|
  {
    if n == 0 then INITIAL else Compress(Chain(s, n - 1), s[64 * (n - 1)..64 * n])
  }

  /** Zero bytes between the 1 bit and the length. */
  function Zeros(n: nat): nat { (119 - n % 64) % 64 }

  /** The message, a 1 bit, zeros and the length in bits, in whole blocks. */
  function Padded(s: seq<Octet>): seq<Octet> {
    s + OneBit(Zeros(|s|)) + BigEndian(8 * |s|, 8)
  }

  /** A 1 bit and the zero bytes behind it. */
  function OneBit(zeros: nat): (s: seq<Octet>)
    ensures |s| == 1 + zeros
  {
    [0x80] + seq(zeros, _ => 0)
  }

  function RegAt(r: Regs, j: nat): Word {
    if j == 0 then r.a else if j == 1 then r.b else if j == 2 then r.c else if j == 3 then r.d
    else if j == 4 then r.e else if j == 5 then r.f else if j == 6 then r.g else r.h
  }

  /** The digest bytes of a hash value. */
  function DigestOf(r: Regs): seq<Octet> {
    seq(32, i requires 0 <= i < 32 => WordBytes(RegAt(r, i / 4))[i % 4])
  }

  /** The bytes of a word, most significant first. */
  function WordBytes(w: Word): (s: seq<Octet>)
    ensures |s| == 4
  {
    [((w >> 24) & 0xFF) as bv8, ((w >> 16) & 0xFF) as bv8, ((w >> 8) & 0xFF) as bv8, (w & 0xFF) as bv8]
  }

  function Hash(s: seq<Octet>): seq<Octet> {
    DigestOf(Chain(Padded(s), |Padded(s)| / 64))
  }

  lemma ZerosFill(n: nat)
    ensures (n + 1 + Zeros(n) + 8) % 64 == 0
    ensures Zeros(n) == if n % 64 < 56 then 55 - n % 64 else 119 - n % 64
  {
  }

  lemma PaddedLength(s: seq<Octet>)
    ensures |Padded(s)| == |s| + 1 + Zeros(|s|) + 8 && |Padded(s)| % 64 == 0
  {
    ZerosFill(|s|);
    hide Zeros, BigEndian;
  }

  // ---- what the logical functions are ----

  /** Ch takes the bits of y where x is set and those of z elsewhere. */
  lemma ChChooses(x: Word, y: Word, z: Word)
    ensures Ch(x, y, z) == (x & y) | (!x & z)
  {
  }

  /** Maj has the bits that two of the words agree on. */
  lemma MajVotes(x: Word, y: Word, z: Word)
    ensures Maj(x, y, z) == (x & y) | (z & (x | y))
  {
  }

  // ---- words in the buffer ----

  /** A word stored least significant byte first. */
  function HostWord(s: seq<Octet>, i: nat): Word
    requires 4 * i + 4 <= |s|
  {
    BigWord(s[4 * i + 3], s[4 * i + 2], s[4 * i + 1], s[4 * i])
  }

  /** Reversal of the bytes of a word. */
  function Reverse32(w: Word): Word {
    var tmp := (w >> 16) | (w << 16);
    ((tmp & 0xff00ff00) >> 8) | ((tmp & 0x00ff00ff) << 8)
  }

  lemma Reversed(b0: Octet, b1: Octet, b2: Octet, b3: Octet)
    ensures Reverse32(BigWord(b3, b2, b1, b0)) == BigWord(b0, b1, b2, b3)
  {
  }

  lemma WordOfBytes(w: Word)
    ensures var s := WordBytes(w); BigWord(s[0], s[1], s[2], s[3]) == w
  {
  }

  lemma BytesReversed(w: Word)
    ensures var s, t := WordBytes(w), WordBytes(Reverse32(w));
            t[0] == s[3] && t[1] == s[2] && t[2] == s[1] && t[3] == s[0]
  {
  }

  /** Addition of schedule words in the order of the code. */
  lemma SumOrder(x: Word, y: Word)
    ensures Sum(x, y) == Sum(y, x)
  {
  }

  // ---- the rolling schedule ----

  /** Words 0 to j - 1 of the schedule have been stored, the other bytes of the block have not changed. */
  ghost predicate Loaded(buf: seq<Octet>, m: Message, j: nat) {
    |buf| == 64 && j <= 16 && forall i :: 0 <= i < j ==> HostWord(buf, i) == Schedule(m, i)
  }

  /** The buffer holds the last 16 words of the schedule before word j. */
  ghost predicate Window(buf: seq<Octet>, m: Message, j: nat) {
    |buf| == 64 && j >= 16 && forall t: nat {:trigger Schedule(m, t)} :: j - 16 <= t < j ==>
      HostWord(buf, t % 16) == Schedule(m, t)
  }

  lemma LoadedIsWindow(buf: seq<Octet>, m: Message)
    requires Loaded(buf, m, 16)
    ensures Window(buf, m, 16)
  {
    hide HostWord, Schedule;
    forall t: nat {:trigger Schedule(m, t)} | t < 16
      ensures HostWord(buf, t % 16) == Schedule(m, t)
    {
      assert t % 16 == t;
    }
  }

  /** Storing word j moves the window on. */
  lemma WindowStep(buf: seq<Octet>, next: seq<Octet>, m: Message, j: nat)
    requires Window(buf, m, j) && |next| == 64
    requires HostWord(next, j % 16) == Schedule(m, j)
    requires forall i :: 0 <= i < 16 && i != j % 16 ==> HostWord(next, i) == HostWord(buf, i)
    ensures Window(next, m, j + 1)
  {
    hide HostWord, Schedule;
    forall t: nat {:trigger Schedule(m, t)} | j + 1 - 16 <= t < j + 1
      ensures HostWord(next, t % 16) == Schedule(m, t)
    {
      if t < j {
        DistinctSlots(t, j);
      }
    }
  }

  lemma DistinctSlots(t: nat, j: nat)
    requires t < j < t + 16
    ensures t % 16 != j % 16
  {
  }

  lemma Slots(j: nat)
    requires j >= 16
    ensures (j + 1) % 16 == (j - 15) % 16 && (j + 14) % 16 == (j - 2) % 16
    ensures (j + 9) % 16 == (j - 7) % 16 && j % 16 == (j - 16) % 16
  {
  }

  /** The update of a schedule word in place. */
  function Mix(w: Word, x: Word, y: Word, z: Word): Word { Sum(w, Sum(Sum(Sigma1(x), y), Sigma0(z))) }

  lemma MixIsLater(w: Word, x: Word, y: Word, z: Word)
    ensures Mix(w, x, y, z) == Later(x, y, z, w)
  {
    hide Sigma0, Sigma1, Sum;
    SumOrder(w, Sum(Sum(Sigma1(x), y), Sigma0(z)));
  }

  /** The word that the code computes in place is the next one of the schedule. */
  lemma NextWord(buf: seq<Octet>, m: Message, j: nat)
    requires Window(buf, m, j)
    ensures Schedule(m, j)
         == Mix(HostWord(buf, j % 16), HostWord(buf, (j + 14) % 16), HostWord(buf, (j + 9) % 16),
                HostWord(buf, (j + 1) % 16))
  {
    hide HostWord, Mix, Later;
    Slots(j);
    MixIsLater(Schedule(m, j - 16), Schedule(m, j - 2), Schedule(m, j - 7), Schedule(m, j - 15));
    assert HostWord(buf, (j - 16) % 16) == Schedule(m, j - 16);
    assert HostWord(buf, (j - 2) % 16) == Schedule(m, j - 2);
    assert HostWord(buf, (j - 7) % 16) == Schedule(m, j - 7);
    assert HostWord(buf, (j - 15) % 16) == Schedule(m, j - 15);
  }

  /** Writes a word in host order. */
  method PutWord(buffer: array<Octet>, i: nat, w: Word)
    requires 4 * i + 4 <= buffer.Length
    modifies buffer
    ensures HostWord(buffer[..], i) == w
    ensures forall k :: 4 * i <= k < 4 * i + 4 ==> buffer[k] == WordBytes(w)[4 * i + 3 - k]
    ensures forall k :: 0 <= k < buffer.Length && !(4 * i <= k < 4 * i + 4) ==> buffer[k] == old(buffer[k])
  {
    hide WordBytes, BigWord;
    WordOfBytes(w);
    var s := WordBytes(w);
    buffer[4 * i], buffer[4 * i + 1], buffer[4 * i + 2], buffer[4 * i + 3] := s[3], s[2], s[1], s[0];
  }

  lemma OtherWords(buf: seq<Octet>, next: seq<Octet>, i: nat, j: nat)
    requires |buf| == |next| && 4 * i + 4 <= |buf| && i != j
    requires forall k :: 0 <= k < |buf| && !(4 * j <= k < 4 * j + 4) ==> next[k] == buf[k]
    ensures HostWord(next, i) == HostWord(buf, i)
  {
    hide BigWord;
  }

  // ---- what has been fed ----

  lemma {:induction false} ChainPrefix(s: seq<Octet>, t: seq<Octet>, n: nat)
    requires 64 * n <= |s| && 64 * n <= |t| && s[..64 * n] == t[..64 * n]
    ensures Chain(s, n) == Chain(t, n)
  {
    hide Compress;
    if n > 0 {
      var a, b := 64 * (n - 1), 64 * n;
      assert s[..a] == s[..b][..a] == t[..b][..a] == t[..a];
      assert s[a..b] == s[..b][a..b] == t[..b][a..b] == t[a..b];
      ChainPrefix(s, t, n - 1);
    }
  }

  /** The state has taken in the whole blocks of fed, and rest is what is left of it. */
  ghost predicate Taken(state: Regs, rest: seq<Octet>, fed: seq<Octet>) {
    state == Chain(fed, |fed| / 64) && rest == fed[64 * (|fed| / 64)..]
  }

  lemma TakeLess(state: Regs, rest: seq<Octet>, fed: seq<Octet>, x: seq<Octet>)
    requires Taken(state, rest, fed) && |rest| + |x| < 64
    ensures Taken(state, rest + x, fed + x)
  {
    var n := |fed| / 64;
    assert |rest| == |fed| - 64 * n;
    assert |fed + x| / 64 == n;
    assert (fed + x)[..64 * n] == fed[..64 * n];
    hide Chain;
    ChainPrefix(fed, fed + x, n);
  }

  lemma TakeBlock(state: Regs, rest: seq<Octet>, fed: seq<Octet>, x: seq<Octet>)
    requires Taken(state, rest, fed) && |rest| + |x| == 64
    ensures Taken(Compress(state, rest + x), [], fed + x)
  {
    hide Compress;
    var n, t := |fed| / 64, fed + x;
    assert |t| == 64 * (n + 1);
    assert t[..64 * n] == fed[..64 * n];
    ChainPrefix(fed, t, n);
    assert t[64 * n..64 * (n + 1)] == rest + x;
    assert Chain(t, n + 1) == Compress(Chain(t, n), t[64 * n..64 * (n + 1)]);
  }

  lemma RestLength(state: Regs, rest: seq<Octet>, fed: seq<Octet>)
    requires Taken(state, rest, fed)
    ensures |rest| == |fed| % 64
  {
  }

  const WRAP: nat := 0x1_0000_0000_0000_0000

  /** The bit count tells how full the buffer is, even when it has wrapped. */
  lemma UsedSpace(n: nat)
    ensures 8 * n % WRAP / 8 % 64 == n % 64
  {
    var q := 8 * n / WRAP;
    assert 8 * n % WRAP == 8 * (n - q * 0x2000_0000_0000_0000);
    assert n == (n - q * 0x2000_0000_0000_0000) + 64 * (q * 0x80_0000_0000_0000);
  }

  lemma CountMore(n: nat, len: nat)
    ensures (8 * n % WRAP + 8 * len) % WRAP == 8 * (n + len) % WRAP
  {
  }

  lemma Nothing(fed: seq<Octet>, x: seq<Octet>)
    requires |x| == 0
    ensures fed + x == fed
  {
  }

  lemma Joined(fed: seq<Octet>, bytes: seq<Octet>, lo: nat, mid: nat, hi: nat)
    requires lo <= mid <= hi <= |bytes|
    ensures fed + bytes[lo..mid] + bytes[mid..hi] == fed + bytes[lo..hi]
  {
    assert bytes[lo..mid] + bytes[mid..hi] == bytes[lo..hi];
  }

  /** One round: the eight variables move on by one place and two of them are computed. */
  method NextRegisters(r: Regs, k: Word, w: Word) returns (q: Regs)
    ensures q == Round(r, k, w)
  {
    hide T1, T2, Sum;
    var a, b, c, d := r.a, r.b, r.c, r.d;
    var e, f, g, h := r.e, r.f, r.g, r.h;
    var t1, t2 := T1(e, f, g, h, k, w), T2(a, b, c);
    h := g;
    g := f;
    f := e;
    e := Sum(d, t1);
    d := c;
    c := b;
    b := a;
    a := Sum(t1, t2);
    q := Regs(a, b, c, d, e, f, g, h);
  }

  class Context {
    var state: Regs
    var bitcount: nat
    const buffer: array<Octet>

    ghost predicate Shape() { buffer.Length == 64 }

    /** Everything fed so far: whole blocks are in the state, the rest is in the buffer. */
    ghost predicate Represents(fed: seq<Octet>)
      reads this, buffer
    {
      && Shape()
      && bitcount == 8 * |fed| % WRAP
      && Taken(state, buffer[..|fed| % 64], fed)
    }

    constructor ()
      ensures Represents([]) && fresh(buffer)
    {
      state := INITIAL;
      bitcount := 0;
      buffer := new Octet[64](_ => 0);
    }

    /** Reads word j of the data, which may be the buffer itself, into the schedule. */
    method LoadWord(data: array<Octet>, off: nat, j: nat, ghost m: Message)
      requires Shape() && off + 64 <= data.Length && j < 16 && (data == buffer ==> off == 0)
      requires Loaded(buffer[..], m, j)
      requires forall k :: 4 * j <= k < 64 ==> data[off + k] == m[k]
      modifies buffer
      ensures Loaded(buffer[..], m, j + 1)
      ensures forall k :: 4 * (j + 1) <= k < 64 ==> data[off + k] == m[k]
      ensures data != buffer ==> data[..] == old(data[..])
      ensures HostWord(buffer[..], j) == Schedule(m, j)
    {
      hide BigWord, Reverse32;
      ghost var before := buffer[..];
      var p := off + 4 * j;
      Reversed(data[p], data[p + 1], data[p + 2], data[p + 3]);
      assert Schedule(m, j) == BigWord(m[4 * j], m[4 * j + 1], m[4 * j + 2], m[4 * j + 3]);
      var w := Reverse32(BigWord(data[p + 3], data[p + 2], data[p + 1], data[p]));
      PutWord(buffer, j, w);
      forall i | 0 <= i < j
        ensures HostWord(buffer[..], i) == HostWord(before, i)
      {
        OtherWords(before, buffer[..], i, j);
      }
    }

    /** The first 16 rounds load the block while they use it. */
    method LoadRounds(data: array<Octet>, off: nat, r: Regs, ghost m: Message) returns (q: Regs)
      requires Shape() && off + 64 <= data.Length && (data == buffer ==> off == 0)
      requires forall k :: 0 <= k < 64 ==> data[off + k] == m[k]
      modifies buffer
      ensures Loaded(buffer[..], m, 16) && q == Rounds(r, m, 16)
    {
      hide HostWord, Schedule, Round;
      q := r;
      for j := 0 to 16
        invariant Loaded(buffer[..], m, j)
        invariant forall k :: 4 * j <= k < 64 ==> data[off + k] == m[k]
        invariant q == Rounds(r, m, j)
      {
        LoadWord(data, off, j, m);
        q := NextRegisters(q, K256[j], HostWord(buffer[..], j));
      }
    }

    /** Updates word j of the schedule in place. */
    method MixWord(j: nat, ghost m: Message)
      requires Shape() && Window(buffer[..], m, j)
      modifies buffer
      ensures Window(buffer[..], m, j + 1) && HostWord(buffer[..], j % 16) == Schedule(m, j)
    {
      hide HostWord, Schedule, Mix, Window;
      ghost var before := buffer[..];
      WindowShape(before, m, j);
      NextWord(before, m, j);
      var s0 := HostWord(buffer[..], (j + 1) % 16);
      var s1 := HostWord(buffer[..], (j + 14) % 16);
      var w := Mix(HostWord(buffer[..], j % 16), s1, HostWord(buffer[..], (j + 9) % 16), s0);
      PutWord(buffer, j % 16, w);
      forall i | 0 <= i < 16 && i != j % 16
        ensures HostWord(buffer[..], i) == HostWord(before, i)
      {
        OtherWords(before, buffer[..], i, j % 16);
      }
      WindowStep(before, buffer[..], m, j);
    }

    lemma WindowShape(buf: seq<Octet>, m: Message, j: nat)
      requires Window(buf, m, j)
      ensures |buf| == 64 && j >= 16
    {
    }

    method MixRounds(r: Regs, ghost start: Regs, ghost m: Message) returns (q: Regs)
      requires Shape() && Window(buffer[..], m, 16) && r == Rounds(start, m, 16)
      modifies buffer
      ensures q == Rounds(start, m, 64)
    {
      hide HostWord, Schedule, Round, Window;
      q := r;
      for j := 16 to 64
        invariant Window(buffer[..], m, j)
        invariant q == Rounds(start, m, j)
      {
        MixWord(j, m);
        q := NextRegisters(q, K256[j], HostWord(buffer[..], j % 16));
      }
    }

    /** Takes one block into the state; the block may be the buffer itself. */
    method Transform(data: array<Octet>, off: nat)
      requires Shape() && off + 64 <= data.Length && (data == buffer ==> off == 0)
      modifies this`state, buffer
      ensures state == Compress(old(state), old(data[off..off + 64]))
    {
      hide HostWord, Schedule, Round, Window, Rounds, Plus;
      ghost var m: Message := data[off..off + 64];
      var q := LoadRounds(data, off, state, m);
      LoadedIsWindow(buffer[..], m);
      q := MixRounds(q, state, m);
      state := Plus(state, q);
    }

    /** Copies the len bytes at p behind the bytes that the buffer holds, which makes no whole block. */
    method KeepRest(data: array<Octet>, p: nat, len: nat, ghost fed: seq<Octet>)
      requires Represents(fed) && |fed| % 64 + len < 64 && p + len <= data.Length && data != buffer
      modifies this`bitcount, buffer
      ensures Represents(fed + data[p..p + len])
    {
      hide Chain, Taken;
      UsedSpace(|fed|);
      CountMore(|fed|, len);
      ghost var x := data[p..p + len];
      TakeLess(state, buffer[..|fed| % 64], fed, x);
      var usedspace := bitcount / 8 % 64;
      MemCopy(data[..], p, buffer, usedspace, len);
      assert buffer[..|fed| % 64 + len] == old(buffer[..|fed| % 64]) + x;
      RestLength(state, old(buffer[..|fed| % 64]) + x, fed + x);
      bitcount := (bitcount + 8 * len) % WRAP;
    }

    /** Fills the buffer up and takes the block in. */
    method FillBlock(data: array<Octet>, p: nat, len: nat, ghost fed: seq<Octet>)
      requires Represents(fed) && 0 < len && |fed| % 64 + len == 64 && p + len <= data.Length && data != buffer
      modifies this`bitcount, this`state, buffer
      ensures Represents(fed + data[p..p + len])
    {
      hide Chain, Taken, Compress;
      UsedSpace(|fed|);
      CountMore(|fed|, len);
      ghost var x := data[p..p + len];
      TakeBlock(state, buffer[..|fed| % 64], fed, x);
      RestLength(Compress(state, buffer[..|fed| % 64] + x), [], fed + x);
      var usedspace := bitcount / 8 % 64;
      MemCopy(data[..], p, buffer, usedspace, len);
      assert buffer[0..64] == old(buffer[..|fed| % 64]) + x;
      bitcount := (bitcount + 8 * len) % WRAP;
      Transform(buffer, 0);
      assert buffer[..0] == [];
    }

    /** Takes a whole block in from the data directly. */
    method TakeWhole(data: array<Octet>, p: nat, ghost fed: seq<Octet>)
      requires Represents(fed) && |fed| % 64 == 0 && p + 64 <= data.Length && data != buffer
      modifies this`bitcount, this`state, buffer
      ensures Represents(fed + data[p..p + 64])
    {
      hide Chain, Taken, Compress;
      CountMore(|fed|, 64);
      ghost var x := data[p..p + 64];
      assert buffer[..0] == [] && [] + x == x;
      TakeBlock(state, [], fed, x);
      RestLength(Compress(state, x), [], fed + x);
      Transform(data, p);
      bitcount := (bitcount + 8 * 64) % WRAP;
      assert buffer[..0] == [];
    }

    /** Whole blocks directly from the data, then what is left of it. */
    method TakeBlocks(data: array<Octet>, off: nat, len: nat, ghost fed: seq<Octet>)
      requires Represents(fed) && |fed| % 64 == 0 && off + len <= data.Length && data != buffer
      modifies this`bitcount, this`state, buffer
      ensures Represents(fed + data[off..off + len])
    {
      hide Chain, Taken, Represents;
      ghost var bytes := data[..];
      Nothing(fed, data[off..off]);
      var p, rest := off, len;
      while rest >= 64
        invariant rest >= 0 && p + rest == off + len && off <= p && (p - off) % 64 == 0
        invariant data[..] == bytes
        invariant Represents(fed + bytes[off..p])
      {
        ghost var part := fed + bytes[off..p];
        assert bytes[p..p + 64] == data[p..p + 64];
        TakeWhole(data, p, part);
        Joined(fed, bytes, off, p, p + 64);
        p, rest := p + 64, rest - 64;
      }
      if rest > 0 {
        assert bytes[p..p + rest] == data[p..p + rest];
        KeepRest(data, p, rest, fed + bytes[off..p]);
        Joined(fed, bytes, off, p, p + rest);
      }
      assert bytes[off..off + len] == data[off..off + len];
    }

    /** Fills the buffer up, then goes on block by block. */
    method FillAndTake(data: array<Octet>, off: nat, len: nat, freespace: nat, ghost fed: seq<Octet>)
      requires Represents(fed) && 0 < freespace <= len && |fed| % 64 + freespace == 64
      requires off + len <= data.Length && data != buffer
      modifies this`bitcount, this`state, buffer
      ensures Represents(fed + data[off..off + len])
    {
      hide Chain, Taken, Represents;
      ghost var bytes := data[..];
      assert bytes[off..off + freespace] == data[off..off + freespace];
      assert bytes[off + freespace..off + len] == data[off + freespace..off + len];
      FillBlock(data, off, freespace, fed);
      TakeBlocks(data, off + freespace, len - freespace, fed + bytes[off..off + freespace]);
      Joined(fed, bytes, off, off + freespace, off + len);
      assert data[..] == bytes;
      assert data[off..off + len] == bytes[off..off + len];
    }

    /** Feeds the len bytes at off. */
    method Update(data: array<Octet>, off: nat, len: nat, ghost fed: seq<Octet>)
      requires Represents(fed) && off + len <= data.Length && data != buffer
      modifies this`bitcount, this`state, buffer
      ensures Represents(fed + data[off..off + len])
    {
      hide Chain, Taken;
      if len == 0 {
        Nothing(fed, data[off..off + len]);
        return;
      }
      UsedSpace(|fed|);
      var usedspace := bitcount / 8 % 64;
      hide Represents;
      if usedspace > 0 {
        var freespace := 64 - usedspace;
        if len >= freespace {
          FillAndTake(data, off, len, freespace, fed);
        } else {
          KeepRest(data, off, len, fed);
        }
      } else {
        TakeBlocks(data, off, len, fed);
      }
    }

    /** Zeroes the bytes of the buffer from lo on. */
    method ZeroBuffer(lo: nat, hi: nat)
      requires Shape() && lo <= hi <= 64
      modifies buffer
      ensures forall k :: lo <= k < hi ==> buffer[k] == 0
      ensures forall k :: 0 <= k < 64 && !(lo <= k < hi) ==> buffer[k] == old(buffer[k])
    {
      for i := lo to hi
        invariant forall k :: lo <= k < i ==> buffer[k] == 0
        invariant forall k :: 0 <= k < 64 && !(lo <= k < i) ==> buffer[k] == old(buffer[k])
      {
        buffer[i] := 0;
      }
    }

    /** Pads what has been fed, in one block or two, and takes the padding in. */
    method Pad(ghost fed: seq<Octet>)
      requires Represents(fed) && 8 * |fed| < WRAP
      modifies this`state, buffer
      ensures state == Chain(Padded(fed), |Padded(fed)| / 64)
    {
      hide Chain, Taken, Compress, Zeros, BigEndian, Padded;
      UsedSpace(|fed|);
      PaddedLength(fed);
      ZerosFill(|fed|);
      RestLength(state, buffer[..|fed| % 64], fed);
      ghost var rest := buffer[..|fed| % 64];
      if |fed| % 64 < 56 {
        PaddedInPlace(state, rest, fed, 55 - |fed| % 64);
      } else {
        PaddedWithBlock(state, rest, fed, 63 - |fed| % 64);
      }
      var usedspace := bitcount / 8 % 64;
      if usedspace > 0 {
        buffer[usedspace] := 0x80;
        usedspace := usedspace + 1;
        if usedspace <= 56 {
          ZeroBuffer(usedspace, 56);
        } else {
          if usedspace < 64 {
            ZeroBuffer(usedspace, 64);
          }
          assert buffer[0..64] == rest + OneBit(63 - |fed| % 64);
          Transform(buffer, 0);
          ZeroBuffer(0, 56);
        }
      } else {
        ZeroBuffer(0, 56);
        buffer[0] := 0x80;
      }
      FinalBlock(rest, fed);
    }

    /** Puts the bit count behind the padding and takes the last block in. */
    method FinalBlock(ghost rest: seq<Octet>, ghost fed: seq<Octet>)
      requires Shape() && bitcount == 8 * |fed| && |rest| == |fed| % 64
      requires buffer[..56] == if |fed| % 64 < 56 then rest + OneBit(55 - |fed| % 64) else seq(56, _ => 0)
      modifies this`state, buffer
      ensures |fed| % 64 < 56 ==>
        state == Compress(old(state), rest + OneBit(55 - |fed| % 64) + BigEndian(8 * |fed|, 8))
      ensures |fed| % 64 >= 56 ==> state == Compress(old(state), seq(56, _ => 0) + BigEndian(8 * |fed|, 8))
    {
      hide Compress, BigEndian, OneBit;
      ghost var head := buffer[..56];
      PutBigEndian(bitcount, buffer, 56, 8);
      assert buffer[0..64] == head + BigEndian(8 * |fed|, 8);
      Transform(buffer, 0);
    }

    /** Writes the eight words of the state, most significant byte first. */
    method PutDigest(digest: array<Octet>)
      requires Shape() && digest.Length == 32 && digest != buffer
      modifies digest
      ensures digest[..] == DigestOf(state)
    {
      hide WordBytes, Reverse32;
      for j := 0 to 8
        invariant forall k :: 0 <= k < 4 * j ==> digest[k] == WordBytes(RegAt(state, k / 4))[k % 4]
      {
        ghost var before := digest[..];
        var w := Reverse32(RegAt(state, j));
        PutWord(digest, j, w);
        DigestStep(before, digest[..], state, j, w);
      }
    }

    /** Ends the message: stores the digest if one is wanted, and clears the context. */
    method Final(digest: array?<Octet>, ghost fed: seq<Octet>)
      requires Represents(fed) && 8 * |fed| < WRAP
      requires digest != null ==> digest.Length == 32 && digest != buffer
      modifies this`bitcount, this`state, buffer, digest
      ensures digest != null ==> digest[..] == Hash(fed)
      ensures state == Regs(0, 0, 0, 0, 0, 0, 0, 0) && bitcount == 0 && forall k :: 0 <= k < 64 ==> buffer[k] == 0
    {
      hide Chain, Padded, DigestOf, Taken;
      if digest != null {
        Pad(fed);
        PutDigest(digest);
      }
      state := Regs(0, 0, 0, 0, 0, 0, 0, 0);
      bitcount := 0;
      ZeroBuffer(0, 64);
    }
  }

  lemma DigestStep(before: seq<Octet>, after: seq<Octet>, r: Regs, j: nat, w: Word)
    requires |before| == |after| == 32 && j < 8 && w == Reverse32(RegAt(r, j))
    requires forall k :: 0 <= k < 4 * j ==> before[k] == WordBytes(RegAt(r, k / 4))[k % 4]
    requires forall k :: 4 * j <= k < 4 * j + 4 ==> after[k] == WordBytes(w)[4 * j + 3 - k]
    requires forall k :: 0 <= k < 32 && !(4 * j <= k < 4 * j + 4) ==> after[k] == before[k]
    ensures forall k :: 0 <= k < 4 * (j + 1) ==> after[k] == WordBytes(RegAt(r, k / 4))[k % 4]
  {
    BytesReversed(RegAt(r, j));
    hide WordBytes, Reverse32, RegAt;
    forall k | 4 * j <= k < 4 * j + 4
      ensures after[k] == WordBytes(RegAt(r, k / 4))[k % 4]
    {
      assert k / 4 == j && k % 4 == k - 4 * j;
    }
  }

  /** However a message is cut into pieces, feeding them in order gives its hash. */
  method HashPieces(pieces: seq<seq<Octet>>) returns (digest: array<Octet>)
    requires 8 * |Joint(pieces, |pieces|)| < WRAP
    ensures digest[..] == Hash(Joint(pieces, |pieces|))
  {
    hide Chain, Padded, Taken, DigestOf;
    var c := new Context();
    for i := 0 to |pieces|
      invariant fresh(c) && fresh(c.buffer)
      invariant c.Represents(Joint(pieces, i))
    {
      var piece := pieces[i];
      var data := new Octet[|piece|](k requires 0 <= k < |piece| => piece[k]);
      assert data[0..|piece|] == piece;
      c.Update(data, 0, |piece|, Joint(pieces, i));
    }
    digest := new Octet[32](_ => 0);
    c.Final(digest, Joint(pieces, |pieces|));
  }

  lemma Regrouped(a: seq<Octet>, b: seq<Octet>, c: seq<Octet>)
    ensures a + b + c == a + (b + c)
  {
  }

  lemma TakenAll(state: Regs, t: seq<Octet>)
    requires Taken(state, [], t)
    ensures state == Chain(t, |t| / 64)
  {
  }

  /** The length still fits the last block. */
  lemma PaddedInPlace(state: Regs, rest: seq<Octet>, fed: seq<Octet>, z: nat)
    requires Taken(state, rest, fed) && |rest| + z == 55 && z == Zeros(|fed|)
    ensures Chain(Padded(fed), |Padded(fed)| / 64) == Compress(state, rest + OneBit(z) + BigEndian(8 * |fed|, 8))
  {
    hide Compress, Chain, BigEndian, Zeros, OneBit, Taken;
    var one, size := OneBit(z), BigEndian(8 * |fed|, 8);
    Regrouped(rest, one, size);
    Regrouped(fed, one, size);
    TakeBlock(state, rest, fed, one + size);
    TakenAll(Compress(state, rest + (one + size)), fed + (one + size));
  }

  /** The length needs a block of its own. */
  lemma PaddedWithBlock(state: Regs, rest: seq<Octet>, fed: seq<Octet>, z: nat)
    requires Taken(state, rest, fed) && |rest| + z == 63 && z + 56 == Zeros(|fed|)
    ensures Chain(Padded(fed), |Padded(fed)| / 64)
         == Compress(Compress(state, rest + OneBit(z)), seq(56, _ => 0) + BigEndian(8 * |fed|, 8))
  {
    hide Compress, Chain, BigEndian, Zeros, OneBit, Taken, Padded;
    var one, last := OneBit(z), seq<Octet>(56, _ => 0) + BigEndian(8 * |fed|, 8);
    LongPadded(fed, z);
    TakeBlock(state, rest, fed, one);
    assert [] + last == last;
    TakeBlock(Compress(state, rest + one), [], fed + one, last);
    TakenAll(Compress(Compress(state, rest + one), last), fed + one + last);
  }

  lemma LongPadded(fed: seq<Octet>, z: nat)
    requires z + 56 == Zeros(|fed|)
    ensures fed + OneBit(z) + (seq(56, _ => 0) + BigEndian(8 * |fed|, 8)) == Padded(fed)
  {
    MoreZeros(z, 56);
    hide BigEndian, Zeros, OneBit;
    Regrouped(fed, OneBit(z), seq(56, _ => 0));
    Regrouped(fed + OneBit(z), seq(56, _ => 0), BigEndian(8 * |fed|, 8));
  }

  lemma MoreZeros(z: nat, n: nat)
    ensures OneBit(z) + seq(n, _ => 0) == OneBit(z + n)
  {
  }
}
