/** What the functions of SHA-256 do to the bits and to the values of words. */
module Sha256Words {
  import opened Octets
  import opened Sha256

  // ---- bits ----

  /** The place of a bit; adding places wraps around after 32. */
  type Place = bv5

  predicate BitOf(x: Word, j: Place) { (x >> j) & 1 == 1 }

  // S32 moves every bit down and around by the distance.

  lemma Rotation2Bits(x: Word, j: Place)
    ensures BitOf(S32(2, x), j) == BitOf(x, j + 2)
  {
  }

  lemma Rotation6Bits(x: Word, j: Place)
    ensures BitOf(S32(6, x), j) == BitOf(x, j + 6)
  {
  }

  lemma Rotation7Bits(x: Word, j: Place)
    ensures BitOf(S32(7, x), j) == BitOf(x, j + 7)
  {
  }

  lemma Rotation11Bits(x: Word, j: Place)
    ensures BitOf(S32(11, x), j) == BitOf(x, j + 11)
  {
  }

  lemma Rotation13Bits(x: Word, j: Place)
    ensures BitOf(S32(13, x), j) == BitOf(x, j + 13)
  {
  }

  lemma Rotation17Bits(x: Word, j: Place)
    ensures BitOf(S32(17, x), j) == BitOf(x, j + 17)
  {
  }

  lemma Rotation18Bits(x: Word, j: Place)
    ensures BitOf(S32(18, x), j) == BitOf(x, j + 18)
  {
  }

  lemma Rotation19Bits(x: Word, j: Place)
    ensures BitOf(S32(19, x), j) == BitOf(x, j + 19)
  {
  }

  lemma Rotation22Bits(x: Word, j: Place)
    ensures BitOf(S32(22, x), j) == BitOf(x, j + 22)
  {
  }

  lemma Rotation25Bits(x: Word, j: Place)
    ensures BitOf(S32(25, x), j) == BitOf(x, j + 25)
  {
  }

  lemma Shift3Bits(x: Word, j: Place)
    ensures BitOf(R(3, x), j) == (j <= 28 && BitOf(x, j + 3))
  {
  }

  lemma Shift10Bits(x: Word, j: Place)
    ensures BitOf(R(10, x), j) == (j <= 21 && BitOf(x, j + 10))
  {
  }

  lemma XorBits(x: Word, y: Word, j: Place)
    ensures BitOf(x ^ y, j) <==> (BitOf(x, j) <==> !BitOf(y, j))
  {
  }

  /** Whether an odd number of the three is true. */
  predicate Odd(a: bool, b: bool, c: bool) { (a != b) != c }

  function Xor3(x: Word, y: Word, z: Word): Word { x ^ y ^ z }

  lemma Xor3Bits(x: Word, y: Word, z: Word, j: Place)
    ensures BitOf(Xor3(x, y, z), j) == Odd(BitOf(x, j), BitOf(y, j), BitOf(z, j))
  {
    hide BitOf;
    XorBits(x, y, j);
    XorBits(x ^ y, z, j);
  }

  /** Bit j of the four functions is the sum of three bits of the word at these distances. */
  lemma BigSigma0Bits(x: Word, j: Place)
    ensures BitOf(BigSigma0(x), j) == Odd(BitOf(x, j + 2), BitOf(x, j + 13), BitOf(x, j + 22))
  {
    hide BitOf, BigSigma0, S32, Xor3, Odd;
    Rotation2Bits(x, j);
    Rotation13Bits(x, j);
    Rotation22Bits(x, j);
    Xor3Bits(S32(2, x), S32(13, x), S32(22, x), j);
    BigSigma0Parts(x);
  }

  lemma BigSigma0Parts(x: Word)
    ensures BigSigma0(x) == Xor3(S32(2, x), S32(13, x), S32(22, x))
  {
    hide S32, R;
  }

  lemma BigSigma1Bits(x: Word, j: Place)
    ensures BitOf(BigSigma1(x), j) == Odd(BitOf(x, j + 6), BitOf(x, j + 11), BitOf(x, j + 25))
  {
    hide BitOf, BigSigma1, S32, Xor3, Odd;
    Rotation6Bits(x, j);
    Rotation11Bits(x, j);
    Rotation25Bits(x, j);
    Xor3Bits(S32(6, x), S32(11, x), S32(25, x), j);
    BigSigma1Parts(x);
  }

  lemma BigSigma1Parts(x: Word)
    ensures BigSigma1(x) == Xor3(S32(6, x), S32(11, x), S32(25, x))
  {
    hide S32, R;
  }

  lemma Sigma0Bits(x: Word, j: Place)
    ensures BitOf(Sigma0(x), j) == Odd(BitOf(x, j + 7), BitOf(x, j + 18), j <= 28 && BitOf(x, j + 3))
  {
    hide BitOf, Sigma0, S32, R, Xor3, Odd;
    Rotation7Bits(x, j);
    Rotation18Bits(x, j);
    Shift3Bits(x, j);
    Xor3Bits(S32(7, x), S32(18, x), R(3, x), j);
    Sigma0Parts(x);
  }

  lemma Sigma0Parts(x: Word)
    ensures Sigma0(x) == Xor3(S32(7, x), S32(18, x), R(3, x))
  {
    hide S32, R;
  }

  lemma Sigma1Bits(x: Word, j: Place)
    ensures BitOf(Sigma1(x), j) == Odd(BitOf(x, j + 17), BitOf(x, j + 19), j <= 21 && BitOf(x, j + 10))
  {
    hide BitOf, Sigma1, S32, R, Xor3, Odd;
    Rotation17Bits(x, j);
    Rotation19Bits(x, j);
    Shift10Bits(x, j);
    Xor3Bits(S32(17, x), S32(19, x), R(10, x), j);
    Sigma1Parts(x);
  }

  lemma Sigma1Parts(x: Word)
    ensures Sigma1(x) == Xor3(S32(17, x), S32(19, x), R(10, x))
  {
    hide S32, R;
  }

  // ---- values ----

  const WORDS: nat := 0x1_0000_0000

  function WordNumber(x: Word): (v: nat)
    ensures v < WORDS
  {
    x as nat
  }

  function PairNumber(x: bv16): (v: nat)
    ensures v < 65536
  {
    x as nat
  }

  function Pair(a: Octet, b: Octet): bv16 { ((a as bv16) << 8) | (b as bv16) }

  function TwoPairs(h: bv16, l: bv16): Word { ((h as bv32) << 16) | (l as bv32) }

  lemma PairValue(a: Octet, b: Octet)
    ensures PairNumber(Pair(a, b)) == 256 * OctetNumber(a) + OctetNumber(b)
  {
    PairIs(Pair(a, b), a, b);
  }

  lemma PairIs(x: bv16, a: Octet, b: Octet)
    requires x == ((a as bv16) << 8) | (b as bv16)
    ensures PairNumber(x) == 256 * OctetNumber(a) + OctetNumber(b)
  {
  }

  lemma TwoPairsValue(h: bv16, l: bv16)
    ensures WordNumber(TwoPairs(h, l)) == 65536 * PairNumber(h) + PairNumber(l)
  {
    TwoPairsIs(TwoPairs(h, l), h, l);
  }

  lemma TwoPairsIs(x: Word, h: bv16, l: bv16)
    requires x == ((h as bv32) << 16) | (l as bv32)
    ensures WordNumber(x) == 65536 * PairNumber(h) + PairNumber(l)
  {
  }

  lemma OctetsOfPair(x: bv16) returns (a: Octet, b: Octet)
    ensures x == Pair(a, b)
  {
    a, b := (x >> 8) as bv8, (x & 0xFF) as bv8;
  }

  lemma PairsOfWord(x: Word) returns (h: bv16, l: bv16)
    ensures x == TwoPairs(h, l)
  {
    h, l := (x >> 16) as bv16, (x & 0xFFFF) as bv16;
  }

  /** The four bytes of a word, most significant first, denote its value. */
  lemma BigWordValue(a: Octet, b: Octet, c: Octet, d: Octet)
    ensures WordNumber(BigWord(a, b, c, d))
         == 0x100_0000 * OctetNumber(a) + 0x1_0000 * OctetNumber(b) + 0x100 * OctetNumber(c) + OctetNumber(d)
  {
    hide BigWord, Pair, TwoPairs, OctetNumber, PairNumber, WordNumber;
    BigWordPairs(a, b, c, d);
    PairValue(a, b);
    PairValue(c, d);
    TwoPairsValue(Pair(a, b), Pair(c, d));
  }

  lemma BigWordPairs(a: Octet, b: Octet, c: Octet, d: Octet)
    ensures BigWord(a, b, c, d) == TwoPairs(Pair(a, b), Pair(c, d))
  {
  }

  lemma NextOctetValue(b: Octet)
    requires b != 0xFF
    ensures OctetNumber(b + 1) == OctetNumber(b) + 1
  {
  }

  lemma LastOctetValue()
    ensures OctetNumber(0xFF) == 255 && OctetNumber(0) == 0
  {
  }

  function Next16(x: bv16): bv16 { x + 1 }

  function Next8(b: Octet): Octet { b + 1 }

  lemma NextPair(a: Octet, b: Octet)
    ensures b != 0xFF ==> Next16(Pair(a, b)) == Pair(a, Next8(b))
    ensures b == 0xFF ==> Next16(Pair(a, b)) == Pair(Next8(a), 0)
  {
  }

  lemma NextPairValue(x: bv16)
    requires x != 0xFFFF
    ensures PairNumber(Next16(x)) == PairNumber(x) + 1
  {
    var a, b := OctetsOfPair(x);
    LastPair(a, b);
    hide Pair, Next16, OctetNumber, PairNumber;
    NextPair(a, b);
    PairValue(a, b);
    if b != 0xFF {
      NextOctetValue(b);
      PairValue(a, Next8(b));
    } else {
      NextOctetValue(a);
      PairValue(Next8(a), 0);
      LastOctetValue();
    }
  }

  lemma LastPair(a: Octet, b: Octet)
    requires Pair(a, b) != 0xFFFF
    ensures b == 0xFF ==> a != 0xFF
  {
  }

  function Next32(x: Word): Word { x + 1 }

  lemma NextWord(h: bv16, l: bv16)
    ensures l != 0xFFFF ==> Next32(TwoPairs(h, l)) == TwoPairs(h, Next16(l))
    ensures l == 0xFFFF ==> Next32(TwoPairs(h, l)) == TwoPairs(Next16(h), 0)
  {
  }

  lemma LastPairValue()
    ensures PairNumber(0xFFFF) == 65535 && PairNumber(0) == 0
  {
  }

  lemma LastTwoPairs(h: bv16, l: bv16)
    requires TwoPairs(h, l) != 0xFFFF_FFFF
    ensures l == 0xFFFF ==> h != 0xFFFF
  {
  }

  lemma SameWord(x: Word, y: Word)
    requires WordNumber(x) == WordNumber(y)
    ensures x == y
  {
    WordOfNumber(x);
    WordOfNumber(y);
  }

  lemma WordOfNumber(x: Word)
    ensures WordNumber(x) as bv32 == x
  {
  }

  lemma ExtremeWords(x: Word)
    ensures WordNumber(0) == 0 && WordNumber(0xFFFF_FFFF) == WORDS - 1
    ensures Sum(x, 0) == x && Next32(0xFFFF_FFFF) == 0
  {
  }

  lemma NextWordValue(x: Word)
    ensures WordNumber(Next32(x)) == (WordNumber(x) + 1) % WORDS
  {
    hide Next32, Next16, PairNumber, WordNumber, TwoPairs, Sum;
    ExtremeWords(x);
    if x != 0xFFFF_FFFF {
      var h, l := PairsOfWord(x);
      LastTwoPairs(h, l);
      NextWord(h, l);
      TwoPairsValue(h, l);
      if l != 0xFFFF {
        NextPairValue(l);
        TwoPairsValue(h, Next16(l));
      } else {
        NextPairValue(h);
        TwoPairsValue(Next16(h), 0);
        LastPairValue();
      }
    }
  }

  lemma WordBefore(y: Word) returns (c: Word)
    requires y != 0
    ensures y == c + 1 && c != 0xFFFF_FFFF
  {
    c := y - 1;
  }

  lemma NextIs(c: Word, y: Word)
    requires y == c + 1
    ensures y == Next32(c)
  {
  }

  lemma SumOfNext(x: Word, y: Word, c: Word)
    requires y == c + 1
    ensures Sum(x, y) == Next32(Sum(x, c))
  {
  }

  lemma AddResidues(a: nat, b: nat)
    ensures (a % WORDS + b) % WORDS == (a + b) % WORDS == (a + b % WORDS) % WORDS
  {
  }

  lemma NumberBefore(c: Word, y: Word)
    requires y == Next32(c) && c != 0xFFFF_FFFF
    ensures WordNumber(y) == WordNumber(c) + 1
  {
    hide WordNumber, Next32;
    NextWordValue(c);
    ExtremeWords(c);
    if WordNumber(c) == WORDS - 1 {
      SameWord(c, 0xFFFF_FFFF);
    }
  }

  /** Addition of words is addition modulo 2^32. */
  lemma {:induction false} SumValue(x: Word, y: Word)
    ensures WordNumber(Sum(x, y)) == (WordNumber(x) + WordNumber(y)) % WORDS
    decreases WordNumber(y)
  {
    hide Sum, WordNumber, Next32;
    if y == 0 {
      ExtremeWords(x);
    } else {
      var c := WordBefore(y);
      NextIs(c, y);
      NumberBefore(c, y);
      SumOfNext(x, y, c);
      SumValue(x, c);
      NextWordValue(Sum(x, c));
      AddResidues(WordNumber(x) + WordNumber(c), 1);
    }
  }

  /** The feed-forward adds the old state register by register modulo 2^32. */
  lemma PlusValue(r: Regs, q: Regs, j: nat)
    requires j < 8
    ensures WordNumber(RegAt(Plus(r, q), j)) == (WordNumber(RegAt(r, j)) + WordNumber(RegAt(q, j))) % WORDS
  {
    hide WordNumber, Sum;
    SumValue(RegAt(r, j), RegAt(q, j));
  }

  lemma SumOfThree(x: Word, y: Word, z: Word)
    ensures WordNumber(Sum(Sum(x, y), z)) == (WordNumber(x) + WordNumber(y) + WordNumber(z)) % WORDS
  {
    hide Sum, WordNumber;
    SumValue(x, y);
    SumValue(Sum(x, y), z);
    AddResidues(WordNumber(x) + WordNumber(y), WordNumber(z));
  }

  /** One round of step 3 of section 6.2.2 of FIPS 180-4: the values of the two registers that it
      computes, and the places of the other six. */
  ghost predicate IsRound(r: Regs, k: Word, w: Word, q: Regs) {
    var t := WordNumber(r.h) + WordNumber(BigSigma1(r.e)) + WordNumber(Ch(r.e, r.f, r.g)) + WordNumber(k)
             + WordNumber(w);
    && WordNumber(q.a) == (t + WordNumber(BigSigma0(r.a)) + WordNumber(Maj(r.a, r.b, r.c))) % WORDS
    && WordNumber(q.e) == (t + WordNumber(r.d)) % WORDS
    && q.b == r.a && q.c == r.b && q.d == r.c && q.f == r.e && q.g == r.f && q.h == r.g
  }

  lemma RoundValue(r: Regs, k: Word, w: Word)
    ensures IsRound(r, k, w, Round(r, k, w))
  {
    hide T1, T2, Sum, WordNumber, BigSigma0, BigSigma1, Ch, Maj;
    var x, y := T1(r.e, r.f, r.g, r.h, k, w), T2(r.a, r.b, r.c);
    var t := WordNumber(r.h) + WordNumber(BigSigma1(r.e)) + WordNumber(Ch(r.e, r.f, r.g)) + WordNumber(k)
             + WordNumber(w);
    var u := WordNumber(BigSigma0(r.a)) + WordNumber(Maj(r.a, r.b, r.c));
    T1Value(r.e, r.f, r.g, r.h, k, w);
    T2Value(r.a, r.b, r.c);
    RoundSums(x, y, r.d, t, u);
  }

  lemma RoundSums(x: Word, y: Word, d: Word, t: nat, u: nat)
    requires WordNumber(x) == t % WORDS && WordNumber(y) == u % WORDS
    ensures WordNumber(Sum(x, y)) == (t + u) % WORDS && WordNumber(Sum(d, x)) == (t + WordNumber(d)) % WORDS
  {
    hide Sum, WordNumber;
    SumValue(x, y);
    SumValue(d, x);
    AddResidues(t, u % WORDS);
    AddResidues(t, u);
    AddResidues(t, WordNumber(d));
  }

  lemma T1Value(e: Word, f: Word, g: Word, h: Word, k: Word, w: Word)
    ensures WordNumber(T1(e, f, g, h, k, w))
         == (WordNumber(h) + WordNumber(BigSigma1(e)) + WordNumber(Ch(e, f, g)) + WordNumber(k) + WordNumber(w)) % WORDS
  {
    hide Sum, WordNumber, BigSigma1, Ch;
    var x := Sum(Sum(h, BigSigma1(e)), Ch(e, f, g));
    SumOfThree(h, BigSigma1(e), Ch(e, f, g));
    SumOfThree(x, k, w);
    AddResidues(WordNumber(h) + WordNumber(BigSigma1(e)) + WordNumber(Ch(e, f, g)), WordNumber(k) + WordNumber(w));
  }

  lemma T2Value(a: Word, b: Word, c: Word)
    ensures WordNumber(T2(a, b, c)) == (WordNumber(BigSigma0(a)) + WordNumber(Maj(a, b, c))) % WORDS
  {
    hide Sum, WordNumber, BigSigma0, Maj;
    SumValue(BigSigma0(a), Maj(a, b, c));
  }

  /** The value of a word of the schedule from those 2, 7, 15 and 16 places before it. */
  ghost predicate IsLater(x: Word, y: Word, z: Word, v: Word, w: Word) {
    WordNumber(w) == (WordNumber(Sigma1(x)) + WordNumber(y) + WordNumber(Sigma0(z)) + WordNumber(v)) % WORDS
  }

  lemma ScheduleValue(m: Message, t: nat)
    requires 16 <= t
    ensures IsLater(Schedule(m, t - 2), Schedule(m, t - 7), Schedule(m, t - 15), Schedule(m, t - 16), Schedule(m, t))
  {
    hide Later, WordNumber, Sigma0, Sigma1;
    LaterValue(Schedule(m, t - 2), Schedule(m, t - 7), Schedule(m, t - 15), Schedule(m, t - 16));
  }

  lemma LaterValue(x: Word, y: Word, z: Word, w: Word)
    ensures WordNumber(Later(x, y, z, w))
         == (WordNumber(Sigma1(x)) + WordNumber(y) + WordNumber(Sigma0(z)) + WordNumber(w)) % WORDS
  {
    hide Sum, WordNumber, Sigma0, Sigma1;
    var v := Sum(Sum(Sigma1(x), y), Sigma0(z));
    SumOfThree(Sigma1(x), y, Sigma0(z));
    SumValue(v, w);
    AddResidues(WordNumber(Sigma1(x)) + WordNumber(y) + WordNumber(Sigma0(z)), WordNumber(w));
  }

  // ---- padding and digest ----

  /** The digest is the eight registers in their order, each most significant byte first. */
  lemma DigestReadBack(r: Regs, j: nat)
    requires j < 8
    ensures var d := DigestOf(r);
            BigWord(d[4 * j], d[4 * j + 1], d[4 * j + 2], d[4 * j + 3]) == RegAt(r, j)
  {
    hide BigWord, RegAt;
    var d, s := DigestOf(r), WordBytes(RegAt(r, j));
    WordOfBytes(RegAt(r, j));
    hide WordBytes;
    assert (4 * j) / 4 == j && (4 * j + 1) / 4 == j && (4 * j + 2) / 4 == j && (4 * j + 3) / 4 == j;
    assert d[4 * j] == s[0] && d[4 * j + 1] == s[1] && d[4 * j + 2] == s[2] && d[4 * j + 3] == s[3];
  }

  /** A padded message is the message, the byte 0x80, as few zeros as whole blocks allow, and the
      length in bits. */
  lemma PaddedReadBack(s: seq<Octet>)
    ensures var p, n := Padded(s), |s|;
            && |p| % 64 == 0 && n + 9 <= |p| < n + 9 + 64 && p[..n] == s && OctetNumber(p[n]) == 128
            && (forall i :: n < i < |p| - 8 ==> p[i] == 0)
            && (8 * n < Range(8) ==> FromBigEndian(p, |p| - 8, 8) == 8 * n)
  {
    hide BigEndian, FromBigEndian, Range, Zeros;
    PaddedLength(s);
    ZerosFill(|s|);
    var p := Padded(s);
    assert p[|p| - 8..|p| - 8 + 8] == BigEndian(8 * |s|, 8);
    if 8 * |s| < Range(8) {
      ReadBack(p, |p| - 8, 8, 8 * |s|);
    }
  }

  // ---- the computation as a sequence of values ----

  /** A word of the message: the value of four bytes. */
  ghost predicate IsLoaded(m: Message, t: nat, x: Word)
    requires t < 16
  {
    WordNumber(x) == 0x100_0000 * OctetNumber(m[4 * t]) + 0x1_0000 * OctetNumber(m[4 * t + 1])
                     + 0x100 * OctetNumber(m[4 * t + 2]) + OctetNumber(m[4 * t + 3])
  }

  ghost predicate LaterAt(w: seq<Word>, t: nat)
    requires 16 <= t < |w|
  {
    IsLater(w[t - 2], w[t - 7], w[t - 15], w[t - 16], w[t])
  }

  /** The words of step 1. */
  ghost predicate IsSchedule(m: Message, w: seq<Word>) {
    && |w| == 64 && (forall t :: 0 <= t < 16 ==> IsLoaded(m, t, w[t]))
    && forall t :: 16 <= t < 64 ==> LaterAt(w, t)
  }

  ghost predicate RoundAt(w: seq<Word>, q: seq<Regs>, t: nat)
    requires t < |w| && t < |K256| && t + 1 < |q|
  {
    IsRound(q[t], K256[t], w[t], q[t + 1])
  }

  ghost predicate AreRounds(r: Regs, w: seq<Word>, q: seq<Regs>) {
    && |w| == 64 == |K256| && |q| == 65 && q[0] == r
    && forall t :: 0 <= t < 64 ==> RoundAt(w, q, t)
  }

  lemma RoundIsOnly(r: Regs, k: Word, w: Word, q: Regs)
    requires IsRound(r, k, w, q)
    ensures q == Round(r, k, w)
  {
    RoundValue(r, k, w);
    hide WordNumber, Round, BigSigma0, BigSigma1, Ch, Maj;
    SameWord(q.a, Round(r, k, w).a);
    SameWord(q.e, Round(r, k, w).e);
  }

  lemma {:induction false} ScheduleIsOnly(m: Message, w: seq<Word>, t: nat)
    requires IsSchedule(m, w) && t < 64
    ensures w[t] == Schedule(m, t)
  {
    hide Schedule, IsLoaded, IsLater;
    if t < 16 {
      LoadedIsOnly(m, t, w[t]);
    } else {
      ScheduleIsOnly(m, w, t - 2);
      ScheduleIsOnly(m, w, t - 7);
      ScheduleIsOnly(m, w, t - 15);
      ScheduleIsOnly(m, w, t - 16);
      assert LaterAt(w, t);
      LaterIsOnly(m, t, w[t]);
    }
  }

  lemma LaterIsOnly(m: Message, t: nat, x: Word)
    requires t >= 16
    requires IsLater(Schedule(m, t - 2), Schedule(m, t - 7), Schedule(m, t - 15), Schedule(m, t - 16), x)
    ensures x == Schedule(m, t)
  {
    hide Schedule, WordNumber, Sigma0, Sigma1;
    ScheduleValue(m, t);
    SameWord(x, Schedule(m, t));
  }

  lemma LoadedIsOnly(m: Message, t: nat, x: Word)
    requires t < 16 && IsLoaded(m, t, x)
    ensures x == Schedule(m, t)
  {
    hide WordNumber, BigWord, OctetNumber;
    BigWordValue(m[4 * t], m[4 * t + 1], m[4 * t + 2], m[4 * t + 3]);
    SameWord(x, BigWord(m[4 * t], m[4 * t + 1], m[4 * t + 2], m[4 * t + 3]));
  }

  lemma {:induction false} RoundsAreOnly(r: Regs, m: Message, w: seq<Word>, q: seq<Regs>, t: nat)
    requires IsSchedule(m, w) && AreRounds(r, w, q) && t <= 64
    ensures q[t] == Rounds(r, m, t)
  {
    hide IsSchedule, IsRound, Round, Schedule, K256;
    if t > 0 {
      RoundsAreOnly(r, m, w, q, t - 1);
      ScheduleIsOnly(m, w, t - 1);
      assert RoundAt(w, q, t - 1);
      RoundIsOnly(q[t - 1], K256[t - 1], w[t - 1], q[t]);
    }
  }

  /** Whatever words and registers satisfy the equations of the standard for all 64 rounds, the
      compression of the block adds the last registers to the first. */
  lemma CompressValue(r: Regs, m: Message, w: seq<Word>, q: seq<Regs>, j: nat)
    requires IsSchedule(m, w) && AreRounds(r, w, q) && j < 8
    ensures WordNumber(RegAt(Compress(r, m), j)) == (WordNumber(RegAt(r, j)) + WordNumber(RegAt(q[64], j))) % WORDS
  {
    hide IsSchedule, AreRounds, WordNumber, RegAt, Plus, Rounds, K256;
    RoundsAreOnly(r, m, w, q, 64);
    PlusValue(r, Rounds(r, m, 64), j);
  }

  function BlockOf(p: seq<Octet>, i: nat): Message
    requires 64 * (i + 1) <= |p|
  {
    p[64 * i..64 * (i + 1)]
  }

  /** h[i] is what the first i blocks are compressed to. */
  ghost predicate AreStates(p: seq<Octet>, h: seq<Regs>) {
    && |h| > 0 && 64 * (|h| - 1) == |p| && h[0] == INITIAL
    && forall i {:trigger BlockOf(p, i)} :: 0 <= i < |h| - 1 ==> h[i + 1] == Compress(h[i], BlockOf(p, i))
  }

  /** Compressing the blocks of the padded message one after the other gives the hash. */
  lemma HashValue(s: seq<Octet>, h: seq<Regs>)
    requires AreStates(Padded(s), h)
    ensures |h| == |Padded(s)| / 64 + 1 && Hash(s) == DigestOf(h[|h| - 1])
  {
    hide Padded, DigestOf, Compress, BlockOf, Chain;
    BlocksChained(Padded(s), h, |h| - 1);
  }

  lemma {:induction false} BlocksChained(p: seq<Octet>, h: seq<Regs>, n: nat)
    requires AreStates(p, h) && n < |h|
    ensures h[n] == Chain(p, n)
  {
    hide Compress, BlockOf, Chain;
    if n > 0 {
      BlocksChained(p, h, n - 1);
      NextBlock(p, n - 1);
      assert h[n - 1 + 1] == Compress(h[n - 1], BlockOf(p, n - 1));
    } else {
      NoBlock(p);
    }
  }

  lemma NoBlock(p: seq<Octet>)
    ensures Chain(p, 0) == INITIAL
  {
  }

  lemma NextBlock(p: seq<Octet>, n: nat)
    requires 64 * (n + 1) <= |p|
    ensures Chain(p, n + 1) == Compress(Chain(p, n), BlockOf(p, n))
  {
    hide Compress;
  }
}
