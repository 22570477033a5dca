/** Ring elements of Z_257^64 as 72 bytes: eight 9-bit coefficients go into nine bytes. */
module Packing {
  import opened Octets

  const PKLEN: nat := 72
  const RGLEN: nat := 64

  /** Coefficients after reduction modulo 257 fit in nine bits. */
  type Coef = c: bv16 | c < 512

  type RingElement = y: seq<Coef> | |y| == RGLEN witness seq(RGLEN, _ => 0)
  type Packed = b: seq<Octet> | |b| == PKLEN witness seq(PKLEN, _ => 0)

  function Low8(x: bv16): Octet { (x & 0xFF) as bv8 }

  /** Byte r of the nine bytes of coefficients c[0..8]. */
  function PackByte(c: seq<Coef>, r: nat): Octet
    requires |c| == 8 && r < 9
  {
    match r
    case 0 => Low8(0xFF & c[0])
    case 1 => Low8(0x1 & (c[0] >> 8)) | Low8((0x7F & c[1]) << 1)
    case 2 => Low8(0x3 & (c[1] >> 7)) | Low8((0x3F & c[2]) << 2)
    case 3 => Low8(0x7 & (c[2] >> 6)) | Low8((0x1F & c[3]) << 3)
    case 4 => Low8(0xF & (c[3] >> 5)) | Low8((0xF & c[4]) << 4)
    case 5 => Low8(0x1F & (c[4] >> 4)) | Low8((0x7 & c[5]) << 5)
    case 6 => Low8(0x3F & (c[5] >> 3)) | Low8((0x3 & c[6]) << 6)
    case 7 => Low8(0x7F & (c[6] >> 2)) | Low8((0x1 & c[7]) << 7)
    case _ => Low8(0xFF & (c[7] >> 1))
  }

  /** Coefficient r of the eight in bytes b[0..9]. */
  function UnpackCoef(b: seq<Octet>, r: nat): bv16
    requires |b| == 9 && r < 8
  {
    match r
    case 0 => (b[0] as bv16) | (((b[1] & 0x1) as bv16) << 8)
    case 1 => ((b[1] as bv16) >> 1) | (((b[2] & 0x3) as bv16) << 7)
    case 2 => ((b[2] as bv16) >> 2) | (((b[3] & 0x7) as bv16) << 6)
    case 3 => ((b[3] as bv16) >> 3) | (((b[4] & 0xF) as bv16) << 5)
    case 4 => ((b[4] as bv16) >> 4) | (((b[5] & 0x1F) as bv16) << 4)
    case 5 => ((b[5] as bv16) >> 5) | (((b[6] & 0x3F) as bv16) << 3)
    case 6 => ((b[6] as bv16) >> 6) | (((b[7] & 0x7F) as bv16) << 2)
    case _ => ((b[7] as bv16) >> 7) | ((b[8] as bv16) << 1)
  }

  /** Each coefficient survives the packing: its nine bits lie in two neighbouring bytes,
      below the bits of the coefficient after it and above those of the one before. */
  lemma PackGroup(c: seq<Coef>, b: seq<Octet>, r: nat)
    requires |c| == 8 && |b| == 9 && r < 8
    requires b[r] == PackByte(c, r) && b[r + 1] == PackByte(c, r + 1)
    ensures UnpackCoef(b, r) == c[r]
  {
    hide UnpackCoef;
    match r
    case 0 => Group0(c, b);
    case 1 => Group1(c, b);
    case 2 => Group2(c, b);
    case 3 => Group3(c, b);
    case 4 => Group4(c, b);
    case 5 => Group5(c, b);
    case 6 => Group6(c, b);
    case _ => Group7(c, b);
  }

  lemma Group0(c: seq<Coef>, b: seq<Octet>)
    requires |c| == 8 && |b| == 9 && b[0] == PackByte(c, 0) && b[1] == PackByte(c, 1)
    ensures UnpackCoef(b, 0) == c[0]
  {
  }

  lemma Group1(c: seq<Coef>, b: seq<Octet>)
    requires |c| == 8 && |b| == 9 && b[1] == PackByte(c, 1) && b[2] == PackByte(c, 2)
    ensures UnpackCoef(b, 1) == c[1]
  {
  }

  lemma Group2(c: seq<Coef>, b: seq<Octet>)
    requires |c| == 8 && |b| == 9 && b[2] == PackByte(c, 2) && b[3] == PackByte(c, 3)
    ensures UnpackCoef(b, 2) == c[2]
  {
  }

  lemma Group3(c: seq<Coef>, b: seq<Octet>)
    requires |c| == 8 && |b| == 9 && b[3] == PackByte(c, 3) && b[4] == PackByte(c, 4)
    ensures UnpackCoef(b, 3) == c[3]
  {
  }

  lemma Group4(c: seq<Coef>, b: seq<Octet>)
    requires |c| == 8 && |b| == 9 && b[4] == PackByte(c, 4) && b[5] == PackByte(c, 5)
    ensures UnpackCoef(b, 4) == c[4]
  {
  }

  lemma Group5(c: seq<Coef>, b: seq<Octet>)
    requires |c| == 8 && |b| == 9 && b[5] == PackByte(c, 5) && b[6] == PackByte(c, 6)
    ensures UnpackCoef(b, 5) == c[5]
  {
  }

  lemma Group6(c: seq<Coef>, b: seq<Octet>)
    requires |c| == 8 && |b| == 9 && b[6] == PackByte(c, 6) && b[7] == PackByte(c, 7)
    ensures UnpackCoef(b, 6) == c[6]
  {
  }

  lemma Group7(c: seq<Coef>, b: seq<Octet>)
    requires |c| == 8 && |b| == 9 && b[7] == PackByte(c, 7) && b[8] == PackByte(c, 8)
    ensures UnpackCoef(b, 7) == c[7]
  {
  }

  function Pack(y: RingElement): Packed {
    seq(PKLEN, j requires 0 <= j < PKLEN => PackByte(y[8 * (j / 9)..8 * (j / 9) + 8], j % 9))
  }

  function Unpack(b: Packed): (y: seq<bv16>)
    ensures |y| == RGLEN
  {
    seq(RGLEN, i requires 0 <= i < RGLEN => UnpackCoef(b[9 * (i / 8)..9 * (i / 8) + 9], i % 8))
  }

  /** Unpacking undoes packing. */
  lemma UnpackPack(y: RingElement)
    ensures Unpack(Pack(y)) == y
  {
    forall i | 0 <= i < RGLEN
      ensures Unpack(Pack(y))[i] == y[i]
    {
      UnpackPackAt(y, i / 8, i % 8);
    }
  }

  lemma UnpackPackAt(y: RingElement, g: nat, r: nat)
    requires g < 8 && r < 8
    ensures UnpackCoef(Pack(y)[9 * g..9 * g + 9], r) == y[8 * g + r]
  {
    hide PackByte, UnpackCoef, Pack;
    var c, b := y[8 * g..8 * g + 8], Pack(y)[9 * g..9 * g + 9];
    PackAt(y, g, r);
    PackAt(y, g, r + 1);
    assert b[r] == Pack(y)[9 * g + r] && b[r + 1] == Pack(y)[9 * g + r + 1];
    PackGroup(c, b, r);
  }

  lemma PackAt(y: RingElement, g: nat, r: nat)
    requires g < 8 && r < 9
    ensures Pack(y)[9 * g + r] == PackByte(y[8 * g..8 * g + 8], r)
  {
    hide PackByte;
    assert (9 * g + r) / 9 == g && (9 * g + r) % 9 == r;
  }

  /** Bit j of a coefficient. */
  function CoefBit(x: Coef, j: nat): int
    requires j < 9
  {
    if (x >> j) & 1 == 1 then 1 else 0
  }

  /** The packed bytes hold the coefficients without gaps: bit j of coefficient i is bit 9 i + j
      of the 576, counted from the least significant bit of the first byte. */
  lemma PackedBit(y: RingElement, i: nat, j: nat)
    requires i < RGLEN && j < 9
    ensures Bit(Pack(y)[(9 * i + j) / 8], (9 * i + j) % 8) == CoefBit(y[i], j)
  {
    hide PackByte, Pack, Bit, CoefBit;
    var g, q := i / 8, i % 8;
    BitPlace(i, j, g, q);
    PackAt(y, g, (9 * q + j) / 8);
    BitInGroup(y[8 * g..8 * g + 8], q, j);
  }

  lemma BitPlace(i: nat, j: nat, g: nat, q: nat)
    requires i == 8 * g + q && q < 8 && j < 9
    ensures (9 * i + j) / 8 == 9 * g + (9 * q + j) / 8 && (9 * i + j) % 8 == (9 * q + j) % 8
  {
  }

  lemma BitInGroup(c: seq<Coef>, q: nat, j: nat)
    requires |c| == 8 && q < 8 && j < 9
    ensures Bit(PackByte(c, (9 * q + j) / 8), (9 * q + j) % 8) == CoefBit(c[q], j)
  {
    if j < 8 - q {
      LowPart(c, q, j);
    } else {
      HighPart(c, q, j);
    }
  }

  lemma LowPart(c: seq<Coef>, q: nat, j: nat)
    requires |c| == 8 && q < 8 && j < 9 && j < 8 - q
    ensures (9 * q + j) / 8 == q && (9 * q + j) % 8 == q + j
    ensures Bit(PackByte(c, q), q + j) == CoefBit(c[q], j)
  {
    hide PackByte, Bit, CoefBit;
    match q
    case 0 => LowPart0(c, j);
    case 1 => LowPart1(c, j);
    case 2 => LowPart2(c, j);
    case 3 => LowPart3(c, j);
    case 4 => LowPart4(c, j);
    case 5 => LowPart5(c, j);
    case 6 => LowPart6(c, j);
    case _ => LowPart7(c, j);
  }

  lemma HighPart(c: seq<Coef>, q: nat, j: nat)
    requires |c| == 8 && q < 8 && j < 9 && j >= 8 - q
    ensures (9 * q + j) / 8 == q + 1 && (9 * q + j) % 8 == q + j - 8
    ensures Bit(PackByte(c, q + 1), q + j - 8) == CoefBit(c[q], j)
  {
    hide PackByte, Bit, CoefBit;
    match q
    case 0 => HighPart0(c, j);
    case 1 => HighPart1(c, j);
    case 2 => HighPart2(c, j);
    case 3 => HighPart3(c, j);
    case 4 => HighPart4(c, j);
    case 5 => HighPart5(c, j);
    case 6 => HighPart6(c, j);
    case _ => HighPart7(c, j);
  }

  lemma LowPart0(c: seq<Coef>, j: nat)
    requires |c| == 8 && j < 8
    ensures Bit(PackByte(c, 0), j) == CoefBit(c[0], j)
  {
  }

  lemma HighPart0(c: seq<Coef>, j: nat)
    requires |c| == 8 && 8 <= j < 9
    ensures Bit(PackByte(c, 1), j - 8) == CoefBit(c[0], j)
  {
  }

  lemma LowPart1(c: seq<Coef>, j: nat)
    requires |c| == 8 && j < 7
    ensures Bit(PackByte(c, 1), j + 1) == CoefBit(c[1], j)
  {
    match j
    case 0 =>
    case 1 =>
    case 2 =>
    case 3 =>
    case 4 =>
    case 5 =>
    case _ =>
  }

  lemma HighPart1(c: seq<Coef>, j: nat)
    requires |c| == 8 && 7 <= j < 9
    ensures Bit(PackByte(c, 2), j - 7) == CoefBit(c[1], j)
  {
  }

  lemma LowPart2(c: seq<Coef>, j: nat)
    requires |c| == 8 && j < 6
    ensures Bit(PackByte(c, 2), j + 2) == CoefBit(c[2], j)
  {
    match j
    case 0 =>
    case 1 =>
    case 2 =>
    case 3 =>
    case 4 =>
    case _ =>
  }

  lemma HighPart2(c: seq<Coef>, j: nat)
    requires |c| == 8 && 6 <= j < 9
    ensures Bit(PackByte(c, 3), j - 6) == CoefBit(c[2], j)
  {
  }

  lemma LowPart3(c: seq<Coef>, j: nat)
    requires |c| == 8 && j < 5
    ensures Bit(PackByte(c, 3), j + 3) == CoefBit(c[3], j)
  {
  }

  lemma HighPart3(c: seq<Coef>, j: nat)
    requires |c| == 8 && 5 <= j < 9
    ensures Bit(PackByte(c, 4), j - 5) == CoefBit(c[3], j)
  {
  }

  lemma LowPart4(c: seq<Coef>, j: nat)
    requires |c| == 8 && j < 4
    ensures Bit(PackByte(c, 4), j + 4) == CoefBit(c[4], j)
  {
  }

  lemma HighPart4(c: seq<Coef>, j: nat)
    requires |c| == 8 && 4 <= j < 9
    ensures Bit(PackByte(c, 5), j - 4) == CoefBit(c[4], j)
  {
  }

  lemma LowPart5(c: seq<Coef>, j: nat)
    requires |c| == 8 && j < 3
    ensures Bit(PackByte(c, 5), j + 5) == CoefBit(c[5], j)
  {
  }

  lemma HighPart5(c: seq<Coef>, j: nat)
    requires |c| == 8 && 3 <= j < 9
    ensures Bit(PackByte(c, 6), j - 3) == CoefBit(c[5], j)
  {
    match j
    case 3 =>
    case 4 =>
    case 5 =>
    case 6 =>
    case 7 =>
    case _ =>
  }

  lemma LowPart6(c: seq<Coef>, j: nat)
    requires |c| == 8 && j < 2
    ensures Bit(PackByte(c, 6), j + 6) == CoefBit(c[6], j)
  {
  }

  lemma HighPart6(c: seq<Coef>, j: nat)
    requires |c| == 8 && 2 <= j < 9
    ensures Bit(PackByte(c, 7), j - 2) == CoefBit(c[6], j)
  {
    match j
    case 2 =>
    case 3 =>
    case 4 =>
    case 5 =>
    case 6 =>
    case 7 =>
    case _ =>
  }

  lemma LowPart7(c: seq<Coef>, j: nat)
    requires |c| == 8 && j < 1
    ensures Bit(PackByte(c, 7), j + 7) == CoefBit(c[7], j)
  {
  }

  lemma HighPart7(c: seq<Coef>, j: nat)
    requires |c| == 8 && 1 <= j < 9
    ensures Bit(PackByte(c, 8), j - 1) == CoefBit(c[7], j)
  {
    match j
    case 1 =>
    case 2 =>
    case 3 =>
    case 4 =>
    case 5 =>
    case 6 =>
    case 7 =>
    case _ =>
  }

  /** The values of the 64 words of a vector. */
  type Words = w: seq<nat> | |w| == RGLEN witness seq(RGLEN, _ => 0)

  function Residue(v: nat): Coef { (v % 257) as bv16 }

  /** The words of a vector as ring coefficients. */
  function Reduced(w: Words): RingElement { seq(RGLEN, i requires 0 <= i < RGLEN => Residue(w[i])) }

  /** Reduces 64 words modulo 257 and writes the bytes of the coefficients, sixteen a round. */
  method UnpackY(w: Words, pk: array<Octet>)
    requires pk.Length == PKLEN
    modifies pk
    ensures pk[..] == Pack(Reduced(w))
  {
    hide PackByte, Pack, Reduced;
    for i := 0 to 4
      invariant pk[..18 * i] == Pack(Reduced(w))[..18 * i]
    {
      var opi := ReduceSixteen(w, i);
      assert opi[..8] == Reduced(w)[8 * (2 * i)..8 * (2 * i) + 8];
      assert opi[8..] == Reduced(w)[8 * (2 * i + 1)..8 * (2 * i + 1) + 8];
      WriteNine(opi[..8], 2 * i, pk, Reduced(w));
      WriteNine(opi[8..], 2 * i + 1, pk, Reduced(w));
    }
  }

  method ReduceSixteen(w: Words, i: nat) returns (opi: seq<Coef>)
    requires i < 4
    ensures opi == Reduced(w)[16 * i..16 * i + 16]
  {
    hide Residue;
    opi := [];
    for j := 0 to 16
      invariant opi == Reduced(w)[16 * i..16 * i + j]
    {
      opi := opi + [Residue(w[16 * i + j])];
    }
  }

  method WriteNine(c: seq<Coef>, g: nat, pk: array<Octet>, ghost y: RingElement)
    requires pk.Length == PKLEN && g < 8 && c == y[8 * g..8 * g + 8] && pk[..9 * g] == Pack(y)[..9 * g]
    modifies pk
    ensures pk[..9 * g + 9] == Pack(y)[..9 * g + 9]
  {
    hide PackByte, Pack;
    for r := 0 to 9
      invariant pk[..9 * g + r] == Pack(y)[..9 * g + r]
    {
      PackAt(y, g, r);
      pk[9 * g + r] := PackByte(c, r);
    }
  }

  /** Reads 64 coefficients back from their bytes, eight a round. */
  method ConvertRing(rg8: Packed, a: array<bv16>)
    requires a.Length == RGLEN
    modifies a
    ensures a[..] == Unpack(rg8)
  {
    hide UnpackCoef;
    for i := 0 to 8
      invariant forall k :: 0 <= k < 8 * i ==> a[k] == Unpack(rg8)[k]
    {
      for r := 0 to 8
        invariant forall k :: 0 <= k < 8 * i + r ==> a[k] == Unpack(rg8)[k]
      {
        assert (8 * i + r) / 8 == i && (8 * i + r) % 8 == r;
        a[8 * i + r] := UnpackCoef(rg8[9 * i..9 * i + 9], r);
      }
    }
  }
}
