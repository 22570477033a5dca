/** Bytes and numbers written in bytes. */
module Octets {
  import opened Numbers

  type Octet = bv8

  function ByteOf(v: nat): Octet { (v % 256) as bv8 }

  function Bit(b: Octet, j: nat): int
    requires j < 8
  {
    if (b >> j) & 1 == 1 then 1 else 0
  }

  /** The eight bits make up the byte, least significant first. */
  lemma ByteOfBits(b: Octet)
    ensures b as nat == Bit(b, 0) + 2 * Bit(b, 1) + 4 * Bit(b, 2) + 8 * Bit(b, 3)
                      + 16 * Bit(b, 4) + 32 * Bit(b, 5) + 64 * Bit(b, 6) + 128 * Bit(b, 7)
  {
  }

  lemma BitIsBinary(b: Octet, j: nat)
    requires j < 8
    ensures Bit(b, j) == 0 || Bit(b, j) == 1
  {
  }

  /** The n low bytes of v, most significant first. */
  function BigEndian(v: nat, n: nat): (s: seq<Octet>)
    ensures |s| == n
  {
    if n == 0 then [] else BigEndian(v / 256, n - 1) + [ByteOf(v)]
  }

  lemma {:induction false} BigEndianOfZero(n: nat, j: nat)
    requires j < n
    ensures BigEndian(0, n)[j] == 0
  {
    if j < n - 1 {
      BigEndianOfZero(n - 1, j);
    }
  }

  /** Writes the n low bytes of v from the last byte of the field back. */
  method PutBigEndian(v: nat, a: array<Octet>, at: nat, n: nat)
    requires at + n <= a.Length
    modifies a
    ensures forall i :: 0 <= i < n ==> a[at + i] == BigEndian(v, n)[i]
    ensures forall i :: 0 <= i < a.Length && !(at <= i < at + n) ==> a[i] == old(a[i])
  {
    var rest := v;
    for i := 0 to n
      invariant forall j :: 0 <= j < n - i ==> BigEndian(v, n)[j] == BigEndian(rest, n - i)[j]
      invariant forall j :: n - i <= j < n ==> a[at + j] == BigEndian(v, n)[j]
      invariant forall j :: 0 <= j < a.Length && !(at + n - i <= j < at + n) ==> a[j] == old(a[j])
    {
      a[at + n - 1 - i] := ByteOf(rest);
      rest := rest / 256;
    }
  }

  /** Copies n bytes of s from p on to the buffer at at. */
  method MemCopy(s: seq<Octet>, p: nat, b: array<Octet>, at: nat, n: nat)
    requires p + n <= |s| && at + n <= b.Length
    modifies b
    ensures forall k :: at <= k < at + n ==> b[k] == s[p + k - at]
    ensures forall k :: 0 <= k < b.Length && !(at <= k < at + n) ==> b[k] == old(b[k])
  {
    for i := 0 to n
      invariant forall k :: at <= k < at + i ==> b[k] == s[p + k - at]
      invariant forall k :: 0 <= k < b.Length && !(at <= k < at + i) ==> b[k] == old(b[k])
    {
      b[at + i] := s[p + i];
    }
  }

  // ---- numbers read back ----

  /** 256 to the power n. */
  function Range(n: nat): (r: nat)
    ensures r > 0
  {
    if n == 0 then 1 else 256 * Range(n - 1)
  }

  /** The number in the n bytes of s from at on, most significant first. */
  function FromBigEndian(s: seq<Octet>, at: nat, n: nat): nat
    requires at + n <= |s|
  {
    if n == 0 then 0 else 256 * FromBigEndian(s, at, n - 1) + s[at + n - 1] as nat
  }

  lemma NextOctet(b: Octet)
    requires b as nat < 255
    ensures (b + 1) as nat == b as nat + 1
  {
  }

  lemma BackFromNumber(b: Octet)
    ensures (b as nat) as bv8 == b
  {
  }

  lemma {:induction false} OctetWithValue(c: nat) returns (b: Octet)
    requires c < 256
    ensures b as nat == c
  {
    if c == 0 {
      b := 0;
    } else {
      var d := OctetWithValue(c - 1);
      NextOctet(d);
      b := d + 1;
    }
  }

  lemma OctetValue(v: nat)
    ensures ByteOf(v) as nat == v % 256
  {
    var b := OctetWithValue(v % 256);
    BackFromNumber(b);
  }

  /** The number a byte denotes. */
  function OctetNumber(b: Octet): (v: nat)
    ensures v < 256
  {
    b as nat
  }

  lemma NumberOfByte(v: nat)
    ensures OctetNumber(ByteOf(v)) == v % 256
  {
    OctetValue(v);
  }

  lemma SameOctet(x: Octet, y: Octet)
    requires OctetNumber(x) == OctetNumber(y)
    ensures x == y
  {
    BackFromNumber(x);
    BackFromNumber(y);
  }

  /** Byte i has the weight of 256 to the number of bytes behind it. */
  lemma {:induction false} BigEndianDigit(v: nat, n: nat, i: nat)
    requires i < n
    ensures OctetNumber(BigEndian(v, n)[i]) == v / Range(n - 1 - i) % 256
  {
    if i == n - 1 {
      OctetValue(v);
    } else {
      BigEndianDigit(v / 256, n - 1, i);
      DivDiv(v, 256, Range(n - 2 - i));
    }
  }

  /** A number that fits is read back from the bytes it was written to. */
  lemma {:induction false} ReadBack(s: seq<Octet>, at: nat, n: nat, v: nat)
    requires at + n <= |s| && v < Range(n) && s[at..at + n] == BigEndian(v, n)
    ensures FromBigEndian(s, at, n) == v
  {
    if n > 0 {
      var field := BigEndian(v, n);
      assert field == BigEndian(v / 256, n - 1) + [ByteOf(v)];
      assert s[at + n - 1] == s[at..at + n][n - 1] == ByteOf(v);
      assert s[at..at + (n - 1)] == s[at..at + n][..n - 1] == BigEndian(v / 256, n - 1);
      OctetValue(v);
      ReadBack(s, at, n - 1, v / 256);
    }
  }

  lemma {:induction false} FromBigEndianFits(s: seq<Octet>, at: nat, n: nat)
    requires at + n <= |s|
    ensures FromBigEndian(s, at, n) < Range(n)
  {
    if n > 0 {
      FromBigEndianFits(s, at, n - 1);
    }
  }

  /** The first n pieces put together. */
  function Joint(pieces: seq<seq<Octet>>, n: nat): seq<Octet>
    requires n <= |pieces|
  {
    if n == 0 then [] else Joint(pieces, n - 1) + pieces[n - 1]
  }
}
