/** Records: sealing and opening by the two roles, and the two slots of security parameters. */
module RecordLayer {
  import opened Octets
  import opened Ccm
  import Fragmentation

  const RH_LENGTH: nat := 13
  const VERSION: nat := 0xFEFD
  const KEY_LENGTH: nat := 16
  const IV_LENGTH: nat := 4
  const MAC_LENGTH: nat := 8
  /** Bytes of the length field in the CCM blocks: 15 less the 12 bytes of the nonce. */
  const CCM_L: nat := 3

  datatype Role = Client | Server

  type KeyBlock = k: seq<Octet> | |k| == 2 * (KEY_LENGTH + IV_LENGTH) witness seq(40, _ => 0)

  // ---- the key block ----

  /** The key with which the given role writes. */
  function WriteKey(k: KeyBlock, writer: Role): seq<Octet> {
    if writer == Client then k[..KEY_LENGTH] else k[KEY_LENGTH..2 * KEY_LENGTH]
  }

  function WriteIv(k: KeyBlock, writer: Role): (iv: seq<Octet>)
    ensures |iv| == IV_LENGTH
  {
    if writer == Client then k[2 * KEY_LENGTH..2 * KEY_LENGTH + IV_LENGTH] else k[2 * KEY_LENGTH + IV_LENGTH..]
  }

  function Other(r: Role): Role { if r == Client then Server else Client }

  /** The keys and the implicit nonces of the two roles are disjoint parts that make up the block. */
  lemma KeyBlockParts(k: KeyBlock)
    ensures k == WriteKey(k, Client) + WriteKey(k, Server) + WriteIv(k, Client) + WriteIv(k, Server)
    ensures |WriteKey(k, Client)| == |WriteKey(k, Server)| == KEY_LENGTH
    ensures forall r: Role :: Other(r) != r && Other(Other(r)) == r
  {
  }

  // ---- nonces and additional data ----

  /** The explicit part of the nonce: epoch and the low 48 bits of the record number. */
  function Explicit(epoch: nat, rseq: nat): (s: seq<Octet>)
    ensures |s| == 8
  {
    BigEndian(epoch, 2) + BigEndian(rseq, 6)
  }

  function Nonce(iv: seq<Octet>, explicit: seq<Octet>): seq<Octet> { iv + explicit + [0, 0, 0, 0] }

  function Header(t: Octet, explicit: seq<Octet>, length: nat): seq<Octet> {
    [t] + BigEndian(VERSION, 2) + explicit + BigEndian(length, 2)
  }

  function AdditionalData(t: Octet, explicit: seq<Octet>, length: nat): seq<Octet> {
    explicit + [t] + BigEndian(VERSION, 2) + BigEndian(length, 2)
  }

  /** An encrypted record: header, explicit nonce, and what CCM makes of the payload. */
  function SealedRecord(e: seq<Octet> -> Cipher, k: KeyBlock, writer: Role, t: Octet, explicit: seq<Octet>,
                        payload: seq<Octet>)
    : seq<Octet>
    requires |explicit| == 8
  {
    Header(t, explicit, 8 + |payload| + MAC_LENGTH) + explicit
    + Sealed(e(WriteKey(k, writer)), MAC_LENGTH, CCM_L, Nonce(WriteIv(k, writer), explicit), payload,
             AdditionalData(t, explicit, |payload|))
  }

  function PlainRecord(t: Octet, explicit: seq<Octet>, payload: seq<Octet>): seq<Octet> {
    Header(t, explicit, |payload|) + payload
  }

  function Record(e: seq<Octet> -> Cipher, encrypted: bool, k: KeyBlock, writer: Role, t: Octet, explicit: seq<Octet>,
                  payload: seq<Octet>): seq<Octet>
    requires |explicit| == 8
  {
    if encrypted then SealedRecord(e, k, writer, t, explicit, payload) else PlainRecord(t, explicit, payload)
  }

  /** What encryption adds to a record: the explicit nonce and the authentication value. */
  function Overhead(encrypted: bool): nat { if encrypted then 8 + MAC_LENGTH else 0 }

  /** The size check on a payload of n bytes: the authentication value is not counted. */
  predicate Accepted(encrypted: bool, n: nat, rlen: nat) {
    n + RH_LENGTH + (if encrypted then 8 else 0) <= rlen
  }

  /** When the limit is the size of the buffer, an accepted record is longer than the buffer
      for exactly eight payload lengths. */
  lemma OverrunExactly(e: seq<Octet> -> Cipher, encrypted: bool, k: KeyBlock, writer: Role, t: Octet,
                       explicit: seq<Octet>, payload: seq<Octet>, rlen: nat)
    requires |explicit| == 8
    ensures Accepted(encrypted, |payload|, rlen) && |Record(e, encrypted, k, writer, t, explicit, payload)| > rlen
       <==> encrypted && rlen - 29 < |payload| <= rlen - 21
  {
    hide Sealed;
  }

  /** An accepted payload whose record is eight bytes longer than the send buffer. */
  lemma OverrunOccurs(e: seq<Octet> -> Cipher, k: KeyBlock, writer: Role, t: Octet, explicit: seq<Octet>)
    requires |explicit| == 8
    ensures var payload := seq(Fragmentation.MAX_BUF - 21, _ => 0);
            && Accepted(true, |payload|, Fragmentation.MAX_BUF)
            && |SealedRecord(e, k, writer, t, explicit, payload)| == Fragmentation.MAX_BUF + 8
  {
    hide Sealed;
  }

  // ---- no nonce twice ----

  lemma ExplicitWidths()
    ensures Range(2) == 0x1_0000 && Range(6) == 0x1_0000_0000_0000
  {
  }

  /** Below 2^48 records, epoch and record number can be read back from the nonce. */
  lemma ExplicitInjective(epoch: nat, rseq: nat, epoch': nat, rseq': nat)
    requires epoch < 0x1_0000 && epoch' < 0x1_0000 && rseq < 0x1_0000_0000_0000 && rseq' < 0x1_0000_0000_0000
    requires Explicit(epoch, rseq) == Explicit(epoch', rseq')
    ensures epoch == epoch' && rseq == rseq'
  {
    ExplicitWidths();
    hide BigEndian, FromBigEndian, Range;
    var s := Explicit(epoch, rseq);
    assert s[0..0 + 2] == BigEndian(epoch, 2) && s[2..2 + 6] == BigEndian(rseq, 6);
    assert s[0..0 + 2] == BigEndian(epoch', 2) && s[2..2 + 6] == BigEndian(rseq', 6);
    ReadBack(s, 0, 2, epoch);
    ReadBack(s, 0, 2, epoch');
    ReadBack(s, 2, 6, rseq);
    ReadBack(s, 2, 6, rseq');
  }

  /** The nonce that CCM uses is the implicit part followed by the explicit one. */
  lemma NonceReadBack(iv: seq<Octet>, explicit: seq<Octet>)
    requires |iv| == IV_LENGTH && |explicit| == 8
    ensures |Nonce(iv, explicit)| == 16 && Nonce(iv, explicit)[..15 - CCM_L] == iv + explicit
  {
  }

  /** Type, version, epoch, record number and length are read back from a record header. */
  lemma HeaderReadBack(t: Octet, epoch: nat, rseq: nat, length: nat)
    requires epoch < 0x1_0000 && rseq < 0x1_0000_0000_0000 && length < 0x1_0000
    ensures var h := Header(t, Explicit(epoch, rseq), length);
            && |h| == RH_LENGTH && h[0] == t && FromBigEndian(h, 1, 2) == 0xFEFD && FromBigEndian(h, 3, 2) == epoch
            && FromBigEndian(h, 5, 6) == rseq && FromBigEndian(h, 11, 2) == length
  {
    ExplicitWidths();
    hide BigEndian, FromBigEndian, Range;
    var h := Header(t, Explicit(epoch, rseq), length);
    assert h[1..1 + 2] == BigEndian(VERSION, 2) && h[3..3 + 2] == BigEndian(epoch, 2);
    assert h[5..5 + 6] == BigEndian(rseq, 6) && h[11..11 + 2] == BigEndian(length, 2);
    ReadBack(h, 1, 2, VERSION);
    ReadBack(h, 3, 2, epoch);
    ReadBack(h, 5, 6, rseq);
    ReadBack(h, 11, 2, length);
  }

  class SecurityParameters {
    var encrypted: bool
    var epoch: nat
    var rseq: nat
    var keyBlock: KeyBlock
    /** The explicit nonces issued so far, and the number of the first. */
    ghost var issued: seq<seq<Octet>>
    ghost var first: nat

    ghost predicate Valid()
      reads this
    {
      && epoch < 0x1_0000 && rseq == (first + |issued|) % 0x1_0000_0000_0000_0000
      && forall i :: 0 <= i < |issued| ==> issued[i] == Explicit(epoch, (first + i) % 0x1_0000_0000_0000_0000)
    }

    /** New parameters encrypt nothing until a key block has been computed for them. */
    constructor (epoch: nat)
      requires epoch < 0x1_0000
      ensures Valid() && !encrypted && this.epoch == epoch && rseq == 0 && issued == [] && first == 0
    {
      encrypted, this.epoch, rseq, keyBlock := false, epoch, 0, seq(40, _ => 0);
      issued, first := [], 0;
    }

    /** Leaves number 0 to a record that has been sent already. */
    method SkipFirst()
      requires Valid() && issued == []
      modifies this`rseq, this`first
      ensures Valid() && rseq == 1 && first == 1
    {
      rseq, first := 1, 1;
    }

    /** Takes over the key block of a finished key exchange; numbering starts at zero. */
    method Install(k: KeyBlock)
      requires Valid() && issued == []
      modifies this
      ensures Valid() && encrypted && keyBlock == k && rseq == 0 && issued == [] && epoch == old(epoch)
    {
      keyBlock, encrypted, rseq := k, true, 0;
      first := 0;
    }

    /** Issues the nonce of the next record. */
    method NextExplicit() returns (explicit: seq<Octet>)
      requires Valid()
      modifies this`rseq, this`issued
      ensures Valid() && explicit == Explicit(epoch, old(rseq)) && issued == old(issued) + [explicit]
      ensures rseq == (old(rseq) + 1) % 0x1_0000_0000_0000_0000
    {
      hide Explicit;
      explicit := Explicit(epoch, rseq);
      issued := issued + [explicit];
      rseq := (rseq + 1) % 0x1_0000_0000_0000_0000;
    }

    /** Numbers below the first are not used, so the nonce of a record sent before the
        parameters existed is not issued again. */
    lemma NoneBeforeFirst(n: nat)
      requires Valid() && first + |issued| <= 0x1_0000_0000_0000 && n < first
      ensures Explicit(epoch, n) !in issued
    {
      hide Explicit;
      if Explicit(epoch, n) in issued {
        var i :| 0 <= i < |issued| && issued[i] == Explicit(epoch, n);
        ExplicitInjective(epoch, first + i, epoch, n);
      }
    }

    /** Fewer than 2^48 records from the first number on: every nonce is used once. */
    lemma IssuedOnce(i: nat, j: nat)
      requires Valid() && first + |issued| <= 0x1_0000_0000_0000 && i < j < |issued|
      ensures issued[i] != issued[j]
    {
      hide Explicit;
      if issued[i] == issued[j] {
        ExplicitInjective(epoch, first + i, epoch, first + j);
      }
    }
  }

  class Peer {
    const role: Role
    var current: SecurityParameters
    var other: SecurityParameters?

    /** Two filled slots hold neighbouring epochs. */
    ghost predicate Valid()
      reads this, current, other
    {
      && current.Valid()
      && (other != null ==> other.Valid() && other != current && Neighbours(current.epoch, other.epoch))
    }

    constructor (role: Role)
      ensures Valid() && this.role == role && other == null && fresh(current) && current.epoch == 0
    {
      this.role := role;
      current := new SecurityParameters(0);
      other := null;
    }

    /** The server's peer for a client that has returned its cookie: record 0 was the Hello
        Verify Request, which is sent without a peer. */
    constructor AfterHelloVerify()
      ensures Valid() && role == Server && other == null && fresh(current) && current.epoch == 0
      ensures current.rseq == 1 && current.first == 1 && current.issued == []
    {
      role := Server;
      current := new SecurityParameters(0);
      other := null;
      new;
      current.SkipFirst();
    }

    /** The parameters of an epoch. */
    method ParametersOf(epoch: nat) returns (s: SecurityParameters?)
      requires Valid()
      ensures s != null ==> (s == current || s == other) && s.epoch == epoch
      ensures s == null ==> current.epoch != epoch && (other != null ==> other.epoch != epoch)
    {
      if current.epoch == epoch {
        return current;
      } else if other != null && other.epoch == epoch {
        return other;
      }
      return null;
    }

    /** No epoch is found in both slots. */
    lemma LookupUnambiguous(epoch: nat)
      requires Valid() && other != null
      ensures !(current.epoch == epoch && other.epoch == epoch)
    {
    }

    /** Prepares parameters for the next epoch in the other slot. */
    method Next() returns (s: SecurityParameters)
      requires Valid()
      modifies this`other
      ensures Valid() && other == s && fresh(s) && s.epoch == (current.epoch + 1) % 0x1_0000 && !s.encrypted
    {
      s := new SecurityParameters((current.epoch + 1) % 0x1_0000);
      other := s;
    }

    /** Makes the other parameters current and keeps the current ones. */
    method Switch()
      requires Valid() && other != null
      modifies this`other, this`current
      ensures Valid() && current == old(other) && other == old(current)
    {
      var security: SecurityParameters := other;
      other := current;
      current := security;
    }

    /** The other parameters, if they are newer than the current ones. */
    ghost function NewerOther(): SecurityParameters?
      reads this, current, other
    {
      if other == null || current.epoch < other.epoch then other else null
    }

    /** Gives up the other parameters unless they are newer. Apart from the wrap at 2^16 these
        are the parameters of the previous epoch. */
    method FreeOther()
      requires Valid()
      modifies this`other
      ensures Valid() && other == old(NewerOther())
      ensures old(other) != null && 0 < current.epoch < 0xFFFF ==>
        (other == null <==> old(other).epoch + 1 == current.epoch)
    {
      if other == null || current.epoch < other.epoch {
        return;
      }
      other := null;
    }

    /** Writes a record with the given payload pieces into the send buffer. The result is
        negative when the buffer is too small; the record number is used up all the same. The
        size check leaves the authentication value out, so the record may be longer than the
        buffer; what the encryption then writes behind the buffer is not modelled. */
    method PrepareRecord(e: seq<Octet> -> Cipher, s: SecurityParameters, t: Octet, pieces: seq<seq<Octet>>,
                         sendbuf: array<Octet>, rlen: nat) returns (res: int, length: nat)
      requires s.Valid() && rlen <= sendbuf.Length && rlen < 0x100_0000
      modifies s`rseq, s`issued, sendbuf
      ensures s.Valid() && (res == 0 || res == -1)
      ensures var payload := Joint(pieces, |pieces|);
              var explicit := Explicit(s.epoch, old(s.rseq));
              && (res == 0 <==> Accepted(s.encrypted, |payload|, rlen))
              && (res == 0 ==> s.issued == old(s.issued) + [explicit])
              && (res == 0 ==> length == RH_LENGTH + |payload| + Overhead(s.encrypted))
              && (res == 0 && length <= sendbuf.Length ==>
                    sendbuf[..length] == Record(e, s.encrypted, s.keyBlock, role, t, explicit, payload))
    {
      if rlen < RH_LENGTH {
        return -1, 0;
      }
      hide Explicit;
      var explicit := s.NextExplicit();
      PutHeader(sendbuf, t, explicit);
      if s.encrypted {
        res, length := SealBody(e, s.keyBlock, t, explicit, pieces, sendbuf, rlen);
      } else {
        res, length := PlainBody(t, explicit, pieces, sendbuf, rlen);
      }
    }

    /** The payload behind the header, as it is. */
    method PlainBody(t: Octet, explicit: seq<Octet>, pieces: seq<seq<Octet>>, sendbuf: array<Octet>, rlen: nat)
      returns (res: int, length: nat)
      requires |explicit| == 8 && RH_LENGTH <= rlen <= sendbuf.Length && sendbuf[..RH_LENGTH] == Header(t, explicit, 0)
      modifies sendbuf
      ensures length <= sendbuf.Length && (res == 0 || res == -1)
      ensures var payload := Joint(pieces, |pieces|);
              && (res == 0 <==> |payload| + RH_LENGTH <= rlen)
              && (res == 0 ==> length == RH_LENGTH + |payload|)
              && (res == 0 ==> sendbuf[..length] == PlainRecord(t, explicit, payload))
    {
      var ok, n := CopyPieces(pieces, sendbuf, RH_LENGTH, rlen);
      if !ok {
        return -1, 0;
      }
      ghost var payload := Joint(pieces, |pieces|);
      assert sendbuf[..RH_LENGTH + n] == Header(t, explicit, 0) + payload;
      FixLength(sendbuf, t, explicit, n);
      assert sendbuf[..RH_LENGTH + n] == Header(t, explicit, n) + payload;
      return 0, RH_LENGTH + n;
    }

    /** Encrypts the payload behind the explicit nonce and completes the header. */
    method SealInPlace(e: seq<Octet> -> Cipher, k: KeyBlock, t: Octet, explicit: seq<Octet>, sendbuf: array<Octet>,
                       n: nat)
      requires |explicit| == 8 && n < 0x100_0000 && RH_LENGTH + 8 + n + MAC_LENGTH <= sendbuf.Length
      requires sendbuf[..RH_LENGTH + 8] == Header(t, explicit, 0) + explicit
      modifies sendbuf
      ensures sendbuf[..RH_LENGTH + 8 + n + MAC_LENGTH]
           == SealedRecord(e, k, role, t, explicit, old(sendbuf[RH_LENGTH + 8..RH_LENGTH + 8 + n]))
    {
      CcmRange();
      hide Sealed, Range, Header, AdditionalData, Nonce, WriteIv, WriteKey;
      ghost var payload := sendbuf[RH_LENGTH + 8..RH_LENGTH + 8 + n];
      var nonce := Nonce(WriteIv(k, role), explicit);
      var adata := AdditionalData(t, explicit, n);
      DataSizes(WriteIv(k, role), t, explicit, n);
      var r := EncryptMessage(e(WriteKey(k, role)), MAC_LENGTH, CCM_L, nonce, sendbuf, RH_LENGTH + 8, n, adata);
      ghost var body := sendbuf[RH_LENGTH + 8..RH_LENGTH + 8 + n + MAC_LENGTH];
      FixLength(sendbuf, t, explicit, 8 + n + MAC_LENGTH);
      assert sendbuf[..RH_LENGTH + 8 + n + MAC_LENGTH] == Header(t, explicit, 8 + n + MAC_LENGTH) + explicit + body;
    }

    /** The explicit nonce and the encrypted payload behind the header. */
    method SealBody(e: seq<Octet> -> Cipher, k: KeyBlock, t: Octet, explicit: seq<Octet>, pieces: seq<seq<Octet>>,
                    sendbuf: array<Octet>, rlen: nat) returns (res: int, length: nat)
      requires |explicit| == 8 && RH_LENGTH <= rlen < 0x100_0000 && rlen <= sendbuf.Length
      requires sendbuf[..RH_LENGTH] == Header(t, explicit, 0)
      modifies sendbuf
      ensures res == 0 || res == -1
      ensures var payload := Joint(pieces, |pieces|);
              && (res == 0 <==> |payload| + RH_LENGTH + 8 <= rlen)
              && (res == 0 ==> length == RH_LENGTH + 8 + |payload| + MAC_LENGTH)
              && (res == 0 && length <= sendbuf.Length ==>
                    sendbuf[..length] == SealedRecord(e, k, role, t, explicit, payload))
    {
      hide SealedRecord, Header;
      if rlen < RH_LENGTH + 8 {
        return -1, 0;
      }
      MemCopy(explicit, 0, sendbuf, RH_LENGTH, 8);
      var start := RH_LENGTH + 8;
      assert sendbuf[..start] == Header(t, explicit, 0) + explicit;
      var ok, n := CopyPieces(pieces, sendbuf, start, rlen);
      if !ok {
        return -1, 0;
      }
      if start + n + MAC_LENGTH <= sendbuf.Length {
        SealInPlace(e, k, t, explicit, sendbuf, n);
      }
      return 0, start + n + MAC_LENGTH;
    }

    /** Opens a record of the peer in place and says where the payload starts. Records of an
        unknown epoch and records that fail authentication are refused; an authentic record
        ends the use of older parameters. */
    method DecryptVerify(e: seq<Octet> -> Cipher, packet: array<Octet>, length: nat)
      returns (res: int, at: nat, ghost s: SecurityParameters?)
      requires Valid() && RH_LENGTH <= length <= packet.Length && length < 0x100_0000
      modifies this`other, packet
      ensures Valid() && (s == null ==> res == -1)
      ensures s == null
         <==> old(current.epoch != EpochOf(packet[..length])
                  && (other == null || other.epoch != EpochOf(packet[..length])))
      ensures s != null ==> (s == current || s == old(other)) && s.epoch == EpochOf(old(packet[..length]))
      ensures other == if s != null && s.encrypted && res >= 0 then old(NewerOther()) else old(other)
      ensures s != null && !s.encrypted ==>
        res == length - RH_LENGTH && at == RH_LENGTH && packet[..] == old(packet[..])
      ensures s != null && s.encrypted && length < RH_LENGTH + 8 + MAC_LENGTH ==> res == -1
      ensures s != null && s.encrypted && length >= RH_LENGTH + 8 + MAC_LENGTH ==>
        && at == RH_LENGTH + 8
        && packet[at..length - MAC_LENGTH] == Payload(e, s.keyBlock, Other(role), old(packet[..length]))
        && res == if Authentic(e, s.keyBlock, Other(role), old(packet[..length])) then length - at - MAC_LENGTH else -1
    {
      hide Authentic, Payload, EpochOf;
      var found := ParametersOf(EpochOf(packet[..length]));
      s := found;
      at := RH_LENGTH;
      if found == null {
        return -1, at, s;
      }
      if !found.encrypted {
        return length - RH_LENGTH, at, s;
      }
      if length - RH_LENGTH < 8 + MAC_LENGTH {
        return -1, at, s;
      }
      at := RH_LENGTH + 8;
      res := OpenInPlace(e, found.keyBlock, packet, length);
      if res >= 0 {
        FreeOther();
      }
    }

    /** Decrypts the payload behind the explicit nonce. */
    method OpenInPlace(e: seq<Octet> -> Cipher, k: KeyBlock, packet: array<Octet>, length: nat) returns (res: int)
      requires RH_LENGTH + 8 + MAC_LENGTH <= length <= packet.Length && length < 0x100_0000
      modifies packet
      ensures packet[RH_LENGTH + 8..length - MAC_LENGTH] == Payload(e, k, Other(role), old(packet[..length]))
      ensures res == if Authentic(e, k, Other(role), old(packet[..length]))
                     then length - RH_LENGTH - 8 - MAC_LENGTH else -1
    {
      CcmRange();
      hide Sealed, Unmasked, Range, WriteIv, WriteKey;
      ghost var record := packet[..length];
      var nonce := NonceOf(WriteIv(k, Other(role)), packet[..length]);
      var adata := DataOf(packet[..length], length - RH_LENGTH - 8 - MAC_LENGTH);
      assert record[RH_LENGTH + 8..length - MAC_LENGTH] == packet[RH_LENGTH + 8..length - MAC_LENGTH];
      assert record[RH_LENGTH + 8..] == packet[RH_LENGTH + 8..length];
      res := DecryptMessage(e(WriteKey(k, Other(role))), MAC_LENGTH, CCM_L, nonce, packet, RH_LENGTH + 8,
                            length - RH_LENGTH - 8, adata);
    }
  }

  lemma DataSizes(iv: seq<Octet>, t: Octet, explicit: seq<Octet>, n: nat)
    requires |iv| == IV_LENGTH && |explicit| == 8
    ensures |Nonce(iv, explicit)| == 16 && |AdditionalData(t, explicit, n)| == 13
  {
  }

  // ---- what a received record contains ----

  function EpochOf(record: seq<Octet>): nat
    requires |record| >= RH_LENGTH
  {
    FromBigEndian(record, 3, 2)
  }

  /** The nonce with the explicit part that the record carries. */
  function NonceOf(iv: seq<Octet>, record: seq<Octet>): (n: seq<Octet>)
    requires |iv| == IV_LENGTH && |record| >= RH_LENGTH + 8
    ensures |n| == 16
  {
    Nonce(iv, record[RH_LENGTH..RH_LENGTH + 8])
  }

  /** The additional data from the header of the record. */
  function DataOf(record: seq<Octet>, n: nat): (d: seq<Octet>)
    requires |record| >= RH_LENGTH
    ensures |d| == 13
  {
    record[3..11] + [record[0]] + record[1..3] + BigEndian(n, 2)
  }

  /** Whatever was received, the additional data holds epoch and number, type and version of the
      header and the given length: records that differ in one of these differ in it. */
  lemma DataReadBack(record: seq<Octet>, n: nat)
    requires |record| >= RH_LENGTH && n < 0x1_0000
    ensures var d := DataOf(record, n);
            d[..8] == record[3..11] && d[8] == record[0] && d[9..11] == record[1..3] && FromBigEndian(d, 11, 2) == n
  {
    ExplicitWidths();
    hide BigEndian, FromBigEndian, Range;
    var d := DataOf(record, n);
    assert d[11..11 + 2] == BigEndian(n, 2);
    ReadBack(d, 11, 2, n);
  }

  /** The payload once the mask is off. */
  function Payload(e: seq<Octet> -> Cipher, k: KeyBlock, writer: Role, record: seq<Octet>): seq<Octet>
    requires |record| >= RH_LENGTH + 8 + MAC_LENGTH
  {
    Unmasked(e(WriteKey(k, writer)), CCM_L, NonceOf(WriteIv(k, writer), record),
             record[RH_LENGTH + 8..|record| - MAC_LENGTH])
  }

  /** The record is what encrypting its payload gives. */
  predicate Authentic(e: seq<Octet> -> Cipher, k: KeyBlock, writer: Role, record: seq<Octet>)
    requires |record| >= RH_LENGTH + 8 + MAC_LENGTH
  {
    var payload := Payload(e, k, writer, record);
    record[RH_LENGTH + 8..]
    == Sealed(e(WriteKey(k, writer)), MAC_LENGTH, CCM_L, NonceOf(WriteIv(k, writer), record), payload,
              DataOf(record, |payload|))
  }

  /** A sealed record is authentic, names its epoch, and its payload is what was sealed. */
  lemma SealedIsAuthentic(e: seq<Octet> -> Cipher, k: KeyBlock, writer: Role, t: Octet, epoch: nat, rseq: nat,
                          payload: seq<Octet>)
    requires epoch < 0x1_0000
    ensures var r := SealedRecord(e, k, writer, t, Explicit(epoch, rseq), payload);
            && |r| == RH_LENGTH + 8 + |payload| + MAC_LENGTH && EpochOf(r) == epoch
            && Payload(e, k, writer, r) == payload && Authentic(e, k, writer, r)
  {
    var explicit := Explicit(epoch, rseq);
    var r := SealedRecord(e, k, writer, t, explicit, payload);
    SealedParts(e, k, writer, t, explicit, payload);
    SealedEpoch(r, epoch, rseq);
    var key, iv := e(WriteKey(k, writer)), WriteIv(k, writer);
    var nonce, data := Nonce(iv, explicit), AdditionalData(t, explicit, |payload|);
    DataSizes(iv, t, explicit, |payload|);
    hide Sealed, Unmasked, Explicit, SealedRecord, AdditionalData, EpochOf, WriteKey, WriteIv;
    UnmaskSealed(key, MAC_LENGTH, CCM_L, nonce, payload, data);
    var body := Sealed(key, MAC_LENGTH, CCM_L, nonce, payload, data);
    assert r[RH_LENGTH + 8..|r| - MAC_LENGTH] == body[..|payload|];
  }

  lemma SealedParts(e: seq<Octet> -> Cipher, k: KeyBlock, writer: Role, t: Octet, explicit: seq<Octet>,
                    payload: seq<Octet>)
    requires |explicit| == 8
    ensures var r := SealedRecord(e, k, writer, t, explicit, payload);
            && |r| == RH_LENGTH + 8 + |payload| + MAC_LENGTH
            && r[RH_LENGTH..RH_LENGTH + 8] == explicit && r[3..11] == explicit
            && DataOf(r, |payload|) == AdditionalData(t, explicit, |payload|)
            && r[RH_LENGTH + 8..] == Sealed(e(WriteKey(k, writer)), MAC_LENGTH, CCM_L,
                                            Nonce(WriteIv(k, writer), explicit), payload,
                                            AdditionalData(t, explicit, |payload|))
  {
    hide Sealed, BigEndian, WriteKey, WriteIv;
    var r := SealedRecord(e, k, writer, t, explicit, payload);
    assert r[0] == t && r[1..3] == BigEndian(VERSION, 2);
  }

  lemma SealedEpoch(r: seq<Octet>, epoch: nat, rseq: nat)
    requires |r| >= RH_LENGTH && epoch < 0x1_0000 && r[3..11] == Explicit(epoch, rseq)
    ensures EpochOf(r) == epoch
  {
    ExplicitWidths();
    hide BigEndian, FromBigEndian, Range;
    assert r[3..3 + 2] == r[3..11][..2] == BigEndian(epoch, 2);
    ReadBack(r, 3, 2, epoch);
  }

  /** A plain record names its epoch and contains its payload behind the header. */
  lemma PlainParts(t: Octet, epoch: nat, rseq: nat, payload: seq<Octet>)
    requires epoch < 0x1_0000
    ensures var r := PlainRecord(t, Explicit(epoch, rseq), payload);
            |r| == RH_LENGTH + |payload| && EpochOf(r) == epoch && r[RH_LENGTH..] == payload
  {
    var r := PlainRecord(t, Explicit(epoch, rseq), payload);
    hide BigEndian, EpochOf;
    assert r[3..11] == Explicit(epoch, rseq);
    SealedEpoch(r, epoch, rseq);
  }

  /** A record that one role prepares, encrypted or not, is opened by the other role with the
      same key block to the same payload, whichever slot holds the parameters, unless it is
      longer than the buffer. */
  method SealThenOpen(e: seq<Octet> -> Cipher, a: Peer, sa: SecurityParameters, b: Peer, ghost sb: SecurityParameters,
                      t: Octet, pieces: seq<seq<Octet>>, buf: array<Octet>, rlen: nat)
    returns (prepared: int, res: int, at: nat)
    requires a.role != b.role && b.Valid() && sa.Valid() && sa !in {b.current, b.other}
    requires (sb == b.current || sb == b.other) && sa.encrypted == sb.encrypted
    requires sa.epoch == sb.epoch && (sa.encrypted ==> sa.keyBlock == sb.keyBlock)
    requires rlen <= buf.Length && rlen + MAC_LENGTH < 0x100_0000
    modifies sa`rseq, sa`issued, b`other, buf
    ensures var payload := Joint(pieces, |pieces|);
            && (prepared == 0 <==> Accepted(sa.encrypted, |payload|, rlen))
            && (prepared == 0 && RH_LENGTH + |payload| + Overhead(sa.encrypted) <= buf.Length ==>
                  res == |payload| && at + |payload| <= buf.Length && buf[at..at + |payload|] == payload)
  {
    hide SealedRecord, PlainRecord, Authentic, Payload, EpochOf, Explicit;
    ghost var epoch, rseq, payload := sa.epoch, sa.rseq, Joint(pieces, |pieces|);
    var length;
    prepared, length := a.PrepareRecord(e, sa, t, pieces, buf, rlen);
    res, at := -1, 0;
    if prepared == 0 && length <= buf.Length {
      SealedIsAuthentic(e, sa.keyBlock, a.role, t, epoch, rseq, payload);
      PlainParts(t, epoch, rseq, payload);
      assert buf[RH_LENGTH..length] == buf[..length][RH_LENGTH..];
      ghost var s;
      res, at, s := b.DecryptVerify(e, buf, length);
    }
  }

  lemma CcmRange()
    ensures Range(CCM_L) == 0x100_0000
  {
  }

  /** Writes the header of a record whose length is not known yet. */
  method PutHeader(buf: array<Octet>, t: Octet, explicit: seq<Octet>)
    requires buf.Length >= RH_LENGTH && |explicit| == 8
    modifies buf
    ensures buf[..RH_LENGTH] == Header(t, explicit, 0)
    ensures forall i :: RH_LENGTH <= i < buf.Length ==> buf[i] == old(buf[i])
  {
    hide BigEndian;
    buf[0] := t;
    PutBigEndian(VERSION, buf, 1, 2);
    MemCopy(explicit, 0, buf, 3, 8);
    PutBigEndian(0, buf, 11, 2);
  }

  /** Puts the length into the header. */
  method FixLength(buf: array<Octet>, t: Octet, explicit: seq<Octet>, length: nat)
    requires buf.Length >= RH_LENGTH && |explicit| == 8 && buf[..RH_LENGTH] == Header(t, explicit, 0)
    modifies buf
    ensures buf[..RH_LENGTH] == Header(t, explicit, length)
    ensures forall i :: RH_LENGTH <= i < buf.Length ==> buf[i] == old(buf[i])
  {
    hide BigEndian;
    ghost var head := buf[..RH_LENGTH];
    PutBigEndian(length, buf, 11, 2);
    assert buf[..11] == head[..11] == Header(t, explicit, length)[..11];
  }

  /** Copies the pieces one after the other as long as they fit below rlen. */
  method CopyPieces(pieces: seq<seq<Octet>>, buf: array<Octet>, start: nat, rlen: nat) returns (ok: bool, n: nat)
    requires start <= rlen <= buf.Length
    modifies buf
    ensures ok <==> start + |Joint(pieces, |pieces|)| <= rlen
    ensures ok ==> n == |Joint(pieces, |pieces|)| && buf[start..start + n] == Joint(pieces, |pieces|)
    ensures forall k :: 0 <= k < start || rlen <= k < buf.Length ==> buf[k] == old(buf[k])
  {
    n := 0;
    for i := 0 to |pieces|
      invariant start + n <= rlen && n == |Joint(pieces, i)| && buf[start..start + n] == Joint(pieces, i)
      invariant forall k :: 0 <= k < start || rlen <= k < buf.Length ==> buf[k] == old(buf[k])
    {
      if rlen < start + n + |pieces[i]| {
        JointGrows(pieces, i + 1, |pieces|);
        return false, n;
      }
      ghost var before := buf[start..start + n];
      MemCopy(pieces[i], 0, buf, start + n, |pieces[i]|);
      assert buf[start..start + n] == before;
      assert buf[start..start + n + |pieces[i]|] == before + pieces[i];
      n := n + |pieces[i]|;
    }
    return true, n;
  }

  lemma {:induction false} JointGrows(pieces: seq<seq<Octet>>, i: nat, n: nat)
    requires i <= n <= |pieces|
    ensures |Joint(pieces, i)| <= |Joint(pieces, n)|
  {
    if i < n {
      JointGrows(pieces, i, n - 1);
    }
  }

  predicate Neighbours(e: nat, f: nat) {
    f == (e + 1) % 0x1_0000 || e == (f + 1) % 0x1_0000
  }
}
