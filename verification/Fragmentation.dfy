/** Sending a handshake message in fragments and putting it together again. */
module Fragmentation {
  import opened Octets

  const HS_LENGTH: nat := 12
  const MAX_HS_PAYLOAD: nat := 1280 - 20 - 8
  const MAX_BUF: nat := 30000

  // ---- handshake headers ----

  /** Type, message length, message number, fragment offset and fragment length. */
  function Header(t: Octet, length: nat, number: nat, offset: nat, fragment: nat): (h: seq<Octet>)
    ensures |h| == HS_LENGTH
  {
    [t] + BigEndian(length, 3) + BigEndian(number, 2) + BigEndian(offset, 3) + BigEndian(fragment, 3)
  }

  function LengthOf(m: seq<Octet>): nat
    requires |m| >= HS_LENGTH
  {
    FromBigEndian(m, 1, 3)
  }

  function NumberOf(m: seq<Octet>): nat
    requires |m| >= HS_LENGTH
  {
    FromBigEndian(m, 4, 2)
  }

  function OffsetOf(m: seq<Octet>): nat
    requires |m| >= HS_LENGTH
  {
    FromBigEndian(m, 6, 3)
  }

  function FragmentOf(m: seq<Octet>): nat
    requires |m| >= HS_LENGTH
  {
    FromBigEndian(m, 9, 3)
  }

  lemma FieldWidths()
    ensures Range(2) == 0x1_0000 && Range(3) == 0x100_0000
  {
  }

  /** What is written into a header is read back from it. */
  lemma HeaderFields(t: Octet, length: nat, number: nat, offset: nat, fragment: nat, body: seq<Octet>)
    requires length < 0x100_0000 && number < 0x1_0000 && offset < 0x100_0000 && fragment < 0x100_0000
    ensures var m := Header(t, length, number, offset, fragment) + body;
            && m[0] == t && LengthOf(m) == length && NumberOf(m) == number
            && OffsetOf(m) == offset && FragmentOf(m) == fragment
  {
    FieldWidths();
    hide BigEndian, FromBigEndian, Range;
    var m := Header(t, length, number, offset, fragment) + body;
    assert m[1..1 + 3] == BigEndian(length, 3);
    assert m[4..4 + 2] == BigEndian(number, 2);
    assert m[6..6 + 3] == BigEndian(offset, 3);
    assert m[9..9 + 3] == BigEndian(fragment, 3);
    ReadBack(m, 1, 3, length);
    ReadBack(m, 4, 2, number);
    ReadBack(m, 6, 3, offset);
    ReadBack(m, 9, 3, fragment);
  }

  // ---- sending ----

  /** The number of fragments of a message of n bytes; an empty message has one. */
  function Count(n: nat): nat {
    if n == 0 then 1 else (n + MAX_HS_PAYLOAD - 1) / MAX_HS_PAYLOAD
  }

  function FragmentSize(n: nat, i: nat): nat
    requires MAX_HS_PAYLOAD * i <= n
  {
    if n - MAX_HS_PAYLOAD * i < MAX_HS_PAYLOAD then n - MAX_HS_PAYLOAD * i else MAX_HS_PAYLOAD
  }

  function Fragment(t: Octet, data: seq<Octet>, number: nat, i: nat): seq<Octet>
    requires MAX_HS_PAYLOAD * i <= |data|
  {
    var offset, size := MAX_HS_PAYLOAD * i, FragmentSize(|data|, i);
    Header(t, |data|, number, offset, size) + data[offset..offset + size]
  }

  lemma FragmentInside(n: nat, i: nat)
    requires i < Count(n)
    ensures MAX_HS_PAYLOAD * i <= n && (i > 0 ==> MAX_HS_PAYLOAD * i < n)
  {
  }

  function Fragments(t: Octet, data: seq<Octet>, number: nat, k: nat): seq<seq<Octet>>
    requires k <= Count(|data|)
  {
    if k == 0 then [] else
      FragmentInside(|data|, k - 1);
      Fragments(t, data, number, k - 1) + [Fragment(t, data, number, k - 1)]
  }

  /** The message as it would be sent in one piece. */
  function Unfragmented(t: Octet, data: seq<Octet>, number: nat): seq<Octet> {
    Header(t, |data|, number, 0, |data|) + data
  }

  /** No fragment is the last one by the sender's test when the payload ends on a boundary. */
  predicate NoLastFragment(n: nat) { n > 0 && n % MAX_HS_PAYLOAD == 0 }

  lemma OneMore(n: nat, i: nat)
    requires MAX_HS_PAYLOAD * i <= n && (i > 0 ==> MAX_HS_PAYLOAD * i < n)
    ensures i < Count(n)
    ensures n - MAX_HS_PAYLOAD * i < MAX_HS_PAYLOAD ==> Count(n) == i + 1 && !NoLastFragment(n)
    ensures n - MAX_HS_PAYLOAD * i == MAX_HS_PAYLOAD ==> Count(n) == i + 1 && NoLastFragment(n)
  {
  }

  class Sender {
    var mseqS: nat
    var transcript: seq<Octet>
    var sent: seq<seq<Octet>>

    ghost predicate Valid()
      reads this
    {
      mseqS < 0x1_0000
    }

    /** Sends a handshake message; the transcript takes it as if it were not fragmented. */
    method SendHandshake(t: Octet, data: seq<Octet>, addHash: bool)
      requires Valid() && |data| < 0x100_0000
      modifies this
      ensures Valid()
      ensures sent == old(sent) + Fragments(t, data, old(mseqS), Count(|data|))
      ensures transcript == old(transcript) + (if addHash then Unfragmented(t, data, old(mseqS)) else [])
      ensures mseqS == if NoLastFragment(|data|) then old(mseqS) else (old(mseqS) + 1) % 0x1_0000
    {
      hide Header;
      var n, remaining := |data|, |data|;
      ghost var number, i: nat := mseqS, 0;
      var more := true;
      while more
        invariant i <= Count(n) && sent == old(sent) + Fragments(t, data, number, i)
        invariant more ==> remaining == n - MAX_HS_PAYLOAD * i && (i > 0 ==> remaining > 0) && mseqS == number
        invariant !more ==> remaining == 0 && i == Count(n)
        invariant !more ==> mseqS == if NoLastFragment(n) then number else (number + 1) % 0x1_0000
        invariant i == 0 ==> more
        invariant transcript == old(transcript) + (if i > 0 && addHash then Unfragmented(t, data, number) else [])
        decreases more, remaining
      {
        var last := remaining < MAX_HS_PAYLOAD;
        if addHash && remaining == n {
          transcript := transcript + (Header(t, n, mseqS, 0, n) + data);
        }
        var size := if remaining < MAX_HS_PAYLOAD then remaining else MAX_HS_PAYLOAD;
        var fragment := Header(t, n, mseqS, n - remaining, size) + data[n - remaining..n - remaining + size];
        OneMore(n, i);
        assert fragment == Fragment(t, data, number, i);
        if last {
          mseqS := (mseqS + 1) % 0x1_0000;
        }
        sent := sent + [fragment];
        remaining := if last then 0 else remaining - MAX_HS_PAYLOAD;
        more := remaining > 0;
        i := i + 1;
      }
    }
  }

  // ---- receiving ----

  datatype Alert = DecodeError | RecordOverflow | HandshakeFailure

  /** What a record leads to. In the last three cases the code leaves its buffers: it writes
      behind the buffer, reads behind the record, or takes a message for complete whose end
      was never written. What follows then is not modelled. */
  datatype Progress =
    | Failed(alert: Alert)
    | Waiting
    | Whole(message: seq<Octet>)
    | Overrun
    | Overread
    | Unwritten

  /** The bytes of a fragmented message that have arrived. */
  datatype Collected = Nothing | Partly(bytes: seq<Octet>, length: nat, lastOffset: nat)

  /** A message is fragmented if its header says so. */
  predicate Fragmented(m: seq<Octet>)
    requires |m| >= HS_LENGTH
  {
    LengthOf(m) > FragmentOf(m)
  }

  /** The header of a whole message, as if it had not been fragmented. */
  function Rewritten(bytes: seq<Octet>, length: nat): seq<Octet>
    requires |bytes| >= HS_LENGTH
  {
    bytes[..1] + BigEndian(length, 3) + bytes[4..6] + BigEndian(0, 3) + BigEndian(length, 3) + bytes[HS_LENGTH..]
  }

  /** What a received handshake record makes of the collected bytes. A first fragment always
      gives up what was collected before. */
  function Next(st: Collected, m: seq<Octet>): (Collected, Progress)
    requires st.Partly? ==> |st.bytes| >= HS_LENGTH
  {
    if |m| < HS_LENGTH then (st, Failed(DecodeError))
    else if !Fragmented(m) then (st, Whole(m))
    else if LengthOf(m) > MAX_BUF || OffsetOf(m) + FragmentOf(m) > LengthOf(m) then (st, Failed(RecordOverflow))
    else if OffsetOf(m) != 0 && (st.Nothing? || st.lastOffset != OffsetOf(m)) then (st, Failed(HandshakeFailure))
    else if |m| < HS_LENGTH + FragmentOf(m) then (if OffsetOf(m) == 0 then Nothing else st, Overread)
    else if OffsetOf(m) == 0 then (Partly(m[..HS_LENGTH + FragmentOf(m)], LengthOf(m), FragmentOf(m)), Waiting)
    else Grown(st, m[HS_LENGTH..HS_LENGTH + FragmentOf(m)], LengthOf(m))
  }

  /** The collected bytes with the next ones, from a fragment that announces the given message
      length: by that length the code decides whether the message is complete. */
  function Grown(st: Collected, more: seq<Octet>, announced: nat): (Collected, Progress)
    requires st.Partly? && |st.bytes| >= HS_LENGTH
  {
    var bytes, last := st.bytes + more, st.lastOffset + |more|;
    if last > st.length then (st, Overrun)
    else if last < announced then (Partly(bytes, st.length, last), Waiting)
    else (Partly(Rewritten(bytes, st.length), st.length, last),
          if last < st.length then Unwritten else Whole(Rewritten(bytes, st.length)))
  }

  /** The fragment passes every test of the code and is copied behind the collected bytes. */
  predicate Continues(st: Collected, m: seq<Octet>) {
    && |m| >= HS_LENGTH && Fragmented(m) && LengthOf(m) <= MAX_BUF && OffsetOf(m) + FragmentOf(m) <= LengthOf(m)
    && st.Partly? && OffsetOf(m) == st.lastOffset != 0
  }

  /** The code writes behind the buffer exactly when a fragment that continues the message
      reaches beyond the length announced by the first fragment. */
  lemma OverrunExactly(st: Collected, m: seq<Octet>)
    requires st.Partly? ==> |st.bytes| >= HS_LENGTH
    ensures Next(st, m).1 == Overrun
       <==> Continues(st, m) && |m| >= HS_LENGTH + FragmentOf(m) && OffsetOf(m) + FragmentOf(m) > st.length
  {
    hide LengthOf, FragmentOf, OffsetOf, Rewritten;
  }

  /** It takes a message for complete too early exactly when the last fragment of a shorter
      message continues a longer one. */
  lemma UnwrittenExactly(st: Collected, m: seq<Octet>)
    requires st.Partly? ==> |st.bytes| >= HS_LENGTH
    ensures Next(st, m).1 == Unwritten
       <==> Continues(st, m) && |m| >= HS_LENGTH + FragmentOf(m)
            && OffsetOf(m) + FragmentOf(m) == LengthOf(m) < st.length
  {
    hide LengthOf, FragmentOf, OffsetOf, Rewritten;
  }

  /** It reads behind the record exactly when a first fragment, or one that continues the
      message, announces more bytes than the record has. */
  lemma OverreadExactly(st: Collected, m: seq<Octet>)
    requires st.Partly? ==> |st.bytes| >= HS_LENGTH
    ensures Next(st, m).1 == Overread
       <==> |m| >= HS_LENGTH && Fragmented(m) && LengthOf(m) <= MAX_BUF && OffsetOf(m) + FragmentOf(m) <= LengthOf(m)
            && (OffsetOf(m) == 0 || Continues(st, m)) && |m| < HS_LENGTH + FragmentOf(m)
  {
    hide LengthOf, FragmentOf, OffsetOf, Rewritten;
  }

  /** A header alone that announces a first fragment of 1000 bytes is enough. */
  lemma OverreadOccurs(st: Collected, t: Octet, number: nat)
    requires (st.Partly? ==> |st.bytes| >= HS_LENGTH) && number < 0x1_0000
    ensures Next(st, Header(t, 2000, number, 0, 1000)).1 == Overread
  {
    HeaderFields(t, 2000, number, 0, 1000, []);
    hide Header, LengthOf, FragmentOf, OffsetOf, NumberOf;
    assert Header(t, 2000, number, 0, 1000) + [] == Header(t, 2000, number, 0, 1000);
  }

  class Reassembler {
    var data: array?<Octet>
    var packetLength: nat
    var lastOffset: nat

    ghost predicate Valid()
      reads this
    {
      data != null ==> data.Length == packetLength + HS_LENGTH && lastOffset <= packetLength
    }

    /** What has been collected; bytes not yet received have no meaning. */
    ghost function State(): Collected
      requires Valid()
      reads this, data
    {
      if data == null then Nothing else Partly(data[..HS_LENGTH + lastOffset], packetLength, lastOffset)
    }

    constructor ()
      ensures Valid() && State() == Nothing
    {
      data := null;
      packetLength, lastOffset := 0, 0;
    }

    method Free()
      modifies this`data
      ensures data == null
    {
      data := null;
    }

    /** Rewrites the length and offset fields of the collected message. */
    method RewriteHeader()
      requires data != null && data.Length == packetLength + HS_LENGTH
      modifies data
      ensures data[..] == Rewritten(old(data[..]), packetLength)
    {
      hide BigEndian;
      PutBigEndian(0, data, 6, 3);
      PutBigEndian(packetLength, data, 1, 3);
      PutBigEndian(packetLength, data, 9, 3);
    }

    /** Takes a fragment that continues the message in the buffer. */
    method Continue(m: seq<Octet>, offset: nat, length: nat, announced: nat) returns (p: Progress)
      requires Valid() && data != null && offset == lastOffset && |m| >= HS_LENGTH + length
      modifies this`lastOffset, data
      ensures Valid() && data == old(data)
      ensures (State(), p) == Grown(old(State()), m[HS_LENGTH..HS_LENGTH + length], announced)
    {
      hide Rewritten;
      if offset + length > packetLength {
        return Overrun;
      }
      ghost var head := data[..HS_LENGTH + offset];
      MemCopy(m, HS_LENGTH, data, offset + HS_LENGTH, length);
      assert data[..HS_LENGTH + offset] == head;
      assert data[..HS_LENGTH + (offset + length)] == head + m[HS_LENGTH..HS_LENGTH + length];
      lastOffset := offset + length;
      if lastOffset < announced {
        return Waiting;
      }
      p := Complete();
    }

    /** Rewrites the header of what is taken for a complete message. */
    method Complete() returns (p: Progress)
      requires Valid() && data != null
      modifies data
      ensures Valid() && State() == Partly(Rewritten(old(State()).bytes, packetLength), packetLength, lastOffset)
      ensures p == if lastOffset < packetLength then Unwritten else Whole(State().bytes)
    {
      hide Rewritten;
      RewriteHeader();
      RewrittenFront(old(data[..]), HS_LENGTH + lastOffset, packetLength);
      assert data[..HS_LENGTH + packetLength] == data[..];
      return if lastOffset < packetLength then Unwritten else Whole(data[..]);
    }

    /** Starts collecting a message with its first fragment. */
    method Start(m: seq<Octet>, length: nat, fragment: nat)
      requires fragment < length && |m| >= HS_LENGTH + fragment
      modifies this`data, this`packetLength, this`lastOffset
      ensures Valid() && data != null && fresh(data)
      ensures State() == Partly(m[..HS_LENGTH + fragment], length, fragment)
    {
      Free();
      data := new Octet[length + HS_LENGTH](_ => 0);
      packetLength, lastOffset := length, 0;
      MemCopy(m, 0, data, 0, HS_LENGTH + fragment);
      lastOffset := fragment;
      assert data[..HS_LENGTH + fragment] == m[..HS_LENGTH + fragment];
    }

    /** Takes a handshake record. */
    method Reassemble(m: seq<Octet>) returns (p: Progress)
      requires Valid()
      modifies this`data, this`packetLength, this`lastOffset, data
      ensures Valid() && (data == old(data) || data == null || fresh(data))
      ensures (State(), p) == Next(old(State()), m)
    {
      hide LengthOf, FragmentOf, OffsetOf, Grown;
      if |m| < HS_LENGTH {
        return Failed(DecodeError);
      }
      var length, fragment, offset := LengthOf(m), FragmentOf(m), OffsetOf(m);
      if length > fragment {
        if length > MAX_BUF {
          return Failed(RecordOverflow);
        }
        if offset + fragment > length {
          return Failed(RecordOverflow);
        }
        if offset != 0 && (data == null || lastOffset != offset) {
          return Failed(HandshakeFailure);
        }
        if |m| < HS_LENGTH + fragment {
          if offset == 0 {
            Free();
          }
          return Overread;
        }
        if offset == 0 {
          Start(m, length, fragment);
          return Waiting;
        }
        p := Continue(m, offset, fragment, length);
        return;
      }
      return Whole(m);
    }
  }

  lemma RewrittenFront(bytes: seq<Octet>, n: nat, length: nat)
    requires HS_LENGTH <= n <= |bytes|
    ensures Rewritten(bytes, length)[..n] == Rewritten(bytes[..n], length)
  {
    hide BigEndian;
  }

  // ---- what is sent is what is collected ----

  /** The state of the receiver after i of several fragments. */
  function After(t: Octet, data: seq<Octet>, number: nat, i: nat): Collected
    requires MAX_HS_PAYLOAD * i <= |data|
  {
    Partly(Header(t, |data|, number, 0, MAX_HS_PAYLOAD) + data[..MAX_HS_PAYLOAD * i], |data|, MAX_HS_PAYLOAD * i)
  }

  lemma AfterShape(t: Octet, data: seq<Octet>, number: nat, i: nat)
    requires MAX_HS_PAYLOAD * i <= |data|
    ensures var st := After(t, data, number, i);
            st.Partly? && st.length == |data| && st.lastOffset == MAX_HS_PAYLOAD * i
            && st.bytes == Header(t, |data|, number, 0, MAX_HS_PAYLOAD) + data[..MAX_HS_PAYLOAD * i]
  {
  }

  lemma FragmentHeader(t: Octet, data: seq<Octet>, number: nat, i: nat)
    requires i < Count(|data|) && |data| < 0x100_0000 && number < 0x1_0000
    ensures MAX_HS_PAYLOAD * i <= |data|
    ensures var m, size := Fragment(t, data, number, i), FragmentSize(|data|, i);
            && |m| == HS_LENGTH + size && LengthOf(m) == |data| && NumberOf(m) == number
            && OffsetOf(m) == MAX_HS_PAYLOAD * i && FragmentOf(m) == size
            && m[HS_LENGTH..HS_LENGTH + size] == data[MAX_HS_PAYLOAD * i..MAX_HS_PAYLOAD * i + size]
            && m[..HS_LENGTH] == Header(t, |data|, number, MAX_HS_PAYLOAD * i, size)
  {
    hide Header, LengthOf, NumberOf, OffsetOf, FragmentOf;
    FragmentInside(|data|, i);
    var offset, size := MAX_HS_PAYLOAD * i, FragmentSize(|data|, i);
    HeaderFields(t, |data|, number, offset, size, data[offset..offset + size]);
  }

  /** A fragment says that it is one exactly when the message has several. */
  lemma FragmentedExactly(t: Octet, data: seq<Octet>, number: nat, i: nat)
    requires i < Count(|data|) && |data| < 0x100_0000 && number < 0x1_0000 && MAX_HS_PAYLOAD * i <= |data|
    ensures var m := Fragment(t, data, number, i);
            |m| >= HS_LENGTH && (Fragmented(m) <==> Count(|data|) > 1)
  {
    FragmentHeader(t, data, number, i);
    hide Header, LengthOf, NumberOf, OffsetOf, FragmentOf, Fragment;
  }

  /** The first fragment starts the collection, whatever was there before. */
  lemma FirstFragment(st: Collected, t: Octet, data: seq<Octet>, number: nat)
    requires MAX_HS_PAYLOAD < |data| <= MAX_BUF && number < 0x1_0000
    requires st.Partly? ==> |st.bytes| >= HS_LENGTH
    ensures var m := Fragment(t, data, number, 0);
            |m| >= HS_LENGTH + FragmentOf(m) && Next(st, m) == (After(t, data, number, 1), Waiting)
  {
    FragmentHeader(t, data, number, 0);
    hide Header, LengthOf, NumberOf, OffsetOf, FragmentOf;
    var m := Fragment(t, data, number, 0);
    assert m[..HS_LENGTH + MAX_HS_PAYLOAD] == m[..HS_LENGTH] + m[HS_LENGTH..HS_LENGTH + MAX_HS_PAYLOAD];
  }

  lemma NextGrown(st: Collected, m: seq<Octet>, size: nat)
    requires |m| == HS_LENGTH + size && st.Partly? && |st.bytes| >= HS_LENGTH && FragmentOf(m) == size
    requires size < LengthOf(m) <= MAX_BUF && 0 < OffsetOf(m) == st.lastOffset && OffsetOf(m) + size <= LengthOf(m)
    ensures Next(st, m) == Grown(st, m[HS_LENGTH..HS_LENGTH + size], LengthOf(m))
  {
    hide LengthOf, OffsetOf, FragmentOf, Grown;
  }

  /** Appending the next size bytes of the payload. */
  lemma GrownBytes(head: seq<Octet>, data: seq<Octet>, lo: nat, size: nat)
    requires lo + size <= |data|
    ensures head + data[..lo] + data[lo..lo + size] == head + data[..lo + size]
  {
    assert data[..lo] + data[lo..lo + size] == data[..lo + size];
  }

  lemma LaterFragment(t: Octet, data: seq<Octet>, number: nat, i: nat, size: nat)
    requires MAX_HS_PAYLOAD < |data| <= MAX_BUF && number < 0x1_0000 && 0 < i < Count(|data|)
    requires MAX_HS_PAYLOAD * i <= |data| && size == FragmentSize(|data|, i)
    ensures var m := Fragment(t, data, number, i);
            && |m| >= HS_LENGTH + FragmentOf(m)
            && Next(After(t, data, number, i), m)
               == Grown(After(t, data, number, i), data[MAX_HS_PAYLOAD * i..MAX_HS_PAYLOAD * i + size], |data|)
  {
    FragmentHeader(t, data, number, i);
    hide Header, LengthOf, NumberOf, OffsetOf, FragmentOf, Next, Grown, Fragment;
    NextGrown(After(t, data, number, i), Fragment(t, data, number, i), size);
  }

  /** A fragment between the first and the last grows the collection. */
  lemma MiddleFragment(t: Octet, data: seq<Octet>, number: nat, i: nat)
    requires |data| <= MAX_BUF && number < 0x1_0000 && 0 < i && MAX_HS_PAYLOAD * (i + 1) < |data|
    ensures var m := Fragment(t, data, number, i);
            |m| >= HS_LENGTH + FragmentOf(m)
            && Next(After(t, data, number, i), m) == (After(t, data, number, i + 1), Waiting)
  {
    hide Header, LengthOf, NumberOf, OffsetOf, FragmentOf, Next, Fragment, Count;
    OneMore(|data|, i);
    LaterFragment(t, data, number, i, MAX_HS_PAYLOAD);
    GrownBytes(Header(t, |data|, number, 0, MAX_HS_PAYLOAD), data, MAX_HS_PAYLOAD * i, MAX_HS_PAYLOAD);
  }

  /** Rewriting the header of the first fragment gives the header of the whole message. */
  lemma RewrittenHeader(t: Octet, data: seq<Octet>, number: nat, fragment: nat)
    ensures Rewritten(Header(t, |data|, number, 0, fragment) + data, |data|) == Unfragmented(t, data, number)
  {
    hide BigEndian;
  }

  /** The last fragment completes the message. */
  lemma CompletingFragment(t: Octet, data: seq<Octet>, number: nat, i: nat)
    requires |data| <= MAX_BUF && number < 0x1_0000 && 0 < i && i + 1 == Count(|data|)
    ensures MAX_HS_PAYLOAD * i < |data|
    ensures var m := Fragment(t, data, number, i);
            |m| >= HS_LENGTH + FragmentOf(m)
            && Next(After(t, data, number, i), m).1 == Whole(Unfragmented(t, data, number))
  {
    hide Header, LengthOf, NumberOf, OffsetOf, FragmentOf, Next, Fragment, Count;
    hide Rewritten, Unfragmented, Grown, After, FragmentSize;
    FragmentInside(|data|, i);
    var size := |data| - MAX_HS_PAYLOAD * i;
    LastSize(|data|, i);
    LaterFragment(t, data, number, i, size);
    RewrittenHeader(t, data, number, MAX_HS_PAYLOAD);
    AfterShape(t, data, number, i);
    GrownBytes(Header(t, |data|, number, 0, MAX_HS_PAYLOAD), data, MAX_HS_PAYLOAD * i, size);
    assert data[..MAX_HS_PAYLOAD * i + size] == data;
    GrownWhole(After(t, data, number, i), data[MAX_HS_PAYLOAD * i..MAX_HS_PAYLOAD * i + size]);
  }

  lemma GrownWhole(st: Collected, more: seq<Octet>)
    requires st.Partly? && |st.bytes| >= HS_LENGTH && st.lastOffset + |more| == st.length
    ensures Grown(st, more, st.length).1 == Whole(Rewritten(st.bytes + more, st.length))
  {
    hide Rewritten;
  }

  lemma LastSize(n: nat, i: nat)
    requires MAX_HS_PAYLOAD * i <= n && i + 1 == Count(n)
    ensures MAX_HS_PAYLOAD * i + FragmentSize(n, i) == n
  {
  }

  /** A message that fits one fragment is sent as it is. */
  lemma SingleFragment(st: Collected, t: Octet, data: seq<Octet>, number: nat)
    requires |data| <= MAX_HS_PAYLOAD && number < 0x1_0000 && (st.Partly? ==> |st.bytes| >= HS_LENGTH)
    ensures Count(|data|) == 1 && !Fragmented(Fragment(t, data, number, 0))
    ensures Next(st, Fragment(t, data, number, 0)) == (st, Whole(Unfragmented(t, data, number)))
  {
    FragmentHeader(t, data, number, 0);
    hide Header, LengthOf, NumberOf, OffsetOf, FragmentOf;
    assert data[0..|data|] == data;
  }

  /** What fragment i of n makes of the receiver that has taken the fragments before it. */
  lemma FragmentTaken(st: Collected, t: Octet, data: seq<Octet>, number: nat, i: nat)
    requires |data| <= MAX_BUF && number < 0x1_0000 && i < Count(|data|) && (st.Partly? ==> |st.bytes| >= HS_LENGTH)
    requires i > 0 ==> MAX_HS_PAYLOAD * i <= |data| && st == After(t, data, number, i)
    ensures MAX_HS_PAYLOAD * i <= |data|
    ensures var m := Fragment(t, data, number, i);
            && |m| >= HS_LENGTH + FragmentOf(m) && LengthOf(m) == |data| && OffsetOf(m) == MAX_HS_PAYLOAD * i
            && (i + 1 == Count(|data|) ==> Next(st, m).1 == Whole(Unfragmented(t, data, number)))
            && (i + 1 < Count(|data|) ==> MAX_HS_PAYLOAD * (i + 1) < |data|
                                          && Next(st, m) == (After(t, data, number, i + 1), Waiting))
  {
    FragmentHeader(t, data, number, i);
    hide Header, LengthOf, NumberOf, OffsetOf, FragmentOf, Next, Fragment, After, Unfragmented;
    if |data| <= MAX_HS_PAYLOAD {
      SingleFragment(st, t, data, number);
    } else if i + 1 == Count(|data|) {
      CompletingFragment(t, data, number, i);
    } else {
      FragmentInside(|data|, i + 1);
      if i == 0 {
        FirstFragment(st, t, data, number);
      } else {
        MiddleFragment(t, data, number, i);
      }
    }
  }

  // ---- fragments of another message ----

  lemma MixedBytes(t: Octet, data: seq<Octet>, number: nat, more: seq<Octet>, at: nat)
    requires at <= |data| && at + |more| == |data|
    ensures Rewritten(Header(t, |data|, number, 0, MAX_HS_PAYLOAD) + data[..at] + more, |data|)
         == Unfragmented(t, data[..at] + more, number)
  {
    hide BigEndian;
    RewrittenHeader(t, data[..at] + more, number, MAX_HS_PAYLOAD);
    assert Header(t, |data|, number, 0, MAX_HS_PAYLOAD) + data[..at] + more
        == Header(t, |data|, number, 0, MAX_HS_PAYLOAD) + (data[..at] + more);
  }

  /** What a fragment leads to that ends at last in a message announced with the given length,
      when it is copied to the buffer for a message of room bytes. */
  function ByLengths(last: nat, announced: nat, room: nat, message: seq<Octet>): Progress {
    if last > room then Overrun
    else if last < announced then Waiting
    else if last < room then Unwritten
    else Whole(message)
  }

  lemma GrownByLengths(st: Collected, more: seq<Octet>, announced: nat)
    requires st.Partly? && |st.bytes| >= HS_LENGTH
    ensures Grown(st, more, announced).1
         == ByLengths(st.lastOffset + |more|, announced, st.length, Rewritten(st.bytes + more, st.length))
  {
    hide Rewritten;
  }

  lemma OtherFragment(st: Collected, t: Octet, data: seq<Octet>, number: nat, i: nat)
    requires |data| <= MAX_BUF && 0 < i < Count(|data|) && number < 0x1_0000 && MAX_HS_PAYLOAD * i <= |data|
    requires st.Partly? && |st.bytes| >= HS_LENGTH && st.lastOffset == MAX_HS_PAYLOAD * i
    ensures var at, size := MAX_HS_PAYLOAD * i, FragmentSize(|data|, i);
            Next(st, Fragment(t, data, number, i)) == Grown(st, data[at..at + size], |data|)
  {
    FragmentHeader(t, data, number, i);
    hide Header, LengthOf, NumberOf, OffsetOf, FragmentOf, Next, Grown, Fragment;
    NextGrown(st, Fragment(t, data, number, i), FragmentSize(|data|, i));
  }

  /** The receiver waits for fragment i of a message, which is lost, and gets fragment i of
      another one: nothing compares the message numbers, so the lengths alone decide. The two
      messages may be mixed into one, or the code leaves its buffer. */
  lemma OtherMessage(t: Octet, data: seq<Octet>, number: nat, t': Octet, data': seq<Octet>, number': nat, i: nat)
    requires |data| <= MAX_BUF && 0 < i < Count(|data|) && number < 0x1_0000
    requires |data'| <= MAX_BUF && i < Count(|data'|) && number' < 0x1_0000
    ensures MAX_HS_PAYLOAD * i <= |data| && MAX_HS_PAYLOAD * i <= |data'|
    ensures var at := MAX_HS_PAYLOAD * i;
            Next(After(t, data, number, i), Fragment(t', data', number', i)).1
            == ByLengths(at + FragmentSize(|data'|, i), |data'|, |data|,
                         Unfragmented(t, data[..at] + data'[at..], number))
  {
    FragmentInside(|data|, i);
    FragmentInside(|data'|, i);
    AfterShape(t, data, number, i);
    var st, at, size := After(t, data, number, i), MAX_HS_PAYLOAD * i, FragmentSize(|data'|, i);
    OtherFragment(st, t', data', number', i);
    hide Header, Next, Grown, Fragment, After, Rewritten, Unfragmented, Count, FragmentSize;
    GrownByLengths(st, data'[at..at + size], |data'|);
    if at + size == |data'| == |data| {
      assert data'[at..at + size] == data'[at..];
      MixedBytes(t, data, number, data'[at..], at);
    }
  }

  /** After fragment 0 of a message of 1300 bytes, fragment 1 of a message of 3000 bytes is
      written behind the buffer. */
  lemma OverrunOccurs(t: Octet, number: nat)
    requires number + 1 < 0x1_0000
    ensures var first, second := seq(1300, _ => 0), seq(3000, _ => 0);
            Next(Next(Nothing, Fragment(t, first, number, 0)).0, Fragment(t, second, number + 1, 1)).1 == Overrun
  {
    hide Next, Fragment, After;
    var first, second := seq(1300, _ => 0), seq(3000, _ => 0);
    FirstFragment(Nothing, t, first, number);
    OtherMessage(t, first, number, t, second, number + 1, 1);
  }

  /** After fragment 0 of a message of 3000 bytes, fragment 1 of a message of 1300 bytes makes
      the code take the first message for complete, of which 1700 bytes were never written. */
  lemma UnwrittenOccurs(t: Octet, number: nat)
    requires number + 1 < 0x1_0000
    ensures var first, second := seq(3000, _ => 0), seq(1300, _ => 0);
            Next(Next(Nothing, Fragment(t, first, number, 0)).0, Fragment(t, second, number + 1, 1)).1 == Unwritten
  {
    hide Next, Fragment, After;
    var first, second := seq(3000, _ => 0), seq(1300, _ => 0);
    FirstFragment(Nothing, t, first, number);
    OtherMessage(t, first, number, t, second, number + 1, 1);
  }

  /** Feeds the fragments of a message to the receiver in order: it waits until the last one,
      which yields the whole message. */
  method Receive(r: Reassembler, fragments: seq<seq<Octet>>, ghost t: Octet, ghost data: seq<Octet>, ghost number: nat)
    returns (outcomes: seq<Progress>)
    requires r.Valid() && |data| <= MAX_BUF && number < 0x1_0000
    requires fragments == Fragments(t, data, number, Count(|data|))
    modifies r, r.data
    ensures |outcomes| == |fragments| == Count(|data|) > 0
    ensures forall i :: 0 <= i < |outcomes| - 1 ==> outcomes[i] == Waiting
    ensures outcomes[|outcomes| - 1] == Whole(Unfragmented(t, data, number))
  {
    hide Header, LengthOf, NumberOf, OffsetOf, FragmentOf, Next, Fragment, After, Unfragmented, Fragments;
    ghost var n := Count(|data|);
    FragmentsAt(t, data, number, n, 0);
    outcomes := [];
    for i := 0 to |fragments|
      invariant |outcomes| == i
      invariant r.Valid() && (r.data == old(r.data) || r.data == null || fresh(r.data))
      invariant 0 < i < n ==> MAX_HS_PAYLOAD * i <= |data| && r.State() == After(t, data, number, i)
      invariant forall j :: 0 <= j < i && j < n - 1 ==> outcomes[j] == Waiting
      invariant i == n ==> outcomes[i - 1] == Whole(Unfragmented(t, data, number))
    {
      FragmentsAt(t, data, number, n, i);
      if i > 0 {
        AfterShape(t, data, number, i);
      }
      FragmentTaken(r.State(), t, data, number, i);
      var p := r.Reassemble(fragments[i]);
      outcomes := outcomes + [p];
    }
  }

  /** Sends a message and feeds its fragments to the receiver: what comes out is what the
      sender has hashed. */
  method Transfer(s: Sender, r: Reassembler, t: Octet, data: seq<Octet>) returns (outcomes: seq<Progress>)
    requires s.Valid() && r.Valid() && |data| <= MAX_BUF
    modifies s, r, r.data
    ensures |outcomes| == Count(|data|) > 0
    ensures forall i :: 0 <= i < |outcomes| - 1 ==> outcomes[i] == Waiting
    ensures var message := Unfragmented(t, data, old(s.mseqS));
            outcomes[|outcomes| - 1] == Whole(message) && s.transcript == old(s.transcript) + message
  {
    hide Unfragmented, Fragments, Count;
    ghost var number := s.mseqS;
    var first := |s.sent|;
    s.SendHandshake(t, data, true);
    outcomes := Receive(r, s.sent[first..], t, data, number);
  }

  lemma {:induction false} FragmentsAt(t: Octet, data: seq<Octet>, number: nat, k: nat, i: nat)
    requires i < k <= Count(|data|)
    ensures MAX_HS_PAYLOAD * i <= |data| && |Fragments(t, data, number, k)| == k
    ensures Fragments(t, data, number, k)[i] == Fragment(t, data, number, i)
  {
    hide Fragment;
    FragmentInside(|data|, k - 1);
    if k > 1 {
      FragmentsAt(t, data, number, k - 1, if i < k - 1 then i else 0);
    }
  }
}
