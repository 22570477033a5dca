/** Messages sent in fragments over a link that loses, repeats and reorders records. */
module Transport {
  import opened Octets
  import opened Fragmentation
  import opened Reordering

  /** What the sender hands over for one message; messages are numbered from zero. */
  datatype Payload = Payload(t: Octet, data: seq<Octet>)

  /** Fragment i of message n. */
  datatype Piece = Piece(n: nat, i: nat)

  predicate Sendable(ps: seq<Payload>) {
    |ps| < 0x1_0000 && forall n :: 0 <= n < |ps| ==> |ps[n].data| <= MAX_BUF
  }

  function Pieces(ps: seq<Payload>, n: nat): nat
    requires n < |ps|
  {
    Count(|ps[n].data|)
  }

  predicate IsPiece(ps: seq<Payload>, x: Piece) { x.n < |ps| && x.i < Pieces(ps, x.n) }

  predicate OfMessages(ps: seq<Payload>, xs: seq<Piece>) {
    forall j {:trigger xs[j]} :: 0 <= j < |xs| ==> IsPiece(ps, xs[j])
  }

  /** The message as the sender has hashed it. */
  function Sent(ps: seq<Payload>, n: nat): Message
    requires n < |ps|
  {
    Unfragmented(ps[n].t, ps[n].data, n)
  }

  /** The record that carries a piece. */
  function Wire(ps: seq<Payload>, x: Piece): seq<Octet>
    requires IsPiece(ps, x)
  {
    FragmentInside(|ps[x.n].data|, x.i);
    Fragment(ps[x.n].t, ps[x.n].data, x.n, x.i)
  }

  // ---- which message the collection belongs to ----

  /** The message whose fragments are collected, and how many of them there are. */
  datatype Held = None | Held(n: nat, i: nat)

  predicate IsHeld(ps: seq<Payload>, h: Held) { h.Held? ==> h.n < |ps| && 0 < h.i <= Pieces(ps, h.n) }

  function Reach(ps: seq<Payload>, h: Held): nat
    requires h.Held? && IsHeld(ps, h)
  {
    if h.i < Pieces(ps, h.n) then MAX_HS_PAYLOAD * h.i else |ps[h.n].data|
  }

  /** The piece is copied behind what is collected. */
  predicate Follows(ps: seq<Payload>, h: Held, x: Piece)
    requires IsHeld(ps, h)
  {
    x.i > 0 && h.Held? && Reach(ps, h) == MAX_HS_PAYLOAD * x.i
  }

  function Take(ps: seq<Payload>, h: Held, x: Piece): (h': Held)
    requires IsHeld(ps, h) && IsPiece(ps, x)
    ensures IsHeld(ps, h')
  {
    if Pieces(ps, x.n) == 1 then h
    else if x.i == 0 then Held(x.n, 1)
    else if Follows(ps, h, x) then Held(x.n, x.i + 1)
    else h
  }

  function HeldAfter(ps: seq<Payload>, xs: seq<Piece>, k: nat): (h: Held)
    requires k <= |xs| && OfMessages(ps, xs)
    ensures IsHeld(ps, h)
  {
    if k == 0 then None else Take(ps, HeldAfter(ps, xs, k - 1), xs[k - 1])
  }

  /** No piece is copied behind pieces of another message. */
  predicate Unmixed(ps: seq<Payload>, xs: seq<Piece>)
    requires OfMessages(ps, xs)
  {
    forall k :: 0 <= k < |xs| && Follows(ps, HeldAfter(ps, xs, k), xs[k]) ==> HeldAfter(ps, xs, k).n == xs[k].n
  }

  /** The state of the collection that belongs to it. */
  function StateOf(ps: seq<Payload>, h: Held): Collected
    requires h.Held? && IsHeld(ps, h)
  {
    var p := ps[h.n];
    if h.i < Pieces(ps, h.n) then
      FragmentInside(|p.data|, h.i);
      After(p.t, p.data, h.n, h.i)
    else Partly(Sent(ps, h.n), |p.data|, |p.data|)
  }

  /** The collection is what the pieces so far make of it, or has been given up. */
  ghost predicate Agrees(ps: seq<Payload>, h: Held, st: Collected)
    requires IsHeld(ps, h)
  {
    st == Nothing || (h.Held? && st == StateOf(ps, h))
  }

  lemma StateReach(ps: seq<Payload>, h: Held)
    requires h.Held? && IsHeld(ps, h)
    ensures var st := StateOf(ps, h);
            st.Partly? && |st.bytes| >= HS_LENGTH && st.lastOffset == Reach(ps, h)
  {
    hide Count;
  }

  /** A fragment behind the first that does not continue the collection is refused. */
  lemma Refused(st: Collected, t: Octet, data: seq<Octet>, number: nat, i: nat)
    requires |data| <= MAX_BUF && number < 0x1_0000 && 0 < i < Count(|data|)
    requires st.Partly? ==> |st.bytes| >= HS_LENGTH && st.lastOffset != MAX_HS_PAYLOAD * i
    ensures MAX_HS_PAYLOAD * i <= |data|
    ensures Next(st, Fragment(t, data, number, i)) == (st, Failed(HandshakeFailure))
  {
    FragmentInside(|data|, i);
    FragmentHeader(t, data, number, i);
    hide Header, LengthOf, NumberOf, OffsetOf, FragmentOf, Fragment, Grown;
  }

  /** What a fragment leaves that completes a message. */
  lemma CompleteState(st: Collected, m: seq<Octet>)
    requires st.Partly? ==> |st.bytes| >= HS_LENGTH
    requires |m| >= HS_LENGTH && Fragmented(m) && Next(st, m).1.Whole?
    ensures st.Partly? && Next(st, m).0 == Partly(Next(st, m).1.message, st.length, st.length)
  {
    hide LengthOf, OffsetOf, FragmentOf, Rewritten;
  }

  /** A piece that is first, or the next one of its message. */
  predicate InTurn(ps: seq<Payload>, st: Collected, x: Piece)
    requires IsPiece(ps, x)
  {
    x.i == 0 || st == StateOf(ps, Held(x.n, x.i))
  }

  /** What a piece in turn leads to. */
  function Outcome(ps: seq<Payload>, st: Collected, x: Piece): (Collected, Progress)
    requires IsPiece(ps, x)
  {
    if Pieces(ps, x.n) == 1 then (st, Whole(Sent(ps, x.n)))
    else (StateOf(ps, Held(x.n, x.i + 1)), if x.i + 1 == Pieces(ps, x.n) then Whole(Sent(ps, x.n)) else Waiting)
  }

  /** A piece in turn makes the receiver wait, and the last one yields the message. */
  lemma TakenInTurn(ps: seq<Payload>, st: Collected, x: Piece)
    requires Sendable(ps) && IsPiece(ps, x) && InTurn(ps, st, x) && (st.Partly? ==> |st.bytes| >= HS_LENGTH)
    ensures Next(st, Wire(ps, x)) == Outcome(ps, st, x)
  {
    hide Next, Wire, StateOf, Sent, InTurn, Count;
    if Pieces(ps, x.n) == 1 {
      OnlyPiece(ps, st, x);
    } else if x.i + 1 == Pieces(ps, x.n) {
      LastOfSeveral(ps, st, x);
    } else {
      NotLast(ps, st, x);
    }
  }

  lemma NotLast(ps: seq<Payload>, st: Collected, x: Piece)
    requires Sendable(ps) && IsPiece(ps, x) && InTurn(ps, st, x) && (st.Partly? ==> |st.bytes| >= HS_LENGTH)
    requires x.i + 1 < Pieces(ps, x.n)
    ensures Next(st, Wire(ps, x)) == (StateOf(ps, Held(x.n, x.i + 1)), Waiting)
  {
    var p := ps[x.n];
    FragmentInside(|p.data|, x.i);
    hide Next, Fragment, After, Unfragmented, Count, Fragmented;
    FragmentTaken(st, p.t, p.data, x.n, x.i);
  }

  lemma LastOfSeveral(ps: seq<Payload>, st: Collected, x: Piece)
    requires Sendable(ps) && IsPiece(ps, x) && InTurn(ps, st, x) && (st.Partly? ==> |st.bytes| >= HS_LENGTH)
    requires x.i + 1 == Pieces(ps, x.n) > 1
    ensures Next(st, Wire(ps, x)) == (StateOf(ps, Held(x.n, x.i + 1)), Whole(Sent(ps, x.n)))
  {
    var p := ps[x.n];
    FragmentInside(|p.data|, x.i);
    hide Next, Fragment, After, Unfragmented, Count, Fragmented;
    FragmentTaken(st, p.t, p.data, x.n, x.i);
    FragmentedExactly(p.t, p.data, x.n, x.i);
    CompleteState(st, Wire(ps, x));
    AfterShape(p.t, p.data, x.n, x.i);
  }

  lemma OnlyPiece(ps: seq<Payload>, st: Collected, x: Piece)
    requires Sendable(ps) && IsPiece(ps, x) && Pieces(ps, x.n) == 1 && (st.Partly? ==> |st.bytes| >= HS_LENGTH)
    ensures Next(st, Wire(ps, x)) == (st, Whole(Sent(ps, x.n)))
  {
    var p := ps[x.n];
    hide Next, Fragment, Unfragmented;
    SingleFragment(st, p.t, p.data, x.n);
  }

  lemma RefusedPiece(ps: seq<Payload>, h: Held, st: Collected, x: Piece)
    requires Sendable(ps) && IsPiece(ps, x) && IsHeld(ps, h) && Agrees(ps, h, st) && x.i > 0
    requires st.Partly? ==> !Follows(ps, h, x)
    ensures Next(st, Wire(ps, x)) == (st, Failed(HandshakeFailure))
  {
    hide Next, Fragment, StateOf, Count;
    if st.Partly? {
      StateReach(ps, h);
    }
    Refused(st, ps[x.n].t, ps[x.n].data, x.n, x.i);
  }

  lemma OutcomeOf(ps: seq<Payload>, st: Collected, x: Piece)
    requires IsPiece(ps, x)
    ensures Outcome(ps, st, x).1 == if x.i + 1 == Pieces(ps, x.n) then Whole(Sent(ps, x.n)) else Waiting
    ensures x.i + 1 < Pieces(ps, x.n) ==> Outcome(ps, st, x).0 == StateOf(ps, Held(x.n, x.i + 1))
  {
    hide Count, StateOf, Sent;
  }

  /** A piece that is first or follows its own message is in turn and keeps the collection in
      agreement. */
  lemma TurnAgrees(ps: seq<Payload>, h: Held, st: Collected, x: Piece)
    requires IsPiece(ps, x) && IsHeld(ps, h) && Agrees(ps, h, st)
    requires x.i == 0 || (st.Partly? && Follows(ps, h, x) && h.n == x.n)
    ensures InTurn(ps, st, x) && Agrees(ps, Take(ps, h, x), Outcome(ps, st, x).0)
  {
    FragmentInside(|ps[x.n].data|, x.i);
    hide StateOf, Sent;
    if x.i > 0 {
      assert h == Held(x.n, x.i);
    }
  }

  lemma RefusalAgrees(ps: seq<Payload>, h: Held, st: Collected, x: Piece)
    requires IsPiece(ps, x) && IsHeld(ps, h) && Agrees(ps, h, st) && x.i > 0
    requires st.Partly? ==> !Follows(ps, h, x)
    ensures Agrees(ps, Take(ps, h, x), st)
  {
    hide StateOf, Count, Reach;
  }

  /** Every piece keeps the collection in agreement, and completes no message but its own. */
  lemma PieceTaken(ps: seq<Payload>, h: Held, st: Collected, x: Piece)
    requires Sendable(ps) && IsPiece(ps, x) && IsHeld(ps, h) && Agrees(ps, h, st)
    requires Follows(ps, h, x) ==> h.n == x.n
    ensures st.Partly? ==> |st.bytes| >= HS_LENGTH
    ensures Agrees(ps, Take(ps, h, x), Next(st, Wire(ps, x)).0)
    ensures Next(st, Wire(ps, x)).1.Whole? ==> Next(st, Wire(ps, x)).1 == Whole(Sent(ps, x.n))
  {
    if st.Partly? {
      StateReach(ps, h);
    }
    hide Next, Wire, StateOf, Sent, Count, Reach, Take, Outcome, Follows, Agrees;
    if x.i == 0 || (st.Partly? && Follows(ps, h, x)) {
      TurnAgrees(ps, h, st, x);
      hide InTurn;
      TakenInTurn(ps, st, x);
      OutcomeOf(ps, st, x);
    } else {
      RefusedPiece(ps, h, st, x);
      RefusalAgrees(ps, h, st, x);
    }
  }

  // ---- what has arrived ----

  /** The pieces of message xs[p].n stand in order from p on. */
  predicate Block(ps: seq<Payload>, xs: seq<Piece>, p: nat)
    requires p < |xs| && IsPiece(ps, xs[p])
  {
    var n := xs[p].n;
    p + Pieces(ps, n) <= |xs| && forall j :: 0 <= j < Pieces(ps, n) ==> xs[p + j] == Piece(n, j)
  }

  /** All pieces of message n have arrived in order at some time. */
  ghost predicate InOrder(ps: seq<Payload>, xs: seq<Piece>, n: nat)
    requires OfMessages(ps, xs)
  {
    exists p: nat :: p < |xs| && xs[p].n == n && Block(ps, xs, p)
  }

  /** The k-th piece is preceded by the pieces before it. */
  predicate Prepared(xs: seq<Piece>, k: nat)
    requires k < |xs|
  {
    xs[k].i <= k && forall j :: 0 <= j < xs[k].i ==> xs[k - xs[k].i + j] == Piece(xs[k].n, j)
  }

  lemma PreparedBefore(xs: seq<Piece>, k: nat)
    requires 0 < k < |xs| && Prepared(xs, k) && xs[k].i > 0
    ensures xs[k - 1] == Piece(xs[k].n, xs[k].i - 1) && Prepared(xs, k - 1)
  {
    var i := xs[k].i;
    assert xs[k - i + (i - 1)] == Piece(xs[k].n, i - 1);
    forall j | 0 <= j < i - 1
      ensures xs[k - 1 - (i - 1) + j] == Piece(xs[k].n, j)
    {
      assert xs[k - i + j] == Piece(xs[k].n, j);
    }
  }

  lemma BlockPrepared(ps: seq<Payload>, xs: seq<Piece>, p: nat, k: nat)
    requires p < |xs| && IsPiece(ps, xs[p]) && Block(ps, xs, p) && k + 1 == p + Pieces(ps, xs[p].n)
    ensures p <= k < |xs| && xs[k] == Piece(xs[p].n, Pieces(ps, xs[p].n) - 1) && Prepared(xs, k)
  {
    hide Count;
    var c := Pieces(ps, xs[p].n);
    assert c > 0;
    assert xs[p + (c - 1)] == Piece(xs[p].n, c - 1);
    forall j | 0 <= j < c - 1
      ensures xs[k - (c - 1) + j] == Piece(xs[p].n, j)
    {
      assert xs[p + j] == Piece(xs[p].n, j);
    }
  }

  // ---- what has been put together ----

  ghost predicate AllSent(ps: seq<Payload>, wholes: seq<Message>) {
    forall w :: w in wholes ==> exists n: nat :: n < |ps| && w == Sent(ps, n)
  }

  /** The messages of the blocks that end before k have been put together. */
  ghost predicate Completed(ps: seq<Payload>, xs: seq<Piece>, k: nat, wholes: seq<Message>)
    requires k <= |xs| && OfMessages(ps, xs)
  {
    forall p: nat :: p < |xs| && p + Pieces(ps, xs[p].n) <= k && Block(ps, xs, p) ==> Sent(ps, xs[p].n) in wholes
  }

  lemma CompletedStep(ps: seq<Payload>, xs: seq<Piece>, k: nat, wholes: seq<Message>, wholes': seq<Message>)
    requires k < |xs| && OfMessages(ps, xs)
    requires Completed(ps, xs, k, wholes) && wholes <= wholes'
    requires Prepared(xs, k) && xs[k].i + 1 == Pieces(ps, xs[k].n) ==> Sent(ps, xs[k].n) in wholes'
    ensures Completed(ps, xs, k + 1, wholes')
  {
    hide Count, Sent;
    forall p: nat | p < |xs| && p + Pieces(ps, xs[p].n) <= k + 1 && Block(ps, xs, p)
      ensures Sent(ps, xs[p].n) in wholes'
    {
      if p + Pieces(ps, xs[p].n) == k + 1 {
        BlockPrepared(ps, xs, p, k);
      } else {
        assert Sent(ps, xs[p].n) in wholes;
      }
    }
  }

  lemma RunGrows(wholes: seq<Message>, m: Message, mseqR: nat, queue: seq<Message>, delivered: seq<Message>)
    requires InRun(wholes, |wholes|, mseqR, queue, delivered)
    ensures InRun(wholes + [m], |wholes|, mseqR, queue, delivered)
  {
    hide NumberOf, Ordered, Consecutive, Stored;
  }

  lemma SentNumber(ps: seq<Payload>, n: nat)
    requires Sendable(ps) && n < |ps|
    ensures NumberOf(Sent(ps, n)) == n
  {
    hide NumberOf, Unfragmented;
    UnfragmentedNumber(ps[n].t, ps[n].data, n);
  }

  lemma DeliveredAt(ps: seq<Payload>, wholes: seq<Message>, delivered: seq<Message>, j: nat)
    requires Sendable(ps) && AllSent(ps, wholes) && Consecutive(delivered, 0)
    requires j < |delivered| && j <= |ps| && delivered[j] in wholes
    ensures j < |ps| && delivered[j] == Sent(ps, j)
  {
    hide NumberOf, Sent;
    var n: nat :| n < |ps| && delivered[j] == Sent(ps, n);
    SentNumber(ps, n);
  }

  /** Messages that were sent and are handled with consecutive numbers are a prefix of what
      was sent. */
  lemma DeliveredPrefix(ps: seq<Payload>, wholes: seq<Message>, delivered: seq<Message>)
    requires Sendable(ps) && AllSent(ps, wholes) && Consecutive(delivered, 0)
    requires forall d :: d in delivered ==> d in wholes
    ensures |delivered| <= |ps| && forall j :: 0 <= j < |delivered| ==> delivered[j] == Sent(ps, j)
  {
    hide Sent, Consecutive, AllSent;
    if |delivered| > |ps| {
      DeliveredAt(ps, wholes, delivered, |ps|);
    }
    forall j | 0 <= j < |delivered|
      ensures delivered[j] == Sent(ps, j)
    {
      DeliveredAt(ps, wholes, delivered, j);
    }
  }

  lemma SentArrived(ps: seq<Payload>, wholes: seq<Message>, n: nat)
    requires Sendable(ps) && n < |ps| && Sent(ps, n) in wholes && |ps[n].data| + HS_LENGTH <= MAX_BUF
    ensures Arrived(wholes, n)
  {
    SentNumber(ps, n);
    hide NumberOf;
  }

  /** Messages that arrive in order and are short enough to be stored. */
  ghost predicate PrefixInOrder(ps: seq<Payload>, xs: seq<Piece>, k: nat)
    requires k <= |ps| && OfMessages(ps, xs)
  {
    forall n: nat :: n < k ==> InOrder(ps, xs, n) && |ps[n].data| + HS_LENGTH <= MAX_BUF
  }

  /** The messages of a prefix that arrived in order have been put together. */
  lemma PrefixArrived(ps: seq<Payload>, xs: seq<Piece>, wholes: seq<Message>, k: nat)
    requires Sendable(ps) && OfMessages(ps, xs)
    requires Completed(ps, xs, |xs|, wholes) && k <= |ps| && PrefixInOrder(ps, xs, k)
    ensures AllArrived(wholes, k)
  {
    hide Count, Sent, Arrived;
    forall n: nat | n < k
      ensures Arrived(wholes, n)
    {
      assert InOrder(ps, xs, n);
      var p: nat :| p < |xs| && xs[p].n == n && Block(ps, xs, p);
      SentArrived(ps, wholes, n);
    }
  }

  // ---- whole runs ----

  lemma AllSentStep(ps: seq<Payload>, wholes: seq<Message>, n: nat)
    requires AllSent(ps, wholes) && n < |ps|
    ensures AllSent(ps, wholes + [Sent(ps, n)])
  {
    hide Sent;
  }

  /** After the pieces of a message in order the collection is the one for the next piece. */
  ghost predicate TurnKept(ps: seq<Payload>, xs: seq<Piece>, k: nat, st: Collected)
    requires k <= |xs| && OfMessages(ps, xs)
  {
    k > 0 && Prepared(xs, k - 1) && xs[k - 1].i + 1 < Pieces(ps, xs[k - 1].n) ==>
      st == StateOf(ps, Held(xs[k - 1].n, xs[k - 1].i + 1))
  }

  /** A piece that is preceded by the pieces before it is in turn. */
  lemma TurnOf(ps: seq<Payload>, xs: seq<Piece>, k: nat, st: Collected)
    requires k < |xs| && OfMessages(ps, xs) && TurnKept(ps, xs, k, st) && Prepared(xs, k)
    ensures InTurn(ps, st, xs[k])
  {
    hide StateOf, Count;
    if xs[k].i > 0 {
      PreparedBefore(xs, k);
    }
  }

  /** One record keeps the collection in order. It may have been given up. */
  lemma CollectionStep(ps: seq<Payload>, xs: seq<Piece>, k: nat, st: Collected, st': Collected, p: Progress)
    requires Sendable(ps) && k < |xs| && OfMessages(ps, xs) && Unmixed(ps, xs)
    requires Agrees(ps, HeldAfter(ps, xs, k), st) && TurnKept(ps, xs, k, st) && (st.Partly? ==> |st.bytes| >= HS_LENGTH)
    requires p == Next(st, Wire(ps, xs[k])).1
    requires st' == Next(st, Wire(ps, xs[k])).0 || (p.Whole? && st' == Nothing)
    ensures Agrees(ps, HeldAfter(ps, xs, k + 1), st') && TurnKept(ps, xs, k + 1, st')
    ensures p.Whole? ==> p.message == Sent(ps, xs[k].n)
    ensures Prepared(xs, k) && xs[k].i + 1 == Pieces(ps, xs[k].n) ==> p.Whole?
  {
    var x, h := xs[k], HeldAfter(ps, xs, k);
    hide Next, Wire, StateOf, Sent, Count, Prepared, Reach, Outcome;
    assert Follows(ps, h, x) ==> h.n == x.n;
    hide Follows;
    PieceTaken(ps, h, st, x);
    if Prepared(xs, k) {
      TurnOf(ps, xs, k, st);
      hide InTurn;
      TakenInTurn(ps, st, x);
      OutcomeOf(ps, st, x);
    }
  }

  /** What holds after k records, in terms of the two states of the receiver. */
  ghost predicate InTransport(ps: seq<Payload>, xs: seq<Piece>, k: nat, st: Collected, wholes: seq<Message>,
                              mseqR: nat, queue: seq<Message>, delivered: seq<Message>)
    requires k <= |xs| && OfMessages(ps, xs)
  {
    && Agrees(ps, HeldAfter(ps, xs, k), st) && TurnKept(ps, xs, k, st)
    && AllSent(ps, wholes) && Completed(ps, xs, k, wholes)
    && InRun(wholes, |wholes|, mseqR, queue, delivered)
    && multiset(delivered) + multiset(queue) <= multiset(wholes)
  }

  ghost predicate Running(ps: seq<Payload>, xs: seq<Piece>, k: nat, b: Reassembler, r: Receiver, wholes: seq<Message>)
    requires k <= |xs| && OfMessages(ps, xs)
    reads b, b.data, r
  {
    b.Valid() && r.Valid() && InTransport(ps, xs, k, b.State(), wholes, r.mseqR, r.queue, r.delivered)
  }

  /** One record keeps it. */
  lemma RecordStep(ps: seq<Payload>, xs: seq<Piece>, k: nat, st: Collected, wholes: seq<Message>,
                   handle: Message -> int, low: nat, before: seq<Message>, done: seq<Message>, st': Collected,
                   p: Progress, mseqR: nat, queue: seq<Message>, delivered: seq<Message>, ds: seq<Message>, res: int)
    returns (wholes': seq<Message>)
    requires Sendable(ps) && k < |xs| && OfMessages(ps, xs) && Unmixed(ps, xs) && forall m: Message :: handle(m) >= 0
    requires InTransport(ps, xs, k, st, wholes, low, before, done) && (st.Partly? ==> |st.bytes| >= HS_LENGTH)
    requires p == Next(st, Wire(ps, xs[k])).1 && (p.Whole? ==> |p.message| >= HS_LENGTH)
    requires st' == Next(st, Wire(ps, xs[k])).0 || (p.Whole? && st' == Nothing)
    requires mseqR < 0x1_0000 && Ordered(queue, mseqR + 1)
    requires p.Whole? ==> Processed(handle, p.message, low, before, done, mseqR, queue, delivered, ds, res)
    requires !p.Whole? ==> mseqR == low && queue == before && delivered == done
    ensures InTransport(ps, xs, k + 1, st', wholes', mseqR, queue, delivered)
  {
    hide Next, Wire, Sent, Count, Completed, AllSent, Ordered, InRun, Processed, Prepared, Agrees, TurnKept, Unmixed;
    hide HeldAfter;
    CollectionStep(ps, xs, k, st, st', p);
    wholes' := if p.Whole? then wholes + [Sent(ps, xs[k].n)] else wholes;
    CompletedStep(ps, xs, k, wholes, wholes');
    if p.Whole? {
      AllSentStep(ps, wholes, xs[k].n);
      RunGrows(wholes, Sent(ps, xs[k].n), low, before, done);
      StepKeeps(wholes', |wholes|, handle, low, before, done, mseqR, queue, delivered, ds, res);
      assert multiset(wholes') == multiset(wholes) + multiset{Sent(ps, xs[k].n)};
    }
  }

  /** Takes one record. */
  method ReceivePiece(ps: seq<Payload>, xs: seq<Piece>, k: nat, b: Reassembler, r: Receiver, ghost wholes: seq<Message>)
    returns (ghost wholes': seq<Message>)
    requires Sendable(ps) && k < |xs| && OfMessages(ps, xs) && Unmixed(ps, xs)
    requires Running(ps, xs, k, b, r, wholes) && forall m: Message :: r.handle(m) >= 0
    modifies b, b.data, r`mseqR, r`delivered, r`queue
    ensures Running(ps, xs, k + 1, b, r, wholes')
    ensures b.data == old(b.data) || b.data == null || fresh(b.data)
  {
    hide Next, Wire, Ordered, Processed, NumberOf, Fragmented, InTransport, Unmixed;
    ghost var st, low, before, done := b.State(), r.mseqR, r.queue, r.delivered;
    var p, res, dangling; ghost var ds;
    p, res, dangling, ds := HandleHandshake(b, r, Wire(ps, xs[k]));
    wholes' := RecordStep(ps, xs, k, st, wholes, r.handle, low, before, done, b.State(), p,
                          r.mseqR, r.queue, r.delivered, ds, res);
  }

  /** Whatever records are lost, repeated or reordered, as long as no piece is copied behind
      pieces of another message: what is handled is a prefix of the messages that were sent,
      each once and with the bytes the sender has hashed, and the messages of a prefix whose
      pieces have arrived in order are all handled. */
  method ReceiveRecords(handle: Message -> int, ps: seq<Payload>, xs: seq<Piece>) returns (r: Receiver)
    requires Sendable(ps) && OfMessages(ps, xs) && Unmixed(ps, xs)
    requires forall m: Message :: handle(m) >= 0
    ensures |r.delivered| <= |ps| && forall j :: 0 <= j < |r.delivered| ==> r.delivered[j] == Sent(ps, j)
    ensures forall k: nat :: k <= |ps| && PrefixInOrder(ps, xs, k) ==> |r.delivered| >= k
  {
    hide Sent, Count, Unmixed, Running;
    var b := new Reassembler();
    r := new Receiver(handle);
    ghost var wholes: seq<Message> := [];
    NothingReceived(ps, xs, b, r);
    for k := 0 to |xs|
      invariant fresh(b) && fresh(r) && r.handle == handle && (b.data == null || fresh(b.data))
      invariant Running(ps, xs, k, b, r, wholes)
    {
      wholes := ReceivePiece(ps, xs, k, b, r, wholes);
    }
    RunIsPrefix(ps, xs, b, r, wholes);
  }

  lemma NothingReceived(ps: seq<Payload>, xs: seq<Piece>, b: Reassembler, r: Receiver)
    requires OfMessages(ps, xs)
    requires b.Valid() && b.State() == Nothing && r.Valid() && r.mseqR == 0 && r.queue == [] && r.delivered == []
    ensures Running(ps, xs, 0, b, r, [])
  {
  }

  lemma RunIsPrefix(ps: seq<Payload>, xs: seq<Piece>, b: Reassembler, r: Receiver, wholes: seq<Message>)
    requires Sendable(ps) && OfMessages(ps, xs)
    requires Running(ps, xs, |xs|, b, r, wholes)
    ensures |r.delivered| <= |ps| && forall j :: 0 <= j < |r.delivered| ==> r.delivered[j] == Sent(ps, j)
    ensures forall k: nat :: k <= |ps| && PrefixInOrder(ps, xs, k) ==> |r.delivered| >= k
  {
    hide Sent, Count, Completed, AllSent, Ordered, Consecutive, Kept, NumberOf, Agrees, TurnKept, HeldAfter;
    forall d | d in r.delivered
      ensures d in wholes
    {
      assert d in multiset(r.delivered) + multiset(r.queue);
    }
    DeliveredPrefix(ps, wholes, r.delivered);
    forall k: nat | k <= |ps| && PrefixInOrder(ps, xs, k)
      ensures |r.delivered| >= k
    {
      PrefixArrived(ps, xs, wholes, k);
      PrefixHandled(wholes, r.queue, |r.delivered|, k);
    }
  }
}
