/** Handling handshake messages in the order of their numbers. */
module Reordering {
  import opened Octets
  import opened Fragmentation

  type Message = m: seq<Octet> | |m| >= HS_LENGTH witness seq(HS_LENGTH, _ => 0)

  /** The reorder queue: no number twice, none below low. */
  ghost predicate Ordered(queue: seq<Message>, low: nat) {
    && (forall i :: 0 <= i < |queue| ==> NumberOf(queue[i]) >= low)
    && (forall i, j :: 0 <= i < j < |queue| ==> NumberOf(queue[i]) != NumberOf(queue[j]))
  }

  predicate Stored(queue: seq<Message>, number: nat) {
    exists i :: 0 <= i < |queue| && NumberOf(queue[i]) == number
  }

  /** The messages carry consecutive numbers, modulo the width of the counter. */
  ghost predicate Consecutive(ds: seq<Message>, first: nat) {
    forall i :: 0 <= i < |ds| ==> NumberOf(ds[i]) == (first + i) % 0x1_0000
  }

  lemma NumberFits(m: Message)
    ensures NumberOf(m) < 0x1_0000
  {
    FromBigEndianFits(m, 4, 2);
    FieldWidths();
  }

  lemma RemovedOrdered(queue: seq<Message>, k: nat, low: nat)
    requires Ordered(queue, low) && k < |queue| && NumberOf(queue[k]) == low
    ensures Ordered(queue[..k] + queue[k + 1..], low + 1)
  {
    hide NumberOf;
  }

  /** No message is lost or doubled between the queue with the new message and what is left
      of it with the messages handled. */
  ghost predicate Conserved(before: seq<Message>, m: Message, queue: seq<Message>, ds: seq<Message>) {
    multiset(before) + multiset{m} == multiset(queue) + multiset(ds)
  }

  lemma ConservedStart(queue: seq<Message>, m: Message)
    ensures Conserved(queue, m, queue, [m])
  {
  }

  lemma ConservedStep(before: seq<Message>, m: Message, queue: seq<Message>, k: nat, ds: seq<Message>)
    requires k < |queue| && Conserved(before, m, queue, ds)
    ensures Conserved(before, m, queue[..k] + queue[k + 1..], ds + [queue[k]])
  {
    assert queue == queue[..k] + [queue[k]] + queue[k + 1..];
  }

  /** Every call of the handler but the last succeeded, and the last returned res. */
  ghost predicate Results(handle: Message -> int, ds: seq<Message>, res: int) {
    |ds| > 0 && res == handle(ds[|ds| - 1]) && forall i :: 0 <= i < |ds| - 1 ==> handle(ds[i]) >= 0
  }

  lemma ResultsStep(handle: Message -> int, ds: seq<Message>, res: int, m: Message)
    requires Results(handle, ds, res) && res >= 0
    ensures Results(handle, ds + [m], handle(m))
  {
  }

  lemma ResultsStart(handle: Message -> int, m: Message)
    ensures Results(handle, [m], handle(m))
  {
  }

  /** The queue above the counter's last value is empty, so wrapping loses nothing. */
  lemma NextExpected(queue: seq<Message>, low: nat)
    requires Ordered(queue, low + 1) && low < 0x1_0000
    ensures Ordered(queue, (low + 1) % 0x1_0000)
  {
    if low + 1 == 0x1_0000 && |queue| > 0 {
      NumberFits(queue[0]);
    }
  }

  lemma NotStoredAbove(queue: seq<Message>, low: nat)
    requires Ordered(queue, low) && !Stored(queue, low)
    ensures Ordered(queue, low + 1)
  {
    hide NumberOf;
  }

  lemma OneMoreConsecutive(ds: seq<Message>, m: Message, first: nat)
    requires Consecutive(ds, first) && NumberOf(m) == (first + |ds|) % 0x1_0000
    ensures Consecutive(ds + [m], first)
  {
    hide NumberOf;
  }

  lemma CountOn(first: nat, n: nat)
    ensures ((first + n) % 0x1_0000 + 1) % 0x1_0000 == (first + (n + 1)) % 0x1_0000
  {
  }

  /** What taking a whole message does: an old one is ignored, an early one is stored, the
      expected one is handled together with the stored ones that then are next. */
  ghost predicate Processed(handle: Message -> int, m: Message, low: nat, before: seq<Message>, done: seq<Message>,
                            mseqR: nat, queue: seq<Message>, delivered: seq<Message>, ds: seq<Message>, res: int)
  {
    && delivered == done + ds && Consecutive(ds, low)
    && (NumberOf(m) == low ==>
          && Conserved(before, m, queue, ds) && Results(handle, ds, res)
          && mseqR == (low + |ds| - (if res < 0 then 1 else 0)) % 0x1_0000)
    && (NumberOf(m) != low ==> res == 0 && ds == [] && mseqR == low)
    && (NumberOf(m) < low ==> queue == before)
    && (NumberOf(m) > low ==>
          queue == if |m| > MAX_BUF || Stored(before, NumberOf(m)) then before else before + [m])
  }

  class Receiver {
    /** The result of the message handler; negative means that the message was refused. */
    const handle: Message -> int
    var mseqR: nat
    var queue: seq<Message>
    /** The messages given to the handler so far. */
    var delivered: seq<Message>

    ghost predicate Valid()
      reads this
    {
      mseqR < 0x1_0000 && Ordered(queue, mseqR + 1)
    }

    constructor (handle: Message -> int)
      ensures Valid() && mseqR == 0 && queue == [] && delivered == [] && this.handle == handle
    {
      this.handle := handle;
      mseqR, queue, delivered := 0, [], [];
    }

    /** Gives a message to the handler, which counts it if it accepts it. */
    method HandleMessage(m: Message) returns (res: int)
      requires mseqR < 0x1_0000
      modifies this`mseqR, this`delivered
      ensures res == handle(m) && delivered == old(delivered) + [m]
      ensures mseqR == if res >= 0 then (old(mseqR) + 1) % 0x1_0000 else old(mseqR)
    {
      delivered := delivered + [m];
      res := handle(m);
      if res >= 0 {
        mseqR := (mseqR + 1) % 0x1_0000;
      }
    }

    /** The place of the message with this number, or the length of the queue. */
    method Find(number: nat) returns (k: nat)
      ensures k <= |queue| && (k < |queue| ==> NumberOf(queue[k]) == number)
      ensures k == |queue| <==> !Stored(queue, number)
    {
      k := 0;
      while k < |queue|
        invariant 0 <= k <= |queue|
        invariant forall i :: 0 <= i < k ==> NumberOf(queue[i]) != number
      {
        if NumberOf(queue[k]) == number {
          return;
        }
        k := k + 1;
      }
    }

    /** Stores a message that has come too early, unless it is stored already. */
    method Store(m: Message)
      requires Valid() && NumberOf(m) > mseqR
      modifies this`queue
      ensures Valid()
      ensures queue == if |m| > MAX_BUF || old(Stored(queue, NumberOf(m))) then old(queue) else old(queue) + [m]
    {
      if |m| > MAX_BUF {
        return;
      }
      var k := Find(NumberOf(m));
      if k < |queue| {
        return;
      }
      queue := queue + [m];
    }

    /** The expected message has been taken out of the queue or has just arrived: it goes to
        the handler. */
    method Deliver(m: Message, ghost ds: seq<Message>, ghost first: nat) returns (res: int)
      requires mseqR < 0x1_0000 && NumberOf(m) == mseqR && Ordered(queue, mseqR + 1)
      requires Consecutive(ds, first) && mseqR == (first + |ds|) % 0x1_0000
      modifies this`mseqR, this`delivered
      ensures res == handle(m) && delivered == old(delivered) + [m] && Consecutive(ds + [m], first)
      ensures res < 0 ==> Valid() && mseqR == (first + |ds|) % 0x1_0000
      ensures res >= 0 ==> mseqR < 0x1_0000 && Ordered(queue, mseqR) && mseqR == (first + (|ds| + 1)) % 0x1_0000
    {
      hide NumberOf, Ordered, Consecutive;
      OneMoreConsecutive(ds, m, first);
      NextExpected(queue, mseqR);
      CountOn(first, |ds|);
      res := HandleMessage(m);
    }

    /** Takes the stored message that is next, if there is one, and handles it. */
    method TakeNext(m: Message, ghost before: seq<Message>, ghost ds: seq<Message>, ghost first: nat, last: int)
      returns (found: bool, res: int, ghost ds': seq<Message>)
      requires mseqR < 0x1_0000 && Ordered(queue, mseqR) && Consecutive(ds, first) && mseqR == (first + |ds|) % 0x1_0000
      requires Conserved(before, m, queue, ds) && Results(handle, ds, last) && last >= 0
      modifies this`mseqR, this`delivered, this`queue
      ensures Conserved(before, m, queue, ds') && Results(handle, ds', res) && Consecutive(ds', first)
      ensures !found ==> Valid() && mseqR == old(mseqR) && queue == old(queue)
      ensures !found ==> ds' == ds && res == last && delivered == old(delivered)
      ensures found ==> |queue| < |old(queue)| && |ds'| == |ds| + 1 && ds' == ds + ds'[|ds|..]
      ensures found ==> delivered == old(delivered) + ds'[|ds|..]
      ensures found && res < 0 ==> Valid() && mseqR == (first + |ds|) % 0x1_0000
      ensures found && res >= 0 ==> mseqR < 0x1_0000 && Ordered(queue, mseqR) && mseqR == (first + |ds'|) % 0x1_0000
    {
      hide NumberOf, Ordered, Consecutive, Conserved, Results;
      var k := Find(mseqR);
      if k == |queue| {
        NotStoredAbove(queue, mseqR);
        return false, last, ds;
      }
      var node := queue[k];
      RemovedOrdered(queue, k, mseqR);
      ConservedStep(before, m, queue, k, ds);
      ResultsStep(handle, ds, last, node);
      queue := queue[..k] + queue[k + 1..];
      res := Deliver(node, ds, first);
      return true, res, ds + [node];
    }

    /** Handles the expected message and every stored one that then is next. The loop ends
        because each round takes a message out of the queue. */
    method Accept(m: Message) returns (res: int, ghost ds: seq<Message>)
      requires Valid() && NumberOf(m) == mseqR
      modifies this`mseqR, this`delivered, this`queue
      ensures Valid() && delivered == old(delivered) + ds && Consecutive(ds, old(mseqR))
      ensures Conserved(old(queue), m, queue, ds) && Results(handle, ds, res)
      ensures mseqR == (old(mseqR) + |ds| - (if res < 0 then 1 else 0)) % 0x1_0000
    {
      hide NumberOf, Ordered, Consecutive, Conserved, Results;
      ghost var first, before := mseqR, queue;
      StartConsecutive(first);
      ConservedStart(queue, m);
      ResultsStart(handle, m);
      res := Deliver(m, [], first);
      ds := [m];
      assert [] + [m] == ds;
      var more := res >= 0;
      while more
        invariant delivered == old(delivered) + ds && Consecutive(ds, first) && |ds| > 0
        invariant Conserved(before, m, queue, ds) && Results(handle, ds, res)
        invariant mseqR == (first + |ds| - (if res < 0 then 1 else 0)) % 0x1_0000 < 0x1_0000
        invariant more ==> res >= 0 && Ordered(queue, mseqR)
        invariant !more ==> Valid()
        decreases |queue|, more
      {
        more, res, ds := TakeNext(m, before, ds, first, res);
        more := more && res >= 0;
      }
    }

    /** Takes a whole message: an old one is ignored, an early one is stored, the expected one
        is handled. */
    method Process(m: Message) returns (res: int, ghost ds: seq<Message>)
      requires Valid()
      modifies this`mseqR, this`delivered, this`queue
      ensures Valid()
      ensures Processed(handle, m, old(mseqR), old(queue), old(delivered), mseqR, queue, delivered, ds, res)
    {
      hide NumberOf, Ordered, Consecutive, Conserved, Results;
      StartConsecutive(mseqR);
      if NumberOf(m) < mseqR {
        return 0, [];
      } else if NumberOf(m) > mseqR {
        Store(m);
        return 0, [];
      }
      res, ds := Accept(m);
    }
  }

  lemma WholeHasHeader(st: Collected, m: seq<Octet>)
    requires st.Partly? ==> |st.bytes| >= HS_LENGTH
    ensures Next(st, m).1.Whole? ==> |Next(st, m).1.message| >= HS_LENGTH
  {
    hide LengthOf, FragmentOf, OffsetOf;
  }

  /** Takes a handshake record: fragments are collected, a whole message is ordered by its
      number, and the collection is given up when the expected message is complete. The code
      gives it up before the handler runs: dangling tells that the handler then reads the
      message, which lies in the buffer of the collection, from freed memory. */
  method HandleHandshake(b: Reassembler, r: Receiver, m: seq<Octet>)
    returns (p: Progress, res: int, dangling: bool, ghost ds: seq<Message>)
    requires b.Valid() && r.Valid()
    modifies b, b.data, r`mseqR, r`delivered, r`queue
    ensures b.Valid() && r.Valid() && p == Next(old(b.State()), m).1
    ensures b.data == old(b.data) || b.data == null || fresh(b.data)
    ensures p.Whole? ==> |p.message| >= HS_LENGTH
    ensures p.Whole? ==>
      Processed(r.handle, p.message, old(r.mseqR), old(r.queue), old(r.delivered),
                r.mseqR, r.queue, r.delivered, ds, res)
    ensures !p.Whole? ==>
      ds == [] && r.queue == old(r.queue) && r.mseqR == old(r.mseqR) && r.delivered == old(r.delivered)
    ensures dangling <==>
      p.Whole? && |m| >= HS_LENGTH && Fragmented(m) && NumberOf(p.message) == old(r.mseqR)
    ensures b.State() == if p.Whole? && NumberOf(p.message) == old(r.mseqR) then Nothing
                         else Next(old(b.State()), m).0
  {
    hide NumberOf, Processed, Next, Ordered, Fragmented;
    WholeHasHeader(b.State(), m);
    p := b.Reassemble(m);
    res, dangling, ds := 0, false, [];
    if p.Whole? {
      if NumberOf(p.message) == r.mseqR {
        dangling := |m| >= HS_LENGTH && Fragmented(m);
        b.Free();
      }
      res, ds := r.Process(p.message);
    }
  }

  // ---- whole runs ----

  /** Every message whose number the receiver has not passed yet is in the queue. */
  ghost predicate Kept(msgs: seq<Message>, n: nat, queue: seq<Message>, next: nat)
    requires n <= |msgs|
  {
    forall j :: 0 <= j < n && |msgs[j]| <= MAX_BUF && NumberOf(msgs[j]) >= next ==> Stored(queue, NumberOf(msgs[j]))
  }

  lemma StoredByElement(queue: seq<Message>, m: Message)
    requires m in queue
    ensures Stored(queue, NumberOf(m))
  {
    hide NumberOf;
  }

  lemma HandledBelow(ds: seq<Message>, first: nat, x: Message)
    requires Consecutive(ds, first) && first + |ds| <= 0x1_0000 && x in ds
    ensures NumberOf(x) < first + |ds|
  {
    hide NumberOf;
    var i :| 0 <= i < |ds| && ds[i] == x;
    assert NumberOf(ds[i]) == (first + i) % 0x1_0000 == first + i;
  }

  /** What leaves the queue has a number that the receiver passes. */
  lemma StillStored(before: seq<Message>, m: Message, queue: seq<Message>, ds: seq<Message>, first: nat, x: Message)
    requires Conserved(before, m, queue, ds) && Consecutive(ds, first) && first + |ds| <= 0x1_0000
    requires (x in before || x == m) && NumberOf(x) >= first + |ds|
    ensures Stored(queue, NumberOf(x))
  {
    hide NumberOf, Consecutive;
    assert x in multiset(before) + multiset{m};
    if x in ds {
      HandledBelow(ds, first, x);
    }
    assert x in multiset(queue) + multiset(ds);
    StoredByElement(queue, x);
  }

  predicate Arrived(msgs: seq<Message>, number: nat) {
    exists j :: 0 <= j < |msgs| && |msgs[j]| <= MAX_BUF && NumberOf(msgs[j]) == number
  }

  lemma NextNotArrived(msgs: seq<Message>, queue: seq<Message>, handled: nat)
    requires Kept(msgs, |msgs|, queue, handled) && Ordered(queue, handled + 1)
    ensures !Arrived(msgs, handled)
  {
    hide NumberOf;
  }

  /** If messages with all numbers from 0 to k - 1 have arrived, at least k have been handled. */
  lemma PrefixHandled(msgs: seq<Message>, queue: seq<Message>, handled: nat, k: nat)
    requires Kept(msgs, |msgs|, queue, handled) && Ordered(queue, handled + 1) && AllArrived(msgs, k)
    ensures handled >= k
  {
    hide NumberOf, Kept, Ordered;
    NextNotArrived(msgs, queue, handled);
  }

  /** Storing or ignoring a message keeps all that are still to come. */
  lemma KeptByStore(msgs: seq<Message>, n: nat, before: seq<Message>, queue: seq<Message>, next: nat)
    requires n < |msgs| && Kept(msgs, n, before, next) && NumberOf(msgs[n]) != next
    requires NumberOf(msgs[n]) < next ==> queue == before
    requires NumberOf(msgs[n]) > next ==>
      queue == if |msgs[n]| > MAX_BUF || Stored(before, NumberOf(msgs[n])) then before else before + [msgs[n]]
    ensures Kept(msgs, n + 1, queue, next)
  {
    hide NumberOf;
    forall j | 0 <= j < n && |msgs[j]| <= MAX_BUF && NumberOf(msgs[j]) >= next
      ensures Stored(queue, NumberOf(msgs[j]))
    {
      var i :| 0 <= i < |before| && NumberOf(before[i]) == NumberOf(msgs[j]);
      assert queue[i] == before[i];
    }
    if |msgs[n]| <= MAX_BUF && NumberOf(msgs[n]) >= next && queue != before {
      assert queue[|before|] == msgs[n];
    }
  }

  /** Handling the expected message and its successors keeps all that are still to come. */
  lemma KeptByHandling(msgs: seq<Message>, n: nat, before: seq<Message>, queue: seq<Message>, next: nat,
                       ds: seq<Message>)
    requires n < |msgs| && Kept(msgs, n, before, next) && Conserved(before, msgs[n], queue, ds)
    requires Consecutive(ds, next) && next + |ds| <= 0x1_0000
    ensures Kept(msgs, n + 1, queue, next + |ds|)
  {
    hide NumberOf, Conserved, Consecutive;
    forall j | 0 <= j < n + 1 && |msgs[j]| <= MAX_BUF && NumberOf(msgs[j]) >= next + |ds|
      ensures Stored(queue, NumberOf(msgs[j]))
    {
      if j == n {
        StillStored(before, msgs[n], queue, ds, next, msgs[n]);
      } else {
        var i :| 0 <= i < |before| && NumberOf(before[i]) == NumberOf(msgs[j]);
        StillStored(before, msgs[n], queue, ds, next, before[i]);
      }
    }
  }

  lemma JoinConsecutive(a: seq<Message>, b: seq<Message>, first: nat, next: nat)
    requires Consecutive(a, first) && Consecutive(b, next) && next == (first + |a|) % 0x1_0000
    ensures Consecutive(a + b, first)
  {
    hide NumberOf;
    forall i | |a| <= i < |a| + |b|
      ensures NumberOf((a + b)[i]) == (first + i) % 0x1_0000
    {
      assert (a + b)[i] == b[i - |a|];
    }
  }

  /** The state of a run after n messages, when no message is refused. */
  ghost predicate InRun(msgs: seq<Message>, n: nat, mseqR: nat, queue: seq<Message>, delivered: seq<Message>)
    requires n <= |msgs|
  {
    && mseqR < 0x1_0000 && Ordered(queue, mseqR + 1)
    && Consecutive(delivered, 0) && mseqR == |delivered| % 0x1_0000
    && (|delivered| < 0x1_0000 ==> Kept(msgs, n, queue, mseqR))
  }

  /** Handling the expected message and its successors keeps the run in order. */
  lemma HandlingKeeps(msgs: seq<Message>, n: nat, handle: Message -> int, low: nat, before: seq<Message>,
                      done: seq<Message>, mseqR: nat, queue: seq<Message>, ds: seq<Message>, res: int)
    requires n < |msgs| && InRun(msgs, n, low, before, done) && forall m: Message :: handle(m) >= 0
    requires Conserved(before, msgs[n], queue, ds) && Results(handle, ds, res) && Consecutive(ds, low)
    requires mseqR == (low + |ds| - (if res < 0 then 1 else 0)) % 0x1_0000 && Ordered(queue, mseqR + 1)
    ensures InRun(msgs, n + 1, mseqR, queue, done + ds)
    ensures multiset(done + ds) + multiset(queue) == multiset(done) + multiset(before) + multiset{msgs[n]}
  {
    hide NumberOf, Consecutive, Ordered, Kept, Conserved, Results;
    JoinConsecutive(done, ds, 0, low);
    ConservedSum(done, before, msgs[n], queue, ds);
    NoneRefused(handle, ds, res);
    CountAll(|done|, |ds|);
    if |done| < 0x1_0000 && |done| + |ds| <= 0x1_0000 {
      KeptByHandling(msgs, n, before, queue, low, ds);
    }
  }

  /** Storing or ignoring a message keeps the run in order. */
  lemma StoringKeeps(msgs: seq<Message>, n: nat, low: nat, before: seq<Message>, done: seq<Message>,
                     queue: seq<Message>)
    requires n < |msgs| && InRun(msgs, n, low, before, done) && NumberOf(msgs[n]) != low && Ordered(queue, low + 1)
    requires NumberOf(msgs[n]) < low ==> queue == before
    requires NumberOf(msgs[n]) > low ==>
      queue == if |msgs[n]| > MAX_BUF || Stored(before, NumberOf(msgs[n])) then before else before + [msgs[n]]
    ensures InRun(msgs, n + 1, low, queue, done)
    ensures multiset(done) + multiset(queue) <= multiset(done) + multiset(before) + multiset{msgs[n]}
  {
    hide NumberOf, Consecutive, Ordered, Kept, Stored;
    if |done| < 0x1_0000 {
      KeptByStore(msgs, n, before, queue, low);
    }
  }

  /** Taking the next message keeps the run in order and invents nothing. */
  lemma StepKeeps(msgs: seq<Message>, n: nat, handle: Message -> int, low: nat, before: seq<Message>,
                  done: seq<Message>, mseqR: nat, queue: seq<Message>, delivered: seq<Message>,
                  ds: seq<Message>, res: int)
    requires n < |msgs| && InRun(msgs, n, low, before, done) && forall m: Message :: handle(m) >= 0
    requires Processed(handle, msgs[n], low, before, done, mseqR, queue, delivered, ds, res)
    requires mseqR < 0x1_0000 && Ordered(queue, mseqR + 1)
    ensures InRun(msgs, n + 1, mseqR, queue, delivered)
    ensures multiset(delivered) + multiset(queue) <= multiset(done) + multiset(before) + multiset{msgs[n]}
  {
    hide NumberOf, Consecutive, Ordered, Conserved, Stored, Results, InRun;
    if NumberOf(msgs[n]) == low {
      HandlingKeeps(msgs, n, handle, low, before, done, mseqR, queue, ds, res);
    } else {
      StoringKeeps(msgs, n, low, before, done, queue);
      assert done + ds == done;
    }
  }

  lemma NoneRefused(handle: Message -> int, ds: seq<Message>, res: int)
    requires Results(handle, ds, res) && forall m: Message :: handle(m) >= 0
    ensures res >= 0
  {
  }

  lemma CountAll(a: nat, b: nat)
    ensures (a % 0x1_0000 + b) % 0x1_0000 == (a + b) % 0x1_0000
  {
  }

  lemma ConservedSum(done: seq<Message>, before: seq<Message>, m: Message, queue: seq<Message>, ds: seq<Message>)
    requires Conserved(before, m, queue, ds)
    ensures multiset(done + ds) + multiset(queue) == multiset(done) + multiset(before) + multiset{m}
  {
    assert multiset(done + ds) == multiset(done) + multiset(ds);
    assert multiset(done) + multiset(ds) + multiset(queue) == multiset(done) + (multiset(queue) + multiset(ds));
    assert multiset(done) + multiset(before) + multiset{m} == multiset(done) + (multiset(before) + multiset{m});
  }

  /** Whatever the order of arrival and however often messages are repeated: they are handled
      in order, each number once, and every arrived prefix is handled completely. */
  method ReceiveAll(handle: Message -> int, msgs: seq<Message>) returns (r: Receiver)
    requires forall m: Message :: handle(m) >= 0
    ensures Consecutive(r.delivered, 0)
    ensures multiset(r.delivered) <= multiset(msgs)
    ensures forall k: nat {:trigger AllArrived(msgs, k)} ::
      k <= 0x1_0000 && AllArrived(msgs, k) ==> |r.delivered| >= k
  {
    hide NumberOf, Processed;
    r := new Receiver(handle);
    StartConsecutive(0);
    for n := 0 to |msgs|
      invariant fresh(r) && r.handle == handle && r.Valid() && InRun(msgs, n, r.mseqR, r.queue, r.delivered)
      invariant multiset(r.delivered) + multiset(r.queue) <= multiset(msgs[..n])
    {
      ghost var low, before, done := r.mseqR, r.queue, r.delivered;
      var res; ghost var ds;
      res, ds := r.Process(msgs[n]);
      StepKeeps(msgs, n, handle, low, before, done, r.mseqR, r.queue, r.delivered, ds, res);
      assert msgs[..n + 1] == msgs[..n] + [msgs[n]];
    }
    assert msgs[..|msgs|] == msgs;
    forall k: nat {:trigger AllArrived(msgs, k)} | k <= 0x1_0000 && AllArrived(msgs, k)
      ensures |r.delivered| >= k
    {
      if |r.delivered| < 0x1_0000 {
        PrefixHandled(msgs, r.queue, |r.delivered|, k);
      }
    }
  }

  ghost predicate AllArrived(msgs: seq<Message>, k: nat) { forall i: nat :: i < k ==> Arrived(msgs, i) }

  // ---- two messages from the sender ----

  lemma OnlyOne(m: Message, queue: seq<Message>, ds: seq<Message>)
    requires Conserved([], m, queue, ds) && |ds| > 0
    ensures queue == [] && ds == [m]
  {
    var none: seq<Message> := [];
    assert multiset(none) + multiset{m} == multiset{m} == multiset(queue) + multiset(ds);
    assert |multiset(queue) + multiset(ds)| == |queue| + |ds| == 1;
    assert ds[0] in multiset(queue) + multiset(ds);
  }

  /** Takes the record that completes a message while nothing is stored: the message is
      handled if it has the expected number, and ignored if its number has passed. */
  method HandleLast(b: Reassembler, r: Receiver, m: seq<Octet>, ghost message: Message) returns (dangling: bool)
    requires b.Valid() && r.Valid() && r.queue == [] && r.handle(message) >= 0
    requires Next(b.State(), m).1 == Whole(message) && NumberOf(message) <= r.mseqR
    modifies b, b.data, r`mseqR, r`delivered, r`queue
    ensures b.Valid() && r.Valid() && r.queue == [] && (b.data == old(b.data) || b.data == null || fresh(b.data))
    ensures var expected := NumberOf(message) == old(r.mseqR);
            && r.delivered == old(r.delivered) + (if expected then [message] else [])
            && r.mseqR == (if expected then (old(r.mseqR) + 1) % 0x1_0000 else old(r.mseqR))
            && (dangling <==> expected && |m| >= HS_LENGTH && Fragmented(m))
  {
    hide NumberOf, Consecutive, Conserved, Results, Next, Ordered, Stored, Fragmented;
    var p, res; ghost var ds;
    p, res, dangling, ds := HandleHandshake(b, r, m);
    if NumberOf(message) == old(r.mseqR) {
      LastResult(r.handle, ds, res);
      OnlyOne(message, r.queue, ds);
    }
  }

  lemma LastResult(handle: Message -> int, ds: seq<Message>, res: int)
    requires Results(handle, ds, res)
    ensures |ds| > 0 && res == handle(ds[|ds| - 1])
  {
  }

  /** Sends a message and hands its fragments to the receiver, which has nothing stored: it
      handles exactly the message, unless the number has passed. If there were several
      fragments the handler reads it from freed memory. */
  method SendAndHandle(s: Sender, b: Reassembler, r: Receiver, t: Octet, data: seq<Octet>) returns (dangling: bool)
    requires s.Valid() && b.Valid() && r.Valid() && r.queue == [] && s.mseqS <= r.mseqR
    requires |data| <= MAX_BUF && forall m: Message :: r.handle(m) >= 0
    modifies s, b, b.data, r`mseqR, r`delivered, r`queue
    ensures s.Valid() && b.Valid() && r.Valid() && r.queue == []
    ensures b.data == old(b.data) || b.data == null || fresh(b.data)
    ensures s.mseqS == if NoLastFragment(|data|) then old(s.mseqS) else (old(s.mseqS) + 1) % 0x1_0000
    ensures var expected := old(s.mseqS == r.mseqR);
            && r.delivered == old(r.delivered) + (if expected then [Unfragmented(t, data, old(s.mseqS))] else [])
            && r.mseqR == (if expected then (old(r.mseqR) + 1) % 0x1_0000 else old(r.mseqR))
            && (dangling <==> expected && Count(|data|) > 1)
  {
    hide Header, LengthOf, NumberOf, OffsetOf, FragmentOf, Next, Fragment, After, Unfragmented;
    hide Fragments, NoLastFragment, Consecutive, Processed, Ordered, Fragmented;
    ghost var number, n := s.mseqS, Count(|data|);
    var first := |s.sent|;
    s.SendHandshake(t, data, true);
    var fragments := s.sent[first..];
    ghost var sender := s.mseqS;
    UnfragmentedNumber(t, data, number);
    FragmentsAt(t, data, number, n, 0);
    dangling := false;
    for i := 0 to |fragments|
      invariant dangling <==> i == n && number == old(r.mseqR) && n > 1
      invariant b.Valid() && r.Valid() && r.queue == [] && (b.data == old(b.data) || b.data == null || fresh(b.data))
      invariant s.mseqS == sender
      invariant 0 < i < n ==> MAX_HS_PAYLOAD * i <= |data| && b.State() == After(t, data, number, i)
      invariant i < n ==> r.delivered == old(r.delivered) && r.mseqR == old(r.mseqR)
      invariant i == n ==>
        r.delivered == old(r.delivered) + (if number == old(r.mseqR) then [Unfragmented(t, data, number)] else [])
      invariant i == n ==> r.mseqR == if number == old(r.mseqR) then (old(r.mseqR) + 1) % 0x1_0000 else old(r.mseqR)
    {
      FragmentsAt(t, data, number, n, i);
      if i > 0 {
        AfterShape(t, data, number, i);
      }
      FragmentTaken(b.State(), t, data, number, i);
      if i + 1 < |fragments| {
        var _, _, _, _ := HandleHandshake(b, r, fragments[i]);
      } else {
        FragmentedExactly(t, data, number, i);
        dangling := HandleLast(b, r, fragments[i], Unfragmented(t, data, number));
      }
    }
  }

  lemma UnfragmentedNumber(t: Octet, data: seq<Octet>, number: nat)
    requires |data| < 0x100_0000 && number < 0x1_0000
    ensures |Unfragmented(t, data, number)| >= HS_LENGTH && NumberOf(Unfragmented(t, data, number)) == number
  {
    hide Header, NumberOf;
    HeaderFields(t, |data|, number, 0, |data|, data);
  }

  /** Two messages, each sent in fragments and put together again. A payload that ends on a
      fragment boundary does not advance the sender's counter, so the receiver takes the
      message after it for an old one. Otherwise both are handled, those of several fragments
      from freed memory. */
  method TwoMessages(s: Sender, b: Reassembler, r: Receiver, t: Octet, data: seq<Octet>, t': Octet, data': seq<Octet>)
    returns (dangling: bool, dangling': bool)
    requires s.Valid() && b.Valid() && r.Valid() && r.queue == [] && r.mseqR == s.mseqS && s.mseqS < 0xFFFF
    requires |data| <= MAX_BUF && |data'| <= MAX_BUF && forall m: Message :: r.handle(m) >= 0
    modifies s, b, b.data, r`mseqR, r`delivered, r`queue
    ensures var m, number := Unfragmented(t, data, old(s.mseqS)), old(s.mseqS);
            r.delivered == old(r.delivered)
              + if NoLastFragment(|data|) then [m] else [m, Unfragmented(t', data', number + 1)]
    ensures dangling <==> Count(|data|) > 1
    ensures dangling' <==> Count(|data'|) > 1 && !NoLastFragment(|data|)
  {
    hide Unfragmented, NoLastFragment, Count;
    ghost var before, m := r.delivered, Unfragmented(t, data, s.mseqS);
    dangling := SendAndHandle(s, b, r, t, data);
    ghost var m' := Unfragmented(t', data', s.mseqS);
    dangling' := SendAndHandle(s, b, r, t', data');
    assert before + [m] + [m'] == before + [m, m'];
  }

  lemma StartConsecutive(first: nat)
    ensures Consecutive([], first)
  {
  }
}
