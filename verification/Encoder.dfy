/** The encoder object: message register, table of binomial coefficients and the list of
    selected component indices. */
module Encoder {
  import opened Numbers
  import opened Binomials
  import opened CoverFree
  import opened Unranking

  /** No limb of C(n, m) that could swallow a borrow is full. */
  ghost predicate NoFullLimb(n: nat, m: nat) {
    forall a: U256 {:trigger Val(a)} :: Val(a) == Choose(n, m) ==> a.v1 != MAXWORD && a.v2 != MAXWORD && a.v3 != MAXWORD
  }

  /** What the subtraction needs of the table. */
  ghost predicate NoFullLimbs() {
    forall n: nat, m: nat {:trigger NoFullLimb(n, m)} :: n < TOTAL && m <= PICK ==> NoFullLimb(n, m)
  }

  /** Eight bytes from index i on, the lowest first. */
  function WordOf(ms: Message, i: nat): Word
    requires i <= 24
  {
    ms[i] + 0x100 * (ms[i + 1] + 0x100 * (ms[i + 2] + 0x100 * (ms[i + 3] + 0x100 * (ms[i + 4]
      + 0x100 * (ms[i + 5] + 0x100 * (ms[i + 6] + 0x100 * ms[i + 7]))))))
  }

  lemma EightBytes(ms: Message, i: nat)
    requires i <= 24
    ensures BytesValue(ms, i) == WordOf(ms, i) + 0x1_0000_0000_0000_0000 * BytesValue(ms, i + 8)
  {
    assert BytesValue(ms, i + 6) == ms[i + 6] + 0x100 * (ms[i + 7] + 0x100 * BytesValue(ms, i + 8));
    assert BytesValue(ms, i + 4) == ms[i + 4] + 0x100 * (ms[i + 5] + 0x100 * BytesValue(ms, i + 6));
    assert BytesValue(ms, i + 2) == ms[i + 2] + 0x100 * (ms[i + 3] + 0x100 * BytesValue(ms, i + 4));
    assert BytesValue(ms, i) == ms[i] + 0x100 * (ms[i + 1] + 0x100 * BytesValue(ms, i + 2));
  }

  class CffState {
    var msg: U256
    const componentKey: array<int>
    const binoTab: array2<U256>

    constructor ()
      ensures Shape() && fresh(componentKey) && fresh(binoTab) && Zeroed(0)
    {
      msg := U256(0, 0, 0, 0, 0);
      componentKey := new int[PICK];
      binoTab := new U256[TOTAL, PICK + 1]((i, j) => U256(0, 0, 0, 0, 0));
    }

    ghost predicate Shape() {
      componentKey.Length == PICK && binoTab.Length0 == TOTAL && binoTab.Length1 == PICK + 1
    }

    // ---- the table ----

    /** Rows below n hold their binomial coefficients. */
    ghost predicate Rows(n: nat)
      reads binoTab
      requires Shape()
    {
      forall i, j {:trigger binoTab[i, j]} :: 0 <= i < n && i < TOTAL && 0 <= j <= PICK ==>
        Val(binoTab[i, j]) == Choose(i, j)
    }

    ghost predicate Zeroed(n: nat)
      reads binoTab
      requires Shape()
    {
      forall i, j {:trigger binoTab[i, j]} :: n <= i < TOTAL && 0 <= j <= PICK ==> Val(binoTab[i, j]) == 0
    }

    /** Rows from n on hold the two ones that the Pascal loops start from. */
    ghost predicate Borders(n: nat)
      reads binoTab
      requires Shape()
    {
      forall i, j {:trigger binoTab[i, j]} :: n <= i < TOTAL && 0 <= j <= PICK ==>
        Val(binoTab[i, j]) == if j == 0 || i == j then 1 else 0
    }

    /** An entry of row n from its two neighbours in the row above; it cannot overflow. */
    lemma PascalEntry(n: nat, m: nat, a: U256, b: U256)
      requires 0 < n < TOTAL && 0 < m
      requires Val(a) == Choose(n - 1, m - 1) && Val(b) == Choose(n - 1, m)
      ensures Val(Add(a, b)) == Choose(n, m)
    {
      var e := 256;
      RangeIsPow2(e);
      AddExact(a, b);
      ChooseBelowPow(n, m);
      Pow2Strict(n, e + 64);
    }

    /** Entries of a row that the Pascal loop does not reach. */
    lemma RowBorders(n: nat, j: nat)
      ensures j == 0 || j == n ==> Choose(n, j) == 1
      ensures j > n ==> Choose(n, j) == 0
    {
      if j == n {
        ChooseAll(n);
      } else if j > n {
        ChooseZero(n, j);
      }
    }

    method FillRow(n: nat, last: nat)
      requires Shape() && 0 < n < TOTAL && Rows(n) && Borders(n)
      requires last == if n <= PICK then n - 1 else PICK
      modifies binoTab
      ensures Rows(n + 1) && Borders(n + 1)
    {
      hide Choose, Low, Add;
      for m := 1 to last + 1
        invariant Rows(n) && Borders(n + 1)
        invariant forall j :: 0 < j < m ==> Val(binoTab[n, j]) == Choose(n, j)
        invariant forall j :: (j == 0 || m <= j) && j <= PICK ==>
          Val(binoTab[n, j]) == if j == 0 || n == j then 1 else 0
      {
        PascalEntry(n, m, binoTab[n - 1, m - 1], binoTab[n - 1, m]);
        binoTab[n, m] := Add(binoTab[n - 1, m - 1], binoTab[n - 1, m]);
      }
      forall j: nat | j <= PICK
        ensures Val(binoTab[n, j]) == Choose(n, j)
      {
        RowBorders(n, j);
      }
    }

    method SetBinotable()
      requires Shape() && Zeroed(0)
      modifies binoTab
      ensures Rows(TOTAL)
    {
      SetBorders();
      forall j: nat | j <= PICK
        ensures Val(binoTab[0, j]) == Choose(0, j)
      {
        RowBorders(0, j);
      }
      for n := 1 to PICK + 1
        invariant Rows(n) && Borders(n)
      {
        FillRow(n, n - 1);
      }
      for n := PICK + 1 to TOTAL
        invariant Rows(n) && Borders(n)
      {
        FillRow(n, PICK);
      }
    }

    method SetBorders()
      requires Shape() && Zeroed(0)
      modifies binoTab
      ensures Borders(0)
    {
      for n := 0 to TOTAL
        invariant forall i, j :: 0 <= i < TOTAL && 0 <= j <= PICK ==>
          Val(binoTab[i, j]) == if j == 0 && i < n then 1 else 0
      {
        binoTab[n, 0] := U256(1, 0, 0, 0, 0);
      }
      for n := 0 to PICK + 1
        invariant forall i, j :: 0 <= i < TOTAL && 0 <= j <= PICK ==>
          Val(binoTab[i, j]) == if j == 0 || (i == j && i < n) then 1 else 0
      {
        binoTab[n, n] := U256(1, 0, 0, 0, 0);
      }
    }

    // ---- the message register ----

    method ConvertU82U256(ms: Message)
      modifies this`msg
      ensures Val(msg) == BytesValue(ms, 0)
    {
      msg := U256(WordOf(ms, 0), WordOf(ms, 8), WordOf(ms, 16), WordOf(ms, 24), 0);
      EightBytes(ms, 0);
      EightBytes(ms, 8);
      EightBytes(ms, 16);
      EightBytes(ms, 24);
      assert BytesValue(ms, 32) == 0;
      hide BytesValue, WordOf;
    }

    // ---- unranking ----

    /** The table is in place. */
    ghost predicate Ready()
      reads this, binoTab
    {
      Shape() && Rows(TOTAL) && NoFullLimbs()
    }

    /** Selects the subset whose rank is the message, and uses the message up. */
    method Cff()
      requires Ready() && Val(msg) < MESSAGES
      modifies this`msg, componentKey
      ensures Finished(componentKey[..], old(Val(msg)), Val(msg))
    {
      hide Val, Low, Rows, Underway, Finished;
      ghost var rank := Val(msg);
      var q, i := 1, 1;
      StartUnranking(componentKey[..], rank);
      while i <= PICK
        invariant 1 <= i <= PICK + 1
        invariant i <= PICK ==> Underway(componentKey[..], rank, i, q, Val(msg))
        invariant i > PICK ==> Finished(componentKey[..], rank, Val(msg))
        decreases PICK + 1 - i
      {
        ghost var keys := componentKey[..];
        q := PassIndices(keys, rank, i, q);
        StoreKey(rank, i, q);
        q := q + 1;
        i := i + 1;
      }
    }

    method StoreKey(ghost rank: nat, i: nat, q: nat)
      requires Ready() && Underway(componentKey[..], rank, i, q, Val(msg)) && Val(msg) < Choose(TOTAL - q, PICK - i)
      modifies componentKey
      ensures i < PICK ==> Underway(componentKey[..], rank, i + 1, q + 1, Val(msg))
      ensures i >= PICK ==> Finished(componentKey[..], rank, Val(msg))
    {
      hide Rank, Choose, Low, Skipped;
      ghost var keys := componentKey[..];
      SelectIndex(keys, rank, i, q, Val(msg));
      componentKey[i - 1] := q - 1;
      assert componentKey[..] == keys[i - 1 := q - 1];
    }

    /** Passes over indices while the rest of the message allows. */
    method PassIndices(ghost keys: seq<int>, ghost rank: nat, i: nat, q0: nat) returns (q: nat)
      requires Ready() && Underway(keys, rank, i, q0, Val(msg))
      modifies this`msg
      ensures Underway(keys, rank, i, q, Val(msg)) && Val(msg) < Choose(TOTAL - q, PICK - i)
    {
      hide Rank, Choose, Low, Skipped;
      q := q0;
      var more := HasRank(TOTAL - q, PICK - i);
      while more
        invariant Underway(keys, rank, i, q, Val(msg))
        invariant more <==> Val(msg) >= Choose(TOTAL - q, PICK - i)
        decreases TOTAL - q
      {
        SkipIndex(keys, rank, i, q, Val(msg));
        SubEntry(TOTAL - q, PICK - i);
        q := q + 1;
        more := HasRank(TOTAL - q, PICK - i);
      }
    }

    method HasRank(n: nat, k: nat) returns (r: bool)
      requires Ready() && n < TOTAL && k <= PICK
      ensures r <==> Val(msg) >= Choose(n, k)
    {
      r := IsGteq(msg, binoTab[n, k]);
    }

    /** A table entry is subtracted without losing a borrow. */
    method SubEntry(n: nat, k: nat)
      requires Ready() && n < TOTAL && k <= PICK && Val(msg) >= Choose(n, k)
      modifies this`msg
      ensures Val(msg) == old(Val(msg)) - Choose(n, k)
    {
      assert NoFullLimb(n, k);
      SubExact(msg, binoTab[n, k]);
      msg := Sub(msg, binoTab[n, k]);
    }

    /** Encodes a message: the indices have the message as their rank. */
    method Encode(ms: Message)
      requires Ready()
      modifies this`msg, componentKey
      ensures Encodes(componentKey[..], ms)
    {
      ConvertU82U256(ms);
      BytesValueFits(ms);
      Cff();
    }
  }

  /** The keys are the subset whose rank is the message. */
  ghost predicate Encodes(keys: seq<int>, ms: Message) {
    Finished(keys, BytesValue(ms, 0), 0)
  }

  /** A message has only one encoding. */
  lemma EncodingIsUnique(ms: Message, keys: seq<int>, keys': seq<int>)
    requires Encodes(keys, ms) && Encodes(keys', ms)
    ensures keys == keys'
  {
    RankInjective(TOTAL, PICK, keys, keys', PICK);
  }

  /** Two different messages never select subsets one of which contains the other. */
  lemma DifferentMessages(ms: Message, ms': Message, keys: seq<int>, keys': seq<int>)
    requires ms != ms' && Encodes(keys, ms) && Encodes(keys', ms')
    ensures !(Elements(keys) <= Elements(keys')) && !(Elements(keys') <= Elements(keys))
  {
    if BytesValue(ms, 0) == BytesValue(ms', 0) {
      BytesValueInjective(ms, ms', 0);
    }
    CoverFreeSubsets(keys, keys', TOTAL);
    CoverFreeSubsets(keys', keys, TOTAL);
  }
}
