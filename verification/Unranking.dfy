/** The encoder: builds the table of binomial coefficients and turns a message into the
    subset of component indices of that rank in lexicographic order. */
module Unranking {
  import opened Numbers
  import opened Binomials
  import opened CoverFree

  const TOTAL: nat := 262
  const PICK: nat := 131

  /** Number of messages of 256 bits. */
  const MESSAGES: nat := 0x1_0000_0000_0000_0000_0000_0000_0000_0000_0000_0000_0000_0000_0000_0000_0000_0000

  lemma Pow2Doubles(e: nat, v: nat)
    requires Pow2(e) == v
    ensures Pow2(2 * e) == v * v
  {
    Pow2Add(e, e);
  }

  lemma RangeIsPow2(e: nat)
    requires e == 256
    ensures Pow2(e) == MESSAGES && Pow2(e + 64) == RANGE
  {
    assert Pow2(8) == 0x100;
    hide Pow2;
    Pow2Doubles(8, 0x100);
    Pow2Doubles(16, 0x1_0000);
    Pow2Doubles(32, 0x1_0000_0000);
    Pow2Doubles(64, 0x1_0000_0000_0000_0000);
    Pow2Doubles(128, 0x1_0000_0000_0000_0000_0000_0000_0000_0000);
    Pow2Add(e, 64);
  }

  // ---- ranks of subsets ----

  /** Number of choices passed over when the next index is x instead of lo and k more
      indices follow, out of t. */
  function Skipped(t: nat, lo: nat, x: nat, k: nat): nat
    requires x <= t
  {
    if x <= lo then 0 else Skipped(t, lo, x - 1, k) + Choose(t - x, k)
  }

  /** All subsets from lo on are those passed over before x and those from x on. */
  lemma {:induction false} SkippedSplits(t: nat, lo: nat, x: nat, k: nat)
    requires lo <= x <= t
    ensures Choose(t - lo, k + 1) == Skipped(t, lo, x, k) + Choose(t - x, k + 1)
  {
    if x > lo {
      SkippedSplits(t, lo, x - 1, k);
    }
  }

  lemma {:induction false} SkippedMono(t: nat, lo: nat, x: nat, y: nat, k: nat)
    requires lo <= x < y <= t
    ensures Skipped(t, lo, x, k) + Choose(t - x - 1, k) <= Skipped(t, lo, y, k)
    decreases y
  {
    if y > x + 1 {
      SkippedMono(t, lo, x, y - 1, k);
    }
  }

  /** The least index that can come after the first n ones. */
  function Next(keys: seq<int>, n: nat): int
    requires n <= |keys|
  {
    if n == 0 then 0 else keys[n - 1] + 1
  }

  /** The first n keys are strictly increasing indices below t. */
  ghost predicate Increasing(keys: seq<int>, n: nat, t: nat) {
    n <= |keys| && forall i {:trigger Next(keys, i)} :: 0 <= i < n ==> Next(keys, i) <= keys[i] < t
  }

  lemma {:induction false} NextIsNat(keys: seq<int>, n: nat, t: nat)
    requires Increasing(keys, n, t)
    ensures 0 <= Next(keys, n) <= t
  {
    if n > 0 {
      NextIsNat(keys, n - 1, t);
    }
  }

  /** Lexicographic rank, among the b-element subsets of t indices, of the least subset that
      starts with the first n keys. */
  ghost function Rank(t: nat, b: nat, keys: seq<int>, n: nat): nat
    requires Increasing(keys, n, t) && n <= b
  {
    if n == 0 then 0
    else
      NextIsNat(keys, n - 1, t);
      Rank(t, b, keys, n - 1) + Skipped(t, Next(keys, n - 1), keys[n - 1], b - n)
  }

  lemma {:induction false} RankFrame(t: nat, b: nat, keys: seq<int>, keys': seq<int>, n: nat)
    requires Increasing(keys, n, t) && n <= b && n <= |keys'|
    requires forall i :: 0 <= i < n ==> keys'[i] == keys[i]
    ensures Increasing(keys', n, t) && Rank(t, b, keys', n) == Rank(t, b, keys, n)
  {
    if n > 0 {
      RankFrame(t, b, keys, keys', n - 1);
      assert Next(keys', n - 1) == Next(keys, n - 1);
      NextIsNat(keys, n - 1, t);
    }
  }

  lemma SkippedFits(t: nat, lo: nat, x: nat, k: nat)
    requires lo <= x < t
    ensures Skipped(t, lo, x, k) + Choose(t - x - 1, k) <= Choose(t - lo, k + 1)
  {
    SkippedSplits(t, lo, x, k);
    assert Choose(t - x, k + 1) == Choose(t - x - 1, k) + Choose(t - x - 1, k + 1);
  }

  lemma RankNext(t: nat, b: nat, keys: seq<int>, n: nat)
    requires Increasing(keys, n + 1, t) && n < b
    ensures 0 <= Next(keys, n) <= keys[n] < t
    ensures Rank(t, b, keys, n + 1) == Rank(t, b, keys, n) + Skipped(t, Next(keys, n), keys[n], b - n - 1)
  {
    NextIsNat(keys, n, t);
  }

  lemma Shorter(keys: seq<int>, b: nat, t: nat, n: nat)
    requires Increasing(keys, b, t) && n <= b
    ensures Increasing(keys, n, t)
  {
    forall i {:trigger Next(keys, i)} | 0 <= i < n
      ensures Next(keys, i) <= keys[i] < t
    {
      KeyInPlace(keys, b, t, i);
    }
  }

  lemma KeyInPlace(keys: seq<int>, b: nat, t: nat, i: nat)
    requires Increasing(keys, b, t) && i < b
    ensures Next(keys, i) <= keys[i] < t
  {
  }

  /** All completions of a prefix have ranks in a window as wide as their number. */
  lemma {:induction false} RankWindow(t: nat, b: nat, keys: seq<int>, n: nat)
    requires b <= t && Increasing(keys, b, t) && n <= b
    ensures Increasing(keys, n, t) && 0 <= Next(keys, n) <= t
    ensures Rank(t, b, keys, n) <= Rank(t, b, keys, b) < Rank(t, b, keys, n) + Choose(t - Next(keys, n), b - n)
    decreases b - n
  {
    Shorter(keys, b, t, n);
    NextIsNat(keys, n, t);
    if n < b {
      hide Rank, Skipped, Choose;
      RankNext(t, b, keys, n);
      RankWindow(t, b, keys, n + 1);
      assert t - Next(keys, n + 1) == t - keys[n] - 1;
      SkippedFits(t, Next(keys, n), keys[n], b - n - 1);
    }
  }

  lemma RankAfter(t: nat, b: nat, keys: seq<int>, n: nat)
    requires b <= t && Increasing(keys, b, t) && n < b
    ensures Increasing(keys, n + 1, t) && keys[n] < t
    ensures Rank(t, b, keys, n + 1) <= Rank(t, b, keys, b)
          < Rank(t, b, keys, n + 1) + Choose(t - keys[n] - 1, b - n - 1)
  {
    hide Rank, Choose;
    RankWindow(t, b, keys, n + 1);
    assert t - Next(keys, n + 1) == t - keys[n] - 1;
  }

  /** The first key in which two subsets differ decides their order. */
  lemma FirstDifference(t: nat, b: nat, keys: seq<int>, keys': seq<int>, n: nat)
    requires b <= t && Increasing(keys, b, t) && Increasing(keys', b, t) && n < b
    requires forall i :: 0 <= i < n ==> keys[i] == keys'[i]
    requires keys[n] < keys'[n]
    ensures Rank(t, b, keys, b) < Rank(t, b, keys', b)
  {
    hide Rank, Skipped, Choose;
    RankFrame(t, b, keys, keys', n);
    RankAfter(t, b, keys, n);
    RankAfter(t, b, keys', n);
    RankNext(t, b, keys, n);
    RankNext(t, b, keys', n);
    SkippedMono(t, Next(keys, n), keys[n], keys'[n], b - n - 1);
  }

  /** The rank tells the subset. */
  lemma {:induction false} RankInjective(t: nat, b: nat, keys: seq<int>, keys': seq<int>, n: nat)
    requires b <= t && Increasing(keys, b, t) && Increasing(keys', b, t) && n <= b
    requires Rank(t, b, keys, b) == Rank(t, b, keys', b)
    ensures forall i :: 0 <= i < n ==> keys[i] == keys'[i]
  {
    if n > 0 {
      RankInjective(t, b, keys, keys', n - 1);
      SameKey(t, b, keys, keys', n - 1);
    }
  }

  lemma SameKey(t: nat, b: nat, keys: seq<int>, keys': seq<int>, n: nat)
    requires b <= t && Increasing(keys, b, t) && Increasing(keys', b, t) && n < b
    requires Rank(t, b, keys, b) == Rank(t, b, keys', b)
    requires forall i :: 0 <= i < n ==> keys[i] == keys'[i]
    ensures keys[n] == keys'[n]
  {
    hide Rank;
    if keys[n] < keys'[n] {
      FirstDifference(t, b, keys, keys', n);
    } else if keys'[n] < keys[n] {
      FirstDifference(t, b, keys', keys, n);
    }
  }

  // ---- the cover-free property ----

  function ElementsTo(keys: seq<int>, n: nat): set<int>
    requires n <= |keys|
  {
    set i | 0 <= i < n :: keys[i]
  }

  function Elements(keys: seq<int>): set<int> { ElementsTo(keys, |keys|) }

  lemma {:induction false} StrictlyIncreasing(keys: seq<int>, n: nat, t: nat, i: nat, j: nat)
    requires Increasing(keys, n, t) && i < j < n
    ensures keys[i] < keys[j]
    decreases j
  {
    if i + 1 < j {
      StrictlyIncreasing(keys, n, t, i, j - 1);
    }
    assert Next(keys, j) <= keys[j];
  }

  lemma {:induction false} ElementCount(keys: seq<int>, t: nat, n: nat)
    requires Increasing(keys, n, t)
    ensures |ElementsTo(keys, n)| == n
  {
    if n > 0 {
      ElementCount(keys, t, n - 1);
      assert keys[n - 1] !in ElementsTo(keys, n - 1) by {
        forall i | 0 <= i < n - 1
          ensures keys[i] != keys[n - 1]
        {
          StrictlyIncreasing(keys, n, t, i, n - 1);
        }
      }
      assert ElementsTo(keys, n) == ElementsTo(keys, n - 1) + {keys[n - 1]};
    }
  }

  /** Increasing sequences of the same elements are the same. */
  lemma {:induction false} SameElements(keys: seq<int>, keys': seq<int>, t: nat, n: nat)
    requires |keys| == |keys'| && Increasing(keys, |keys|, t) && Increasing(keys', |keys|, t)
    requires Elements(keys) == Elements(keys') && n <= |keys|
    ensures forall i :: 0 <= i < n ==> keys[i] == keys'[i]
  {
    if n > 0 {
      SameElements(keys, keys', t, n - 1);
      NotSmaller(keys, keys', t, n - 1);
      NotSmaller(keys', keys, t, n - 1);
    }
  }

  lemma NotSmaller(keys: seq<int>, keys': seq<int>, t: nat, n: nat)
    requires |keys| == |keys'| && Increasing(keys, |keys|, t) && Increasing(keys', |keys|, t)
    requires Elements(keys) == Elements(keys') && n < |keys|
    requires forall i :: 0 <= i < n ==> keys[i] == keys'[i]
    ensures keys[n] <= keys'[n]
  {
    assert keys'[n] in Elements(keys);
    var j :| 0 <= j < |keys| && keys[j] == keys'[n];
    if j < n {
      StrictlyIncreasing(keys', |keys|, t, j, n);
    } else if j > n {
      StrictlyIncreasing(keys, |keys|, t, n, j);
    }
  }

  /** Subsets of different rank do not contain each other. */
  lemma CoverFreeSubsets(keys: seq<int>, keys': seq<int>, t: nat)
    requires |keys| == |keys'| && Increasing(keys, |keys|, t) && Increasing(keys', |keys|, t)
    requires Rank(t, |keys|, keys, |keys|) != Rank(t, |keys|, keys', |keys|)
    ensures !(Elements(keys) <= Elements(keys'))
  {
    if Elements(keys) <= Elements(keys') {
      ElementCount(keys, t, |keys|);
      ElementCount(keys', t, |keys'|);
      SubsetOfSameSize(Elements(keys), Elements(keys'));
      SameElements(keys, keys', t, |keys|);
      RankFrame(t, |keys|, keys, keys', |keys|);
    }
  }

  lemma SubsetOfSameSize(a: set<int>, b: set<int>)
    requires a <= b && |a| == |b|
    ensures a == b
  {
    assert b == a + (b - a);
    assert |b| == |a| + |b - a|;
  }

  // ---- finding the subset of a rank ----

  /** After i - 1 keys and with index q - 1 under test: what was passed over and the rest
      make up the rank, and the rest is below the number of subsets still possible. */
  ghost predicate Underway(keys: seq<int>, rank: nat, i: nat, q: nat, rest: nat) {
    && |keys| == PICK && 1 <= i <= PICK && 1 <= q <= TOTAL
    && Increasing(keys, i - 1, TOTAL) && 0 <= Next(keys, i - 1) <= q - 1
    && Rank(TOTAL, PICK, keys, i - 1) + Skipped(TOTAL, Next(keys, i - 1), q - 1, PICK - i) + rest == rank
    && rest < Choose(TOTAL - q + 1, PICK - i + 1)
  }

  /** All keys are selected: they have the given rank, and nothing is left of it. */
  ghost predicate Finished(keys: seq<int>, rank: nat, rest: nat) {
    |keys| == PICK && Increasing(keys, PICK, TOTAL) && Rank(TOTAL, PICK, keys, PICK) == rank && rest == 0
  }

  lemma PassOver(n: nat, k: nat)
    ensures Choose(n + 1, k + 1) == Choose(n, k) + Choose(n, k + 1)
    ensures Choose(n, k + 1) > 0 ==> n > k
  {
    ChoosePositive(n, k + 1);
  }

  lemma SkippedNext(t: nat, lo: nat, x: nat, k: nat)
    requires lo <= x < t
    ensures Skipped(t, lo, x + 1, k) == Skipped(t, lo, x, k) + Choose(t - x - 1, k)
  {
  }

  lemma StartUnranking(keys: seq<int>, rank: nat)
    requires |keys| == PICK && rank < MESSAGES
    ensures Underway(keys, rank, 1, 1, rank)
  {
    var n, e := PICK, 256;
    RangeIsPow2(e);
    EnoughSubsets(n, e);
    hide Choose, Pow2;
    assert 2 * n == TOTAL;
  }

  /** Passing over index q - 1 takes the number of subsets that use it off the rest. */
  lemma SkipIndex(keys: seq<int>, rank: nat, i: nat, q: nat, rest: nat)
    requires Underway(keys, rank, i, q, rest) && rest >= Choose(TOTAL - q, PICK - i)
    ensures Underway(keys, rank, i, q + 1, rest - Choose(TOTAL - q, PICK - i))
  {
    PassOver(TOTAL - q, PICK - i);
    SkippedNext(TOTAL, Next(keys, i - 1), q - 1, PICK - i);
    hide Rank, Choose, Skipped;
    assert TOTAL - (q - 1) - 1 == TOTAL - q;
  }

  /** Selecting index q - 1 makes it key i; after the last key nothing is left. */
  lemma SelectIndex(keys: seq<int>, rank: nat, i: nat, q: nat, rest: nat)
    requires Underway(keys, rank, i, q, rest) && rest < Choose(TOTAL - q, PICK - i)
    ensures var keys' := keys[i - 1 := q - 1];
            if i < PICK then Underway(keys', rank, i + 1, q + 1, rest)
            else Finished(keys', rank, rest)
  {
    var keys' := keys[i - 1 := q - 1];
    OneMoreKey(keys, i - 1, q - 1, TOTAL);
    RankFrame(TOTAL, PICK, keys, keys', i - 1);
    ChoosePositive(TOTAL - q, PICK - i);
    RankNext(TOTAL, PICK, keys', i - 1);
    SkippedNothing(TOTAL, q, PICK - i);
  }

  lemma OneMoreKey(keys: seq<int>, n: nat, x: int, t: nat)
    requires Increasing(keys, n, t) && n < |keys| && Next(keys, n) <= x < t
    ensures var keys' := keys[n := x];
            Increasing(keys', n + 1, t) && Next(keys', n) == Next(keys, n) && Next(keys', n + 1) == x + 1
  {
    var keys' := keys[n := x];
    forall j {:trigger Next(keys', j)} | 0 <= j <= n
      ensures Next(keys', j) == Next(keys, j)
    {
    }
  }

  lemma SkippedNothing(t: nat, x: nat, k: nat)
    requires x <= t
    ensures Skipped(t, x, x, if k > 0 then k - 1 else 0) == 0
    ensures Choose(t, 0) == 1
  {
  }

  // ---- messages as numbers ----

  type Message = m: seq<int> | |m| == 32 && forall i :: 0 <= i < |m| ==> 0 <= m[i] < 256 witness seq(32, _ => 0)

  /** Little-endian value of the bytes from index i on. */
  function BytesValue(ms: Message, i: nat): nat
    requires i <= 32
    decreases 32 - i
  {
    if i == 32 then 0 else ms[i] + 0x100 * BytesValue(ms, i + 1)
  }

  lemma {:induction false} BytesValueRange(ms: Message, i: nat)
    requires i <= 32
    ensures BytesValue(ms, i) < Pow2(8 * (32 - i))
    decreases 32 - i
  {
    if i < 32 {
      hide Pow2;
      BytesValueRange(ms, i + 1);
      Pow2Byte(8 * (31 - i));
      assert 8 * (32 - i) == 8 * (31 - i) + 8;
    }
  }

  lemma Pow2Byte(n: nat)
    ensures Pow2(n + 8) == 256 * Pow2(n)
  {
    Pow2Add(8, n);
    assert Pow2(8) == 256;
  }

  lemma BytesValueFits(ms: Message)
    ensures BytesValue(ms, 0) < MESSAGES
  {
    var e := 256;
    RangeIsPow2(e);
    BytesValueRange(ms, 0);
    hide Pow2, BytesValue;
    assert e == 8 * (32 - 0);
  }

  /** Different messages have different values. */
  lemma {:induction false} BytesValueInjective(ms: Message, ms': Message, i: nat)
    requires i <= 32 && BytesValue(ms, i) == BytesValue(ms', i)
    ensures forall j :: i <= j < 32 ==> ms[j] == ms'[j]
    decreases 32 - i
  {
    if i < 32 {
      LowByte(ms[i], BytesValue(ms, i + 1), ms'[i], BytesValue(ms', i + 1));
      BytesValueInjective(ms, ms', i + 1);
    }
  }

  /** Byte j has the weight of 256 to the power j: changing it changes the number by the
      difference times the weight. */
  lemma {:induction false} OneByteChanged(ms: Message, i: nat, j: nat, v: nat)
    requires i <= j < 32 && v < 256
    ensures BytesValue(ms[j := v], i) - BytesValue(ms, i) == (v - ms[j]) * Pow2(8 * (j - i))
    decreases 32 - i
  {
    var ms' := ms[j := v];
    if i == j {
      SameAbove(ms, ms', j + 1);
      assert (v - ms[j]) * Pow2(0) == v - ms[j];
    } else {
      OneByteChanged(ms, i + 1, j, v);
      NextWeight(v - ms[j], j - i - 1);
    }
  }

  lemma NextWeight(d: int, e: nat)
    ensures 256 * (d * Pow2(8 * e)) == d * Pow2(8 * (e + 1))
  {
    Pow2Add(8, 8 * e);
    assert Pow2(8) == 256;
    MulAssoc(d, 256, Pow2(8 * e));
  }

  lemma {:induction false} SameAbove(ms: Message, ms': Message, i: nat)
    requires i <= 32 && forall k :: i <= k < 32 ==> ms[k] == ms'[k]
    ensures BytesValue(ms, i) == BytesValue(ms', i)
    decreases 32 - i
  {
    if i < 32 {
      SameAbove(ms, ms', i + 1);
    }
  }

  lemma LowByte(b: int, v: int, b': int, v': int)
    requires 0 <= b < 256 && 0 <= b' < 256 && b + 0x100 * v == b' + 0x100 * v'
    ensures b == b' && v == v'
  {
  }
}
