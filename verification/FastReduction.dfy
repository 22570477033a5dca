/** Reduction modulo the field prime by sums and differences of rearranged limbs. */
module FastReduction {
  import opened Numbers
  import opened Limbs
  import opened Field

  const PRIME_M: seq<Limb> :=
    [0xFFFFFFFF, 0xFFFFFFFF, 0xFFFFFFFF, 0x00000000, 0x00000000, 0x00000000, 0x00000001, 0xFFFFFFFF]
  const PRIME_R: seq<Limb> :=
    [0x00000001, 0x00000000, 0x00000000, 0xFFFFFFFF, 0xFFFFFFFF, 0xFFFFFFFF, 0xFFFFFFFE, 0x00000000]

  const P: nat := 0xffffffff_00000001_00000000_00000000_00000000_ffffffff_ffffffff_ffffffff

  lemma PrimeTables()
    ensures Num(PRIME_M, 0, WORDS) == P && Num(PRIME_R, 0, WORDS) == Base(WORDS) - P
    ensures P < Base(WORDS) < 2 * P
    ensures P == Base(8) - Base(7) + Base(6) + Base(3) - 1
  {
    EightLimbs(PRIME_M);
    EightLimbs(PRIME_R);
    SmallBases();
  }

  type Wide = b: seq<Limb> | |b| == 16 witness seq(16, _ => 0)

  // ---- the terms ----

  /** The k-th of the ten terms: S1, S1, S2, S2, S3 and S4 are added, D1 to D4 are subtracted. */
  function Term(b: Wide, k: nat): (t: seq<Limb>)
    ensures |t| == 8
  {
    if k < 2 then [0, 0, 0, b[11], b[12], b[13], b[14], b[15]]
    else if k < 4 then [0, 0, 0, b[12], b[13], b[14], b[15], 0]
    else if k == 4 then [b[8], b[9], b[10], 0, 0, 0, b[14], b[15]]
    else if k == 5 then [b[9], b[10], b[11], b[13], b[14], b[15], b[13], b[8]]
    else if k == 6 then [b[11], b[12], b[13], 0, 0, 0, b[8], b[10]]
    else if k == 7 then [b[12], b[13], b[14], b[15], 0, 0, b[9], b[11]]
    else if k == 8 then [b[13], b[14], b[15], b[8], b[9], b[10], 0, b[12]]
    else [b[14], b[15], 0, b[9], b[10], b[11], 0, b[13]]
  }

  function TermValue(b: Wide, k: nat): nat { Num(Term(b, k), 0, WORDS) }

  /** The running value after k terms, as the field operations leave it. */
  function Running(b: Wide, k: nat): nat {
    if k == 0 then Num(b, 0, WORDS)
    else if k <= 6 then FieldSum(Running(b, k - 1), TermValue(b, k - 1), Base(WORDS) - P)
    else FieldDifference(Running(b, k - 1), TermValue(b, k - 1), P)
  }

  /** Lost carries less lost borrows in the first k operations: an addition whose sum reaches
      2^256 + p loses its second carry, a subtraction that p does not repay loses a borrow. */
  function Lost(b: Wide, k: nat): int {
    if k == 0 then 0
    else if k <= 6 then Lost(b, k - 1) + (if Running(b, k - 1) + TermValue(b, k - 1) >= Base(WORDS) + P then 1 else 0)
    else Lost(b, k - 1) - (if Running(b, k - 1) + P < TermValue(b, k - 1) then 1 else 0)
  }

  /** The sum of the first k terms over the integers. */
  function Exact(b: Wide, k: nat): int {
    if k == 0 then Num(b, 0, WORDS)
    else if k <= 6 then Exact(b, k - 1) + TermValue(b, k - 1)
    else Exact(b, k - 1) - TermValue(b, k - 1)
  }

  lemma TermFits(b: Wide, k: nat)
    ensures TermValue(b, k) < Base(WORDS)
  {
    NumFits(Term(b, k), 0, WORDS);
  }

  lemma SumStep(x: nat, y: nat, p: nat, w: nat)
    requires w == Base(WORDS) && 0 < p <= w && x < w && y < w
    ensures FieldSum(x, y, w - p) < w
    ensures FieldSum(x, y, w - p) == x + y - (if x + y >= w then p else 0) - (if x + y >= w + p then w else 0)
  {
    hide Base;
    if x + y >= w {
      DivModUnique(x + y - w + (w - p), w, if x + y >= w + p then 1 else 0,
                   x + y - p - (if x + y >= w + p then w else 0));
    }
  }

  lemma DifferenceStep(x: nat, y: nat, p: nat, w: nat)
    requires w == Base(WORDS) && 0 < p <= w && x < w && y < w
    ensures FieldDifference(x, y, p) < w
    ensures FieldDifference(x, y, p) == x - y + (if x < y then p else 0) + (if x + p < y then w else 0)
  {
    hide Base;
    if x < y {
      DivModUnique(x - y + w + p, w, if x + p < y then 0 else 1, x - y + p + (if x + p < y then w else 0));
    }
  }

  lemma SumFold(x: nat, y: nat, e: int, d: int, l: int, p: nat, w: nat)
    requires w == Base(WORDS) && 0 < p <= w && x < w && y < w && x == e + d * p - l * w
    ensures FieldSum(x, y, w - p) < w
    ensures FieldSum(x, y, w - p)
         == e + y + (if x + y >= w then d - 1 else d) * p - (if x + y >= w + p then l + 1 else l) * w
  {
    SumStep(x, y, p, w);
    hide Base, FieldSum;
    Regroup(d, d - 1, p);
    Regroup(l, l + 1, w);
  }

  lemma DifferenceFold(x: nat, y: nat, e: int, d: int, l: int, p: nat, w: nat)
    requires w == Base(WORDS) && 0 < p <= w && x < w && y < w && x == e + d * p - l * w
    ensures FieldDifference(x, y, p) < w
    ensures FieldDifference(x, y, p)
         == e - y + (if x < y then d + 1 else d) * p - (if x + p < y then l - 1 else l) * w
  {
    DifferenceStep(x, y, p, w);
    hide Base, FieldDifference;
    Regroup(d, d + 1, p);
    Regroup(l, l - 1, w);
  }

  /** The running value differs from the exact sum by multiples of p, apart from what is lost. */
  lemma {:induction false} RunningValue(b: Wide, k: nat) returns (c: int)
    ensures Running(b, k) < Base(WORDS)
    ensures Running(b, k) == Exact(b, k) + c * P - Lost(b, k) * Base(WORDS)
  {
    hide Base, FieldSum, FieldDifference, TermValue;
    PrimeTables();
    if k == 0 {
      NumFits(b, 0, WORDS);
      c := 0;
    } else {
      var d := RunningValue(b, k - 1);
      TermFits(b, k - 1);
      var x, y, w := Running(b, k - 1), TermValue(b, k - 1), Base(WORDS);
      if k <= 6 {
        SumFold(x, y, Exact(b, k - 1), d, Lost(b, k - 1), P, w);
        c := if x + y >= w then d - 1 else d;
      } else {
        DifferenceFold(x, y, Exact(b, k - 1), d, Lost(b, k - 1), P, w);
        c := if x < y then d + 1 else d;
      }
    }
  }

  lemma Regroup(d: int, c: int, p: int)
    ensures c * p == d * p + (c - d) * p
  {
  }

  // ---- the terms are the upper half modulo p ----

  /** 2^(32 i) less its weight in the terms, divided by p, for i from 8 to 15. */
  function Cofactor(b: Wide): nat {
    b[8] as int * 0x1
    + b[9] as int * 0x1_00000001
    + b[10] as int * 0x1_00000001_00000000
    + b[11] as int * 0x1_00000000_FFFFFFFF_FFFFFFFF
    + b[12] as int * 0x1_00000000_FFFFFFFF_FFFFFFFE_FFFFFFFF
    + b[13] as int * 0x1_00000000_FFFFFFFF_FFFFFFFE_FFFFFFFE_FFFFFFFF
    + b[14] as int * 0x1_00000000_FFFFFFFF_FFFFFFFE_FFFFFFFE_FFFFFFFE_FFFFFFFF
    + b[15] as int * 0x1_00000000_FFFFFFFF_FFFFFFFE_FFFFFFFE_FFFFFFFE_FFFFFFFF_00000000
  }

  function UpperHalf(b: Wide): nat {
    b[8] as int
    + b[9] as int * 0x1_00000000
    + b[10] as int * 0x1_00000000_00000000
    + b[11] as int * 0x1_00000000_00000000_00000000
    + b[12] as int * 0x1_00000000_00000000_00000000_00000000
    + b[13] as int * 0x1_00000000_00000000_00000000_00000000_00000000
    + b[14] as int * 0x1_00000000_00000000_00000000_00000000_00000000_00000000
    + b[15] as int * 0x1_00000000_00000000_00000000_00000000_00000000_00000000_00000000
  }

  lemma SixteenLimbs(b: Wide)
    ensures Num(b, 0, 2 * WORDS) == Num(b, 0, WORDS)
      + 0x1_00000000_00000000_00000000_00000000_00000000_00000000_00000000_00000000 * UpperHalf(b)
  {
    NumSplit(b, 0, WORDS, WORDS);
    SmallBases();
    var t := [b[8], b[9], b[10], b[11], b[12], b[13], b[14], b[15]];
    NumShift(b, t, WORDS, WORDS);
    EightLimbs(t);
  }

  /** Appendix D.2.3 of FIPS 186-4: the sum of the terms is the number modulo p. */
  lemma TermsAreCongruent(b: Wide)
    ensures Num(b, 0, 2 * WORDS) == Exact(b, 10)
      + 0xFFFFFFFF_00000001_00000000_00000000_00000000_FFFFFFFF_FFFFFFFF_FFFFFFFF * Cofactor(b)
  {
    SixteenLimbs(b);
    DoubledTerms(b);
    AddedTerms(b);
    SubtractedTerms(b);
  }

  lemma EightValues(t: seq<Limb>, x0: int, x1: int, x2: int, x3: int, x4: int, x5: int, x6: int, x7: int)
    requires |t| == 8 && t[0] == x0 && t[1] == x1 && t[2] == x2 && t[3] == x3
    requires t[4] == x4 && t[5] == x5 && t[6] == x6 && t[7] == x7
    ensures Num(t, 0, WORDS)
         == x0 + x1 * 0x1_00000000 + x2 * 0x1_00000000_00000000 + x3 * 0x1_00000000_00000000_00000000
          + x4 * 0x1_00000000_00000000_00000000_00000000
          + x5 * 0x1_00000000_00000000_00000000_00000000_00000000
          + x6 * 0x1_00000000_00000000_00000000_00000000_00000000_00000000
          + x7 * 0x1_00000000_00000000_00000000_00000000_00000000_00000000_00000000
  {
    EightLimbs(t);
  }

  /** What S1 and S2, taken twice, weigh limb by limb; then S3 and S4, then D1 to D4. */
  function Doubled(b: Wide): nat {
    b[11] as int * 0x2_00000000_00000000_00000000
    + b[12] as int * 0x2_00000002_00000000_00000000_00000000
    + b[13] as int * 0x2_00000002_00000000_00000000_00000000_00000000
    + b[14] as int * 0x2_00000002_00000000_00000000_00000000_00000000_00000000
    + b[15] as int * 0x2_00000002_00000000_00000000_00000000_00000000_00000000_00000000
  }

  function Added(b: Wide): nat {
    b[8] as int * 0x1_00000000_00000000_00000000_00000000_00000000_00000000_00000001
    + b[9] as int * 0x1_00000001
    + b[10] as int * 0x1_00000001_00000000
    + b[11] as int * 0x1_00000000_00000000
    + b[13] as int * 0x1_00000000_00000000_00000001_00000000_00000000_00000000
    + b[14] as int * 0x1_00000000_00000001_00000000_00000000_00000000_00000000
    + b[15] as int * 0x1_00000000_00000001_00000000_00000000_00000000_00000000_00000000
  }

  function Subtracted(b: Wide): nat {
    b[8] as int * 0x1_00000000_00000000_00000001_00000000_00000000_00000000
    + b[9] as int * 0x1_00000000_00000001_00000001_00000000_00000000_00000000
    + b[10] as int * 0x1_00000000_00000001_00000001_00000000_00000000_00000000_00000000
    + b[11] as int * 0x1_00000000_00000001_00000000_00000000_00000000_00000000_00000001
    + b[12] as int * 0x1_00000000_00000000_00000000_00000000_00000000_00000001_00000001
    + b[13] as int * 0x1_00000000_00000000_00000000_00000000_00000001_00000001_00000001
    + b[14] as int * 0x1_00000001_00000001
    + b[15] as int * 0x1_00000001_00000001_00000000
  }

  lemma DoubledTerms(b: Wide)
    ensures Exact(b, 4) == Num(b, 0, WORDS) + Doubled(b)
  {
    hide Num, Base;
    EightValues(Term(b, 0), 0, 0, 0, b[11], b[12], b[13], b[14], b[15]);
    EightValues(Term(b, 2), 0, 0, 0, b[12], b[13], b[14], b[15], 0);
    assert Exact(b, 1) == Num(b, 0, WORDS) + TermValue(b, 0);
    assert Exact(b, 3) == Exact(b, 1) + TermValue(b, 0) + TermValue(b, 2);
  }

  lemma AddedTerms(b: Wide)
    ensures Exact(b, 6) == Exact(b, 4) + Added(b)
  {
    hide Num, Base;
    EightValues(Term(b, 4), b[8], b[9], b[10], 0, 0, 0, b[14], b[15]);
    EightValues(Term(b, 5), b[9], b[10], b[11], b[13], b[14], b[15], b[13], b[8]);
    assert Exact(b, 5) == Exact(b, 4) + TermValue(b, 4);
  }

  lemma SubtractedTerms(b: Wide)
    ensures Exact(b, 10) == Exact(b, 6) - Subtracted(b)
  {
    hide Num, Base;
    EightValues(Term(b, 6), b[11], b[12], b[13], 0, 0, 0, b[8], b[10]);
    EightValues(Term(b, 7), b[12], b[13], b[14], b[15], 0, 0, b[9], b[11]);
    EightValues(Term(b, 8), b[13], b[14], b[15], b[8], b[9], b[10], 0, b[12]);
    EightValues(Term(b, 9), b[14], b[15], 0, b[9], b[10], b[11], 0, b[13]);
    assert Exact(b, 8) == Exact(b, 6) - TermValue(b, 6) - TermValue(b, 7);
    assert Exact(b, 10) == Exact(b, 8) - TermValue(b, 8) - TermValue(b, 9);
  }

  // ---- when the reduction is right ----

  /** What the reduction stores. */
  function Reduced(b: Wide): nat {
    if Running(b, 10) >= P then FieldDifference(Running(b, 10), P, P) else Running(b, 10)
  }

  lemma {:induction false} LostAtMost(b: Wide, k: nat)
    ensures -(k as int) <= Lost(b, k) <= k
  {
    hide Running, TermValue;
    if k > 0 {
      LostAtMost(b, k - 1);
    }
  }

  /** A few multiples of 2^256 other than zero are never multiples of p. */
  lemma LossShows(x: int, l: int)
    requires -10 <= l <= 10
    ensures (x + l * Base(WORDS)) % P == x % P <==> l == 0
  {
    SmallBases();
    var r := Base(WORDS) - P;
    assert 0 < 10 * r < P;
    var q := x / P;
    if l != 0 && (x + l * Base(WORDS)) % P == x % P {
      var d := (x + l * Base(WORDS)) / P - q;
      assert l * Base(WORDS) == d * P;
      Regroup(l, d, P);
      assert l * r == (d - l) * P;
      SmallMultiple(l * r, d - l, P);
    }
  }

  lemma SmallMultiple(x: int, d: int, p: int)
    requires x == d * p && -p < x < p
    ensures x == 0
  {
    if d > 0 {
      MulMono(1, d, p);
    } else if d < 0 {
      MulMono(d, -1, p);
    }
  }

  /** The reduction is right if and only if as many borrows are lost as carries. */
  lemma ReductionIsExact(b: Wide)
    ensures Reduced(b) < P
    ensures Reduced(b) == Num(b, 0, 2 * WORDS) % P <==> Lost(b, 10) == 0
  {
    PrimeTables();
    var c := RunningValue(b, 10);
    TermsAreCongruent(b);
    LostAtMost(b, 10);
    var v, l := Running(b, 10), Lost(b, 10);
    ResidueOfRunning(v, Num(b, 0, 2 * WORDS), c - Cofactor(b), l);
    hide Num, Base, Running, Lost, Cofactor, Exact;
    DivModUnique(v, P, if v >= P then 1 else 0, Reduced(b));
  }

  lemma ResidueOfRunning(v: int, n: int, c: int, l: int)
    requires v == n + c * P - l * Base(WORDS) && -10 <= l <= 10
    ensures v % P == n % P <==> l == 0
  {
    hide Base;
    LossShows(v, l);
    DivModUnique(n, P, (v + l * Base(WORDS)) / P - c, (v + l * Base(WORDS)) % P);
  }

  /** A number whose top limb is not all ones is below p, and so is one whose second limb is 0. */
  lemma BelowPrime(t: seq<Limb>)
    requires |t| == 8 && (t[7] < 0xFFFF_FFFF || t[6] == 0)
    ensures Num(t, 0, WORDS) < P
  {
    EightLimbs(t);
  }

  lemma NoTermReachesPrime(b: Wide, k: nat)
    requires k < 10 && b[8] < 0xFFFF_FFFF && b[10] < 0xFFFF_FFFF && b[11] < 0xFFFF_FFFF && b[15] < 0xFFFF_FFFF
    ensures TermValue(b, k) < P
  {
    BelowPrime(Term(b, k));
  }

  /** Terms below p lose nothing: with limbs 8, 10, 11 and 15 below 2^32 - 1 the result is
      the number modulo p. */
  lemma {:induction false} NothingLost(b: Wide, k: nat)
    requires k <= 10 && b[8] < 0xFFFF_FFFF && b[10] < 0xFFFF_FFFF && b[11] < 0xFFFF_FFFF && b[15] < 0xFFFF_FFFF
    ensures Lost(b, k) == 0
  {
    if k > 0 {
      hide TermValue, Base, FieldSum, FieldDifference;
      NothingLost(b, k - 1);
      NoTermReachesPrime(b, k - 1);
      var c := RunningValue(b, k - 1);
    }
  }

  /** The upper limbs of the product 2^223 * (2^225 - 2^193 + 2^65 - 1). */
  ghost predicate Wrong(b: Wide) {
    && b[0] == 0 && b[1] == 0 && b[2] == 0 && b[3] == 0 && b[4] == 0 && b[5] == 0 && b[6] == 0x8000_0000
    && b[7] == 0xFFFF_FFFF && b[8] == 0xFFFF_FFFF && b[9] == 0 && b[10] == 0 && b[11] == 0 && b[12] == 0
    && b[13] == 0xFFFF_FFFF && b[14] == 0 && b[15] == 0
  }

  lemma WrongTerms(b: Wide)
    requires Wrong(b)
    ensures Num(b, 0, WORDS) == 0xFFFFFFFF_80000000_00000000_00000000_00000000_00000000_00000000_00000000
    ensures TermValue(b, 0) == TermValue(b, 1) == 0xFFFFFFFF_00000000_00000000_00000000_00000000_00000000
    ensures TermValue(b, 2) == TermValue(b, 3) == 0xFFFFFFFF_00000000_00000000_00000000_00000000
  {
    hide Num;
    WrongLowHalf(b);
    EightValues(Term(b, 0), 0, 0, 0, 0, 0, 0xFFFF_FFFF, 0, 0);
    EightValues(Term(b, 2), 0, 0, 0, 0, 0xFFFF_FFFF, 0, 0, 0);
  }

  lemma WrongLowHalf(b: Wide)
    requires Wrong(b)
    ensures Num(b, 0, WORDS) == 0xFFFFFFFF_80000000_00000000_00000000_00000000_00000000_00000000_00000000
  {
    hide Num;
    EightLimbs(b);
  }

  lemma WrongLastTerms(b: Wide)
    requires Wrong(b)
    ensures TermValue(b, 4) == 0xFFFF_FFFF
    ensures TermValue(b, 5) == 0xFFFFFFFF_FFFFFFFF_00000000_00000000_FFFFFFFF_00000000_00000000_00000000
  {
    hide Num;
    EightValues(Term(b, 4), 0xFFFF_FFFF, 0, 0, 0, 0, 0, 0, 0);
    EightValues(Term(b, 5), 0, 0, 0, 0xFFFF_FFFF, 0, 0, 0xFFFF_FFFF, 0xFFFF_FFFF);
  }

  /** None of the first five additions carries, the sixth loses its second carry. */
  lemma WrongLoses(b: Wide)
    requires Wrong(b)
    ensures Lost(b, 6) == 1
  {
    SmallBases();
    WrongTerms(b);
    WrongLastTerms(b);
    hide TermValue, Num, Base, Term;
    assert Running(b, 1) == 0xFFFFFFFF_80000000_FFFFFFFF_00000000_00000000_00000000_00000000_00000000
        && Lost(b, 1) == 0;
    assert Running(b, 2) == 0xFFFFFFFF_80000001_FFFFFFFE_00000000_00000000_00000000_00000000_00000000
        && Lost(b, 2) == 0;
    assert Running(b, 3) == 0xFFFFFFFF_80000001_FFFFFFFE_FFFFFFFF_00000000_00000000_00000000_00000000
        && Lost(b, 3) == 0;
    assert Running(b, 4) == 0xFFFFFFFF_80000001_FFFFFFFF_FFFFFFFE_00000000_00000000_00000000_00000000
        && Lost(b, 4) == 0;
    assert Running(b, 5) == 0xFFFFFFFF_80000001_FFFFFFFF_FFFFFFFE_00000000_00000000_00000000_FFFFFFFF
        && Lost(b, 5) == 0;
  }

  lemma WrongIsNotBorrowed(b: Wide, k: nat)
    requires Wrong(b) && 6 <= k < 10
    ensures TermValue(b, k) < P
  {
    hide Num;
    BelowPrime(Term(b, k));
  }

  lemma {:induction false} WrongStaysLost(b: Wide, k: nat)
    requires Wrong(b) && 6 <= k <= 10
    ensures Lost(b, k) == 1
  {
    hide Num, Base, TermValue, Running, Wrong;
    WrongLoses(b);
    if k > 6 {
      WrongStaysLost(b, k - 1);
      WrongIsNotBorrowed(b, k - 1);
    }
  }

  lemma WrongValue(b: Wide)
    requires Wrong(b)
    ensures Num(b, 0, 2 * WORDS)
         == 0x80000000_00000000_00000000_00000000_00000000_00000000_00000000
          * 0x1_FFFFFFFE_00000000_00000000_00000000_00000001_FFFFFFFF_FFFFFFFF
  {
    hide Num;
    SixteenLimbs(b);
    WrongLowHalf(b);
  }

  /** Two field elements whose product is reduced wrongly. */
  lemma ProductReducedWrongly() returns (x: nat, y: nat, b: Wide)
    ensures x < P && y < P && Num(b, 0, 2 * WORDS) == x * y && Reduced(b) != x * y % P
  {
    hide Num, Reduced;
    x := 0x80000000_00000000_00000000_00000000_00000000_00000000_00000000;
    y := 0x1_FFFFFFFE_00000000_00000000_00000000_00000001_FFFFFFFF_FFFFFFFF;
    b := [0, 0, 0, 0, 0, 0, 0x8000_0000, 0xFFFF_FFFF, 0xFFFF_FFFF, 0, 0, 0, 0, 0xFFFF_FFFF, 0, 0];
    WrongValue(b);
    WrongStaysLost(b, 10);
    ReductionIsExact(b);
  }

  // ---- the method ----

  method Fill(t: array<Limb>, from: nat, to: nat, b: array<Limb>, shift: nat)
    requires from <= to <= t.Length && to + shift <= b.Length && t != b
    modifies t
    ensures forall i :: from <= i < to ==> t[i] == b[i + shift]
    ensures forall i :: 0 <= i < t.Length && !(from <= i < to) ==> t[i] == old(t[i])
  {
    for n := from to to
      invariant forall i :: from <= i < n ==> t[i] == b[i + shift]
      invariant forall i :: 0 <= i < t.Length && !(from <= i < n) ==> t[i] == old(t[i])
    {
      t[n] := b[n + shift];
    }
  }

  method Clear(t: array<Limb>, from: nat, to: nat)
    requires from <= to <= t.Length
    modifies t
    ensures forall i :: from <= i < to ==> t[i] == 0
    ensures forall i :: 0 <= i < t.Length && !(from <= i < to) ==> t[i] == old(t[i])
  {
    for n := from to to
      invariant forall i :: from <= i < n ==> t[i] == 0
      invariant forall i :: 0 <= i < t.Length && !(from <= i < n) ==> t[i] == old(t[i])
    {
      t[n] := 0;
    }
  }

  method FormS1(b: array<Limb>, t: array<Limb>)
    requires b.Length == 16 && t.Length == 8
    modifies t
    ensures t[..] == Term(b[..], 0) == Term(b[..], 1)
  {
    Clear(t, 0, 3);
    Fill(t, 3, 8, b, 8);
  }

  method FormS2(b: array<Limb>, t: array<Limb>)
    requires b.Length == 16 && t.Length == 8
    modifies t
    ensures t[..] == Term(b[..], 2) == Term(b[..], 3)
  {
    Clear(t, 0, 3);
    Fill(t, 3, 7, b, 9);
    Clear(t, 7, 8);
  }

  method FormS3(b: array<Limb>, t: array<Limb>)
    requires b.Length == 16 && t.Length == 8
    modifies t
    ensures t[..] == Term(b[..], 4)
  {
    Fill(t, 0, 3, b, 8);
    Clear(t, 3, 6);
    Fill(t, 6, 8, b, 8);
  }

  method FormS4(b: array<Limb>, t: array<Limb>)
    requires b.Length == 16 && t.Length == 8
    modifies t
    ensures t[..] == Term(b[..], 5)
  {
    Fill(t, 0, 3, b, 9);
    Fill(t, 3, 6, b, 10);
    Fill(t, 6, 7, b, 7);
    Fill(t, 7, 8, b, 1);
  }

  method FormD1(b: array<Limb>, t: array<Limb>)
    requires b.Length == 16 && t.Length == 8
    modifies t
    ensures t[..] == Term(b[..], 6)
  {
    Fill(t, 0, 3, b, 11);
    Clear(t, 3, 6);
    Fill(t, 6, 7, b, 2);
    Fill(t, 7, 8, b, 3);
  }

  method FormD2(b: array<Limb>, t: array<Limb>)
    requires b.Length == 16 && t.Length == 8
    modifies t
    ensures t[..] == Term(b[..], 7)
  {
    Fill(t, 0, 4, b, 12);
    Clear(t, 4, 6);
    Fill(t, 6, 7, b, 3);
    Fill(t, 7, 8, b, 4);
  }

  method FormD3(b: array<Limb>, t: array<Limb>)
    requires b.Length == 16 && t.Length == 8
    modifies t
    ensures t[..] == Term(b[..], 8)
  {
    Fill(t, 0, 3, b, 13);
    Fill(t, 3, 6, b, 5);
    Clear(t, 6, 7);
    Fill(t, 7, 8, b, 5);
  }

  method FormD4(b: array<Limb>, t: array<Limb>)
    requires b.Length == 16 && t.Length == 8
    modifies t
    ensures t[..] == Term(b[..], 9)
  {
    Fill(t, 0, 2, b, 14);
    Clear(t, 2, 3);
    Fill(t, 3, 6, b, 6);
    Clear(t, 6, 7);
    Fill(t, 7, 8, b, 6);
  }

  /** S1 and S2 are each added twice, then S3 and S4. */
  method AddTerms(a: array<Limb>, b: array<Limb>, tempm: array<Limb>, tempm2: array<Limb>, reducer: array<Limb>)
    requires a.Length >= 8 && b.Length == 16 && tempm.Length == tempm2.Length == 8
    requires a !in {b, tempm, tempm2, reducer} && b !in {tempm, tempm2} && tempm != tempm2
    requires reducer !in {tempm, tempm2} && reducer[..] == PRIME_R && Num(a[..], 0, WORDS) == Running(b[..], 0)
    modifies a, tempm, tempm2
    ensures Num(a[..], 0, WORDS) == Running(b[..], 6)
    ensures forall i :: WORDS <= i < a.Length ==> a[i] == old(a[i])
  {
    hide Num, Base, Term, FieldSum;
    PrimeTables();
    ghost var bs := b[..];
    FormS1(b, tempm);
    FieldAdd(a, tempm, reducer, tempm2);
    assert Num(tempm2[..], 0, WORDS) == Running(bs, 1);
    FieldAdd(tempm2, tempm, reducer, a);
    assert Num(a[..], 0, WORDS) == Running(bs, 2);
    FormS2(b, tempm);
    FieldAdd(a, tempm, reducer, tempm2);
    assert Num(tempm2[..], 0, WORDS) == Running(bs, 3);
    FieldAdd(tempm2, tempm, reducer, a);
    assert Num(a[..], 0, WORDS) == Running(bs, 4);
    FormS3(b, tempm);
    FieldAdd(a, tempm, reducer, tempm2);
    assert Num(tempm2[..], 0, WORDS) == Running(bs, 5);
    FormS4(b, tempm);
    FieldAdd(tempm2, tempm, reducer, a);
  }

  method SubtractTerms(a: array<Limb>, b: array<Limb>, tempm: array<Limb>, tempm2: array<Limb>, modulus: array<Limb>)
    requires a.Length >= 8 && b.Length == 16 && tempm.Length == tempm2.Length == 8
    requires a !in {b, tempm, tempm2, modulus} && b !in {tempm, tempm2} && tempm != tempm2
    requires modulus !in {tempm, tempm2} && modulus[..] == PRIME_M && Num(a[..], 0, WORDS) == Running(b[..], 6)
    modifies a, tempm, tempm2
    ensures Num(a[..], 0, WORDS) == Running(b[..], 10)
    ensures forall i :: WORDS <= i < a.Length ==> a[i] == old(a[i])
  {
    hide Num, Base, Term, FieldDifference;
    PrimeTables();
    ghost var bs := b[..];
    FormD1(b, tempm);
    FieldSub(a, tempm, modulus, tempm2);
    assert Num(tempm2[..], 0, WORDS) == Running(bs, 7);
    FormD2(b, tempm);
    FieldSub(tempm2, tempm, modulus, a);
    assert Num(a[..], 0, WORDS) == Running(bs, 8);
    FormD3(b, tempm);
    FieldSub(a, tempm, modulus, tempm2);
    assert Num(tempm2[..], 0, WORDS) == Running(bs, 9);
    FormD4(b, tempm);
    FieldSub(tempm2, tempm, modulus, a);
  }

  method FieldModP(a: array<Limb>, b: array<Limb>)
    requires a.Length >= 8 && b.Length == 16 && a != b
    modifies a
    ensures Num(a[..], 0, WORDS) == Reduced(b[..])
    ensures forall i :: WORDS <= i < a.Length ==> a[i] == old(a[i])
  {
    hide Num, Base, Term, FieldDifference, FieldSum, TermValue;
    PrimeTables();
    var tempm, tempm2 := new Limb[8](_ => 0), new Limb[8](_ => 0);
    var modulus := Table(PRIME_M);
    var reducer := Table(PRIME_R);
    Copy(b, a, WORDS);
    AddTerms(a, b, tempm, tempm2, reducer);
    SubtractTerms(a, b, tempm, tempm2, modulus);
    var order := IsGreater(a, modulus, WORDS);
    if order >= 0 {
      FieldSub(a, modulus, modulus, tempm);
      Copy(tempm, a, WORDS);
    }
  }
}
