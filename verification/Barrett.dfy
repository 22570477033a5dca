/** Barrett reduction modulo the group order. */
module Barrett {
  import opened Numbers
  import opened Limbs
  import opened Field

  const ORDER_M: seq<Limb> :=
    [0xFC632551, 0xF3B9CAC2, 0xA7179E84, 0xBCE6FAAD, 0xFFFFFFFF, 0xFFFFFFFF, 0x00000000, 0xFFFFFFFF, 0x00000000]
  const ORDER_R: seq<Limb> :=
    [0x039CDAAF, 0x0C46353D, 0x58E8617B, 0x43190552, 0x00000000, 0x00000000, 0xFFFFFFFF, 0x00000000]
  const ORDER_MU: seq<Limb> :=
    [0xEEDF9BFE, 0x012FFD85, 0xDF1A6C21, 0x43190552, 0xFFFFFFFF, 0xFFFFFFFE, 0xFFFFFFFF, 0x00000000, 0x00000001]
  const ORDER_K: nat := 8

  const N: nat := 0xFFFFFFFF00000000FFFFFFFFFFFFFFFFBCE6FAADA7179E84F3B9CAC2FC632551
  const MU: nat := 0x100000000FFFFFFFFFFFFFFFEFFFFFFFF43190552DF1A6C21012FFD85EEDF9BFE

  // ---- the tables ----

  /** The tables hold the order, and the reciprocal that belongs to it. */
  lemma Tables()
    ensures Num(ORDER_M, 0, WORDS) == N && Num(ORDER_M, 0, WORDS + 1) == N
    ensures Num(ORDER_R, 0, WORDS) == Base(WORDS) - N
    ensures Num(ORDER_MU, 0, WORDS + 1) == MU
    ensures Base(WORDS - 1) <= N < Base(WORDS)
    ensures MU * N <= Base(WORDS) * Base(WORDS) < (MU + 1) * N
  {
    EightLimbs(ORDER_M);
    EightLimbs(ORDER_R);
    EightLimbs(ORDER_MU);
    SmallBases();
  }

  // ---- the estimate of the quotient ----

  /** The quotient estimate from the leading limbs and the reciprocal. */
  function Estimate(a: nat): nat { Shifted(Times(Shifted(a, WORDS - 1), MU), WORDS + 1) }

  function Shifted(a: nat, limbs: nat): nat { Quotient(a, Base(limbs)) }

  function Quotient(a: nat, b: nat): nat
    requires b > 0
  {
    a / b
  }

  /** a - q3 * n, scaled by b1 * b3, in terms of the three remainders that were cut off. */
  lemma ScaledRemainder(a: int, n: int, mu: int, b1: int, b3: int, q1: int, r1: int, r2: int, q3: int, r3: int)
    requires a == q1 * b1 + r1 && b1 * b3 == mu * n + r2 && q1 * mu == q3 * b3 + r3
    ensures (b1 * b3) * (a - q3 * n) == (b1 * b3) * r1 + r2 * (a - r1) + (n * b1) * r3
  {
    var w := b1 * b3;
    calc {
      w * (a - q3 * n);
      w * a - w * (q3 * n);
      { ShiftFactors(b1, b3, q3, n); }
      w * a - (n * b1) * (q3 * b3);
      { assert (n * b1) * (q1 * mu - r3) == (n * b1) * (q1 * mu) - (n * b1) * r3; }
      w * a - (n * b1) * (q1 * mu) + (n * b1) * r3;
      { ShiftFactors'(n, b1, q1, mu); }
      w * a - (mu * n) * (q1 * b1) + (n * b1) * r3;
      w * a - (w - r2) * (a - r1) + (n * b1) * r3;
      { assert (w - r2) * (a - r1) == w * a - w * r1 - r2 * (a - r1); }
      w * r1 + r2 * (a - r1) + (n * b1) * r3;
    }
  }

  lemma ShiftFactors(b1: int, b3: int, q: int, n: int)
    ensures (b1 * b3) * (q * n) == (n * b1) * (q * b3)
  {
    MulAssoc(b1, b3, q * n);
    MulAssoc(b3, q, n);
    assert b3 * (q * n) == (q * b3) * n;
    MulAssoc(b1, q * b3, n);
    MulAssoc(n, b1, q * b3);
  }

  lemma ShiftFactors'(n: int, b1: int, q: int, mu: int)
    ensures (n * b1) * (q * mu) == (mu * n) * (q * b1)
  {
    ShiftFactors(n, mu, q, b1);
    assert (n * mu) * (q * b1) == (b1 * n) * (q * mu);
  }

  /** The estimate is at most two below the quotient, as in note 14.44 of the Handbook of
      Applied Cryptography. */
  lemma EstimateBounds(a: nat, n: nat, mu: nat, b1: nat, b3: nat, q3: nat)
    requires b1 > 0 && b3 > 0 && a < Times(b1, b3)
    requires mu * n <= Times(b1, b3) < (mu + 1) * n && b1 <= n
    requires q3 == Times(a / b1, mu) / b3
    ensures 0 <= a - q3 * n < 3 * n
  {
    var q1, r1 := a / b1, a % b1;
    var r2, r3 := Times(b1, b3) - mu * n, Times(q1, mu) % b3;
    QuotientOf(a, b1);
    QuotientOf(Times(q1, mu), b3);
    ScaledRemainder(a, n, mu, b1, b3, q1, r1, r2, q3, r3);
    RemaindersOf(a, n, mu, b1, b3, r1, r2, r3);
    Descale(b1 * b3, a - q3 * n, (b1 * b3) * r1 + r2 * (a - r1) + (n * b1) * r3, 3 * n);
  }

  lemma QuotientOf(a: nat, b: nat)
    requires b > 0
    ensures a == (a / b) * b + a % b && 0 <= a % b < b && a / b >= 0 && a % b <= a
  {
    MulMono(0, a / b, b);
  }

  lemma Descale(w: int, x: int, y: int, bound: int)
    requires w > 0 && w * x == y && 0 <= y < w * bound
    ensures 0 <= x < bound
  {
    if x < 0 {
      MulMono(x, -1, w);
    } else if x >= bound {
      MulMono(bound, x, w);
    }
  }

  lemma RemaindersOf(a: nat, n: nat, mu: nat, b1: nat, b3: nat, r1: nat, r2: nat, r3: nat)
    requires r1 < b1 <= n && r1 <= a < Times(b1, b3) && r3 < b3
    requires r2 == Times(b1, b3) - mu * n && Times(b1, b3) < (mu + 1) * n
    ensures b1 * b3 > 0
    ensures 0 <= (b1 * b3) * r1 + r2 * (a - r1) + (n * b1) * r3 < (b1 * b3) * (3 * n)
  {
    assert (mu + 1) * n == mu * n + n;
    MulAssoc(n, b1, b3);
    MulMono(0, n, b1);
    RemaindersFit(a, n, b1 * b3, n * b1, b3, r1, r2, r3);
  }

  lemma Within(x: nat, y: nat, x': nat, y': nat)
    requires x <= x' && y <= y'
    ensures 0 <= x * y <= x' * y'
  {
    MulMono(x, x', y);
    MulMono(y, y', x');
  }

  lemma RemaindersFit(a: nat, n: nat, w: nat, nb1: nat, b3: nat, r1: nat, r2: nat, r3: nat)
    requires r1 < n && r1 <= a < w && r2 < n && r3 < b3 && nb1 * b3 == n * w
    ensures 0 <= w * r1 + r2 * (a - r1) + nb1 * r3 < w * (3 * n)
  {
    Within(w, r1, w, n - 1);
    Within(r2, a - r1, n, w);
    Within(nb1, r3, nb1, b3);
    assert w * (n - 1) == w * n - w;
    assert w * (3 * n) == 3 * (n * w);
  }

  lemma Square()
    ensures Times(Base(WORDS - 1), Base(WORDS + 1)) == Base(WORDS) * Base(WORDS)
  {
    BaseAdd(WORDS - 1, WORDS + 1);
    BaseAdd(WORDS, WORDS);
  }

  lemma EstimateOf(a: nat)
    requires a < Base(WORDS) * Base(WORDS)
    ensures 0 <= a - Estimate(a) * N < 3 * N
  {
    hide Base;
    Tables();
    Square();
    EstimateBounds(a, N, MU, Base(WORDS - 1), Base(WORDS + 1), Estimate(a));
  }

  /** Below n times b^8 the estimate fits the eight limbs it is cut to. */
  lemma EstimateFits(a: nat)
    requires a < N * Base(WORDS)
    ensures a < Base(WORDS) * Base(WORDS) && Estimate(a) < Base(WORDS)
  {
    hide Base, Estimate;
    Tables();
    MulMono(N, Base(WORDS), Base(WORDS));
    EstimateOf(a);
    var q := Estimate(a);
    if q >= Base(WORDS) {
      MulMono(Base(WORDS), q, N);
    }
  }

  // ---- the reduced value ----

  const LOST: nat := 0xFC632551

  /** What is left of the low nine limbs a9 once the estimate, cut to eight limbs, is used. */
  function Rest(a: nat, a9: nat): nat { (a9 - Estimate(a) % Base(WORDS) * N) % Base(WORDS + 1) }

  lemma LowPart(a: int, x: int, m: int)
    requires m > 0
    ensures (a % m - x) % m == (a - x) % m
  {
    var q := a / m;
    DivModUnique(a - x, m, q + (a % m - x) / m, (a % m - x) % m);
  }

  lemma SameResidue(a: int, q: int, n: int)
    requires n > 0
    ensures (a - q * n) % n == a % n
  {
    DivModUnique(a - q * n, n, a / n - q, a % n);
  }

  lemma Sizes()
    ensures 3 * N < Base(WORDS + 1) && 2 * N > Base(WORDS) > 0
    ensures LOST * Base(WORDS) + 3 * N < Base(WORDS + 1)
  {
    SmallBases();
  }

  /** An estimate that fits leaves less than three times the order. */
  lemma RestFits(a: nat)
    requires a < Base(WORDS) * Base(WORDS) && Estimate(a) < Base(WORDS)
    ensures Rest(a, a % Base(WORDS + 1)) == a - Estimate(a) * N < 3 * N
  {
    hide Base, Estimate;
    Sizes();
    EstimateOf(a);
    var q := Estimate(a);
    DivModUnique(q, Base(WORDS), 0, q);
    LowPart(a, q * N, Base(WORDS + 1));
    DivModUnique(a - q * N, Base(WORDS + 1), 0, a - q * N);
  }

  /** An estimate of 257 bits loses its top bit, and the rest is too large by a multiple of
      2^256. */
  lemma RestLost(a: nat)
    requires a < Base(WORDS) * Base(WORDS) && Estimate(a) >= Base(WORDS)
    ensures Rest(a, a % Base(WORDS + 1)) == a - Estimate(a) * N + LOST * Base(WORDS)
  {
    hide Base, Estimate;
    Sizes();
    EstimateOf(a);
    OrderTimesBase();
    var w, q := Base(WORDS), Estimate(a);
    EstimateBelowTwice(a, w, q);
    DivModUnique(q, w, 1, q - w);
    LowPart(a, (q - w) * N, Base(WORDS + 1));
    CutRest(a, q, w, N / 0x1_0000_0000, Base(WORDS + 1));
  }

  lemma EstimateBelowTwice(a: nat, w: nat, q: nat)
    requires a < w * w && q * N <= a && 2 * N > w
    ensures q < 2 * w
  {
    if q >= 2 * w {
      MulMono(2 * w, q, N);
      MulMono(w, 2 * N, w);
    }
  }

  lemma CutRest(a: nat, q: nat, w: nat, c: nat, b9: nat)
    requires w * N == c * b9 + LOST * w && 0 <= a - q * N && a - q * N + LOST * w < b9
    ensures (a - (q - w) * N) % b9 == a - q * N + LOST * w
  {
    assert a - (q - w) * N == a - q * N + w * N;
    DivModUnique(a - (q - w) * N, b9, c, a - q * N + LOST * w);
  }

  lemma OrderTimesBase()
    ensures Base(WORDS) * N == (N / 0x1_0000_0000) * Base(WORDS + 1) + LOST * Base(WORDS)
  {
    SmallBases();
  }

  /** The leading nine limbs of a number must be below this for the estimate to fit. */
  const LIMIT: nat := 0xFFFFFFFF00000000FFFFFFFFFFFFFFFFBCE6FAADA7179E84F3B9CAC2FC63255166E12D95

  lemma QuotientBelow(x: nat, b: nat, c: nat)
    requires b > 0
    ensures x / b < c <==> x < c * b
  {
    QuotientOf(x, b);
    if x / b < c {
      MulMono(x / b + 1, c, b);
    } else {
      MulMono(c, x / b, b);
    }
  }

  lemma LimitOfProduct(x: nat)
    ensures Times(x, MU) < Base(WORDS) * Base(WORDS + 1) <==> x < LIMIT
  {
    SmallBases();
    if x < LIMIT {
      MulMono(x, LIMIT - 1, MU);
    } else {
      MulMono(LIMIT, x, MU);
    }
  }

  /** The estimate fits eight limbs if and only if the number is below a bound. */
  lemma EstimateFitsBelow(a: nat)
    ensures Estimate(a) < Base(WORDS) <==> a < LIMIT * Base(WORDS - 1)
  {
    hide Base;
    var x := Shifted(a, WORDS - 1);
    QuotientBelow(a, Base(WORDS - 1), LIMIT);
    QuotientBelow(Times(x, MU), Base(WORDS + 1), Base(WORDS));
    LimitOfProduct(x);
  }

  /** The reduction is exact if and only if the number is below a bound just under 2^512. */
  lemma RestIsExact(a: nat)
    requires a < Base(WORDS) * Base(WORDS)
    ensures Rest(a, a % Base(WORDS + 1)) % N == a % N <==> a < LIMIT * Base(WORDS - 1)
  {
    EstimateDecides(a);
    EstimateFitsBelow(a);
  }

  /** The reduction is exact if and only if the estimate fits eight limbs. */
  lemma EstimateDecides(a: nat)
    requires a < Base(WORDS) * Base(WORDS)
    ensures Rest(a, a % Base(WORDS + 1)) % N == a % N <==> Estimate(a) < Base(WORDS)
  {
    SameResidue(a, Estimate(a), N);
    if Estimate(a) < Base(WORDS) {
      RestFits(a);
    } else {
      RestLost(a);
      LostMatters(a - Estimate(a) * N);
    }
  }

  lemma LostMatters(x: int)
    ensures (x + LOST * Base(WORDS)) % N != x % N
  {
    SmallBases();
    var y := LOST * Base(WORDS);
    var r := y % N;
    assert r > 0;
    if (x + y) % N == x % N {
      DivModUnique(y, N, (x + y) / N - x / N, 0);
    }
  }

  /** The largest 16-limb number is reduced wrongly. */
  lemma LargestIsWrong()
    ensures var a := Base(WORDS) * Base(WORDS) - 1;
            Rest(a, a % Base(WORDS + 1)) % N != a % N
  {
    SmallBases();
    var a := Base(WORDS) * Base(WORDS) - 1;
    RestIsExact(a);
  }

  // ---- the method ----

  /** What the method stores for a number of length limbs whose low nine limbs are a9. */
  function ModO(length: nat, a: nat, a9: nat): nat {
    if length == WORDS && a <= N then a else Rest(a, a9) % N
  }

  lemma BelowLimit(a: nat)
    requires a < N * Base(WORDS) || a < Base(WORDS)
    ensures a < LIMIT * Base(WORDS - 1) && a < Base(WORDS) * Base(WORDS)
  {
    SmallBases();
  }

  /** For every number of up to 16 limbs: the reduction is exact if and only if the number is
      below the bound, except that eight limbs hold the order itself unreduced. */
  lemma ModOIsExact(length: nat, a: nat)
    requires a < Base(WORDS) * Base(WORDS) && (length == WORDS ==> a < Base(WORDS))
    ensures ModO(length, a, a % Base(WORDS + 1)) == a % N
       <==> a < LIMIT * Base(WORDS - 1) && !(length == WORDS && a == N)
  {
    RestIsExact(a);
    hide Rest, Base;
    if length == WORDS && a <= N {
      BelowLimit(a);
      if a < N {
        DivModUnique(a, N, 0, a);
      }
    }
  }

  /** In particular below n times b^8. */
  lemma ModOExact(length: nat, a: nat)
    requires a < N * Base(WORDS) && (length == WORDS ==> a < Base(WORDS))
    ensures ModO(length, a, a % Base(WORDS + 1)) == if length == WORDS && a == N then N else a % N
  {
    BelowLimit(a);
    ModOIsExact(length, a);
    hide Rest, Base;
  }

  /** With eight limbs a number up to the order is kept; for a larger one the limb above counts. */
  lemma ModOShort(a: nat, top: nat)
    requires a < Base(WORDS) && top < 0x1_0000_0000
    ensures ModO(WORDS, a, a + top * Base(WORDS)) == if a <= N then a else (a + top * Base(WORDS)) % N
  {
    hide Base, Estimate;
    var a9 := a + top * Base(WORDS);
    TopLimbFits(a, top);
    EstimateFits(a);
    EstimateOf(a);
    var q := Estimate(a);
    DivModUnique(q, Base(WORDS), 0, q);
    DivModUnique(a9 - q * N, Base(WORDS + 1), 0, a9 - q * N);
    SameResidue(a9, q, N);
  }

  lemma TopLimbFits(a: nat, top: nat)
    requires a < Base(WORDS) && top < 0x1_0000_0000
    ensures a < N * Base(WORDS) && 0 <= a + top * Base(WORDS) < Base(WORDS + 1)
  {
    assert Base(WORDS + 1) == 0x1_0000_0000 * Base(WORDS);
    hide Base;
    MulMono(top + 1, 0x1_0000_0000, Base(WORDS));
    MulMono(1, N, Base(WORDS));
    MulMono(0, top, Base(WORDS));
  }

  lemma LowLimbsMod(s: seq<Limb>, n: nat, total: nat)
    requires n <= total <= |s|
    ensures Num(s, 0, n) == Num(s, 0, total) % Base(n)
  {
    hide Num, Base;
    NumSplit(s, 0, n, total - n);
    NumFits(s, 0, n);
    DivModUnique(Num(s, 0, total), Base(n), Num(s, n, total - n), Num(s, 0, n));
  }

  lemma DifferenceMod(r: nat, y: nat, a: nat, borrow: nat, p: nat, b: nat)
    requires b > 0 && r < b && r + y == a + borrow * b && y == p % b
    ensures r == (a - p) % b
  {
    var c := p / b;
    assert p == c * b + y;
    assert (borrow + c) * b == borrow * b + c * b;
    DivModUnique(a - p, b, -(borrow + c), r);
  }

  lemma ShiftedFits(a: nat, n: nat, m: nat)
    requires a < Base(n + m)
    ensures Shifted(a, n) % Base(m) == Shifted(a, n) < Base(m)
  {
    hide Base;
    BaseAdd(n, m);
    var q := Shifted(a, n);
    QuotientOf(a, Base(n));
    if q >= Base(m) {
      MulMono(Base(m), q, Base(n));
    }
    DivModUnique(q, Base(m), 0, q);
  }

  lemma {:induction false} LengthFits(s: seq<Limb>, n: nat, m: nat)
    requires n <= |s| && n <= m
    ensures Num(s, 0, n) < Base(m)
  {
    NumFits(s, 0, n);
    BaseMono(n, m);
  }

  lemma EstimateSteps(a: nat, q1: nat, q2: nat, q3: nat)
    requires a < Base(2 * WORDS) && q1 == a / Base(WORDS - 1) % Base(WORDS + 1)
    requires q2 == MU * q1 && q3 == q2 / Base(WORDS + 1) % Base(WORDS)
    ensures q3 == Estimate(a) % Base(WORDS)
  {
    ShiftedFits(a, WORDS - 1, WORDS + 1);
    hide Base;
    assert q1 == Shifted(a, WORDS - 1);
    assert q2 == Times(q1, MU);
  }

  /** Puts the estimated quotient, cut to eight limbs, into q1. */
  method EstimateQuotient(a: array<Limb>, length: nat, q1: array<Limb>, q2: array<Limb>)
    requires WORDS <= length <= a.Length && length <= 2 * WORDS
    requires q1.Length == WORDS + 1 && q2.Length == 2 * (WORDS + 1) && q1 != a && q2 != a && q1 != q2
    modifies q1, q2
    ensures Num(q1[..], 0, WORDS) == Estimate(Num(a[..], 0, length)) % Base(WORDS)
  {
    hide Num, Base, Estimate;
    ghost var value := Num(a[..], 0, length);
    LengthFits(a[..], length, 2 * WORDS);
    var mu := Table(ORDER_MU);
    Tables();
    RShiftBy(a, length, q1, WORDS + 1, ORDER_K - 1);
    ghost var s1 := Num(q1[..], 0, WORDS + 1);
    FieldMult(mu, q1, q2, WORDS + 1);
    ghost var s2 := Num(q2[..], 0, 2 * (WORDS + 1));
    RShiftBy(q2, 2 * (WORDS + 1), q1, WORDS, ORDER_K + 1);
    EstimateSteps(value, s1, s2, Num(q1[..], 0, WORDS));
  }

  /** Puts the estimated quotient times the order into q2. */
  method EstimateProduct(a: array<Limb>, length: nat, order: array<Limb>, q2: array<Limb>)
    requires WORDS <= length <= a.Length && length <= 2 * WORDS
    requires order[..] == ORDER_M && q2.Length == 2 * (WORDS + 1) && q2 != a && q2 != order
    modifies q2
    ensures Num(q2[..], 0, WORDS + 1) == Estimate(Num(a[..], 0, length)) % Base(WORDS) * N % Base(WORDS + 1)
  {
    hide Num, Base, Estimate;
    var q1 := new Limb[WORDS + 1](_ => 0);
    Tables();
    EstimateQuotient(a, length, q1, q2);
    FieldMult(q1, order, q2, WORDS);
    LowLimbsMod(q2[..], WORDS + 1, 2 * WORDS);
  }

  /** Subtracts the order until the number is below it. */
  method SubtractOrder(result: array<Limb>, order: array<Limb>) returns (ghost steps: nat)
    requires result.Length > WORDS && order[..] == ORDER_M && order != result
    modifies result
    ensures Num(result[..], 0, WORDS + 1) == old(Num(result[..], 0, WORDS + 1)) % N
    ensures forall i :: WORDS < i < result.Length ==> result[i] == old(result[i])
    ensures old(Num(result[..], 0, WORDS + 1)) < 3 * N ==> steps <= 2
  {
    hide Num, Base;
    Tables();
    ghost var start := Num(result[..], 0, WORDS + 1);
    steps := 0;
    var c := IsGreater(result, order, WORDS + 1);
    while c >= 0
      invariant c == Limbs.Order(Num(result[..], 0, WORDS + 1), N)
      invariant Num(result[..], 0, WORDS + 1) + steps * N == start
      invariant forall i :: WORDS < i < result.Length ==> result[i] == old(result[i])
      decreases Num(result[..], 0, WORDS + 1)
    {
      ghost var before := Num(result[..], 0, WORDS + 1);
      NumFits(result[..], 0, WORDS + 1);
      var borrow := Sub(result, order, result, WORDS + 1);
      NumFits(result[..], 0, WORDS + 1);
      steps := steps + 1;
      c := IsGreater(result, order, WORDS + 1);
    }
    DivModUnique(start, N, steps, Num(result[..], 0, WORDS + 1));
  }

  method FieldModOLong(a: array<Limb>, result: array<Limb>, length: nat, order: array<Limb>) returns (ghost steps: nat)
    requires WORDS <= length <= a.Length && length <= 2 * WORDS && a.Length > WORDS && result.Length > WORDS
    requires order[..] == ORDER_M && order != result
    modifies result
    ensures Num(result[..], 0, WORDS + 1) == old(Rest(Num(a[..], 0, length), Num(a[..], 0, WORDS + 1))) % N
    ensures forall i :: WORDS < i < result.Length ==> result[i] == old(result[i])
    ensures old(Rest(Num(a[..], 0, length), Num(a[..], 0, WORDS + 1))) < 3 * N ==> steps <= 2
  {
    hide Num, Base, Estimate;
    var q2 := new Limb[2 * (WORDS + 1)](_ => 0);
    ghost var value, a9 := Num(a[..], 0, length), Num(a[..], 0, WORDS + 1);
    EstimateProduct(a, length, order, q2);
    var borrow := Sub(a, q2, result, WORDS + 1);
    NumFits(result[..], 0, WORDS + 1);
    DifferenceMod(Num(result[..], 0, WORDS + 1), Num(q2[..], 0, WORDS + 1), a9, borrow,
                  Estimate(value) % Base(WORDS) * N, Base(WORDS + 1));
    steps := SubtractOrder(result, order);
  }

  /** The low nine limbs, or all eight. */
  function LowNine(s: seq<Limb>): nat
    requires |s| >= WORDS
  {
    if |s| > WORDS then Num(s, 0, WORDS + 1) else Num(s, 0, WORDS)
  }

  /** Reduces a number of 8 to 16 limbs modulo the order; the result may overlay it. Eight
      limbs up to the order need no ninth limb on either side. */
  method FieldModO(a: array<Limb>, result: array<Limb>, length: nat) returns (ghost steps: nat)
    requires WORDS <= length <= a.Length && length <= 2 * WORDS && result.Length >= WORDS
    requires (a.Length > WORDS && result.Length > WORDS) || (length == WORDS && Num(a[..], 0, WORDS) <= N)
    modifies result
    ensures Num(result[..], 0, WORDS) == old(ModO(length, Num(a[..], 0, length), LowNine(a[..])))
    ensures forall i :: WORDS < i < result.Length ==> result[i] == old(result[i])
    ensures old(LowNine(a[..]) == Num(a[..], 0, length) % Base(WORDS + 1) && Num(a[..], 0, length) < N * Base(WORDS))
            ==> steps <= 2
  {
    hide Num, Base, Rest, Estimate;
    steps := 0;
    var order := Table(ORDER_M);
    Tables();
    if length == WORDS {
      var c := IsGreater(a, order, WORDS);
      if c <= 0 {
        if a != result {
          Copy(a, result, length);
        }
        return;
      }
    }
    ghost var value := Num(a[..], 0, length);
    RestSmall(value);
    steps := FieldModOLong(a, result, length, order);
    LowLimbsMod(result[..], WORDS, WORDS + 1);
    DivModUnique(Num(result[..], 0, WORDS + 1), Base(WORDS), 0, Num(result[..], 0, WORDS + 1));
  }

  lemma RestSmall(a: nat)
    ensures a < N * Base(WORDS) ==> Rest(a, a % Base(WORDS + 1)) < 3 * N
  {
    if a < N * Base(WORDS) {
      EstimateFits(a);
      RestFits(a);
    }
  }
}
