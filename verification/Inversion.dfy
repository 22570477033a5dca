/** Inversion modulo an odd prime by repeated halving and subtraction. */
module Inversion {
  import opened Numbers
  import opened Limbs
  import opened Field

  function Comb(s: int, u: int, t: int, v: int): int { s * u + t * v }

  /** Some combination of u and v is 1. */
  ghost predicate Coprime(u: nat, v: nat) { exists s: int, t: int :: Comb(s, u, t, v) == 1 }

  /** a times x is u modulo m. */
  ghost predicate Represents(a: nat, x: int, u: int, m: nat) { exists q: int :: Comb(a, x, q, m) == u }

  ghost predicate Prime(m: nat) { m > 1 && forall d: nat :: 1 < d < m ==> m % d != 0 }

  predicate IsInverse(a: nat, b: nat, m: nat) { m > 1 && b < m && a * b % m == 1 }

  // ---- a prime is coprime to what it does not divide ----

  lemma CombOfRemainder(s: int, t: int, a: int, b: int, q: int, r: int)
    requires a == q * b + r
    ensures Comb(t, a, s - t * q, b) == Comb(s, b, t, r)
  {
    MulAssoc(t, q, b);
    assert t * (q * b + r) == t * (q * b) + t * r;
    assert (s - t * q) * b == s * b - (t * q) * b;
  }

  lemma DividesStep(g: nat, a: nat, b: nat, q: nat, r: nat)
    requires g > 0 && a == q * b + r && b % g == 0 && r % g == 0
    ensures a % g == 0
  {
    var c, d := b / g, r / g;
    assert b == c * g && r == d * g;
    MulAssoc(q, c, g);
    assert (q * c) * g + d * g == (q * c + d) * g;
    DivModUnique(a, g, q * c + d, 0);
  }

  /** The greatest common divisor is a combination. */
  lemma {:induction false} Bezout(a: nat, b: nat) returns (g: nat, s: int, t: int)
    requires a > 0 || b > 0
    ensures g > 0 && a % g == 0 && b % g == 0 && Comb(s, a, t, b) == g
    decreases b
  {
    if b == 0 {
      g, s, t := a, 1, 0;
    } else {
      var q, r := a / b, a % b;
      var s', t';
      g, s', t' := Bezout(b, r);
      DividesStep(g, a, b, q, r);
      CombOfRemainder(s', t', a, b, q, r);
      s, t := t', s' - t' * q;
    }
  }

  lemma PrimeIsCoprime(a: nat, m: nat)
    requires Prime(m) && a % m != 0
    ensures Coprime(a, m)
  {
    var g, s, t := Bezout(a, m);
    DivisorAtMost(g, m);
    assert g == 1 || g == m;
  }

  lemma DivisorAtMost(g: nat, m: nat)
    requires g > 0 && m > 0 && m % g == 0
    ensures g <= m
  {
    if g > m {
      DivModUnique(m, g, 0, m);
    }
  }

  // ---- what the steps keep ----

  lemma CoprimeHalf(u: nat, v: nat)
    requires Coprime(2 * u, v)
    ensures Coprime(u, v)
  {
    var s: int, t: int :| Comb(s, 2 * u, t, v) == 1;
    MulAssoc(s, 2, u);
    assert Comb(2 * s, u, t, v) == 1;
  }

  lemma CoprimeSub(u: nat, v: nat)
    requires Coprime(u, v) && u >= v
    ensures Coprime(u - v, v)
  {
    var s: int, t: int :| Comb(s, u, t, v) == 1;
    assert s * (u - v) + (s + t) * v == s * u + t * v;
    assert Comb(s, u - v, s + t, v) == 1;
  }

  lemma CoprimeSwap(u: nat, v: nat)
    requires Coprime(u, v)
    ensures Coprime(v, u)
  {
    var s: int, t: int :| Comb(s, u, t, v) == 1;
    assert Comb(t, v, s, u) == 1;
  }

  lemma EvenComb(s: int, c: nat, t: int, d: nat)
    ensures Comb(s, c * 2, t, d * 2) == 2 * (s * c + t * d)
  {
    MulAssoc(s, c, 2);
    MulAssoc(t, d, 2);
  }

  lemma UnitFactor(k: int, u: nat)
    requires k * u == 1
    ensures u == 1
  {
    if u > 1 {
      if k > 0 {
        MulMono(1, k, u);
      } else {
        MulMono(k, 0, u);
      }
    }
  }

  /** Two coprime numbers are not both even, and equal only if they are 1. */
  lemma CoprimeLimits(u: nat, v: nat)
    requires Coprime(u, v)
    ensures u % 2 == 1 || v % 2 == 1
    ensures u == v ==> u == 1
  {
    var s: int, t: int :| Comb(s, u, t, v) == 1;
    EvenComb(s, u / 2, t, v / 2);
    if u == v {
      assert (s + t) * u == s * u + t * u;
      UnitFactor(s + t, u);
    }
  }

  lemma EvenFactor(q: int, m: nat)
    requires m % 2 == 1 && (q * m) % 2 == 0
    ensures q % 2 == 0
  {
    if q % 2 == 1 {
      var c, d := q / 2, m / 2;
      assert (2 * c + 1) * (2 * d + 1) == 2 * (c * (2 * d + 1) + d) + 1 by {
        assert (2 * c + 1) * (2 * d + 1) == 2 * c * (2 * d + 1) + (2 * d + 1);
        MulAssoc(2, c, 2 * d + 1);
      }
    }
  }

  lemma HalfEven(a: nat, x: nat, u: nat, m: nat)
    requires Represents(a, x, u, m) && m % 2 == 1 && u % 2 == 0 && x % 2 == 0
    ensures Represents(a, x / 2, u / 2, m)
  {
    var q: int :| Comb(a, x, q, m) == u;
    var y, w := x / 2, u / 2;
    MulAssoc(a, y, 2);
    assert q * m == 2 * (w - a * y);
    EvenFactor(q, m);
    MulAssoc(q / 2, 2, m);
    assert Comb(a, y, q / 2, m) == w;
  }

  lemma HalfOdd(a: nat, x: nat, u: nat, m: nat)
    requires Represents(a, x, u, m) && m % 2 == 1 && u % 2 == 0 && x % 2 == 1
    ensures Represents(a, (x + m) / 2, u / 2, m)
  {
    var q: int :| Comb(a, x, q, m) == u;
    assert a * (x + m) + (q - a) * m == a * x + q * m;
    assert Comb(a, x + m, q - a, m) == u;
    HalfEven(a, x + m, u, m);
  }

  lemma Difference(a: nat, x: nat, y: nat, u: nat, v: nat, m: nat)
    requires Represents(a, x, u, m) && Represents(a, y, v, m)
    ensures Represents(a, x - y, u - v, m) && Represents(a, x - y + m, u - v, m)
  {
    var p: int :| Comb(a, x, p, m) == u;
    var q: int :| Comb(a, y, q, m) == v;
    assert a * (x - y) + (p - q) * m == (a * x + p * m) - (a * y + q * m);
    assert a * (x - y + m) + (p - q - a) * m == a * (x - y) + (p - q) * m;
    assert Comb(a, x - y, p - q, m) == u - v;
    assert Comb(a, x - y + m, p - q - a, m) == u - v;
  }

  lemma Inverse(a: nat, x: nat, m: nat)
    requires Represents(a, x, 1, m) && m > 1 && x < m
    ensures IsInverse(a, x, m)
  {
    var q: int :| Comb(a, x, q, m) == 1;
    assert a * x == (-q) * m + 1;
    DivModUnique(a * x, m, -q, 1);
  }

  // ---- when the loop ends ----

  /** The number with its factors of 2 taken out. */
  function OddPart(u: nat): (r: nat)
    requires u > 0
    ensures r % 2 == 1 && r <= u
  {
    if u % 2 == 1 then u else OddPart(u / 2)
  }

  /** The inner loop ends after at most k halvings. */
  predicate HalvesIn(u: nat, k: nat) { u % 2 == 1 || (k > 0 && HalvesIn(u / 2, k - 1)) }

  ghost predicate Halves(u: nat) { exists k: nat :: HalvesIn(u, k) }

  /** The inner loop ends on every number but zero, which stays even. */
  lemma HalvingEnds(u: nat)
    ensures Halves(u) <==> u > 0
  {
    if u > 0 {
      HalvesWithin(u, u);
    } else {
      forall k: nat
        ensures !HalvesIn(u, k)
      {
        ZeroStaysEven(k);
      }
    }
  }

  lemma {:induction false} HalvesWithin(u: nat, k: nat)
    requires 0 < u <= k
    ensures HalvesIn(u, k)
  {
    if u % 2 == 0 {
      HalvesWithin(u / 2, k - 1);
    }
  }

  lemma {:induction false} ZeroStaysEven(k: nat)
    ensures !HalvesIn(0, k)
  {
    if k > 0 {
      ZeroStaysEven(k - 1);
    }
  }

  /** One round of the outer loop, on two numbers for which the inner loops end. */
  function Round(u: nat, v: nat): (nat, nat)
    requires u > 0 && v > 0
  {
    var x, y := OddPart(u), OddPart(v);
    if x >= y then (x - y, y) else (x, y - x)
  }

  /** The outer loop ends after at most k rounds. */
  predicate EndsIn(u: nat, v: nat, k: nat)
    decreases k
  {
    u == 1 || v == 1 || (k > 0 && u > 0 && v > 0 && EndsIn(Round(u, v).0, Round(u, v).1, k - 1))
  }

  ghost predicate Ends(u: nat, v: nat) { exists k: nat :: EndsIn(u, v, k) }

  lemma {:induction false} OddPartDivides(m: nat, u: nat)
    requires m % 2 == 1 && u > 0 && u % m == 0
    ensures OddPart(u) % m == 0
  {
    if u % 2 == 0 {
      var q := u / m;
      assert u == q * m;
      EvenFactor(q, m);
      MulAssoc(2, q / 2, m);
      DivModUnique(u / 2, m, q / 2, 0);
      OddPartDivides(m, u / 2);
    }
  }

  lemma DividesDifference(m: nat, x: nat, y: nat)
    requires m > 0 && x % m == 0 && y % m == 0 && x >= y
    ensures (x - y) % m == 0
  {
    var p, q := x / m, y / m;
    assert x == p * m && y == q * m;
    assert x - y == (p - q) * m;
    DivModUnique(x - y, m, p - q, 0);
  }

  /** What divides both numbers divides both after a round. */
  lemma RoundDivides(m: nat, u: nat, v: nat)
    requires m % 2 == 1 && u > 0 && v > 0 && u % m == 0 && v % m == 0
    ensures Round(u, v).0 % m == 0 && Round(u, v).1 % m == 0
  {
    OddPartDivides(m, u);
    OddPartDivides(m, v);
    var x, y := OddPart(u), OddPart(v);
    if x >= y {
      DividesDifference(m, x, y);
    } else {
      DividesDifference(m, y, x);
    }
  }

  /** So neither number is ever 1, and the exit test is not met. */
  lemma {:induction false} NeverEnds(m: nat, u: nat, v: nat, k: nat)
    requires m % 2 == 1 && m > 1 && u % m == 0 && v % m == 0
    ensures !EndsIn(u, v, k)
    decreases k
  {
    DivModUnique(1, m, 0, 1);
    if k > 0 && u > 0 && v > 0 {
      RoundDivides(m, u, v);
      NeverEnds(m, Round(u, v).0, Round(u, v).1, k - 1);
    }
  }

  lemma {:induction false} CoprimeOddPart(u: nat, v: nat)
    requires u > 0 && Coprime(u, v)
    ensures Coprime(OddPart(u), v)
  {
    if u % 2 == 0 {
      assert u == 2 * (u / 2);
      CoprimeHalf(u / 2, v);
      CoprimeOddPart(u / 2, v);
    }
  }

  /** A round keeps two numbers coprime, and leaves 0 only beside 1. */
  lemma RoundCoprime(u: nat, v: nat)
    requires u > 0 && v > 0 && Coprime(u, v)
    ensures Coprime(Round(u, v).0, Round(u, v).1)
    ensures Round(u, v).1 > 0 && (Round(u, v).0 == 0 ==> Round(u, v).1 == 1)
  {
    var x, y := OddPart(u), OddPart(v);
    hide Coprime;
    CoprimeOddPart(u, v);
    CoprimeSwap(x, v);
    CoprimeOddPart(v, x);
    CoprimeLimits(y, x);
    if x >= y {
      CoprimeSwap(y, x);
      CoprimeSub(x, y);
    } else {
      CoprimeSub(y, x);
      CoprimeSwap(y - x, x);
    }
  }

  lemma {:induction false} CoprimeEnds(u: nat, v: nat) returns (k: nat)
    requires u > 0 && v > 0 && Coprime(u, v)
    ensures EndsIn(u, v, k)
    decreases u + v
  {
    k := 0;
    if u != 1 && v != 1 {
      var (u', v') := Round(u, v);
      RoundCoprime(u, v);
      hide Coprime;
      if u' > 0 {
        k := CoprimeEnds(u', v');
      }
      k := k + 1;
    }
  }

  /** Inversion modulo an odd prime ends if and only if the prime does not divide the number. */
  lemma EndsExactly(a: nat, m: nat)
    requires Prime(m) && m % 2 == 1
    ensures Ends(a, m) <==> a % m != 0
  {
    if a % m != 0 {
      PrimeIsCoprime(a, m);
      hide Coprime;
      var _ := CoprimeEnds(a, m);
    } else {
      forall k: nat
        ensures !EndsIn(a, m, k)
      {
        NeverEnds(m, a, m, k);
      }
    }
  }

  // ---- the algorithm ----

  lemma Parity(s: seq<Limb>, n: nat)
    requires 0 < n <= |s|
    ensures Num(s, 0, n) % 2 == s[0] % 2
  {
    hide Num;
    LowLimb(s, 0, n);
    HalfOfLimb(s[0], Num(s, 1, n - 1), Num(s, 1, n - 1) / 2);
  }

  /** Halves u until it is odd, and x with it, so that x still represents u. */
  method HalveWhileEven(u: array<Limb>, x: array<Limb>, modulus: array<Limb>, reducer: array<Limb>, tempm: array<Limb>,
                        ghost a: nat, ghost v: nat)
    requires u.Length == x.Length == tempm.Length == WORDS && modulus.Length >= WORDS && reducer.Length >= WORDS
    requires u != x && u != tempm && x != tempm && modulus !in {u, x, tempm} && reducer !in {u, x, tempm}
    requires Num(modulus[..], 0, WORDS) % 2 == 1
    requires Num(u[..], 0, WORDS) > 0 && Num(x[..], 0, WORDS) < Num(modulus[..], 0, WORDS)
    requires Represents(a, Num(x[..], 0, WORDS), Num(u[..], 0, WORDS), Num(modulus[..], 0, WORDS))
    requires Coprime(Num(u[..], 0, WORDS), v)
    modifies u, x, tempm
    ensures 0 < Num(u[..], 0, WORDS) <= old(Num(u[..], 0, WORDS)) && Num(u[..], 0, WORDS) % 2 == 1
    ensures Num(u[..], 0, WORDS) == OddPart(old(Num(u[..], 0, WORDS)))
    ensures Num(x[..], 0, WORDS) < Num(modulus[..], 0, WORDS)
    ensures Represents(a, Num(x[..], 0, WORDS), Num(u[..], 0, WORDS), Num(modulus[..], 0, WORDS))
    ensures Coprime(Num(u[..], 0, WORDS), v)
  {
    hide Num, Represents, Coprime, Base;
    ghost var m := Num(modulus[..], 0, WORDS);
    ghost var start := Num(u[..], 0, WORDS);
    Parity(u[..], WORDS);
    while u[0] % 2 == 0
      invariant 0 < Num(u[..], 0, WORDS) <= start && Num(u[..], 0, WORDS) % 2 == u[0] % 2
      invariant OddPart(Num(u[..], 0, WORDS)) == OddPart(start)
      invariant Num(x[..], 0, WORDS) < m
      invariant Represents(a, Num(x[..], 0, WORDS), Num(u[..], 0, WORDS), m)
      invariant Coprime(Num(u[..], 0, WORDS), v)
      decreases Num(u[..], 0, WORDS)
    {
      ghost var u0, x0 := Num(u[..], 0, WORDS), Num(x[..], 0, WORDS);
      RShift(u, WORDS);
      CoprimeHalf(u0 / 2, v);
      Parity(u[..], WORDS);
      HalveRepresentative(x, modulus, reducer, tempm, a, u0);
    }
  }

  /** Halves x modulo m. */
  method HalveRepresentative(x: array<Limb>, modulus: array<Limb>, reducer: array<Limb>, tempm: array<Limb>,
                             ghost a: nat, ghost u: nat)
    requires x.Length == tempm.Length == WORDS && modulus.Length >= WORDS && reducer.Length >= WORDS
    requires x != tempm && modulus !in {x, tempm} && reducer !in {x, tempm}
    requires Num(modulus[..], 0, WORDS) % 2 == 1 && u % 2 == 0
    requires Num(x[..], 0, WORDS) < Num(modulus[..], 0, WORDS)
    requires Represents(a, Num(x[..], 0, WORDS), u, Num(modulus[..], 0, WORDS))
    modifies x, tempm
    ensures Num(x[..], 0, WORDS) < Num(modulus[..], 0, WORDS)
    ensures Represents(a, Num(x[..], 0, WORDS), u / 2, Num(modulus[..], 0, WORDS))
  {
    hide Num, Represents, Base;
    ghost var m, x0 := Num(modulus[..], 0, WORDS), Num(x[..], 0, WORDS);
    Parity(x[..], WORDS);
    if x[0] % 2 == 0 {
      RShift(x, WORDS);
      HalfEven(a, x0, u, m);
    } else {
      FieldAddAndDivide(x, modulus, reducer, tempm);
      Copy(tempm, x, WORDS);
      HalfOdd(a, x0, u, m);
    }
  }

  /** Moves the difference in tempm to u and makes x represent it. */
  method TakeDifference(u: array<Limb>, x: array<Limb>, y: array<Limb>, modulus: array<Limb>, tempm: array<Limb>,
                        ghost a: nat, ghost v: nat)
    requires u.Length == x.Length == y.Length == tempm.Length == WORDS && modulus.Length >= WORDS
    requires u != x && u != y && x != y && tempm !in {u, x, y} && modulus !in {u, x, y, tempm}
    requires Num(tempm[..], 0, WORDS) + v == Num(u[..], 0, WORDS)
    requires Num(x[..], 0, WORDS) < Num(modulus[..], 0, WORDS) && Num(y[..], 0, WORDS) < Num(modulus[..], 0, WORDS)
    requires Represents(a, Num(x[..], 0, WORDS), Num(u[..], 0, WORDS), Num(modulus[..], 0, WORDS))
    requires Represents(a, Num(y[..], 0, WORDS), v, Num(modulus[..], 0, WORDS))
    modifies u, x, tempm
    ensures Num(u[..], 0, WORDS) + v == old(Num(u[..], 0, WORDS))
    ensures Num(x[..], 0, WORDS) < Num(modulus[..], 0, WORDS)
    ensures Represents(a, Num(x[..], 0, WORDS), Num(u[..], 0, WORDS), Num(modulus[..], 0, WORDS))
  {
    hide Num, Represents, Base;
    ghost var m, u0 := Num(modulus[..], 0, WORDS), Num(u[..], 0, WORDS);
    ghost var x0, y0 := Num(x[..], 0, WORDS), Num(y[..], 0, WORDS);
    Copy(tempm, u, WORDS);
    FieldSub(x, y, modulus, tempm);
    NumFits(modulus[..], 0, WORDS);
    DifferenceInRange(x0, y0, m);
    Copy(tempm, x, WORDS);
    Difference(a, x0, y0, u0, v, m);
  }

  lemma DifferenceInRange(x: nat, y: nat, m: nat)
    requires x < m && y < m <= Base(WORDS)
    ensures FieldDifference(x, y, m) == if x >= y then x - y else x - y + m
  {
    if x < y {
      DivModUnique(x - y + Base(WORDS) + m, Base(WORDS), 1, x - y + m);
    }
  }

  /** The loop state: u and v are coprime and represented by x1 and x2. */
  ghost predicate Inverting(a: nat, m: nat, u: nat, v: nat, x1: nat, x2: nat) {
    && u > 0 && v > 0 && Coprime(u, v)
    && x1 < m && x2 < m && Represents(a, x1, u, m) && Represents(a, x2, v, m)
  }

  /** Runs until one of the two numbers is 1, and tells whether the first is. */
  method InversionLoop(u: array<Limb>, v: array<Limb>, x1: array<Limb>, x2: array<Limb>, modulus: array<Limb>,
                       reducer: array<Limb>, tempm: array<Limb>, ghost a: nat, ghost m: nat)
    returns (one: bool, ghost rounds: nat)
    requires u.Length == v.Length == x1.Length == x2.Length == tempm.Length == WORDS
    requires modulus.Length >= WORDS && reducer.Length >= WORDS
    requires u != v && u != x1 && u != x2 && v != x1 && v != x2 && x1 != x2
    requires tempm !in {u, v, x1, x2} && modulus !in {u, v, x1, x2, tempm} && reducer !in {u, v, x1, x2, tempm}
    requires m == Num(modulus[..], 0, WORDS) && m % 2 == 1
    requires Inverting(a, m, Num(u[..], 0, WORDS), Num(v[..], 0, WORDS), Num(x1[..], 0, WORDS), Num(x2[..], 0, WORDS))
    modifies u, v, x1, x2, tempm
    ensures EndsIn(old(Num(u[..], 0, WORDS)), old(Num(v[..], 0, WORDS)), rounds)
    ensures var x := if one then x1 else x2;
            Num(x[..], 0, WORDS) < m && Represents(a, Num(x[..], 0, WORDS), 1, m)
  {
    hide Num, Represents, Base, Coprime, EndsIn, Round;
    ghost var u0, v0 := Num(u[..], 0, WORDS), Num(v[..], 0, WORDS);
    rounds := 0;
    one := IsOne(u, WORDS);
    var one' := IsOne(v, WORDS);
    while !(one || one')
      invariant Num(modulus[..], 0, WORDS) == m
      invariant Inverting(a, m, Num(u[..], 0, WORDS), Num(v[..], 0, WORDS),
                          Num(x1[..], 0, WORDS), Num(x2[..], 0, WORDS))
      invariant LeadsTo(u0, v0, rounds, Num(u[..], 0, WORDS), Num(v[..], 0, WORDS))
      invariant one <==> Num(u[..], 0, WORDS) == 1
      invariant one' <==> Num(v[..], 0, WORDS) == 1
      decreases Num(u[..], 0, WORDS) + Num(v[..], 0, WORDS)
    {
      OneMoreRound(u0, v0, rounds, Num(u[..], 0, WORDS), Num(v[..], 0, WORDS));
      InversionStep(u, v, x1, x2, modulus, reducer, tempm, a, m);
      rounds := rounds + 1;
      one := IsOne(u, WORDS);
      one' := IsOne(v, WORDS);
    }
    LastRound(u0, v0, rounds, Num(u[..], 0, WORDS), Num(v[..], 0, WORDS));
  }

  /** k rounds lead from one pair of numbers to the other. */
  predicate LeadsTo(u0: nat, v0: nat, k: nat, u: nat, v: nat)
    decreases k
  {
    if k == 0 then u0 == u && v0 == v
    else u0 > 0 && v0 > 0 && LeadsTo(Round(u0, v0).0, Round(u0, v0).1, k - 1, u, v)
  }

  lemma {:induction false} OneMoreRound(u0: nat, v0: nat, k: nat, u: nat, v: nat)
    requires LeadsTo(u0, v0, k, u, v) && u > 0 && v > 0
    ensures LeadsTo(u0, v0, k + 1, Round(u, v).0, Round(u, v).1)
    decreases k
  {
    if k > 0 {
      OneMoreRound(Round(u0, v0).0, Round(u0, v0).1, k - 1, u, v);
    }
  }

  lemma {:induction false} LastRound(u0: nat, v0: nat, k: nat, u: nat, v: nat)
    requires LeadsTo(u0, v0, k, u, v) && (u == 1 || v == 1)
    ensures EndsIn(u0, v0, k)
    decreases k
  {
    if k > 0 {
      LastRound(Round(u0, v0).0, Round(u0, v0).1, k - 1, u, v);
    }
  }

  /** Stores the inverse of a modulo an odd prime; the result may overlay the argument. */
  method FieldInv(a: array<Limb>, modulus: array<Limb>, reducer: array<Limb>, b: array<Limb>)
    returns (ghost rounds: nat)
    requires a.Length >= WORDS && modulus.Length >= WORDS && reducer.Length >= WORDS && b.Length >= WORDS
    requires Prime(Num(modulus[..], 0, WORDS)) && Num(modulus[..], 0, WORDS) % 2 == 1
    requires Num(a[..], 0, WORDS) % Num(modulus[..], 0, WORDS) != 0
    modifies b
    ensures EndsIn(old(Num(a[..], 0, WORDS)), old(Num(modulus[..], 0, WORDS)), rounds)
    ensures IsInverse(old(Num(a[..], 0, WORDS)), Num(b[..], 0, WORDS), old(Num(modulus[..], 0, WORDS)))
    ensures forall i :: WORDS <= i < b.Length ==> b[i] == old(b[i])
  {
    hide Num, Represents, Base, Coprime, IsInverse;
    ghost var A, m := Num(a[..], 0, WORDS), Num(modulus[..], 0, WORDS);
    var u, v := new Limb[WORDS](_ => 0), new Limb[WORDS](_ => 0);
    var x1, x2 := new Limb[WORDS](_ => 0), new Limb[WORDS](_ => 0);
    var tempm := new Limb[WORDS](_ => 0);
    Copy(a, u, WORDS);
    Copy(modulus, v, WORDS);
    x1[0] := 1;
    InvertingStart(A, m, x1[..], x2[..]);
    var one;
    one, rounds := InversionLoop(u, v, x1, x2, modulus, reducer, tempm, A, m);
    if one {
      Copy(x1, b, WORDS);
    } else {
      Copy(x2, b, WORDS);
    }
    Inverse(A, Num(b[..], 0, WORDS), m);
  }

  lemma InvertingStart(a: nat, m: nat, x1: seq<Limb>, x2: seq<Limb>)
    requires Prime(m) && m % 2 == 1 && a % m != 0
    requires |x1| == |x2| == WORDS && x1[0] == 1
    requires forall i :: 1 <= i < WORDS ==> x1[i] == 0
    requires forall i :: 0 <= i < WORDS ==> x2[i] == 0
    ensures Inverting(a, m, a, m, Num(x1, 0, WORDS), Num(x2, 0, WORDS))
  {
    PrimeIsCoprime(a, m);
    FirstRepresentatives(a, m);
    hide Num, Prime, Coprime, Represents;
    OneLimb(x1, WORDS);
    NumZero(x2, 0, WORDS);
  }

  lemma FirstRepresentatives(a: nat, m: nat)
    ensures Represents(a, 1, a, m) && Represents(a, 0, m, m)
  {
    assert Comb(a, 1, 0, m) == a;
    assert Comb(a, 0, 1, m) == m;
  }

  /** One round: both numbers are made odd, then the smaller is taken from the larger. */
  method InversionStep(u: array<Limb>, v: array<Limb>, x1: array<Limb>, x2: array<Limb>, modulus: array<Limb>,
                       reducer: array<Limb>, tempm: array<Limb>, ghost a: nat, ghost m: nat)
    requires u.Length == v.Length == x1.Length == x2.Length == tempm.Length == WORDS
    requires modulus.Length >= WORDS && reducer.Length >= WORDS
    requires u != v && u != x1 && u != x2 && v != x1 && v != x2 && x1 != x2
    requires tempm !in {u, v, x1, x2} && modulus !in {u, v, x1, x2, tempm} && reducer !in {u, v, x1, x2, tempm}
    requires m == Num(modulus[..], 0, WORDS) && m % 2 == 1
    requires Inverting(a, m, Num(u[..], 0, WORDS), Num(v[..], 0, WORDS), Num(x1[..], 0, WORDS), Num(x2[..], 0, WORDS))
    requires Num(u[..], 0, WORDS) != 1 && Num(v[..], 0, WORDS) != 1
    modifies u, v, x1, x2, tempm
    ensures (Num(u[..], 0, WORDS), Num(v[..], 0, WORDS)) == Round(old(Num(u[..], 0, WORDS)), old(Num(v[..], 0, WORDS)))
    ensures Inverting(a, m, Num(u[..], 0, WORDS), Num(v[..], 0, WORDS), Num(x1[..], 0, WORDS), Num(x2[..], 0, WORDS))
    ensures Num(u[..], 0, WORDS) + Num(v[..], 0, WORDS) < old(Num(u[..], 0, WORDS) + Num(v[..], 0, WORDS))
  {
    hide Num, Represents, Base, Coprime;
    ghost var u0, v0 := Num(u[..], 0, WORDS), Num(v[..], 0, WORDS);
    CoprimeLimits(u0, v0);
    HalveWhileEven(u, x1, modulus, reducer, tempm, a, v0);
    ghost var u1 := Num(u[..], 0, WORDS);
    CoprimeSwap(u1, v0);
    HalveWhileEven(v, x2, modulus, reducer, tempm, a, u1);
    ghost var v1 := Num(v[..], 0, WORDS);
    CoprimeSwap(v1, u1);
    CoprimeLimits(u1, v1);
    SubtractSmaller(u, v, x1, x2, modulus, tempm, a, m);
  }

  method SubtractSmaller(u: array<Limb>, v: array<Limb>, x1: array<Limb>, x2: array<Limb>, modulus: array<Limb>,
                         tempm: array<Limb>, ghost a: nat, ghost m: nat)
    requires u.Length == v.Length == x1.Length == x2.Length == tempm.Length == WORDS && modulus.Length >= WORDS
    requires u != v && u != x1 && u != x2 && v != x1 && v != x2 && x1 != x2
    requires tempm !in {u, v, x1, x2} && modulus !in {u, v, x1, x2, tempm}
    requires m == Num(modulus[..], 0, WORDS)
    requires Inverting(a, m, Num(u[..], 0, WORDS), Num(v[..], 0, WORDS), Num(x1[..], 0, WORDS), Num(x2[..], 0, WORDS))
    requires Num(u[..], 0, WORDS) != Num(v[..], 0, WORDS)
    modifies u, v, x1, x2, tempm
    ensures var u0, v0 := old(Num(u[..], 0, WORDS)), old(Num(v[..], 0, WORDS));
            if u0 >= v0 then Num(u[..], 0, WORDS) == u0 - v0 && Num(v[..], 0, WORDS) == v0
            else Num(u[..], 0, WORDS) == u0 && Num(v[..], 0, WORDS) == v0 - u0
    ensures Inverting(a, m, Num(u[..], 0, WORDS), Num(v[..], 0, WORDS), Num(x1[..], 0, WORDS), Num(x2[..], 0, WORDS))
    ensures Num(u[..], 0, WORDS) + Num(v[..], 0, WORDS) < old(Num(u[..], 0, WORDS) + Num(v[..], 0, WORDS))
  {
    hide Num, Represents, Base, Coprime;
    ghost var u0, v0 := Num(u[..], 0, WORDS), Num(v[..], 0, WORDS);
    NumFits(u[..], 0, WORDS);
    NumFits(v[..], 0, WORDS);
    var t := Sub(u, v, tempm, WORDS);
    NumFits(tempm[..], 0, WORDS);
    BorrowMod(Num(tempm[..], 0, WORDS), t, u0, v0, Base(WORDS));
    if t == 0 {
      TakeDifference(u, x1, x2, modulus, tempm, a, v0);
      CoprimeSub(u0, v0);
    } else {
      t := Sub(v, u, tempm, WORDS);
      NumFits(tempm[..], 0, WORDS);
      BorrowMod(Num(tempm[..], 0, WORDS), t, v0, u0, Base(WORDS));
      TakeDifference(v, x2, x1, modulus, tempm, a, u0);
      CoprimeSwap(u0, v0);
      CoprimeSub(v0, u0);
      CoprimeSwap(v0 - u0, u0);
    }
  }
}
