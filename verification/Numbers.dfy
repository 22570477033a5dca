/** Powers of two, and the few facts about multiplication, division and remainder
    that the other modules share. */
module Numbers {

  function Pow2(e: nat): (r: nat)
    ensures r >= 1
  {
    if e == 0 then 1 else 2 * Pow2(e - 1)
  }

  lemma {:induction false} Pow2Add(a: nat, b: nat)
    ensures Pow2(a + b) == Pow2(a) * Pow2(b)
  {
    if a == 0 {
    } else {
      Pow2Add(a - 1, b);
      MulAssoc(2, Pow2(a - 1), Pow2(b));
    }
  }

  lemma {:induction false} Pow2Mono(a: nat, b: nat)
    requires a <= b
    ensures Pow2(a) <= Pow2(b)
    decreases b
  {
    if a < b {
      Pow2Mono(a, b - 1);
    }
  }

  lemma Pow2Converse(a: nat, b: nat)
    requires Pow2(a) < Pow2(b)
    ensures a < b
  {
    if b <= a {
      Pow2Mono(b, a);
    }
  }

  lemma Pow2Strict(a: nat, b: nat)
    requires a < b
    ensures 2 * Pow2(a) <= Pow2(b)
  {
    Pow2Mono(a + 1, b);
  }

  lemma MulAssoc(a: int, b: int, c: int)
    ensures (a * b) * c == a * (b * c)
  {
  }

  lemma MulMono(a: int, b: int, c: int)
    requires a <= b && 0 <= c
    ensures a * c <= b * c
  {
    assert (b - a) * c >= 0;
  }

  lemma MulCancel(a: int, b: int, c: int)
    requires c > 0 && a * c <= b * c
    ensures a <= b
  {
    assert (b + 1) * c == b * c + c;
    if a > b {
      MulMono(b + 1, a, c);
    }
  }

  /** The quotient and remainder are the only pair that fits. */
  lemma DivModUnique(a: int, m: int, q: int, r: int)
    requires m > 0 && a == q * m + r && 0 <= r < m
    ensures a / m == q && a % m == r
  {
    var q', r' := a / m, a % m;
    assert a == m * q' + r';
    assert (q - q') * m == r' - r;
    if q > q' {
      MulMono(1, q - q', m);
    } else if q < q' {
      MulMono(q - q', -1, m);
    }
  }

  /** Dividing twice is dividing by the product. */
  lemma DivDiv(a: nat, m: nat, k: nat)
    requires m > 0 && k > 0
    ensures m * k > 0
    ensures (a / m) / k == a / (m * k)
  {
    var q, r := a / m, a % m;
    var q2, r2 := q / k, q % k;
    QuotientAndRest(a, m);
    QuotientAndRest(q, k);
    MulMono(1, m, k);
    TwoRemainders(a, q, m, r, q2, k, r2);
    DivModUnique(a, m * k, q2, r2 * m + r);
  }

  lemma QuotientAndRest(a: nat, m: nat)
    requires m > 0
    ensures a == (a / m) * m + a % m && 0 <= a % m < m
  {
  }

  lemma TwoRemainders(a: int, q: int, m: int, r: int, q2: int, k: int, r2: int)
    requires a == q * m + r && q == q2 * k + r2 && 0 <= r2 < k && 0 <= r < m
    ensures a == q2 * (m * k) + (r2 * m + r) && 0 <= r2 * m + r < m * k
  {
    MulAssoc(q2, k, m);
    assert (q2 * k + r2) * m == (q2 * k) * m + r2 * m;
    MulMono(0, r2, m);
    MulMono(r2 + 1, k, m);
    assert (r2 + 1) * m == r2 * m + m;
    assert k * m == m * k;
  }

  lemma Halves(b: nat, d: nat)
    requires b % 2 == 0 && d % 2 == 1
    ensures (b + d) % 2 == 1 && (b + d) / 2 == b / 2 + d / 2 && 2 * ((b + d) / 2) == b + d - 1
    ensures (d + 1) % 2 == 0 && (d + 1) / 2 == d / 2 + 1
  {
  }

  lemma HalfSteps(a: nat)
    ensures (a + 1) / 2 == if a % 2 == 1 then a / 2 + 1 else a / 2
    ensures (a + 1) % 2 == 1 - a % 2
  {
  }

  lemma EvenBelowPow(a: nat, e: nat)
    requires a % 2 == 0 && a < Pow2(e) && e > 0
    ensures a + 1 < Pow2(e)
  {
  }

  lemma HalfOfPow(n: nat, e: nat)
    ensures (n / Pow2(e)) / 2 == n / Pow2(e + 1)
  {
    DivDiv(n, Pow2(e), 2);
    assert Pow2(e) * 2 == Pow2(e + 1);
  }

  /** A product that the verifier looks into only where it is asked to. */
  function Times(a: nat, b: nat): nat { a * b }

  lemma TimesSteps(a: nat, b: nat)
    ensures Times(a, 0) == 0 && Times(0, b) == 0
    ensures Times(a, b + 1) == Times(a, b) + a
    ensures Times(a + 1, b) == Times(a, b) + b
  {
  }

  lemma TimesBelow(a: nat, b: nat, c: nat)
    requires a < b && c > 0
    ensures Times(a, c) < Times(b, c) == b * c
  {
    MulMono(a + 1, b, c);
    TimesSteps(a, c);
  }

  lemma ModOfMod(n: nat, c: nat, p: nat)
    requires c > 0 && p > 0
    ensures c * p > 0 && (n % (c * p)) % p == n % p
  {
    MulMono(1, c, p);
    var m := c * p;
    var q, r := n / m, n % m;
    var s, t := r / p, r % p;
    assert n == q * m + r && r == s * p + t;
    MulAssoc(q, c, p);
    var w := q * c + s;
    assert w * p == (q * c) * p + s * p;
    DivModUnique(n, p, w, t);
  }

  lemma NextInWindow(n: nat, m: nat)
    requires m > 0 && (n + 1) % m != 0
    ensures (n + 1) % m == n % m + 1
  {
    QuotientSteps(n, m);
  }

  lemma LastOfWindow(n: nat, m: nat)
    requires m > 0 && (n + 1) % m == 0
    ensures n % m == m - 1
  {
    QuotientSteps(n, m);
  }

  lemma QuotientSteps(r: nat, m: nat)
    requires m > 0
    ensures if r % m == m - 1 then (r + 1) % m == 0 && (r + 1) / m == r / m + 1
            else (r + 1) % m == r % m + 1 && (r + 1) / m == r / m
  {
    var q, t := r / m, r % m;
    assert r == q * m + t;
    if t + 1 == m {
      assert (q + 1) * m == q * m + m;
      DivModUnique(r + 1, m, q + 1, 0);
    } else {
      DivModUnique(r + 1, m, q, t + 1);
    }
  }
}
