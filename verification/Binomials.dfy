/** Binomial coefficients by Pascal's rule, and a lower bound for the central ones. */
module Binomials {
  import opened Numbers

  function Choose(n: nat, k: nat): nat {
    if k == 0 then 1
    else if n == 0 then 0
    else Choose(n - 1, k - 1) + Choose(n - 1, k)
  }

  lemma {:induction false} ChooseZero(n: nat, k: nat)
    requires k > n
    ensures Choose(n, k) == 0
  {
    if n > 0 {
      ChooseZero(n - 1, k - 1);
      ChooseZero(n - 1, k);
    }
  }

  lemma {:induction false} ChooseAll(n: nat)
    ensures Choose(n, n) == 1
  {
    if n > 0 {
      ChooseAll(n - 1);
      ChooseZero(n - 1, n);
    }
  }

  lemma {:induction false} ChooseBelowPow(n: nat, k: nat)
    ensures Choose(n, k) <= Pow2(n)
  {
    if n > 0 && k > 0 {
      ChooseBelowPow(n - 1, k - 1);
      ChooseBelowPow(n - 1, k);
    }
  }

  lemma {:induction false} ChoosePositive(n: nat, k: nat)
    ensures Choose(n, k) > 0 <==> k <= n
  {
    if n > 0 && k > 0 {
      ChoosePositive(n - 1, k - 1);
      ChoosePositive(n - 1, k);
    }
  }

  /** (k + 1) C(n, k + 1) = (n - k) C(n, k) */
  lemma {:induction false} Absorption(n: nat, k: nat)
    ensures (k + 1) * Choose(n, k + 1) == (n - k) * Choose(n, k)
  {
    if n == 0 {
      assert (0 - k) * Choose(0, k) == 0;
    } else {
      Absorption(n - 1, k);
      if k == 0 {
      } else {
        Absorption(n - 1, k - 1);
        AbsorptionStep(n, k, Choose(n - 1, k + 1), Choose(n - 1, k), Choose(n - 1, k - 1));
      }
    }
  }

  lemma AbsorptionStep(n: int, k: int, c2: int, c1: int, c0: int)
    requires (k + 1) * c2 == (n - 1 - k) * c1
    requires k * c1 == (n - k) * c0
    ensures (k + 1) * (c1 + c2) == (n - k) * (c0 + c1)
  {
  }

  function Central(n: nat): nat { Choose(2 * n, n) }

  /** (n + 1) C(2n + 2, n + 1) = 2 (2n + 1) C(2n, n) */
  lemma CentralStep(n: nat)
    ensures (n + 1) * Central(n + 1) == 2 * (2 * n + 1) * Central(n)
  {
    var a, b, c, d := Choose(2 * n + 1, n), Choose(2 * n + 1, n + 1), Choose(2 * n, n), Choose(2 * n, n + 1);
    assert Central(n + 1) == a + b && b == c + d && Central(n) == c;
    Absorption(2 * n, n);
    Absorption(2 * n + 1, n);
    hide Choose, Central;
    CentralStepArith(n, a, b, c, d);
  }

  lemma CentralStepArith(n: int, a: int, b: int, c: int, d: int)
    requires n >= 0 && b == c + d && (n + 1) * d == n * c && (n + 1) * b == (n + 1) * a
    ensures (n + 1) * (a + b) == 2 * (2 * n + 1) * c
  {
    MulCancelEq(a, b, n + 1);
    assert (n + 1) * b == (2 * n + 1) * c;
  }

  lemma MulCancelEq(a: int, b: int, c: int)
    requires c > 0 && c * a == c * b
    ensures a == b
  {
    MulCancel(a, b, c);
    MulCancel(b, a, c);
  }

  /** 16^n <= 4 n C(2n, n)^2 */
  lemma {:induction false} CentralBound(n: nat)
    requires n > 0
    ensures Pow2(4 * n) <= (4 * n) * Square(Central(n))
  {
    if n == 1 {
      assert Choose(1, 0) == 1 && Choose(1, 1) == 1 && Central(1) == 2;
      assert Pow2(4) == 16;
    } else {
      CentralBound(n - 1);
      CentralStep(n - 1);
      Pow2Add(4, 4 * (n - 1));
      assert Pow2(4) == 16;
      SquareStep(n - 1, Central(n - 1), Central(n), Pow2(4 * (n - 1)));
    }
  }

  function Square(x: int): int { x * x }

  lemma SquareOfProducts(x: int, d: int, y: int, c: int)
    requires x * d == y * c
    ensures Square(x) * Square(d) == Square(y) * Square(c)
  {
    assert Square(x) * Square(d) == (x * d) * (x * d);
    assert Square(y) * Square(c) == (y * c) * (y * c);
  }

  lemma SquareOfFactor(n: int)
    ensures Square(2 * (2 * n + 1)) == 16 * (n * (n + 1)) + 4
  {
  }

  lemma SquareStep(n: int, c: int, d: int, p: int)
    requires n > 0 && (n + 1) * d == 2 * (2 * n + 1) * c
    requires p <= (4 * n) * Square(c)
    ensures 16 * p <= (4 * (n + 1)) * Square(d)
  {
    SquareOfProducts(n + 1, d, 2 * (2 * n + 1), c);
    SquareOfFactor(n);
    SquareNotNegative(c);
    hide Square;
    SquareCancel(n, n + 1, Square(c), Square(d), p);
  }

  lemma SquareNotNegative(c: int)
    ensures Square(c) >= 0
  {
  }

  lemma SquareCancel(n: int, m: int, cc: int, dd: int, p: int)
    requires n > 0 && m == n + 1 && cc >= 0 && (m * m) * dd == (16 * (n * m) + 4) * cc
    requires p <= (4 * n) * cc
    ensures 16 * p <= (4 * m) * dd
  {
    assert (16 * (n * m) + 4) * cc == (16 * n * cc) * m + 4 * cc;
    assert (m * m) * dd == (m * dd) * m;
    MulCancel(16 * n * cc, m * dd, m);
  }

  /** There are more subsets of 131 out of 262 than messages of 256 bits. */
  lemma EnoughSubsets(n: nat, e: nat)
    requires n == 131 && e == 256
    ensures Pow2(e) < Central(n)
  {
    CentralBound(n);
    TwelveBits();
    hide Pow2, Central;
    Pow2Add(e, e);
    Pow2Add(e + e, 12);
    TooFew(Central(n), Pow2(e), Pow2(e + e));
  }

  lemma TwelveBits()
    ensures Pow2(12) == 4096
  {
    assert Pow2(6) == 64;
    Pow2Add(6, 6);
  }

  lemma TooFew(c: int, p: int, q: int)
    requires c >= 0 && p > 0 && q == p * p && q * 4096 <= 524 * Square(c)
    ensures p < c
  {
    MulMono(1, p, p);
    if c <= p {
      MulMono(c, p, c);
      MulMono(c, p, p);
    }
  }
}
