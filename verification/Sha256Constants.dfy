/** Where the constants of SHA-256 come from: the first 32 bits behind the point of the cube roots
    of the first 64 primes, and of the square roots of the first eight. */
module Sha256Constants {
  import opened Numbers
  import opened Sha256
  import opened Sha256Words

  // ---- the first 64 primes ----

  const PRIMES: seq<nat> :=
    [2, 3, 5, 7, 11, 13, 17, 19] +
    [23, 29, 31, 37, 41, 43, 47, 53] +
    [59, 61, 67, 71, 73, 79, 83, 89] +
    [97, 101, 103, 107, 109, 113, 127, 131] +
    [137, 139, 149, 151, 157, 163, 167, 173] +
    [179, 181, 191, 193, 197, 199, 211, 223] +
    [227, 229, 233, 239, 241, 251, 257, 263] +
    [269, 271, 277, 281, 283, 293, 307, 311]

  predicate IsPrime(p: nat) { p > 1 && forall d :: 1 < d < p ==> p % d != 0 }

  /** q is the smallest prime above p. */
  predicate NextPrime(p: nat, q: nat) { p < q && IsPrime(q) && forall n :: p < n < q ==> !IsPrime(n) }

  /** No prime up to 17 divides the number, except itself. */
  predicate Trial(n: nat) {
    && (n % 2 != 0 || n == 2) && (n % 3 != 0 || n == 3) && (n % 5 != 0 || n == 5) && (n % 7 != 0 || n == 7)
    && (n % 11 != 0 || n == 11) && (n % 13 != 0 || n == 13) && (n % 17 != 0 || n == 17)
  }

  lemma TrialFails(n: nat)
    requires n > 1 && !Trial(n)
    ensures !IsPrime(n)
  {
  }

  /** A divisor of a number that passes exceeds 17. */
  lemma NoSmallDivisor(n: nat, d: nat, q: nat)
    requires Trial(n) && 1 < d < n && n == d * q
    ensures d > 17
  {
    if d <= 17 {
      SmallDivisor(n, d, q);
    }
  }

  lemma SmallDivisor(n: nat, d: nat, q: nat)
    requires 1 < d <= 17 && d < n && n == d * q
    ensures !Trial(n)
  {
    var p, k := SmallestFactor(d);
    MulAssoc(p, k, q);
    DivModUnique(n, p, k * q, 0);
  }

  lemma SmallestFactor(d: nat) returns (p: nat, k: nat)
    requires 1 < d <= 17
    ensures p in {2, 3, 5, 7, 11, 13, 17} && d == p * k
  {
    p := if d % 2 == 0 then 2 else if d % 3 == 0 then 3 else d;
    k := d / p;
  }

  /** Below 18 * 18 trial division by the primes up to 17 decides. */
  lemma TrialDecides(n: nat)
    requires 1 < n < 324
    ensures IsPrime(n) <==> Trial(n)
  {
    if Trial(n) {
      forall d | 1 < d < n
        ensures n % d != 0
      {
        if n % d == 0 {
          TwoFactors(n, d);
        }
      }
    } else {
      TrialFails(n);
    }
  }

  lemma TwoFactors(n: nat, d: nat)
    requires 1 < d < n < 324 && n % d == 0
    ensures !Trial(n)
  {
    hide Trial;
    var q := n / d;
    assert n == d * q == q * d;
    Cofactor(n, d, q);
    if Trial(n) {
      NoSmallDivisor(n, d, q);
      NoSmallDivisor(n, q, d);
      MulMono(18, d, q);
      assert false;
    }
  }

  lemma Cofactor(n: nat, d: nat, q: nat)
    requires 1 < d < n && n == d * q
    ensures 1 < q < n
  {
    if q <= 1 {
      MulMono(q, 1, d);
    } else {
      MulMono(2, d, q);
    }
  }

  /** None of the numbers between p and q passes. */
  predicate NoneBetween(p: nat, q: nat)
    decreases q - p
  {
    p + 1 >= q || (!Trial(p + 1) && NoneBetween(p + 1, q))
  }

  lemma {:induction false} NoneBetweenMeans(p: nat, q: nat, n: nat)
    requires NoneBetween(p, q) && p < n < q
    ensures !Trial(n)
    decreases q - p
  {
    if n > p + 1 {
      NoneBetweenMeans(p + 1, q, n);
    }
  }

  lemma TrialNext(p: nat, q: nat)
    requires 1 <= p < q < 324 && Trial(q) && NoneBetween(p, q)
    ensures NextPrime(p, q)
  {
    hide Trial, NoneBetween, IsPrime;
    TrialDecides(q);
    forall n | p < n < q
      ensures !IsPrime(n)
    {
      NoneBetweenMeans(p, q, n);
      TrialDecides(n);
    }
  }

  // ---- roots ----

  function Square(x: nat): nat { x * x }

  function Cube(x: nat): nat { x * x * x }

  /** c is the whole part of the cube root of p, and k the first 32 bits behind the point. */
  predicate CubeRoot(p: nat, c: nat, k: nat) {
    k < WORDS && Cube(c * WORDS + k) <= p * Cube(WORDS) < Cube(c * WORDS + k + 1)
  }

  predicate SquareRoot(p: nat, c: nat, k: nat) {
    k < WORDS && Square(c * WORDS + k) <= p * Square(WORDS) < Square(c * WORDS + k + 1)
  }

  /** PRIMES[i] is the next prime, and K256[i] the fraction of its cube root. */
  ghost predicate IsConstant(i: nat)
    requires i < 64 == |PRIMES| == |K256|
  {
    && NextPrime(if i == 0 then 1 else PRIMES[i - 1], PRIMES[i])
    && exists c: nat :: CubeRoot(PRIMES[i], c, WordNumber(K256[i]))
  }

  lemma ConstantAt(i: nat, before: nat, p: nat, c: nat, k: Word, n: nat)
    requires i < 64 == |PRIMES| == |K256| && before == (if i == 0 then 1 else PRIMES[i - 1]) && PRIMES[i] == p
    requires K256[i] == k && WordNumber(k) == n
    requires 1 <= before < p < 324 && Trial(p) && NoneBetween(before, p) && CubeRoot(p, c, n)
    ensures IsConstant(i)
  {
    hide PRIMES, K256, Trial, NoneBetween, NextPrime, CubeRoot, WordNumber;
    TrialNext(before, p);
  }

  lemma Constants0(i: nat)
    requires 0 <= i < 4
    ensures |PRIMES| == |K256| == 64 && IsConstant(i)
  {
    hide IsConstant;
    match i
    case 0 => ConstantAt(i, 1, 2, 1, 0x428a2f98, 0x428a2f98);
    case 1 => ConstantAt(i, 2, 3, 1, 0x71374491, 0x71374491);
    case 2 => ConstantAt(i, 3, 5, 1, 0xb5c0fbcf, 0xb5c0fbcf);
    case _ => ConstantAt(i, 5, 7, 1, 0xe9b5dba5, 0xe9b5dba5);
  }

  lemma Constants4(i: nat)
    requires 4 <= i < 8
    ensures |PRIMES| == |K256| == 64 && IsConstant(i)
  {
    hide IsConstant;
    match i
    case 4 => ConstantAt(i, 7, 11, 2, 0x3956c25b, 0x3956c25b);
    case 5 => ConstantAt(i, 11, 13, 2, 0x59f111f1, 0x59f111f1);
    case 6 => ConstantAt(i, 13, 17, 2, 0x923f82a4, 0x923f82a4);
    case _ => ConstantAt(i, 17, 19, 2, 0xab1c5ed5, 0xab1c5ed5);
  }

  lemma Constants8(i: nat)
    requires 8 <= i < 12
    ensures |PRIMES| == |K256| == 64 && IsConstant(i)
  {
    hide IsConstant;
    match i
    case 8 => ConstantAt(i, 19, 23, 2, 0xd807aa98, 0xd807aa98);
    case 9 => ConstantAt(i, 23, 29, 3, 0x12835b01, 0x12835b01);
    case 10 => ConstantAt(i, 29, 31, 3, 0x243185be, 0x243185be);
    case _ => ConstantAt(i, 31, 37, 3, 0x550c7dc3, 0x550c7dc3);
  }

  lemma Constants12(i: nat)
    requires 12 <= i < 16
    ensures |PRIMES| == |K256| == 64 && IsConstant(i)
  {
    hide IsConstant;
    match i
    case 12 => ConstantAt(i, 37, 41, 3, 0x72be5d74, 0x72be5d74);
    case 13 => ConstantAt(i, 41, 43, 3, 0x80deb1fe, 0x80deb1fe);
    case 14 => ConstantAt(i, 43, 47, 3, 0x9bdc06a7, 0x9bdc06a7);
    case _ => ConstantAt(i, 47, 53, 3, 0xc19bf174, 0xc19bf174);
  }

  lemma Constants16(i: nat)
    requires 16 <= i < 20
    ensures |PRIMES| == |K256| == 64 && IsConstant(i)
  {
    hide IsConstant;
    match i
    case 16 => ConstantAt(i, 53, 59, 3, 0xe49b69c1, 0xe49b69c1);
    case 17 => ConstantAt(i, 59, 61, 3, 0xefbe4786, 0xefbe4786);
    case 18 => ConstantAt(i, 61, 67, 4, 0x0fc19dc6, 0x0fc19dc6);
    case _ => ConstantAt(i, 67, 71, 4, 0x240ca1cc, 0x240ca1cc);
  }

  lemma Constants20(i: nat)
    requires 20 <= i < 24
    ensures |PRIMES| == |K256| == 64 && IsConstant(i)
  {
    hide IsConstant;
    match i
    case 20 => ConstantAt(i, 71, 73, 4, 0x2de92c6f, 0x2de92c6f);
    case 21 => ConstantAt(i, 73, 79, 4, 0x4a7484aa, 0x4a7484aa);
    case 22 => ConstantAt(i, 79, 83, 4, 0x5cb0a9dc, 0x5cb0a9dc);
    case _ => ConstantAt(i, 83, 89, 4, 0x76f988da, 0x76f988da);
  }

  lemma Constants24(i: nat)
    requires 24 <= i < 28
    ensures |PRIMES| == |K256| == 64 && IsConstant(i)
  {
    hide IsConstant;
    match i
    case 24 => ConstantAt(i, 89, 97, 4, 0x983e5152, 0x983e5152);
    case 25 => ConstantAt(i, 97, 101, 4, 0xa831c66d, 0xa831c66d);
    case 26 => ConstantAt(i, 101, 103, 4, 0xb00327c8, 0xb00327c8);
    case _ => ConstantAt(i, 103, 107, 4, 0xbf597fc7, 0xbf597fc7);
  }

  lemma Constants28(i: nat)
    requires 28 <= i < 32
    ensures |PRIMES| == |K256| == 64 && IsConstant(i)
  {
    hide IsConstant;
    match i
    case 28 => ConstantAt(i, 107, 109, 4, 0xc6e00bf3, 0xc6e00bf3);
    case 29 => ConstantAt(i, 109, 113, 4, 0xd5a79147, 0xd5a79147);
    case 30 => ConstantAt(i, 113, 127, 5, 0x06ca6351, 0x06ca6351);
    case _ => ConstantAt(i, 127, 131, 5, 0x14292967, 0x14292967);
  }

  lemma Constants32(i: nat)
    requires 32 <= i < 36
    ensures |PRIMES| == |K256| == 64 && IsConstant(i)
  {
    hide IsConstant;
    match i
    case 32 => ConstantAt(i, 131, 137, 5, 0x27b70a85, 0x27b70a85);
    case 33 => ConstantAt(i, 137, 139, 5, 0x2e1b2138, 0x2e1b2138);
    case 34 => ConstantAt(i, 139, 149, 5, 0x4d2c6dfc, 0x4d2c6dfc);
    case _ => ConstantAt(i, 149, 151, 5, 0x53380d13, 0x53380d13);
  }

  lemma Constants36(i: nat)
    requires 36 <= i < 40
    ensures |PRIMES| == |K256| == 64 && IsConstant(i)
  {
    hide IsConstant;
    match i
    case 36 => ConstantAt(i, 151, 157, 5, 0x650a7354, 0x650a7354);
    case 37 => ConstantAt(i, 157, 163, 5, 0x766a0abb, 0x766a0abb);
    case 38 => ConstantAt(i, 163, 167, 5, 0x81c2c92e, 0x81c2c92e);
    case _ => ConstantAt(i, 167, 173, 5, 0x92722c85, 0x92722c85);
  }

  lemma Constants40(i: nat)
    requires 40 <= i < 44
    ensures |PRIMES| == |K256| == 64 && IsConstant(i)
  {
    hide IsConstant;
    match i
    case 40 => ConstantAt(i, 173, 179, 5, 0xa2bfe8a1, 0xa2bfe8a1);
    case 41 => ConstantAt(i, 179, 181, 5, 0xa81a664b, 0xa81a664b);
    case 42 => ConstantAt(i, 181, 191, 5, 0xc24b8b70, 0xc24b8b70);
    case _ => ConstantAt(i, 191, 193, 5, 0xc76c51a3, 0xc76c51a3);
  }

  lemma Constants44(i: nat)
    requires 44 <= i < 48
    ensures |PRIMES| == |K256| == 64 && IsConstant(i)
  {
    hide IsConstant;
    match i
    case 44 => ConstantAt(i, 193, 197, 5, 0xd192e819, 0xd192e819);
    case 45 => ConstantAt(i, 197, 199, 5, 0xd6990624, 0xd6990624);
    case 46 => ConstantAt(i, 199, 211, 5, 0xf40e3585, 0xf40e3585);
    case _ => ConstantAt(i, 211, 223, 6, 0x106aa070, 0x106aa070);
  }

  lemma Constants48(i: nat)
    requires 48 <= i < 52
    ensures |PRIMES| == |K256| == 64 && IsConstant(i)
  {
    hide IsConstant;
    match i
    case 48 => ConstantAt(i, 223, 227, 6, 0x19a4c116, 0x19a4c116);
    case 49 => ConstantAt(i, 227, 229, 6, 0x1e376c08, 0x1e376c08);
    case 50 => ConstantAt(i, 229, 233, 6, 0x2748774c, 0x2748774c);
    case _ => ConstantAt(i, 233, 239, 6, 0x34b0bcb5, 0x34b0bcb5);
  }

  lemma Constants52(i: nat)
    requires 52 <= i < 56
    ensures |PRIMES| == |K256| == 64 && IsConstant(i)
  {
    hide IsConstant;
    match i
    case 52 => ConstantAt(i, 239, 241, 6, 0x391c0cb3, 0x391c0cb3);
    case 53 => ConstantAt(i, 241, 251, 6, 0x4ed8aa4a, 0x4ed8aa4a);
    case 54 => ConstantAt(i, 251, 257, 6, 0x5b9cca4f, 0x5b9cca4f);
    case _ => ConstantAt(i, 257, 263, 6, 0x682e6ff3, 0x682e6ff3);
  }

  lemma Constants56(i: nat)
    requires 56 <= i < 60
    ensures |PRIMES| == |K256| == 64 && IsConstant(i)
  {
    hide IsConstant;
    match i
    case 56 => ConstantAt(i, 263, 269, 6, 0x748f82ee, 0x748f82ee);
    case 57 => ConstantAt(i, 269, 271, 6, 0x78a5636f, 0x78a5636f);
    case 58 => ConstantAt(i, 271, 277, 6, 0x84c87814, 0x84c87814);
    case _ => ConstantAt(i, 277, 281, 6, 0x8cc70208, 0x8cc70208);
  }

  lemma Constants60(i: nat)
    requires 60 <= i < 64
    ensures |PRIMES| == |K256| == 64 && IsConstant(i)
  {
    hide IsConstant;
    match i
    case 60 => ConstantAt(i, 281, 283, 6, 0x90befffa, 0x90befffa);
    case 61 => ConstantAt(i, 283, 293, 6, 0xa4506ceb, 0xa4506ceb);
    case 62 => ConstantAt(i, 293, 307, 6, 0xbef9a3f7, 0xbef9a3f7);
    case _ => ConstantAt(i, 307, 311, 6, 0xc67178f2, 0xc67178f2);
  }

  /** The round constants are the first 32 bits of the fractional parts of the cube roots of the
      first 64 primes. */
  lemma RoundConstants(i: nat)
    requires i < 64
    ensures |PRIMES| == |K256| == 64 && NextPrime(if i == 0 then 1 else PRIMES[i - 1], PRIMES[i])
    ensures exists c: nat :: CubeRoot(PRIMES[i], c, WordNumber(K256[i]))
  {
    hide PRIMES, K256, NextPrime, CubeRoot, WordNumber;
    match i / 4
    case 0 => Constants0(i);
    case 1 => Constants4(i);
    case 2 => Constants8(i);
    case 3 => Constants12(i);
    case 4 => Constants16(i);
    case 5 => Constants20(i);
    case 6 => Constants24(i);
    case 7 => Constants28(i);
    case 8 => Constants32(i);
    case 9 => Constants36(i);
    case 10 => Constants40(i);
    case 11 => Constants44(i);
    case 12 => Constants48(i);
    case 13 => Constants52(i);
    case 14 => Constants56(i);
    case _ => Constants60(i);
  }

  lemma FirstPrimes()
    ensures |PRIMES| == 64 && PRIMES[0] == 2 && PRIMES[1] == 3 && PRIMES[2] == 5 && PRIMES[3] == 7
    ensures PRIMES[4] == 11 && PRIMES[5] == 13 && PRIMES[6] == 17 && PRIMES[7] == 19
  {
  }

  lemma RootAt(j: nat, p: nat, c: nat, k: Word, n: nat)
    requires j < 8 && |PRIMES| == 64 && PRIMES[j] == p && RegAt(INITIAL, j) == k && WordNumber(k) == n
    requires SquareRoot(p, c, n)
    ensures exists d: nat :: SquareRoot(PRIMES[j], d, WordNumber(RegAt(INITIAL, j)))
  {
    hide PRIMES, SquareRoot, WordNumber, RegAt;
  }

  /** The initial hash value comes from the square roots of the first eight primes. */
  lemma InitialValue(j: nat)
    requires j < 8
    ensures |PRIMES| == 64 && exists c: nat :: SquareRoot(PRIMES[j], c, WordNumber(RegAt(INITIAL, j)))
  {
    FirstPrimes();
    hide PRIMES;
    match j
    case 0 => RootAt(j, 2, 1, 0x6a09e667, 0x6a09e667);
    case 1 => RootAt(j, 3, 1, 0xbb67ae85, 0xbb67ae85);
    case 2 => RootAt(j, 5, 2, 0x3c6ef372, 0x3c6ef372);
    case 3 => RootAt(j, 7, 2, 0xa54ff53a, 0xa54ff53a);
    case 4 => RootAt(j, 11, 3, 0x510e527f, 0x510e527f);
    case 5 => RootAt(j, 13, 3, 0x9b05688c, 0x9b05688c);
    case 6 => RootAt(j, 17, 4, 0x1f83d9ab, 0x1f83d9ab);
    case _ => RootAt(j, 19, 4, 0x5be0cd19, 0x5be0cd19);
  }
}
