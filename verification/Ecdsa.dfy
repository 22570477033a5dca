/** ECDSA signing and validation over a curve whose base point has the group order. */
module Ecdsa {
  import opened Numbers
  import opened Limbs
  import opened Field
  import opened Inversion
  import opened Barrett
  import opened PointMultiplication

  /** The base point generates a group whose order is the prime modulus. */
  ghost predicate Setting(c: Curve, g: Point) {
    Lawful(c) && c.on(g) && Mul(c, g, N) == INFINITY && Prime(N)
  }

  /** x(kG) reduced with eight limbs; r8 is the limb above, which the reduction also reads. */
  function SignatureR(c: Curve, g: Point, k: nat, r8: nat): nat {
    var x := Mul(c, g, k).x;
    ModO(WORDS, x, x + r8 * Base(WORDS))
  }

  /** s is the solution of the signing equation. */
  predicate SignatureS(d: nat, e: nat, k: nat, r: nat, s: nat) {
    s < N && s * k % N == (e + r * d) % N
  }

  /** Signing gives up: the nonce, r or the hash term is zero. */
  predicate Fails(d: nat, e: nat, k: nat, r: nat) {
    k == 0 || r == 0 || (e + r * d) % N == 0
  }

  lemma Failing(d: nat, e: nat, k: nat, r: nat)
    ensures Fails(d, e, k, r) <==> k == 0 || r == 0 || (e + r * d) % N == 0
  {
  }

  // ---- residues ----

  lemma ModTimes(a: nat, b: nat, m: nat)
    requires m > 0
    ensures a % m * b % m == a * b % m
  {
    var q := a / m;
    assert a == q * m + a % m;
    assert a * b == (q * m) * b + a % m * b;
    assert (q * m) * b == (q * b) * m;
    var y := a % m * b;
    DivModUnique(a * b, m, q * b + y / m, y % m);
  }

  lemma ModPlus(a: nat, b: nat, m: nat)
    requires m > 0
    ensures (a % m + b) % m == (a + b) % m
  {
    var q := a / m;
    var y := a % m + b;
    DivModUnique(a + b, m, q + y / m, y % m);
  }

  lemma PlusCongruent(a: nat, x: nat, y: nat, m: nat)
    requires m > 0 && x % m == y % m
    ensures (a + x) % m == (a + y) % m
  {
    ModPlus(x, a, m);
    ModPlus(y, a, m);
  }

  lemma TimesCongruent(a: nat, x: nat, y: nat, m: nat)
    requires m > 0 && x % m == y % m
    ensures x * a % m == y * a % m
  {
    ModTimes(x, a, m);
    ModTimes(y, a, m);
  }

  /** The reduced products add up to the product of w and e + r * d. */
  lemma CommonFactor(d: nat, e: nat, r: nat, w: nat, m: nat)
    requires m > 0
    ensures (e * w % m + Times(d, r * w % m)) % m == (e + r * d) * w % m
  {
    var u2 := r * w % m;
    ModPlus(e * w, Times(d, u2), m);
    ModTimes(r * w, d, m);
    PlusCongruent(e * w, u2 * d, r * w * d, m);
    FactorOut(e, w, r, d);
  }

  /** The two scalars of validation add up to k. */
  lemma ScalarsAddUp(d: nat, e: nat, k: nat, r: nat, s: nat, w: nat, m: nat)
    requires m > 1 && s * w % m == 1 && s * k % m == (e + r * d) % m
    ensures (e * w % m + Times(d, r * w % m)) % m == k % m
  {
    CommonFactor(d, e, r, w, m);
    SolvesForK(e + r * d, k, s, w, m);
  }

  /** Multiplying the signing equation by the inverse of s leaves k. */
  lemma SolvesForK(total: nat, k: nat, s: nat, w: nat, m: nat)
    requires m > 1 && s * w % m == 1 && s * k % m == total % m
    ensures total * w % m == k % m
  {
    TimesCongruent(w, total, s * k, m);
    SwapFactors(s, k, w);
    UnitFactor(k, s * w, m);
  }

  /** A factor congruent to one changes nothing. */
  lemma UnitFactor(k: nat, p: nat, m: nat)
    requires m > 1 && p % m == 1
    ensures p * k % m == k % m
  {
    DivModUnique(1, m, 0, 1);
    TimesCongruent(k, p, 1, m);
  }

  lemma FactorOut(e: nat, w: nat, r: nat, d: nat)
    ensures e * w + r * w * d == (e + r * d) * w
  {
    MulAssoc(r, w, d);
    MulAssoc(r, d, w);
  }

  lemma SwapFactors(s: nat, k: nat, w: nat)
    ensures s * k * w == s * w * k
  {
    MulAssoc(s, k, w);
    MulAssoc(s, w, k);
  }

  /** Under the public key dG validation computes kG for every k that solves the signing
      equation, whatever r and s are. */
  lemma ValidationPoint(c: Curve, g: Point, d: nat, e: nat, k: nat, r: nat, s: nat, w: nat)
    requires Setting(c, g) && IsInverse(s, w, N) && s * k % N == (e + r * d) % N
    ensures c.add(Mul(c, g, e * w % N), Mul(c, Mul(c, g, d), r * w % N)) == Mul(c, g, k)
  {
    hide Lawful, Prime, IsInverse;
    InverseProduct(s, w, N);
    var u1, u2 := e * w % N, r * w % N;
    MultiplesAdd(c, g, d, u1, u2);
    ScalarsAddUp(d, e, k, r, s, w, N);
    SameMultiple(c, g, u1 + Times(d, u2), k, N);
  }

  lemma MultiplesAdd(c: Curve, g: Point, d: nat, u1: nat, u2: nat)
    requires Lawful(c) && c.on(g)
    ensures c.add(Mul(c, g, u1), Mul(c, Mul(c, g, d), u2)) == Mul(c, g, u1 + Times(d, u2))
  {
    hide Lawful, Times;
    MulMul(c, g, d, u2);
    MulAdd(c, g, u1, Times(d, u2));
  }

  lemma SameMultiple(c: Curve, g: Point, a: nat, b: nat, n: nat)
    requires Lawful(c) && c.on(g) && n > 0 && Mul(c, g, n) == INFINITY && a % n == b % n
    ensures Mul(c, g, a) == Mul(c, g, b)
  {
    hide Lawful;
    MulModOrder(c, g, a, n);
    MulModOrder(c, g, b, n);
  }

  /** Below the order exactly one k solves the signing equation for given r and s. */
  lemma OneNonce(d: nat, e: nat, r: nat, s: nat, w: nat, k: nat)
    requires IsInverse(s, w, N) && k < N
    ensures s * k % N == (e + r * d) % N <==> k == (e + r * d) * w % N
  {
    NonceIsOnly(e + r * d, s, w, k, N);
    NonceSolves(e + r * d, s, w, N);
  }

  lemma NonceIsOnly(z: nat, s: nat, w: nat, k: nat, n: nat)
    requires IsInverse(s, w, n) && k < n
    ensures s * k % n == z % n ==> k == z * w % n
  {
    if s * k % n == z % n {
      SolvesForK(z, k, s, w, n);
      DivModUnique(k, n, 0, k);
    }
  }

  lemma NonceSolves(z: nat, s: nat, w: nat, n: nat)
    requires IsInverse(s, w, n)
    ensures s * (z * w % n) % n == z % n
  {
    hide IsInverse;
    InverseProduct(s, w, n);
    ModTimes(z * w, s, n);
    UnitFactor(z, s * w, n);
    Reorder(z, w, s);
    Commute(s, z * w % n);
  }

  lemma InverseProduct(s: nat, w: nat, n: nat)
    requires IsInverse(s, w, n)
    ensures n > 1 && s * w % n == 1 && s * w >= 0
  {
    MulMono(0, s, w);
  }

  lemma Commute(a: nat, b: nat)
    ensures a * b == b * a
  {
  }

  lemma Reorder(z: nat, w: nat, s: nat)
    ensures z * w * s == s * w * z
  {
    MulAssoc(z, w, s);
    MulAssoc(s, w, z);
  }

  // ---- the methods ----

  lemma ModOReduces(length: nat, a: nat)
    requires a < N * Base(WORDS) && length > WORDS
    ensures ModO(length, a, a % Base(WORDS + 1)) == a % N
  {
    ModOExact(length, a);
  }

  /** Reduces 9 or 16 limbs below n times 2^256. */
  method Reduce(a: array<Limb>, result: array<Limb>, length: nat)
    requires (length == WORDS + 1 || length == 2 * WORDS) && length <= a.Length && result.Length > WORDS
    requires Num(a[..], 0, length) < N * Base(WORDS)
    modifies result
    ensures Num(result[..], 0, WORDS) == old(Num(a[..], 0, length)) % N
    ensures forall i :: WORDS < i < result.Length ==> result[i] == old(result[i])
  {
    hide Num, Base, ModO;
    ModOReduces(length, Num(a[..], 0, length));
    LowLimbsMod(a[..], WORDS + 1, length);
    var _ := FieldModO(a, result, length);
  }

  lemma ProductFits(x: nat, y: nat, n: nat, b: nat)
    requires x <= n && y < b && n > 0
    ensures 0 <= x * y < n * b
  {
    MulMono(x, n, y);
    MulMono(y, b - 1, n);
    MulMono(0, x, y);
    assert n * (b - 1) == n * b - n;
  }

  /** What r is for every nonce: the x coordinate if that is at most the order, and otherwise its
      residue together with what the limb above adds. */
  lemma SignatureRExact(c: Curve, g: Point, k: nat, r8: nat)
    requires Setting(c, g) && r8 < 0x1_0000_0000
    ensures Mul(c, g, k).x < Base(WORDS)
    ensures var x := Mul(c, g, k).x;
            SignatureR(c, g, k, r8) == if x <= N then x else (x + r8 * Base(WORDS)) % N
  {
    hide Lawful, Prime, Base, ModO;
    MulOn(c, g, k);
    OnCurve(c, Mul(c, g, k), g);
    ModOShort(Mul(c, g, k).x, r8);
  }

  lemma RAtMostOrder(c: Curve, g: Point, k: nat, r8: nat)
    ensures SignatureR(c, g, k, r8) <= N
  {
    hide Rest;
  }

  /** A multiple of the order gives the neutral point, whose x coordinate is zero. */
  lemma NonzeroR(c: Curve, g: Point, k: nat, r8: nat)
    requires Setting(c, g)
    ensures SignatureR(c, g, k, r8) <= N
    ensures k % N == 0 ==> SignatureR(c, g, k, r8) == 0
  {
    RAtMostOrder(c, g, k, r8);
    hide Lawful, Prime;
    MulModOrder(c, g, k, N);
  }

  /** tmp1 receives the product of x and y, result its residue. */
  method MultReduce(x: array<Limb>, y: array<Limb>, tmp: array<Limb>, result: array<Limb>)
    requires x.Length >= WORDS && y.Length >= WORDS && tmp.Length == 2 * WORDS && result.Length > WORDS
    requires tmp != x && tmp != y && tmp != result
    requires Num(x[..], 0, WORDS) <= N || Num(y[..], 0, WORDS) <= N
    modifies tmp, result
    ensures Num(result[..], 0, WORDS) == old(Num(x[..], 0, WORDS) * Num(y[..], 0, WORDS)) % N
    ensures forall i :: WORDS < i < result.Length ==> result[i] == old(result[i])
  {
    hide Num, Base;
    NumFits(x[..], 0, WORDS);
    NumFits(y[..], 0, WORDS);
    ghost var a, b := Num(x[..], 0, WORDS), Num(y[..], 0, WORDS);
    if a <= N {
      ProductFits(a, b, N, Base(WORDS));
    } else {
      ProductFits(b, a, N, Base(WORDS));
      assert a * b == b * a;
    }
    FieldMult(x, y, tmp, WORDS);
    Reduce(tmp, result, 2 * WORDS);
  }

  lemma SumFits(e: nat, z: nat, b: nat)
    requires e < b && z < N && b == Base(WORDS)
    ensures e + z < N * b
  {
    Tables();
    hide Base;
    MulMono(2, N, b);
  }

  lemma AppendCarry(s: seq<Limb>, t: seq<Limb>)
    requires |s| > WORDS && |t| == |s| && forall i :: 0 <= i < WORDS ==> t[i] == s[i]
    ensures Num(t, 0, WORDS + 1) == Num(s, 0, WORDS) + t[WORDS] * Base(WORDS)
  {
    NumFrame(s, t, 0, WORDS);
  }

  /** tmp3 receives e + r * d modulo the order. */
  method HashTerm(r: array<Limb>, d: array<Limb>, e: array<Limb>, tmp1: array<Limb>, tmp2: array<Limb>,
                  tmp3: array<Limb>)
    requires r.Length >= WORDS && d.Length >= WORDS && e.Length >= WORDS
    requires tmp1.Length == 2 * WORDS && tmp2.Length == tmp3.Length == WORDS + 1
    requires tmp1 !in {r, d, e, tmp2, tmp3} && tmp2 !in {r, d, e, tmp3} && tmp3 !in {r, d, e}
    requires Num(r[..], 0, WORDS) <= N
    modifies tmp1, tmp2, tmp3
    ensures Num(tmp3[..], 0, WORDS) == (Num(e[..], 0, WORDS) + Num(r[..], 0, WORDS) * Num(d[..], 0, WORDS)) % N
  {
    hide Num, Base;
    ghost var rd := Num(r[..], 0, WORDS) * Num(d[..], 0, WORDS);
    ghost var ev := Num(e[..], 0, WORDS);
    MultReduce(r, d, tmp1, tmp2);
    NumFits(e[..], 0, WORDS);
    SumFits(ev, rd % N, Base(WORDS));
    var carry := Add(e, tmp2, tmp1, 0, WORDS);
    ghost var low := tmp1[..];
    tmp1[8] := carry;
    AppendCarry(low, tmp1[..]);
    Reduce(tmp1, tmp3, WORDS + 1);
    ModPlus(rd, ev, N);
  }

  lemma SwapAround(w: nat, y: nat, k: nat)
    ensures w * y * k == k * w * y
  {
    MulAssoc(w, y, k);
    MulAssoc(k, w, y);
    MulAssoc(w, k, y);
    assert y * k == k * y && w * k == k * w;
  }

  lemma Solves(y: nat, k: nat, w: nat, m: nat)
    requires m > 1 && k * w % m == 1 && y < m
    ensures w * y % m * k % m == y
  {
    MulMono(0, w, y);
    MulMono(0, k, w);
    ModTimes(w * y, k, m);
    SwapAround(w, y, k);
    UnitFactor(y, k * w, m);
    DivModUnique(y, m, 0, y);
  }

  lemma SolvesEquation(z: nat, k: nat, w: nat, s: nat, m: nat)
    requires m > 1 && k * w % m == 1 && s == w * (z % m) % m
    ensures s * k % m == z % m
  {
    Solves(z % m, k, w, m);
  }

  /** s is zero only if e + r * d is. */
  lemma ZeroSolution(z: nat, k: nat, s: nat, m: nat)
    requires m > 1 && s * k % m == z % m && s < m
    ensures s == 0 ==> z % m == 0
  {
  }

  lemma SolutionOfZero(w: nat, m: nat)
    requires m > 1
    ensures w * 0 % m == 0
  {
  }

  /** s receives the solution of the signing equation for the value z in tmp3. */
  method SolveS(k: array<Limb>, tmp1: array<Limb>, tmp2: array<Limb>, tmp3: array<Limb>, s: array<Limb>, ghost z: nat)
    requires k.Length >= WORDS && tmp1.Length == 2 * WORDS && tmp2.Length == tmp3.Length == WORDS + 1
    requires s.Length > WORDS
    requires tmp1 !in {k, tmp2, tmp3, s} && tmp2 !in {k, tmp3, s} && s !in {k, tmp3}
    requires Prime(N) && Num(k[..], 0, WORDS) % N != 0 && Num(tmp3[..], 0, WORDS) == z % N
    modifies tmp1, tmp2, s
    ensures Num(s[..], 0, WORDS) < N && Num(s[..], 0, WORDS) * Num(k[..], 0, WORDS) % N == z % N
    ensures Num(s[..], 0, WORDS) == 0 <==> z % N == 0
  {
    hide Num, Base, Prime;
    ghost var kv := Num(k[..], 0, WORDS);
    InverseModOrder(k, tmp2);
    ghost var w := Num(tmp2[..], 0, WORDS);
    MultReduce(tmp2, tmp3, tmp1, s);
    SolvesEquation(z, kv, w, Num(s[..], 0, WORDS), N);
    ZeroSolution(z, kv, Num(s[..], 0, WORDS), N);
    SolutionOfZero(w, N);
  }

  /** Signs the hash e with the private key d and the nonce k. */
  method SignHash(c: Curve, gx: array<Limb>, gy: array<Limb>, d: array<Limb>, e: array<Limb>, k: array<Limb>,
                  r: array<Limb>, s: array<Limb>) returns (res: int)
    requires gx.Length >= WORDS && gy.Length >= WORDS && d.Length >= WORDS && e.Length >= WORDS && k.Length >= WORDS
    requires r.Length > WORDS && s.Length > WORDS && r != s && r !in {gx, gy, d, e, k} && s !in {gx, gy, d, e, k}
    requires Setting(c, PointAt(gx, gy))
    modifies r, s
    ensures var kv, dv, ev := Num(k[..], 0, WORDS), Num(d[..], 0, WORDS), Num(e[..], 0, WORDS);
            var rv := SignatureR(c, PointAt(gx, gy), kv, old(r[WORDS]));
            && (res == -1 <==> kv == 0 || rv == 0 || (ev + rv * dv) % N == 0)
            && (res == -1 || res == 0)
            && (res == 0 ==> Num(r[..], 0, WORDS) == rv && SignatureS(dv, ev, kv, rv, Num(s[..], 0, WORDS))
                             && Num(s[..], 0, WORDS) != 0)
  {
    hide Num, Base, Lawful, Prime, ModO;
    var tmp1, tmp2, tmp3 := new Limb[16](_ => 0), new Limb[9](_ => 0), new Limb[9](_ => 0);
    var zero := IsZero(k, WORDS);
    if zero {
      return -1;
    }
    PointX(c, gx, gy, k, r, tmp1);
    zero := IsZero(r, WORDS);
    if zero {
      return -1;
    }
    NonzeroR(c, PointAt(gx, gy), Num(k[..], 0, WORDS), old(r[WORDS]));
    HashTerm(r, d, e, tmp1, tmp2, tmp3);
    SolveS(k, tmp1, tmp2, tmp3, s, Num(e[..], 0, WORDS) + Num(r[..], 0, WORDS) * Num(d[..], 0, WORDS));
    zero := IsZero(s, WORDS);
    return if zero then -1 else 0;
  }

  /** r receives the reduced x coordinate of kG. */
  method PointX(c: Curve, gx: array<Limb>, gy: array<Limb>, k: array<Limb>, r: array<Limb>, tmp1: array<Limb>)
    requires gx.Length >= WORDS && gy.Length >= WORDS && k.Length >= WORDS && r.Length > WORDS && tmp1.Length >= WORDS
    requires r !in {gx, gy, k, tmp1} && tmp1 !in {gx, gy, k} && Setting(c, PointAt(gx, gy))
    modifies r, tmp1
    ensures Num(r[..], 0, WORDS) == SignatureR(c, PointAt(gx, gy), Num(k[..], 0, WORDS), old(r[WORDS]))
  {
    hide Num, Base, Lawful, Prime, ModO;
    EcMult(c, gx, gy, k, r, tmp1);
    AppendCarry(r[..], r[..]);
    var _ := FieldModO(r, r, WORDS);
  }

  // ---- validation ----

  /** tmp receives the multiple of the point whose scalar is the product of v and w. */
  method ScaledPoint(c: Curve, px: array<Limb>, py: array<Limb>, v: array<Limb>, w: array<Limb>, tmp: array<Limb>,
                     x: array<Limb>, y: array<Limb>)
    requires px.Length >= WORDS && py.Length >= WORDS && v.Length >= WORDS && w.Length >= WORDS
    requires tmp.Length == 2 * WORDS
    requires x.Length >= WORDS && y.Length >= WORDS && x != y && tmp !in {px, py, v, w}
    requires Lawful(c) && c.on(PointAt(px, py))
    requires Num(w[..], 0, WORDS) < N && x !in {tmp, px, py} && y !in {tmp, px, py}
    modifies tmp, x, y
    ensures PointAt(x, y) == old(Mul(c, PointAt(px, py), Num(v[..], 0, WORDS) * Num(w[..], 0, WORDS) % N))
    ensures c.on(PointAt(x, y))
  {
    hide Num, Base, Lawful;
    var u := new Limb[9](_ => 0);
    MultReduce(v, w, tmp, u);
    EcMult(c, px, py, u, x, y);
  }

  /** Compares r with the x coordinate of the sum of the two multiples. */
  method SameX(c: Curve, gx: array<Limb>, gy: array<Limb>, x: array<Limb>, y: array<Limb>, e: array<Limb>,
               r: array<Limb>, s: array<Limb>) returns (same: bool, ghost w: nat)
    requires gx.Length >= WORDS && gy.Length >= WORDS && x.Length >= WORDS && y.Length >= WORDS
    requires e.Length >= WORDS && r.Length >= WORDS && s.Length >= WORDS
    requires Setting(c, PointAt(gx, gy)) && c.on(PointAt(x, y)) && Num(s[..], 0, WORDS) % N != 0
    ensures IsInverse(Num(s[..], 0, WORDS), w, N)
    ensures same <==> c.add(Mul(c, PointAt(gx, gy), Num(e[..], 0, WORDS) * w % N),
                            Mul(c, PointAt(x, y), Num(r[..], 0, WORDS) * w % N)).x == Num(r[..], 0, WORDS)
  {
    hide Num, Base, Lawful, Prime, IsInverse, PointAt;
    var wv := new Limb[8](_ => 0);
    InverseModOrder(s, wv);
    w := Num(wv[..], 0, WORDS);
    InverseBelow(Num(s[..], 0, WORDS), w, N);
    var sumX, sumY := new Limb[8](_ => 0), new Limb[8](_ => 0);
    SumOfMultiples(c, gx, gy, x, y, e, r, wv, sumX, sumY);
    same := IsSame(sumX, r, WORDS);
  }

  /** What the comparison with the sum of the multiples decides. */
  lemma Judgement(c: Curve, g: Point, q: Point, e: nat, r: nat, s: nat, w: nat, same: bool)
    requires Setting(c, g) && IsInverse(s, w, N)
    requires same <==> c.add(Mul(c, g, e * w % N), Mul(c, q, r * w % N)).x == r
    ensures forall v: nat :: IsInverse(s, v, N) ==>
      (same <==> c.add(Mul(c, g, e * v % N), Mul(c, q, r * v % N)).x == r)
    ensures forall d: nat, k: nat :: q == Mul(c, g, d) && s * k % N == (e + r * d) % N ==>
      (same <==> Mul(c, g, k).x == r)
  {
    hide Lawful, Prime, IsInverse;
    forall v: nat | IsInverse(s, v, N)
      ensures v == w
    {
      InverseUnique(s, v, w, N);
    }
    forall d: nat, k: nat | q == Mul(c, g, d) && s * k % N == (e + r * d) % N
      ensures same <==> Mul(c, g, k).x == r
    {
      ValidationPoint(c, g, d, e, k, r, s, w);
    }
  }

  /** Checks the signature (r, s) of the hash e under the public key (x, y): under the key dG the
      answer is 0 if and only if r is x(kG) for the k that solves the signing equation. */
  method Validate(c: Curve, gx: array<Limb>, gy: array<Limb>, x: array<Limb>, y: array<Limb>, e: array<Limb>,
                  r: array<Limb>, s: array<Limb>) returns (res: int, ghost w: nat)
    requires gx.Length >= WORDS && gy.Length >= WORDS && x.Length >= WORDS && y.Length >= WORDS
    requires e.Length >= WORDS && r.Length >= WORDS && s.Length >= WORDS
    requires Setting(c, PointAt(gx, gy)) && c.on(PointAt(x, y)) && Num(s[..], 0, WORDS) % N != 0
    ensures (res == 0 || res == -1) && IsInverse(Num(s[..], 0, WORDS), w, N)
    ensures forall v: nat :: IsInverse(Num(s[..], 0, WORDS), v, N) ==>
      (res == 0 <==> c.add(Mul(c, PointAt(gx, gy), Num(e[..], 0, WORDS) * v % N),
                           Mul(c, PointAt(x, y), Num(r[..], 0, WORDS) * v % N)).x == Num(r[..], 0, WORDS))
    ensures forall d: nat, k: nat ::
      PointAt(x, y) == Mul(c, PointAt(gx, gy), d)
      && Num(s[..], 0, WORDS) * k % N == (Num(e[..], 0, WORDS) + Num(r[..], 0, WORDS) * d) % N ==>
        (res == 0 <==> Mul(c, PointAt(gx, gy), k).x == Num(r[..], 0, WORDS))
  {
    hide Num, Base, Lawful, Prime, IsInverse, PointAt;
    var same;
    same, w := SameX(c, gx, gy, x, y, e, r, s);
    Judgement(c, PointAt(gx, gy), PointAt(x, y), Num(e[..], 0, WORDS), Num(r[..], 0, WORDS), Num(s[..], 0, WORDS), w,
              same);
    res := if same then 0 else -1;
  }

  lemma SameProducts(a: nat, v: nat, w: nat)
    ensures a * w * v == a * v * w
  {
    MulAssoc(a, w, v);
    MulAssoc(a, v, w);
    assert w * v == v * w;
  }

  /** A number has only one inverse. */
  lemma InverseUnique(a: nat, v: nat, w: nat, m: nat)
    requires IsInverse(a, v, m) && IsInverse(a, w, m)
    ensures v == w
  {
    MulMono(0, a, v);
    MulMono(0, a, w);
    UnitFactor(v, a * w, m);
    UnitFactor(w, a * v, m);
    SameProducts(a, v, w);
    DivModUnique(v, m, 0, v);
    DivModUnique(w, m, 0, w);
  }

  method InverseModOrder(s: array<Limb>, w: array<Limb>)
    requires s.Length >= WORDS && w.Length >= WORDS && Prime(N) && Num(s[..], 0, WORDS) % N != 0
    modifies w
    ensures IsInverse(old(Num(s[..], 0, WORDS)), Num(w[..], 0, WORDS), N)
    ensures forall i :: WORDS <= i < w.Length ==> w[i] == old(w[i])
  {
    hide Num, Base, Prime, IsInverse;
    var order := Table(ORDER_M);
    var reducer := Table(ORDER_R);
    Tables();
    var _ := FieldInv(s, order, reducer, w);
  }

  /** The sum of the two multiples that validation takes. */
  method SumOfMultiples(c: Curve, gx: array<Limb>, gy: array<Limb>, x: array<Limb>, y: array<Limb>, e: array<Limb>,
                        r: array<Limb>, w: array<Limb>, sumX: array<Limb>, sumY: array<Limb>)
    requires gx.Length >= WORDS && gy.Length >= WORDS && x.Length >= WORDS && y.Length >= WORDS
    requires e.Length >= WORDS && r.Length >= WORDS && w.Length >= WORDS && Num(w[..], 0, WORDS) < N
    requires sumX.Length >= WORDS && sumY.Length >= WORDS && sumX != sumY
    requires Lawful(c) && c.on(PointAt(gx, gy)) && c.on(PointAt(x, y))
    modifies sumX, sumY
    ensures Num(sumX[..], 0, WORDS)
         == old(c.add(Mul(c, PointAt(gx, gy), Num(e[..], 0, WORDS) * Num(w[..], 0, WORDS) % N),
                      Mul(c, PointAt(x, y), Num(r[..], 0, WORDS) * Num(w[..], 0, WORDS) % N)).x)
  {
    hide Num, Base, Lawful;
    var tmp := new Limb[16](_ => 0);
    var tmp1X, tmp1Y := new Limb[8](_ => 0), new Limb[8](_ => 0);
    var tmp2X, tmp2Y := new Limb[8](_ => 0), new Limb[8](_ => 0);
    ScaledPoint(c, gx, gy, e, w, tmp, tmp1X, tmp1Y);
    ScaledPoint(c, x, y, r, w, tmp, tmp2X, tmp2Y);
    EcAdd(c, tmp1X, tmp1Y, tmp2X, tmp2Y, sumX, sumY);
  }

  lemma InverseBelow(a: nat, b: nat, m: nat)
    requires IsInverse(a, b, m)
    ensures b < m
  {
  }

  // ---- the round trip ----

  /** An honest signature validates if and only if x(kG) does not exceed the order: a larger
      x is reduced when signing but not when validating. */
  lemma HonestSignature(c: Curve, g: Point, d: nat, e: nat, k: nat, r8: nat, s: nat, w: nat)
    requires Setting(c, g) && IsInverse(s, w, N) && SignatureS(d, e, k, SignatureR(c, g, k, r8), s)
    ensures var r := SignatureR(c, g, k, r8);
            c.add(Mul(c, g, e * w % N), Mul(c, Mul(c, g, d), r * w % N)).x == r <==> Mul(c, g, k).x <= N
  {
    hide Lawful, Prime, Rest, Num, Base;
    ValidationPoint(c, g, d, e, k, SignatureR(c, g, k, r8), s, w);
  }

  /** Signs with d and validates under dG. Signing fails exactly when k, r or e + r * d is zero
      modulo the order, and otherwise validating succeeds exactly when x(kG) is at most the
      order. */
  method SignThenValidate(c: Curve, gx: array<Limb>, gy: array<Limb>, d: array<Limb>, e: array<Limb>, k: array<Limb>)
    returns (signed: int, valid: int)
    requires gx.Length >= WORDS && gy.Length >= WORDS && d.Length >= WORDS && e.Length >= WORDS && k.Length >= WORDS
    requires Setting(c, PointAt(gx, gy))
    ensures var kv, dv, ev := Num(k[..], 0, WORDS), Num(d[..], 0, WORDS), Num(e[..], 0, WORDS);
            var rv := SignatureR(c, PointAt(gx, gy), kv, 0);
            && (signed == -1 <==> Fails(dv, ev, kv, rv))
            && (signed == -1 || signed == 0) && (signed == -1 ==> valid == -1)
    ensures signed == 0 ==>
      (valid == 0 <==> Mul(c, PointAt(gx, gy), Num(k[..], 0, WORDS)).x <= N)
  {
    hide Num, Base, Lawful, Prime, IsInverse, SignatureR, SignatureS, PointAt, Fails;
    var r, s := new Limb[9](_ => 0), new Limb[9](_ => 0);
    var x, y := new Limb[8](_ => 0), new Limb[8](_ => 0);
    ghost var g, dv, ev, kv := PointAt(gx, gy), Num(d[..], 0, WORDS), Num(e[..], 0, WORDS), Num(k[..], 0, WORDS);
    ghost var r8 := r[WORDS];
    EcMult(c, gx, gy, d, x, y);
    signed := SignHash(c, gx, gy, d, e, k, r, s);
    Failing(dv, ev, kv, SignatureR(c, g, kv, 0));
    valid := -1;
    if signed == 0 {
      SignatureBelow(dv, ev, kv, Num(r[..], 0, WORDS), Num(s[..], 0, WORDS));
      ghost var w;
      valid, w := Validate(c, gx, gy, x, y, e, r, s);
      HonestSignature(c, g, dv, ev, kv, r8, Num(s[..], 0, WORDS), w);
    }
  }

  lemma SignatureBelow(d: nat, e: nat, k: nat, r: nat, s: nat)
    requires SignatureS(d, e, k, r, s)
    ensures s < N && s % N == s
  {
  }
}
