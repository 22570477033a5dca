/** Double-and-add over the points of a curve. */
module PointMultiplication {
  import opened Numbers
  import opened Limbs
  import opened Field

  datatype Point = Point(x: nat, y: nat)

  /** The curve: its points, and addition and doubling as the curve formulas compute them. */
  datatype Curve = Curve(on: Point -> bool, add: (Point, Point) -> Point, dbl: Point -> Point)

  const INFINITY: Point := Point(0, 0)

  /** The laws of a group that multiplication needs, with (0, 0) as the neutral element. */
  ghost predicate Lawful(c: Curve) {
    && c.on(INFINITY)
    && (forall p {:trigger c.on(p)} :: c.on(p) ==> p.x < Base(WORDS) && p.y < Base(WORDS))
    && (forall p, q {:trigger c.on(c.add(p, q))} :: c.on(p) && c.on(q) ==> c.on(c.add(p, q)))
    && (forall p, q, r {:trigger c.add(c.add(p, q), r)} :: c.on(p) && c.on(q) && c.on(r) ==>
          c.add(c.add(p, q), r) == c.add(p, c.add(q, r)))
    && (forall p {:trigger c.add(INFINITY, p)} :: c.on(p) ==> c.add(INFINITY, p) == p)
    && (forall p {:trigger c.add(p, INFINITY)} :: c.on(p) ==> c.add(p, INFINITY) == p)
    && (forall p {:trigger c.dbl(p)} :: c.on(p) ==> c.dbl(p) == c.add(p, p))
  }

  lemma OnCurve(c: Curve, p: Point, q: Point)
    requires Lawful(c) && c.on(p) && c.on(q)
    ensures p.x < Base(WORDS) && p.y < Base(WORDS)
    ensures c.on(c.add(p, q)) && c.on(INFINITY)
  {
  }

  lemma Associative(c: Curve, p: Point, q: Point, r: Point)
    requires Lawful(c) && c.on(p) && c.on(q) && c.on(r)
    ensures c.add(c.add(p, q), r) == c.add(p, c.add(q, r))
  {
  }

  lemma Neutral(c: Curve, p: Point)
    requires Lawful(c) && c.on(p)
    ensures c.add(INFINITY, p) == p == c.add(p, INFINITY)
    ensures c.dbl(p) == c.add(p, p)
  {
  }

  function Mul(c: Curve, p: Point, k: nat): Point {
    if k == 0 then INFINITY else c.add(Mul(c, p, k - 1), p)
  }

  lemma {:induction false} MulOn(c: Curve, p: Point, k: nat)
    requires Lawful(c) && c.on(p)
    ensures c.on(Mul(c, p, k))
  {
    hide Lawful;
    if k == 0 {
      OnCurve(c, p, p);
    } else {
      MulOn(c, p, k - 1);
      OnCurve(c, Mul(c, p, k - 1), p);
    }
  }

  /** One times a point is the point: with MulAdd this determines the multiples. */
  lemma MulOne(c: Curve, p: Point)
    requires Lawful(c) && c.on(p)
    ensures Mul(c, p, 1) == p
  {
    Neutral(c, p);
    hide Lawful;
    assert Mul(c, p, 0) == INFINITY;
  }

  lemma {:induction false} MulAdd(c: Curve, p: Point, a: nat, b: nat)
    requires Lawful(c) && c.on(p)
    ensures Mul(c, p, a + b) == c.add(Mul(c, p, a), Mul(c, p, b))
  {
    hide Lawful;
    MulOn(c, p, a);
    if b == 0 {
      Neutral(c, Mul(c, p, a));
    } else {
      MulAdd(c, p, a, b - 1);
      MulOn(c, p, b - 1);
      Associative(c, Mul(c, p, a), Mul(c, p, b - 1), p);
    }
  }

  lemma {:induction false} MulMul(c: Curve, p: Point, a: nat, b: nat)
    requires Lawful(c) && c.on(p)
    ensures Mul(c, Mul(c, p, a), b) == Mul(c, p, Times(a, b))
  {
    hide Lawful;
    TimesSteps(a, b);
    if b > 0 {
      TimesSteps(a, b - 1);
      MulMul(c, p, a, b - 1);
      MulAdd(c, p, Times(a, b - 1), a);
    }
  }

  lemma {:induction false} MulOfInfinity(c: Curve, k: nat)
    requires Lawful(c)
    ensures Mul(c, INFINITY, k) == INFINITY
  {
    if k > 0 {
      MulOfInfinity(c, k - 1);
      Neutral(c, INFINITY);
    }
  }

  /** Only the scalar modulo the order of the point matters. */
  lemma MulModOrder(c: Curve, p: Point, k: nat, n: nat)
    requires Lawful(c) && c.on(p) && n > 0 && Mul(c, p, n) == INFINITY
    ensures Mul(c, p, k) == Mul(c, p, k % n)
  {
    hide Lawful;
    var q, r := k / n, k % n;
    assert k == Times(n, q) + r;
    MulAdd(c, p, Times(n, q), r);
    MulMul(c, p, n, q);
    MulOfInfinity(c, q);
    MulOn(c, p, r);
    Neutral(c, Mul(c, p, r));
  }

  // ---- the bits of the scalar ----

  /** The number without its i low bits. */
  function HighBits(k: nat, i: nat): nat {
    if i == 0 then k else HighBits(k, i - 1) / 2
  }

  lemma {:induction false} HighBitsTwice(k: nat, i: nat, j: nat)
    ensures HighBits(k, i + j) == HighBits(HighBits(k, i), j)
  {
    if j > 0 {
      HighBitsTwice(k, i, j - 1);
    }
  }

  lemma HalfOfSplit(low: nat, p: nat, rest: nat)
    ensures (low + (2 * p) * rest) / 2 == low / 2 + p * rest
    ensures (low + (2 * p) * rest) % 2 == low % 2
  {
    MulAssoc(2, p, rest);
  }

  /** Dropping j of the e low bits leaves the bits above in place. */
  lemma {:induction false} HighBitsSplit(low: nat, rest: nat, e: nat, j: nat)
    requires low < Pow2(e) && j <= e
    ensures HighBits(low + Pow2(e) * rest, j) == HighBits(low, j) + Pow2(e - j) * rest
    ensures HighBits(low, j) < Pow2(e - j)
  {
    if j > 0 {
      HighBitsSplit(low, rest, e, j - 1);
      HalfOfSplit(HighBits(low, j - 1), Pow2(e - j), rest);
    }
  }

  lemma LowBits(low: nat, rest: nat, e: nat, j: nat)
    requires low < Pow2(e) && j <= e
    ensures j < e ==> HighBits(low + Pow2(e) * rest, j) % 2 == HighBits(low, j) % 2
    ensures j == e ==> HighBits(low + Pow2(e) * rest, j) == rest
  {
    HighBitsSplit(low, rest, e, j);
    if j < e {
      HalfOfSplit(HighBits(low, j), Pow2(e - j - 1), rest);
    }
  }

  lemma LimbSize(e: nat)
    requires e == 4
    ensures Pow2(8 * e) == 0x1_0000_0000
  {
    assert Pow2(e) == 2 * (2 * (2 * (2 * Pow2(e - 4))));
    Pow2Add(e, e);
    Pow2Add(2 * e, 2 * e);
    Pow2Add(4 * e, 4 * e);
  }

  lemma LimbBits(low: Limb, rest: nat, e: nat, j: nat)
    requires e == 32 && j <= e
    ensures j < e ==> HighBits(low + 0x1_0000_0000 * rest, j) % 2 == HighBits(low, j) % 2
    ensures j == e ==> HighBits(low + 0x1_0000_0000 * rest, j) == rest
  {
    LimbSize(4);
    LowBits(low, rest, e, j);
  }

  lemma NextLimbIndex(i: nat)
    requires i >= 32
    ensures (i - 32) / 32 == i / 32 - 1 && (i - 32) % 32 == i % 32
  {
  }

  /** Bit i of a number is bit i % 32 of limb i / 32. */
  lemma {:induction false} BitOfNum(s: seq<Limb>, lo: nat, n: nat, i: nat)
    requires lo + n <= |s| && i < 32 * n
    ensures HighBits(Num(s, lo, n), i) % 2 == HighBits(s[lo + i / 32], i % 32) % 2
    decreases n
  {
    hide Num, HighBits;
    LowLimb(s, lo, n);
    var e := 32;
    if i < e {
      LimbBits(s[lo], Num(s, lo + 1, n - 1), e, i);
    } else {
      LimbBits(s[lo], Num(s, lo + 1, n - 1), e, e);
      HighBitsTwice(Num(s, lo, n), e, i - e);
      BitOfNum(s, lo + 1, n - 1, i - e);
      NextLimbIndex(i);
    }
  }

  lemma {:induction false} NoBitsAbove(s: seq<Limb>, lo: nat, n: nat)
    requires lo + n <= |s|
    ensures HighBits(Num(s, lo, n), 32 * n) == 0
    decreases n
  {
    if n > 0 {
      LowLimb(s, lo, n);
      var e := 32;
      LimbBits(s[lo], Num(s, lo + 1, n - 1), e, e);
      HighBitsTwice(Num(s, lo, n), e, 32 * (n - 1));
      NoBitsAbove(s, lo + 1, n - 1);
    }
  }

  // ---- the methods ----

  function PointAt(x: array<Limb>, y: array<Limb>): Point
    requires x.Length >= WORDS && y.Length >= WORDS
    reads x, y
  {
    Point(Num(x[..], 0, WORDS), Num(y[..], 0, WORDS))
  }

  lemma StoreStep(before: seq<Limb>, now: seq<Limb>, i: nat, v: nat)
    requires i < |before| && |now| == |before| && now == before[i := v % 0x1_0000_0000]
    ensures Num(now, 0, i + 1) + Times(v / 0x1_0000_0000, Base(i + 1)) == Num(before, 0, i) + Times(v, Base(i))
  {
    NumFrame(before, now, 0, i);
    Column(v, 0, 0, v % 0x1_0000_0000, v / 0x1_0000_0000, Base(i));
  }

  lemma NothingLeft(low: nat, v: nat, value: nat, b: nat)
    requires low + Times(v, b) == value < b
    ensures v == 0
  {
    if v > 0 {
      MulMono(1, v, b);
    }
  }

  /** Writes a coordinate into limbs. */
  method Store(value: nat, a: array<Limb>)
    requires a.Length >= WORDS && value < Base(WORDS)
    modifies a
    ensures Num(a[..], 0, WORDS) == value
    ensures forall i :: WORDS <= i < a.Length ==> a[i] == old(a[i])
  {
    hide Num, Base;
    var v := value;
    NumZero(a[..], 0, 0);
    StoreStart(v);
    for i := 0 to WORDS
      invariant Num(a[..], 0, i) + Times(v, Base(i)) == value
      invariant forall j :: WORDS <= j < a.Length ==> a[j] == old(a[j])
    {
      ghost var before := a[..];
      a[i] := v % 0x1_0000_0000;
      StoreStep(before, a[..], i, v);
      v := v / 0x1_0000_0000;
    }
    NothingLeft(Num(a[..], 0, WORDS), v, value, Base(WORDS));
    TimesSteps(0, Base(WORDS));
  }

  lemma StoreStart(v: nat)
    ensures Times(v, Base(0)) == v
  {
  }

  /** Stands for the doubling formula. */
  method EcDouble(c: Curve, px: array<Limb>, py: array<Limb>, dx: array<Limb>, dy: array<Limb>)
    requires px.Length >= WORDS && py.Length >= WORDS && dx.Length >= WORDS && dy.Length >= WORDS && dx != dy
    requires Lawful(c) && c.on(PointAt(px, py))
    modifies dx, dy
    ensures PointAt(dx, dy) == old(c.dbl(PointAt(px, py)))
    ensures forall i :: WORDS <= i < dx.Length ==> dx[i] == old(dx[i])
    ensures forall i :: WORDS <= i < dy.Length ==> dy[i] == old(dy[i])
  {
    var r := c.dbl(PointAt(px, py));
    DoubleFits(c, PointAt(px, py));
    hide Num, Base, Lawful;
    Store(r.x, dx);
    Store(r.y, dy);
  }

  lemma DoubleFits(c: Curve, p: Point)
    requires Lawful(c) && c.on(p)
    ensures c.on(c.dbl(p)) && c.dbl(p).x < Base(WORDS) && c.dbl(p).y < Base(WORDS)
  {
    hide Lawful;
    Neutral(c, p);
    OnCurve(c, p, p);
    OnCurve(c, c.add(p, p), p);
  }

  /** Stands for the addition formulas. */
  method EcAdd(c: Curve, px: array<Limb>, py: array<Limb>, qx: array<Limb>, qy: array<Limb>, sx: array<Limb>,
               sy: array<Limb>)
    requires px.Length >= WORDS && py.Length >= WORDS && qx.Length >= WORDS && qy.Length >= WORDS
    requires sx.Length >= WORDS && sy.Length >= WORDS && sx != sy
    requires Lawful(c) && c.on(PointAt(px, py)) && c.on(PointAt(qx, qy))
    modifies sx, sy
    ensures PointAt(sx, sy) == old(c.add(PointAt(px, py), PointAt(qx, qy)))
  {
    var r := c.add(PointAt(px, py), PointAt(qx, qy));
    OnCurve(c, PointAt(px, py), PointAt(qx, qy));
    OnCurve(c, r, r);
    hide Num, Base, Lawful;
    Store(r.x, sx);
    Store(r.y, sy);
  }

  /** Doubling, and adding the point when the next bit is set, reaches the next prefix of the scalar. */
  lemma NextPrefix(c: Curve, p: Point, k: nat, i: nat)
    requires Lawful(c) && c.on(p)
    ensures var q := Mul(c, p, HighBits(k, i + 1));
            Mul(c, p, HighBits(k, i)) == if HighBits(k, i) % 2 == 1 then c.add(c.dbl(q), p) else c.dbl(q)
  {
    hide Lawful;
    var h := HighBits(k, i + 1);
    MulOn(c, p, h);
    Neutral(c, Mul(c, p, h));
    MulAdd(c, p, h, h);
  }

  method EcMult(c: Curve, px: array<Limb>, py: array<Limb>, secret: array<Limb>, resultx: array<Limb>,
                resulty: array<Limb>)
    requires px.Length >= WORDS && py.Length >= WORDS && secret.Length >= WORDS
    requires resultx.Length >= WORDS && resulty.Length >= WORDS && resultx != resulty
    requires Lawful(c) && c.on(PointAt(px, py))
    modifies resultx, resulty
    ensures PointAt(resultx, resulty) == old(Mul(c, PointAt(px, py), Num(secret[..], 0, WORDS)))
    ensures c.on(PointAt(resultx, resulty))
    ensures forall i :: WORDS <= i < resultx.Length ==> resultx[i] == old(resultx[i])
    ensures forall i :: WORDS <= i < resulty.Length ==> resulty[i] == old(resulty[i])
  {
    hide Num, Base, Lawful;
    ghost var p, k := PointAt(px, py), Num(secret[..], 0, WORDS);
    var x, y := new Limb[WORDS](_ => 0), new Limb[WORDS](_ => 0);
    MultBits(c, px, py, secret, x, y);
    MulOn(c, p, k);
    Copy(x, resultx, WORDS);
    Copy(y, resulty, WORDS);
  }

  /** Runs down the bits of the scalar; x and y hold the point at infinity at first. */
  method MultBits(c: Curve, px: array<Limb>, py: array<Limb>, secret: array<Limb>, x: array<Limb>, y: array<Limb>)
    requires px.Length >= WORDS && py.Length >= WORDS && secret.Length >= WORDS && x.Length == y.Length == WORDS
    requires x != y && x !in {px, py, secret} && y !in {px, py, secret}
    requires forall i :: 0 <= i < WORDS ==> x[i] == 0 && y[i] == 0
    requires Lawful(c) && c.on(PointAt(px, py))
    modifies x, y
    ensures PointAt(x, y) == Mul(c, PointAt(px, py), Num(secret[..], 0, WORDS))
  {
    hide Num, Base, Lawful, HighBits;
    ghost var p, s := PointAt(px, py), secret[..];
    ghost var k := Num(s, 0, WORDS);
    var tempx, tempy := new Limb[WORDS](_ => 0), new Limb[WORDS](_ => 0);
    NumZero(x[..], 0, WORDS);
    NumZero(y[..], 0, WORDS);
    NoBitsAbove(s, 0, WORDS);
    var i := 32 * WORDS;
    while i > 0
      invariant 0 <= i <= 32 * WORDS
      invariant PointAt(px, py) == p && secret[..] == s
      invariant PointAt(x, y) == Mul(c, p, HighBits(k, i))
    {
      i := i - 1;
      MulOn(c, p, HighBits(k, i + 1));
      NextPrefix(c, p, k, i);
      BitOfNum(s, 0, WORDS, i);
      MultStep(c, px, py, x, y, tempx, tempy, HighBits(secret[i / 32], i % 32) % 2 == 1);
    }
    WholeNumber(k);
  }

  lemma WholeNumber(k: nat)
    ensures HighBits(k, 0) == k
  {
  }

  method MultStep(c: Curve, px: array<Limb>, py: array<Limb>, x: array<Limb>, y: array<Limb>,
                  tempx: array<Limb>, tempy: array<Limb>, bit: bool)
    requires px.Length >= WORDS && py.Length >= WORDS && x.Length == y.Length == tempx.Length == tempy.Length == WORDS
    requires x != y && tempx != tempy && x !in {px, py, tempx, tempy} && y !in {px, py, tempx, tempy}
    requires tempx !in {px, py} && tempy !in {px, py}
    requires Lawful(c) && c.on(PointAt(px, py)) && c.on(PointAt(x, y))
    modifies x, y, tempx, tempy
    ensures PointAt(x, y) == old(if bit then c.add(c.dbl(PointAt(x, y)), PointAt(px, py)) else c.dbl(PointAt(x, y)))
  {
    hide Num, Base, Lawful;
    DoubleFits(c, PointAt(x, y));
    EcDouble(c, x, y, tempx, tempy);
    Copy(tempx, x, WORDS);
    Copy(tempy, y, WORDS);
    if bit {
      EcAdd(c, x, y, px, py, tempx, tempy);
      Copy(tempx, x, WORDS);
      Copy(tempy, y, WORDS);
    }
  }
}
