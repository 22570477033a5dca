/** The 1-cover-free encoding of a message: 320-bit arithmetic on five 64-bit limbs, the
    table of binomial coefficients, and the unranking of a 256-bit message into 131 of the
    262 component indices. */
module CoverFree {

  type Word = x: int | 0 <= x < 0x1_0000_0000_0000_0000
  const MAXWORD: Word := 0xFFFF_FFFF_FFFF_FFFF

  datatype U256 = U256(v0: Word, v1: Word, v2: Word, v3: Word, v4: Word) {
    function At(i: nat): Word
      requires i < 5
    {
      match i case 0 => v0 case 1 => v1 case 2 => v2 case 3 => v3 case _ => v4
    }
  }

  /** The number held by the limbs below limb n. */
  function Low(a: U256, n: nat): nat
    requires n <= 5
  {
    match n
    case 0 => 0
    case 1 => a.v0
    case 2 => a.v0 + 0x1_0000_0000_0000_0000 * a.v1
    case 3 => a.v0 + 0x1_0000_0000_0000_0000 * (a.v1 + 0x1_0000_0000_0000_0000 * a.v2)
    case 4 =>
      a.v0 + 0x1_0000_0000_0000_0000 * (a.v1 + 0x1_0000_0000_0000_0000 * (a.v2 + 0x1_0000_0000_0000_0000 * a.v3))
    case _ =>
      a.v0 + 0x1_0000_0000_0000_0000 * (a.v1 + 0x1_0000_0000_0000_0000 * (a.v2 + 0x1_0000_0000_0000_0000
      * (a.v3 + 0x1_0000_0000_0000_0000 * a.v4)))
  }

  function Val(a: U256): nat { Low(a, 5) }

  /** Truncation of an unsigned sum to 64 bits. */
  function Trunc(x: int): Word { x % 0x1_0000_0000_0000_0000 }

  /** 2^320, the range of the five limbs. */
  const RANGE: nat :=
    0x1_0000_0000_0000_0000_0000_0000_0000_0000_0000_0000_0000_0000_0000_0000_0000_0000_0000_0000_0000_0000

  // ---- addition ----

  function Carry(t: int): int { if t > MAXWORD then 1 else 0 }

  lemma CarryOut(t: int)
    requires 0 <= t < 0x2_0000_0000_0000_0000
    ensures t == Trunc(t) + 0x1_0000_0000_0000_0000 * Carry(t)
  {
  }

  /** Sums limb by limb in 128 bits and passes the carries on; the last one is dropped. */
  function Add(a: U256, b: U256): U256 {
    var t0 := a.v0 + b.v0;
    var t1 := a.v1 + b.v1 + Carry(t0);
    var t2 := a.v2 + b.v2 + Carry(t1);
    var t3 := a.v3 + b.v3 + Carry(t2);
    var t4 := a.v4 + b.v4 + Carry(t3);
    U256(Trunc(t0), Trunc(t1), Trunc(t2), Trunc(t3), Trunc(t4))
  }

  lemma AddExact(a: U256, b: U256)
    ensures Val(Add(a, b)) == if Val(a) + Val(b) < RANGE then Val(a) + Val(b) else Val(a) + Val(b) - RANGE
  {
    var t0 := a.v0 + b.v0;
    var t1 := a.v1 + b.v1 + Carry(t0);
    var t2 := a.v2 + b.v2 + Carry(t1);
    var t3 := a.v3 + b.v3 + Carry(t2);
    var t4 := a.v4 + b.v4 + Carry(t3);
    CarryOut(t0);
    CarryOut(t1);
    CarryOut(t2);
    CarryOut(t3);
    CarryOut(t4);
    AddColumns(a, b, Add(a, b), Carry(t0), Carry(t1), Carry(t2), Carry(t3), Carry(t4));
    ValInRange(Add(a, b));
  }

  lemma ValInRange(a: U256)
    ensures Val(a) < RANGE
  {
  }

  lemma AddColumns(a: U256, b: U256, c: U256, k1: int, k2: int, k3: int, k4: int, k5: int)
    requires a.v0 + b.v0 == c.v0 + 0x1_0000_0000_0000_0000 * k1
    requires a.v1 + b.v1 + k1 == c.v1 + 0x1_0000_0000_0000_0000 * k2
    requires a.v2 + b.v2 + k2 == c.v2 + 0x1_0000_0000_0000_0000 * k3
    requires a.v3 + b.v3 + k3 == c.v3 + 0x1_0000_0000_0000_0000 * k4
    requires a.v4 + b.v4 + k4 == c.v4 + 0x1_0000_0000_0000_0000 * k5
    ensures Val(a) + Val(b) == Val(c) + RANGE * k5
  {
  }

  // ---- subtraction ----

  /** One limb: the difference modulo 2^64. */
  function LimbSub(a: Word, b: Word): Word {
    if a >= b then a - b else Trunc(Trunc(MAXWORD - b + a) + 1)
  }

  /** The borrow out of a limb is added to the next limb of the subtrahend, in 64 bits. */
  function Borrowed(b: Word, borrow: bool): Word {
    if borrow then Trunc(b + 1) else b
  }

  function Sub(a: U256, b: U256): U256 {
    var b1 := Borrowed(b.v1, a.v0 < b.v0);
    var b2 := Borrowed(b.v2, a.v1 < b1);
    var b3 := Borrowed(b.v3, a.v2 < b2);
    var b4 := Borrowed(b.v4, a.v3 < b3);
    U256(LimbSub(a.v0, b.v0), LimbSub(a.v1, b1), LimbSub(a.v2, b2), LimbSub(a.v3, b3), LimbSub(a.v4, b4))
  }

  function Bit(c: bool): int { if c then 1 else 0 }

  /** A limb in numbers: full is the borrow that wraps a full limb of the subtrahend. */
  lemma LimbStep(a: Word, b: Word, borrow: bool)
    ensures var b' := Borrowed(b, borrow); var full := borrow && b == MAXWORD;
            LimbSub(a, b') == a - b - Bit(borrow) + 0x1_0000_0000_0000_0000 * (Bit(full) + Bit(a < b'))
  {
  }

  /** A borrow runs into a limb of the subtrahend that is already full, and wraps it to 0. */
  predicate LosesBorrow(a: U256, b: U256) {
    || (b.v1 == MAXWORD && Low(a, 1) < Low(b, 1))
    || (b.v2 == MAXWORD && Low(a, 2) < Low(b, 2))
    || (b.v3 == MAXWORD && Low(a, 3) < Low(b, 3))
  }

  /** The subtraction is right exactly when no borrow is lost. */
  lemma SubExact(a: U256, b: U256)
    requires Val(b) <= Val(a)
    ensures Val(Sub(a, b)) == Val(a) - Val(b) <==> !LosesBorrow(a, b)
  {
    var c := Sub(a, b);
    var k1 := a.v0 < b.v0;
    var k2 := a.v1 < Borrowed(b.v1, k1);
    var k3 := a.v2 < Borrowed(b.v2, k2);
    var k4 := a.v3 < Borrowed(b.v3, k3);
    var k5 := a.v4 < Borrowed(b.v4, k4);
    LimbStep(a.v0, b.v0, false);
    LimbStep(a.v1, b.v1, k1);
    LimbStep(a.v2, b.v2, k2);
    LimbStep(a.v3, b.v3, k3);
    LimbStep(a.v4, b.v4, k4);
    var l1, l2, l3 := k1 && b.v1 == MAXWORD, k2 && b.v2 == MAXWORD, k3 && b.v3 == MAXWORD;
    var top := Bit(k4 && b.v4 == MAXWORD) + Bit(k5);
    LostBorrows(a, b, c, Bit(k1), Bit(k2), Bit(k3), Bit(k4), Bit(l1), Bit(l2), Bit(l3), top);
  }

  /** The error of the result is the sum of the lost borrows, and the first lost borrow is a
      borrow of the numbers themselves. */
  lemma LostBorrows(a: U256, b: U256, c: U256, k1: int, k2: int, k3: int, k4: int, l1: int, l2: int, l3: int, top: int)
    requires Val(b) <= Val(a)
    requires 0 <= k1 <= 1 && 0 <= k2 <= 1 && 0 <= k3 <= 1 && 0 <= k4 <= 1 && 0 <= top
    requires l1 == (if b.v1 == MAXWORD then k1 else 0) && l2 == (if b.v2 == MAXWORD then k2 else 0)
    requires l3 == (if b.v3 == MAXWORD then k3 else 0)
    requires c.v0 == a.v0 - b.v0 + 0x1_0000_0000_0000_0000 * k1
    requires c.v1 == a.v1 - b.v1 - k1 + 0x1_0000_0000_0000_0000 * (l1 + k2)
    requires c.v2 == a.v2 - b.v2 - k2 + 0x1_0000_0000_0000_0000 * (l2 + k3)
    requires c.v3 == a.v3 - b.v3 - k3 + 0x1_0000_0000_0000_0000 * (l3 + k4)
    requires c.v4 == a.v4 - b.v4 - k4 + 0x1_0000_0000_0000_0000 * top
    ensures Val(c) == Val(a) - Val(b) <==> !LosesBorrow(a, b)
  {
    assert k1 == 1 <==> Low(a, 1) < Low(b, 1);
    if l1 == 0 {
      assert Low(c, 2) == Low(a, 2) - Low(b, 2) + 0x1_0000_0000_0000_0000_0000_0000_0000_0000 * k2;
      assert k2 == 1 <==> Low(a, 2) < Low(b, 2);
      if l2 == 0 {
        assert Low(c, 3) == Low(a, 3) - Low(b, 3)
          + 0x1_0000_0000_0000_0000_0000_0000_0000_0000_0000_0000_0000_0000 * k3;
        assert k3 == 1 <==> Low(a, 3) < Low(b, 3);
      }
    }
    assert l1 + l2 + l3 > 0 <==> LosesBorrow(a, b);
    SubColumns(a, b, c, k1, k2, k3, k4, l1, l2, l3, top);
    ValInRange(c);
    hide Low;
    NoError(Val(a), Val(b), Val(c), l1, l2, l3, top);
  }

  lemma SubColumns(a: U256, b: U256, c: U256, k1: int, k2: int, k3: int, k4: int, l1: int, l2: int, l3: int, top: int)
    requires c.v0 == a.v0 - b.v0 + 0x1_0000_0000_0000_0000 * k1
    requires c.v1 == a.v1 - b.v1 - k1 + 0x1_0000_0000_0000_0000 * (l1 + k2)
    requires c.v2 == a.v2 - b.v2 - k2 + 0x1_0000_0000_0000_0000 * (l2 + k3)
    requires c.v3 == a.v3 - b.v3 - k3 + 0x1_0000_0000_0000_0000 * (l3 + k4)
    requires c.v4 == a.v4 - b.v4 - k4 + 0x1_0000_0000_0000_0000 * top
    ensures Val(c) == Val(a) - Val(b) + RANGE * top + LostAmount(l1, l2, l3)
  {
  }

  function LostAmount(l1: int, l2: int, l3: int): int {
    0x1_0000_0000_0000_0000_0000_0000_0000_0000 * (l1 + 0x1_0000_0000_0000_0000 * (l2 + 0x1_0000_0000_0000_0000 * l3))
  }

  lemma NoError(a: int, b: int, c: int, l1: int, l2: int, l3: int, top: int)
    requires 0 <= b <= a && 0 <= c < RANGE && 0 <= top && 0 <= l1 && 0 <= l2 && 0 <= l3
    requires c == a - b + RANGE * top + LostAmount(l1, l2, l3)
    ensures c == a - b <==> l1 + l2 + l3 == 0
  {
  }

  /** 2^128 - (2^128 - 2^64 + 1) comes out too large by 2^128. */
  lemma SubLosesBorrow()
    ensures var a, b := U256(0, 0, 1, 0, 0), U256(1, MAXWORD, 0, 0, 0);
            Val(b) <= Val(a) && LosesBorrow(a, b) && Val(Sub(a, b)) != Val(a) - Val(b)
  {
    SubExact(U256(0, 0, 1, 0, 0), U256(1, MAXWORD, 0, 0, 0));
  }

  // ---- comparison ----

  method IsGteq(a: U256, b: U256) returns (r: bool)
    ensures r <==> Val(a) >= Val(b)
  {
    var i := 4;
    while i >= 0 && a.At(i) == b.At(i)
      invariant -1 <= i <= 4
      invariant forall j :: i < j <= 4 ==> a.At(j) == b.At(j)
    {
      i := i - 1;
    }
    TopLimbDecides(a, b, i);
    r := if i == -1 then true else a.At(i) > b.At(i);
  }

  lemma TopLimbDecides(a: U256, b: U256, i: int)
    requires -1 <= i <= 4 && forall j :: i < j <= 4 ==> a.At(j) == b.At(j)
    ensures i == -1 ==> Val(a) == Val(b)
    ensures i >= 0 && a.At(i) > b.At(i) ==> Val(a) > Val(b)
    ensures i >= 0 && a.At(i) < b.At(i) ==> Val(a) < Val(b)
  {
    assert i < 4 ==> a.At(4) == b.At(4);
    assert i < 3 ==> a.At(3) == b.At(3);
    assert i < 2 ==> a.At(2) == b.At(2);
    assert i < 1 ==> a.At(1) == b.At(1);
    assert i < 0 ==> a.At(0) == b.At(0);
    if i == 4 {} else if i == 3 {} else if i == 2 {} else if i == 1 {} else if i == 0 {}
  }
}
