/** Arithmetic on eight-limb field elements. */
module Field {
  import opened Numbers
  import opened Limbs

  const WORDS: nat := 8

  /** What adding with the reducer gives: a second carry is lost. */
  function FieldSum(x: nat, y: nat, r: nat): nat {
    if x + y < Base(WORDS) then x + y else (x + y - Base(WORDS) + r) % Base(WORDS)
  }

  /** What subtracting with the modulus gives: a borrow that the modulus does not repay is lost. */
  function FieldDifference(x: nat, y: nat, m: nat): nat {
    if x >= y then x - y else (x - y + Base(WORDS) + m) % Base(WORDS)
  }

  lemma CarryMod(low: nat, carry: nat, sum: nat, b: nat)
    requires b > 0 && low < b && low + carry * b == sum
    ensures low == sum % b
    ensures carry <= 1 ==> (carry == 0 <==> sum < b)
  {
    DivModUnique(sum, b, carry, low);
  }

  /** Adds y to the result by way of a temporary, and drops the carry. */
  method AddInto(result: array<Limb>, y: array<Limb>)
    requires result.Length >= WORDS && y.Length >= WORDS
    modifies result
    ensures Num(result[..], 0, WORDS) == old(Num(result[..], 0, WORDS) + Num(y[..], 0, WORDS)) % Base(WORDS)
    ensures forall i :: WORDS <= i < result.Length ==> result[i] == old(result[i])
  {
    hide Num, Base;
    ghost var sum := Num(result[..], 0, WORDS) + Num(y[..], 0, WORDS);
    var tempas := new Limb[WORDS](_ => 0);
    var carry := Add(result, y, tempas, 0, WORDS);
    NumFits(tempas[..], 0, WORDS);
    CarryMod(Num(tempas[..], 0, WORDS), carry, sum, Base(WORDS));
    Copy(tempas, result, WORDS);
  }

  method FieldAdd(x: array<Limb>, y: array<Limb>, reducer: array<Limb>, result: array<Limb>)
    requires x.Length >= WORDS && y.Length >= WORDS && reducer.Length >= WORDS && result.Length >= WORDS
    requires reducer != result
    modifies result
    ensures Num(result[..], 0, WORDS) ==
      FieldSum(old(Num(x[..], 0, WORDS)), old(Num(y[..], 0, WORDS)), Num(reducer[..], 0, WORDS))
    ensures forall i :: WORDS <= i < result.Length ==> result[i] == old(result[i])
  {
    hide Num, Base;
    ghost var sum := Num(x[..], 0, WORDS) + Num(y[..], 0, WORDS);
    var carry := Add(x, y, result, 0, WORDS);
    NumFits(result[..], 0, WORDS);
    CarryMod(Num(result[..], 0, WORDS), carry, sum, Base(WORDS));
    if carry != 0 {
      AddInto(result, reducer);
    }
  }

  lemma BorrowMod(low: nat, borrow: nat, x: nat, y: nat, b: nat)
    requires low < b && x < b && y < b && borrow <= 1 && low + y == x + borrow * b
    ensures borrow == 0 <==> x >= y
    ensures low == x - y + (if x >= y then 0 else b)
  {
  }

  method FieldSub(x: array<Limb>, y: array<Limb>, modulus: array<Limb>, result: array<Limb>)
    requires x.Length >= WORDS && y.Length >= WORDS && modulus.Length >= WORDS && result.Length >= WORDS
    requires modulus != result
    modifies result
    ensures Num(result[..], 0, WORDS)
         == FieldDifference(old(Num(x[..], 0, WORDS)), old(Num(y[..], 0, WORDS)), Num(modulus[..], 0, WORDS))
    ensures forall i :: WORDS <= i < result.Length ==> result[i] == old(result[i])
  {
    hide Num, Base;
    ghost var a, b := Num(x[..], 0, WORDS), Num(y[..], 0, WORDS);
    NumFits(x[..], 0, WORDS);
    NumFits(y[..], 0, WORDS);
    var borrow := Sub(x, y, result, WORDS);
    NumFits(result[..], 0, WORDS);
    BorrowMod(Num(result[..], 0, WORDS), borrow, a, b, Base(WORDS));
    if borrow != 0 {
      AddInto(result, modulus);
    }
  }

  // ---- schoolbook multiplication ----

  lemma TwoLimbs(t: seq<Limb>, at: nat, n: nat, p: nat)
    requires n >= 2 && at + n <= |t|
    requires t[at] == p % 0x1_0000_0000 && t[at + 1] == p / 0x1_0000_0000
    requires forall i :: at + 2 <= i < at + n ==> t[i] == 0
    ensures Num(t, at, n) == p
  {
    LowLimb(t, at, n);
    LowLimb(t, at + 1, n - 1);
    NumZero(t, at + 2, n - 2);
  }

  lemma LimbProduct(x: Limb, y: Limb)
    ensures 0 <= x * y < 0x1_0000_0000_0000_0000
    ensures 0 <= x * y / 0x1_0000_0000 < 0x1_0000_0000
  {
    MulMono(x, 0xFFFF_FFFF, y);
    MulMono(0, x, y);
  }

  /** The first k rows and n limbs of the next row of the product. */
  function Partial(x: seq<Limb>, y: seq<Limb>, length: nat, k: nat, n: nat): nat
    requires length <= |x| && length <= |y| && k <= length && n <= length && (k == length ==> n == 0)
  {
    Num(x, 0, length) * Num(y, 0, k) + (if n == 0 then 0 else Num(x, 0, n) * y[k] * Base(k))
  }

  lemma PartialStep(x: seq<Limb>, y: seq<Limb>, length: nat, k: nat, n: nat)
    requires length <= |x| && length <= |y| && k < length && n < length
    ensures Partial(x, y, length, k, n + 1) == Partial(x, y, length, k, n) + Base(n + k) * (x[n] as int * y[k])
  {
    BaseAdd(n, k);
    Rearrange(Num(x, 0, n), x[n], Base(n), y[k], Base(k));
  }

  lemma Rearrange(low: int, x: int, b: int, y: int, c: int)
    ensures (low + x * b) * y * c == low * y * c + (b * c) * (x * y)
  {
    assert (low + x * b) * y == low * y + (x * b) * y;
    assert (low * y + (x * b) * y) * c == low * y * c + ((x * b) * y) * c;
    assert (x * b) * y == b * (x * y) by { MulAssoc(b, x, y); }
    assert (b * (x * y)) * c == (b * c) * (x * y) by { MulAssoc(b, x * y, c); MulAssoc(b, c, x * y); }
  }

  lemma RowDone(x: seq<Limb>, y: seq<Limb>, length: nat, k: nat)
    requires 0 < length <= |x| && length <= |y| && k < length
    ensures Partial(x, y, length, k, length) == Partial(x, y, length, k + 1, 0) == Num(x, 0, length) * Num(y, 0, k + 1)
  {
    var a := Num(x, 0, length);
    MulAssoc(a, y[k], Base(k));
    assert a * (Num(y, 0, k) + y[k] * Base(k)) == a * Num(y, 0, k) + a * (y[k] * Base(k));
  }

  lemma ProductBounds(a: nat, b: nat, c: nat)
    requires a < c && b < c
    ensures a * b < c * c
  {
    MulMono(a, c, b);
    MulMono(b, c - 1, c);
    assert c * (c - 1) == c * c - c;
  }

  lemma AddedAt(before: nat, after: nat, low: nat, h: nat, h': nat, p: nat, c: nat, b: nat, d: nat)
    requires before == low + b * h && after == low + b * h' && h' + c * d == p + h
    requires before + b * p < b * d && b > 0
    ensures after == before + b * p
  {
    assert b * (h' + c * d) == b * h' + b * (c * d);
    assert b * (p + h) == b * p + b * h;
    if c > 0 {
      MulMono(1, c, d);
      MulMono(d, c * d, b);
    }
  }

  /** Adds a 64-bit product to the number at limb at. */
  method AddProduct(temp: array<Limb>, result: array<Limb>, p: nat, at: nat, total: nat)
    requires temp != result && temp.Length == total <= result.Length && at + 2 <= total
    requires p < 0x1_0000_0000_0000_0000 && forall i :: 0 <= i < total ==> temp[i] == 0
    requires Num(result[..], 0, total) + Base(at) * p < Base(total)
    modifies temp, result
    ensures Num(result[..], 0, total) == old(Num(result[..], 0, total)) + Base(at) * p
    ensures forall i :: 0 <= i < total ==> temp[i] == 0
    ensures forall i :: total <= i < result.Length ==> result[i] == old(result[i])
  {
    hide Num, Base;
    ghost var before := result[..];
    temp[at] := p % 0x1_0000_0000;
    temp[at + 1] := p / 0x1_0000_0000;
    TwoLimbs(temp[..], at, total - at, p);
    var carry := Add(temp, result, result, at, total - at);
    ghost var after := result[..];
    SetZero(temp, total);
    NumFrame(before, after, 0, at);
    NumSplit(before, 0, at, total - at);
    NumSplit(after, 0, at, total - at);
    BaseAdd(at, total - at);
    AddedAt(Num(before, 0, total), Num(after, 0, total), Num(before, 0, at), Num(before, at, total - at),
            Num(after, at, total - at), p, carry, Base(at), Base(total - at));
  }

  lemma PartialMono(x: seq<Limb>, y: seq<Limb>, length: nat, k: nat, n: nat)
    requires length <= |x| && length <= |y| && k < length && n <= length
    ensures Partial(x, y, length, k, n) <= Partial(x, y, length, k, length)
  {
    NumBelow(x, n, length);
    RowFits(Num(x, 0, n), Num(x, 0, length), y[k], Base(k));
  }

  /** The partial products stay below the whole product, so no carry leaves the result. */
  lemma PartialFits(x: seq<Limb>, y: seq<Limb>, length: nat, k: nat, n: nat)
    requires length <= |x| && length <= |y| && k < length && n <= length
    ensures Partial(x, y, length, k, n) < Base(2 * length)
  {
    hide Num, Base, Partial;
    PartialMono(x, y, length, k, n);
    RowDone(x, y, length, k);
    NumBelow(y, k + 1, length);
    NumFits(x, 0, length);
    NumFits(y, 0, length);
    BaseAdd(length, length);
    ProductBounds(Num(x, 0, length), Num(y, 0, k + 1), Base(length));
  }

  lemma RowFits(part: nat, whole: nat, y: nat, b: nat)
    requires part <= whole
    ensures part * y * b <= whole * y * b
  {
    MulMono(part, whole, y);
    MulMono(part * y, whole * y, b);
  }

  lemma {:induction false} NumBelow(s: seq<Limb>, n: nat, m: nat)
    requires n <= m <= |s|
    ensures Num(s, 0, n) <= Num(s, 0, m)
  {
    if n < m {
      NumBelow(s, n, m - 1);
    }
  }

  lemma PartialStart(x: seq<Limb>, y: seq<Limb>, length: nat, k: nat)
    requires length <= |x| && length <= |y| && k <= length
    ensures Partial(x, y, length, k, 0) == Num(x, 0, length) * Num(y, 0, k)
  {
  }

  /** Row k of the product. */
  method MultRow(x: array<Limb>, y: array<Limb>, temp: array<Limb>, result: array<Limb>, length: nat, k: nat)
    requires length <= x.Length && length <= y.Length && temp.Length == 2 * length <= result.Length && k < length
    requires result != x && result != y && temp != x && temp != y && temp != result
    requires Num(result[..], 0, 2 * length) == Partial(x[..], y[..], length, k, 0)
    requires forall i :: 0 <= i < 2 * length ==> temp[i] == 0
    modifies temp, result
    ensures Num(result[..], 0, 2 * length) == Num(x[..], 0, length) * Num(y[..], 0, k + 1)
    ensures forall i :: 0 <= i < 2 * length ==> temp[i] == 0
    ensures forall i :: 2 * length <= i < result.Length ==> result[i] == old(result[i])
  {
    hide Num, Base, Partial;
    ghost var xs, ys := x[..], y[..];
    for n := 0 to length
      invariant Num(result[..], 0, 2 * length) == Partial(xs, ys, length, k, n)
      invariant forall i :: 0 <= i < 2 * length ==> temp[i] == 0
      invariant forall i :: 2 * length <= i < result.Length ==> result[i] == old(result[i])
    {
      PartialStep(xs, ys, length, k, n);
      PartialFits(xs, ys, length, k, n + 1);
      LimbProduct(xs[n], ys[k]);
      AddProduct(temp, result, x[n] as int * y[k], n + k, 2 * length);
    }
    RowDone(xs, ys, length, k);
  }

  method FieldMult(x: array<Limb>, y: array<Limb>, result: array<Limb>, length: nat)
    requires 0 < length <= x.Length && length <= y.Length && 2 * length <= result.Length
    requires result != x && result != y
    modifies result
    ensures Num(result[..], 0, 2 * length) == Num(x[..], 0, length) * Num(y[..], 0, length)
    ensures forall i :: 2 * length <= i < result.Length ==> result[i] == old(result[i])
  {
    hide Num, Base, Partial;
    var temp := new Limb[2 * length](_ => 0);
    SetZero(result, 2 * length);
    NumZero(result[..], 0, 2 * length);
    ghost var xs, ys := x[..], y[..];
    NumZero(ys, 0, 0);
    for k := 0 to length
      invariant Num(result[..], 0, 2 * length) == Num(xs, 0, length) * Num(ys, 0, k)
      invariant forall i :: 0 <= i < 2 * length ==> temp[i] == 0
      invariant forall i :: 2 * length <= i < result.Length ==> result[i] == old(result[i])
    {
      PartialStart(xs, ys, length, k);
      MultRow(x, y, temp, result, length, k);
    }
  }

  // ---- halving modulo an odd number ----

  /** Half of x + m; a half that needs 256 bits is reduced once if it exceeds m. */
  function FieldHalf(x: nat, m: nat, r: nat): nat {
    var half := (x + m) / 2;
    if x + m >= Base(WORDS) && half > m then (half + r) % Base(WORDS) else half
  }

  lemma HalfWithCarry(sum: nat, low: nat, carry: nat, b: nat)
    requires low + carry * (2 * b) == sum && carry <= 1
    ensures low / 2 + carry * b == sum / 2
    ensures low < 2 * b ==> low / 2 < b
  {
  }

  lemma SetTopBit(s: seq<Limb>, t: seq<Limb>)
    requires |s| >= WORDS && |t| >= WORDS
    requires Num(s, 0, WORDS) < 0x8000_0000 * Base(WORDS - 1)
    ensures s[WORDS - 1] < 0x8000_0000
    ensures (t[WORDS - 1] == s[WORDS - 1] + 0x8000_0000 && forall i :: 0 <= i < WORDS - 1 ==> t[i] == s[i])
            ==> Num(t, 0, WORDS) == Num(s, 0, WORDS) + 0x8000_0000 * Base(WORDS - 1)
  {
    if s[WORDS - 1] >= 0x8000_0000 {
      MulMono(0x8000_0000, s[WORDS - 1], Base(WORDS - 1));
    }
    if t[WORDS - 1] == s[WORDS - 1] + 0x8000_0000 && forall i :: 0 <= i < WORDS - 1 ==> t[i] == s[i] {
      NumFrame(s, t, 0, WORDS - 1);
      assert Times(s[WORDS - 1] + 0x8000_0000, Base(WORDS - 1))
          == Times(s[WORDS - 1], Base(WORDS - 1)) + 0x8000_0000 * Base(WORDS - 1);
    }
  }

  /** Halves the number whose carry out is n. */
  method HalveWithCarry(result: array<Limb>, n: nat)
    requires result.Length >= WORDS && n <= 1
    modifies result
    ensures Num(result[..], 0, WORDS) == (old(Num(result[..], 0, WORDS)) + n * Base(WORDS)) / 2
    ensures forall i :: WORDS <= i < result.Length ==> result[i] == old(result[i])
  {
    ghost var b := 0x8000_0000 * Base(WORDS - 1);
    assert Base(WORDS) == 2 * b;
    hide Num, Base;
    NumFits(result[..], 0, WORDS);
    HalfWithCarry(Num(result[..], 0, WORDS) + n * (2 * b), Num(result[..], 0, WORDS), n, b);
    RShift(result, WORDS);
    if n != 0 {
      ghost var s := result[..];
      SetTopBit(s, s[WORDS - 1 := 0]);
      result[WORDS - 1] := result[WORDS - 1] + 0x8000_0000;
      SetTopBit(s, result[..]);
    }
  }

  method FieldAddAndDivide(x: array<Limb>, modulus: array<Limb>, reducer: array<Limb>, result: array<Limb>)
    requires x.Length >= WORDS && modulus.Length >= WORDS && reducer.Length >= WORDS && result.Length >= WORDS
    requires modulus != result && reducer != result
    modifies result
    ensures Num(result[..], 0, WORDS)
         == FieldHalf(old(Num(x[..], 0, WORDS)), Num(modulus[..], 0, WORDS), Num(reducer[..], 0, WORDS))
    ensures forall i :: WORDS <= i < result.Length ==> result[i] == old(result[i])
  {
    hide Num, Base;
    ghost var sum := Num(x[..], 0, WORDS) + Num(modulus[..], 0, WORDS);
    var n := Add(x, modulus, result, 0, WORDS);
    NumFits(result[..], 0, WORDS);
    CarryMod(Num(result[..], 0, WORDS), n, sum, Base(WORDS));
    HalveWithCarry(result, n);
    if n != 0 {
      var order := IsGreater(result, modulus, WORDS);
      if order == 1 {
        AddInto(result, reducer);
      }
    }
  }

  // ---- eight and sixteen limbs written out ----

  lemma EightLimbs(s: seq<Limb>)
    requires |s| >= 8
    ensures Num(s, 0, WORDS)
         == s[0] + s[1] as int * 0x1_00000000
          + s[2] as int * 0x1_00000000_00000000
          + s[3] as int * 0x1_00000000_00000000_00000000
          + s[4] as int * 0x1_00000000_00000000_00000000_00000000
          + s[5] as int * 0x1_00000000_00000000_00000000_00000000_00000000
          + s[6] as int * 0x1_00000000_00000000_00000000_00000000_00000000_00000000
          + s[7] as int * 0x1_00000000_00000000_00000000_00000000_00000000_00000000_00000000
  {
    SmallBases();
    assert Num(s, 0, 1) == Times(s[0], Base(0)) == s[0];
    assert Num(s, 0, 2) == Num(s, 0, 1) + Times(s[1], Base(1));
    assert Num(s, 0, 2) == s[0] + s[1] as int * 0x1_00000000;
    assert Num(s, 0, 4) == Num(s, 0, 2) + s[2] as int * 0x1_00000000_00000000
        + s[3] as int * 0x1_00000000_00000000_00000000;
    assert Num(s, 0, 6) == Num(s, 0, 4) + s[4] as int * 0x1_00000000_00000000_00000000_00000000
        + s[5] as int * 0x1_00000000_00000000_00000000_00000000_00000000;
  }

  lemma SmallBases()
    ensures Base(1) == 0x1_00000000 && Base(2) == 0x1_00000000_00000000
    ensures Base(3) == 0x1_00000000_00000000_00000000
    ensures Base(4) == 0x1_00000000_00000000_00000000_00000000
    ensures Base(5) == 0x1_00000000_00000000_00000000_00000000_00000000
    ensures Base(6) == 0x1_00000000_00000000_00000000_00000000_00000000_00000000
    ensures Base(7) == 0x1_00000000_00000000_00000000_00000000_00000000_00000000_00000000
    ensures Base(8) == 0x1_00000000_00000000_00000000_00000000_00000000_00000000_00000000_00000000
    ensures Base(9) == 0x1_00000000_00000000_00000000_00000000_00000000_00000000_00000000_00000000_00000000
  {
  }
}
