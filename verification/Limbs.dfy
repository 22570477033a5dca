/** Natural numbers in arrays of 32-bit limbs, least significant limb first. */
module Limbs {
  import opened Numbers

  type Limb = x: int | 0 <= x < 0x1_0000_0000

  function Base(n: nat): (r: nat)
    ensures r > 0
  {
    if n == 0 then 1 else 0x1_0000_0000 * Base(n - 1)
  }

  /** The number in the n limbs of s from lo on. */
  function Num(s: seq<Limb>, lo: nat, n: nat): nat
    requires lo + n <= |s|
  {
    if n == 0 then 0 else Num(s, lo, n - 1) + Times(s[lo + n - 1], Base(n - 1))
  }

  lemma {:induction false} NumFrame(s: seq<Limb>, t: seq<Limb>, lo: nat, n: nat)
    requires lo + n <= |s| && lo + n <= |t|
    requires forall i :: lo <= i < lo + n ==> s[i] == t[i]
    ensures Num(s, lo, n) == Num(t, lo, n)
  {
    if n > 0 {
      NumFrame(s, t, lo, n - 1);
    }
  }

  lemma LimbTimes(x: int, b: nat)
    requires 0 <= x < 0x1_0000_0000
    ensures Times(x, b) + b <= 0x1_0000_0000 * b
  {
    MulMono(x + 1, 0x1_0000_0000, b);
  }

  lemma {:induction false} NumFits(s: seq<Limb>, lo: nat, n: nat)
    requires lo + n <= |s|
    ensures Num(s, lo, n) < Base(n)
  {
    if n > 0 {
      NumFits(s, lo, n - 1);
      LimbTimes(s[lo + n - 1], Base(n - 1));
    }
  }

  lemma {:induction false} BaseAdd(a: nat, b: nat)
    ensures Base(a + b) == Base(a) * Base(b)
  {
    if b > 0 {
      BaseAdd(a, b - 1);
      MulAssoc(0x1_0000_0000, Base(a), Base(b - 1));
    }
  }

  lemma Distribute(p: int, a: int, b: int, x: int)
    ensures p * (a + x * b) == p * a + x * (p * b)
  {
    MulAssoc(x, p, b);
  }

  /** The low a limbs and the b limbs above them. */
  lemma {:induction false} NumSplit(s: seq<Limb>, lo: nat, a: nat, b: nat)
    requires lo + a + b <= |s|
    ensures Num(s, lo, a + b) == Num(s, lo, a) + Base(a) * Num(s, lo + a, b)
  {
    if b > 0 {
      NumSplit(s, lo, a, b - 1);
      BaseAdd(a, b - 1);
      var x := s[lo + a + b - 1];
      Distribute(Base(a), Num(s, lo + a, b - 1), Base(b - 1), x);
      assert Times(x, Base(a + b - 1)) == x * (Base(a) * Base(b - 1));
    }
  }

  lemma LowLimb(s: seq<Limb>, lo: nat, n: nat)
    requires n > 0 && lo + n <= |s|
    ensures Num(s, lo, n) == s[lo] + 0x1_0000_0000 * Num(s, lo + 1, n - 1)
  {
    NumSplit(s, lo, 1, n - 1);
    assert Num(s, lo, 1) == s[lo] && Base(1) == 0x1_0000_0000;
  }

  lemma {:induction false} NumZero(s: seq<Limb>, lo: nat, n: nat)
    requires lo + n <= |s| && forall i :: lo <= i < lo + n ==> s[i] == 0
    ensures Num(s, lo, n) == 0
  {
    if n > 0 {
      NumZero(s, lo, n - 1);
    }
  }

  /** A number is zero only if all its limbs are. */
  lemma {:induction false} ZeroLimbs(s: seq<Limb>, lo: nat, n: nat)
    requires lo + n <= |s| && Num(s, lo, n) == 0
    ensures forall i :: lo <= i < lo + n ==> s[i] == 0
  {
    if n > 0 {
      MulMono(1, Base(n - 1), s[lo + n - 1]);
      ZeroLimbs(s, lo, n - 1);
    }
  }

  lemma OneLimb(s: seq<Limb>, n: nat)
    requires 0 < n <= |s|
    ensures Num(s, 0, n) == 1 <==> s[0] == 1 && forall i :: 1 <= i < n ==> s[i] == 0
  {
    LowLimb(s, 0, n);
    if Num(s, 1, n - 1) == 0 {
      ZeroLimbs(s, 1, n - 1);
    } else if forall i :: 1 <= i < n ==> s[i] == 0 {
      NumZero(s, 1, n - 1);
    }
  }

  /** Numbers of the same length are equal only if their limbs are. */
  lemma {:induction false} NumInjective(s: seq<Limb>, t: seq<Limb>, n: nat)
    requires n <= |s| && n <= |t| && Num(s, 0, n) == Num(t, 0, n)
    ensures forall i :: 0 <= i < n ==> s[i] == t[i]
  {
    if n > 0 {
      var k := n - 1;
      NumFits(s, 0, k);
      NumFits(t, 0, k);
      DivModUnique(Num(s, 0, n), Base(k), s[k], Num(s, 0, k));
      DivModUnique(Num(s, 0, n), Base(k), t[k], Num(t, 0, k));
      NumInjective(s, t, k);
    }
  }

  // ---- addition and subtraction ----

  lemma Column(x: int, y: int, d: nat, r: nat, carry: nat, b: nat)
    requires 0 <= x && 0 <= y && x + y + d == r + carry * 0x1_0000_0000
    ensures Times(x, b) + Times(y, b) + Times(d, b) == Times(r, b) + Times(carry, 0x1_0000_0000 * b)
  {
    MulAssoc(carry, 0x1_0000_0000, b);
    assert (x + y + d) * b == x * b + y * b + d * b;
    assert (r + carry * 0x1_0000_0000) * b == r * b + (carry * 0x1_0000_0000) * b;
  }

  /** Adds limb by limb and returns the carry; all three operands start at limb at, and the
      result may overlay either summand. */
  method Add(x: array<Limb>, y: array<Limb>, result: array<Limb>, at: nat, length: nat) returns (carry: nat)
    requires at + length <= x.Length && at + length <= y.Length && at + length <= result.Length
    modifies result
    ensures carry <= 1
    ensures Num(result[..], at, length) + carry * Base(length) == old(Num(x[..], at, length) + Num(y[..], at, length))
    ensures forall i :: 0 <= i < result.Length && !(at <= i < at + length) ==> result[i] == old(result[i])
  {
    ghost var xs, ys := x[..], y[..];
    carry := 0;
    for v := 0 to length
      invariant carry <= 1
      invariant Num(result[..], at, v) + Times(carry, Base(v)) == Num(xs, at, v) + Num(ys, at, v)
      invariant forall i :: at + v <= i < at + length ==> x[i] == xs[i] && y[i] == ys[i]
      invariant forall i :: 0 <= i < result.Length && !(at <= i < at + v) ==> result[i] == old(result[i])
    {
      ghost var before := result[..];
      var d := carry + x[at + v] + y[at + v];
      result[at + v] := d % 0x1_0000_0000;
      Column(xs[at + v], ys[at + v], carry, d % 0x1_0000_0000, d / 0x1_0000_0000, Base(v));
      carry := d / 0x1_0000_0000;
      NumFrame(before, result[..], at, v);
    }
  }

  lemma Borrow(x: int, y: int, d: nat, b: nat)
    requires 0 <= x < 0x1_0000_0000 && 0 <= y < 0x1_0000_0000 && d <= 1
    ensures var w := (x - y - d) % 0x1_0000_0000_0000_0000;
            var r, borrow := w % 0x1_0000_0000, w / 0x1_0000_0000 % 2;
            borrow <= 1 && Times(r, b) + Times(y, b) + Times(d, b) == Times(x, b) + Times(borrow, 0x1_0000_0000 * b)
  {
    var w := (x - y - d) % 0x1_0000_0000_0000_0000;
    var r, borrow := w % 0x1_0000_0000, w / 0x1_0000_0000 % 2;
    assert r + y + d == x + borrow * 0x1_0000_0000;
    Column(r, y, d, x, borrow, b);
  }

  /** Subtracts limb by limb in 64-bit words and returns the borrow. */
  method Sub(x: array<Limb>, y: array<Limb>, result: array<Limb>, length: nat) returns (borrow: nat)
    requires length <= x.Length && length <= y.Length && length <= result.Length
    modifies result
    ensures borrow <= 1
    ensures Num(result[..], 0, length) + old(Num(y[..], 0, length))
         == old(Num(x[..], 0, length)) + borrow * Base(length)
    ensures forall i :: length <= i < result.Length ==> result[i] == old(result[i])
  {
    ghost var xs, ys := x[..], y[..];
    borrow := 0;
    for v := 0 to length
      invariant borrow <= 1
      invariant Num(result[..], 0, v) + Num(ys, 0, v) == Num(xs, 0, v) + Times(borrow, Base(v))
      invariant forall i :: v <= i < length ==> x[i] == xs[i] && y[i] == ys[i]
      invariant forall i :: v <= i < result.Length ==> result[i] == old(result[i])
    {
      ghost var before := result[..];
      Borrow(xs[v], ys[v], borrow, Base(v));
      var d := (x[v] - y[v] - borrow) % 0x1_0000_0000_0000_0000;
      result[v] := d % 0x1_0000_0000;
      borrow := d / 0x1_0000_0000 % 2;
      NumFrame(before, result[..], 0, v);
    }
  }

  // ---- copies, shifts and comparisons ----

  method SetZero(a: array<Limb>, length: nat)
    requires length <= a.Length
    modifies a
    ensures forall i :: 0 <= i < length ==> a[i] == 0
    ensures forall i :: length <= i < a.Length ==> a[i] == old(a[i])
  {
    for i := 0 to length
      invariant forall j :: 0 <= j < i ==> a[j] == 0
      invariant forall j :: length <= j < a.Length ==> a[j] == old(a[j])
    {
      a[i] := 0;
    }
  }

  method Copy(from: array<Limb>, to: array<Limb>, length: nat)
    requires length <= from.Length && length <= to.Length
    modifies to
    ensures to[..] == old(from[..length]) + old(to[length..])
    ensures Num(to[..], 0, length) == old(Num(from[..], 0, length))
  {
    ghost var was, dest := from[..], to[..];
    for i := 0 to length
      invariant forall j :: 0 <= j < i ==> to[j] == was[j]
      invariant forall j :: i <= j < to.Length ==> to[j] == dest[j]
      invariant forall j :: i <= j < length ==> from[j] == was[j]
    {
      to[i] := from[i];
    }
    NumFrame(was, to[..], 0, length);
  }

  method Table(s: seq<Limb>) returns (a: array<Limb>)
    ensures fresh(a) && a[..] == s
  {
    a := new Limb[|s|](i requires 0 <= i < |s| => s[i]);
  }

  function Order(a: int, b: int): int { if a > b then 1 else if a < b then -1 else 0 }

  lemma HigherColumn(x: nat, y: nat, low: nat, low': nat, b: nat)
    requires x > y && low' < b
    ensures low + Times(x, b) > low' + Times(y, b)
  {
    MulMono(y + 1, x, b);
  }

  lemma HigherDigit(s: seq<Limb>, t: seq<Limb>, i: nat)
    requires i < |s| && i < |t| && s[i] > t[i]
    ensures Num(s, 0, i + 1) > Num(t, 0, i + 1)
  {
    NumFits(t, 0, i);
    HigherColumn(s[i], t[i], Num(s, 0, i), Num(t, 0, i), Base(i));
  }

  lemma HigherNum(s: seq<Limb>, t: seq<Limb>, i: nat, n: nat)
    requires i < n <= |s| && n <= |t| && s[i] > t[i]
    requires forall j :: i < j < n ==> s[j] == t[j]
    ensures Num(s, 0, n) > Num(t, 0, n)
  {
    hide Num;
    NumSplit(s, 0, i + 1, n - i - 1);
    NumSplit(t, 0, i + 1, n - i - 1);
    NumFrame(s, t, i + 1, n - i - 1);
    HigherDigit(s, t, i);
  }

  method IsGreater(a: array<Limb>, b: array<Limb>, length: nat) returns (r: int)
    requires length <= a.Length && length <= b.Length
    ensures r == Order(Num(a[..], 0, length), Num(b[..], 0, length))
  {
    var i := length - 1;
    while i >= 0
      invariant -1 <= i < length
      invariant forall j :: i < j < length ==> a[j] == b[j]
    {
      if a[i] > b[i] {
        HigherNum(a[..], b[..], i, length);
        return 1;
      }
      if a[i] < b[i] {
        HigherNum(b[..], a[..], i, length);
        return -1;
      }
      i := i - 1;
    }
    NumFrame(a[..], b[..], 0, length);
    return 0;
  }

  method IsSame(a: array<Limb>, b: array<Limb>, length: nat) returns (same: bool)
    requires length <= a.Length && length <= b.Length
    ensures same <==> Num(a[..], 0, length) == Num(b[..], 0, length)
  {
    for i := 0 to length
      invariant forall j :: 0 <= j < i ==> a[j] == b[j]
    {
      if a[i] != b[i] {
        if Num(a[..], 0, length) == Num(b[..], 0, length) {
          NumInjective(a[..], b[..], length);
        }
        return false;
      }
    }
    NumFrame(a[..], b[..], 0, length);
    return true;
  }

  method IsZero(a: array<Limb>, length: nat) returns (zero: bool)
    requires length <= a.Length
    ensures zero <==> Num(a[..], 0, length) == 0
  {
    var r := 0;
    for n := 0 to length
      invariant r <= n
      invariant r == n <==> forall j :: 0 <= j < n ==> a[j] == 0
    {
      if a[n] == 0 {
        r := r + 1;
      }
    }
    zero := r == length;
    if zero {
      NumZero(a[..], 0, length);
    } else if Num(a[..], 0, length) == 0 {
      ZeroLimbs(a[..], 0, length);
    }
  }

  method IsOne(a: array<Limb>, length: nat) returns (one: bool)
    requires 0 < length <= a.Length
    ensures one <==> Num(a[..], 0, length) == 1
  {
    OneLimb(a[..], length);
    var n := 1;
    while n < length
      invariant 1 <= n <= length
      invariant forall j :: 1 <= j < n ==> a[j] == 0
    {
      if a[n] != 0 {
        break;
      }
      n := n + 1;
    }
    one := n == length && a[0] == 1;
  }

  lemma HalfOfLimb(low: int, rest: int, high: int)
    requires 0 <= low < 0x1_0000_0000 && 0 <= rest && high == rest / 2
    ensures (low + 0x1_0000_0000 * rest) / 2 == low / 2 + rest % 2 * 0x8000_0000 + 0x1_0000_0000 * high
    ensures (low + 0x1_0000_0000 * rest) % 2 == low % 2
  {
  }

  /** Limb i of the half is the half of limb i with the bit that falls from above. */
  lemma HalfStep(was: seq<Limb>, before: seq<Limb>, now: seq<Limb>, i: nat, n: nat)
    requires n > 0 && |was| == |before| == |now| && i + n <= |was|
    requires Num(before, i + 1, n - 1) == Num(was, i + 1, n - 1) / 2
    requires now == before[i := was[i] / 2 + Num(was, i + 1, n - 1) % 2 * 0x8000_0000]
    ensures Num(now, i, n) == Num(was, i, n) / 2 && Num(was, i, n) % 2 == was[i] % 2
  {
    hide Num;
    LowLimb(was, i, n);
    LowLimb(now, i, n);
    NumFrame(before, now, i + 1, n - 1);
    HalfOfLimb(was[i], Num(was, i + 1, n - 1), Num(before, i + 1, n - 1));
  }

  /** Shifts right by one bit in place. */
  method RShift(a: array<Limb>, length: nat)
    requires length <= a.Length
    modifies a
    ensures Num(a[..], 0, length) == old(Num(a[..], 0, length)) / 2
    ensures forall i :: length <= i < a.Length ==> a[i] == old(a[i])
  {
    ghost var was := a[..];
    var i, nOld := length, 0;
    while i > 0
      invariant 0 <= i <= length
      invariant nOld == Num(was, i, length - i) % 2
      invariant Num(a[..], i, length - i) == Num(was, i, length - i) / 2
      invariant forall j :: 0 <= j < i || length <= j < a.Length ==> a[j] == was[j]
    {
      i := i - 1;
      ghost var before := a[..];
      var n := a[i] % 2;
      a[i] := a[i] / 2 + nOld * 0x8000_0000;
      nOld := n;
      HalfStep(was, before, a[..], i, length - i);
    }
  }

  /** The number without its low shift limbs, cut to outSize limbs. */
  method RShiftBy(a: array<Limb>, inSize: nat, out: array<Limb>, outSize: nat, shift: nat)
    requires inSize <= a.Length && outSize <= out.Length && shift <= inSize && a != out
    modifies out
    ensures Num(out[..], 0, outSize) == Num(a[..], 0, inSize) / Base(shift) % Base(outSize)
    ensures forall i :: outSize <= i < out.Length ==> out[i] == old(out[i])
  {
    var i := 0;
    while i < inSize - shift && i < outSize
      invariant 0 <= i <= outSize && i <= inSize - shift
      invariant forall j :: 0 <= j < i ==> out[j] == a[j + shift]
      invariant forall j :: outSize <= j < out.Length ==> out[j] == old(out[j])
    {
      out[i] := a[i + shift];
      i := i + 1;
    }
    ghost var kept := i;
    while i < outSize
      invariant kept <= i <= outSize
      invariant forall j :: 0 <= j < kept ==> out[j] == a[j + shift]
      invariant forall j :: kept <= j < i ==> out[j] == 0
      invariant forall j :: outSize <= j < out.Length ==> out[j] == old(out[j])
    {
      out[i] := 0;
      i := i + 1;
    }
    DroppedLimbs(a[..], shift, inSize - shift);
    ShiftedNum(a[..], inSize - shift, out[..], outSize, shift, kept);
  }

  lemma {:induction false} NumShift(s: seq<Limb>, t: seq<Limb>, shift: nat, n: nat)
    requires shift + n <= |s| && n <= |t| && forall j :: 0 <= j < n ==> t[j] == s[j + shift]
    ensures Num(t, 0, n) == Num(s, shift, n)
  {
    if n > 0 {
      NumShift(s, t, shift, n - 1);
    }
  }

  lemma ShiftedNum(s: seq<Limb>, rest: nat, t: seq<Limb>, outSize: nat, shift: nat, kept: nat)
    requires shift + rest <= |s| && outSize <= |t|
    requires kept == if rest < outSize then rest else outSize
    requires forall j :: 0 <= j < kept ==> t[j] == s[j + shift]
    requires forall j :: kept <= j < outSize ==> t[j] == 0
    ensures Num(t, 0, outSize) == Num(s, shift, rest) % Base(outSize)
  {
    hide Num, Base;
    NumShift(s, t, shift, kept);
    ZeroTail(t, kept, outSize - kept);
    CutNum(s, shift, kept, rest - kept, outSize);
  }

  lemma ZeroTail(t: seq<Limb>, n: nat, m: nat)
    requires n + m <= |t| && forall i :: n <= i < n + m ==> t[i] == 0
    ensures Num(t, 0, n + m) == Num(t, 0, n)
  {
    hide Num;
    NumSplit(t, 0, n, m);
    NumZero(t, n, m);
  }

  lemma DroppedLimbs(s: seq<Limb>, shift: nat, rest: nat)
    requires shift + rest <= |s|
    ensures Num(s, 0, shift + rest) / Base(shift) == Num(s, shift, rest)
  {
    hide Num;
    NumSplit(s, 0, shift, rest);
    NumFits(s, 0, shift);
    DivModUnique(Num(s, 0, shift + rest), Base(shift), Num(s, shift, rest), Num(s, 0, shift));
  }

  lemma {:induction false} BaseMono(a: nat, b: nat)
    requires a <= b
    ensures Base(a) <= Base(b)
  {
    if a < b {
      BaseMono(a, b - 1);
    }
  }

  lemma CutNum(s: seq<Limb>, lo: nat, kept: nat, rest: nat, size: nat)
    requires lo + kept + rest <= |s| && kept <= size && (rest == 0 || kept == size)
    ensures Num(s, lo, kept + rest) % Base(size) == Num(s, lo, kept)
  {
    NumFits(s, lo, kept);
    BaseMono(kept, size);
    if rest > 0 {
      hide Num;
      NumSplit(s, lo, kept, rest);
      DivModUnique(Num(s, lo, kept + rest), Base(size), Num(s, lo + kept, rest), Num(s, lo, kept));
    } else {
      DivModUnique(Num(s, lo, kept), Base(size), 0, Num(s, lo, kept));
    }
  }
}
