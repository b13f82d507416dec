/**
 The ring of polynomials over GF(2) modulo x^bits + top, with a polynomial held as the
 number whose bit i is the coefficient of x^i. Everything in the first half holds for
 every modulus; the second half adds that the modulus is primitive and obtains a field.
*/
module Galois {
  import opened Bits

  /** bits is GF_BITS; top is the bit pattern of alpha^bits, the modulus without its leading term. */
  datatype Modulus = Modulus(bits: nat, top: nat) {
    predicate Valid() { bits >= 1 && top < Pow2(bits) }

    predicate Elem(x: nat) { x < Pow2(bits) }

    /** GF_SIZE, the number of nonzero elements. */
    function Size(): nat { Pow2(bits) - 1 }
  }

  /** Multiplication by alpha = x: shift left and reduce by the modulus if the top bit falls out. */
  function TimesAlpha(g: Modulus, x: nat): (r: nat)
    requires g.Valid() && g.Elem(x)
    ensures g.Elem(r)
  {
    var mask := Pow2(g.bits - 1);
    if x >= mask then
      XorBound(g.top, 2 * (x - mask), g.bits);
      Xor(g.top, 2 * (x - mask))
    else 2 * x
  }

  /** alpha^i * y. */
  function Shift(g: Modulus, i: nat, y: nat): (r: nat)
    requires g.Valid() && g.Elem(y)
    ensures g.Elem(r)
  {
    if i == 0 then y else TimesAlpha(g, Shift(g, i - 1, y))
  }

  lemma OneIsElem(g: Modulus)
    requires g.Valid()
    ensures g.Elem(1) && g.Elem(0)
  {}

  function Exp(g: Modulus, i: nat): (r: nat)
    requires g.Valid()
    ensures g.Elem(r)
  {
    OneIsElem(g);
    Shift(g, i, 1)
  }

  /** Carry-less multiplication modulo the polynomial: add y for every bit of x, Horner style. */
  function ClMul(g: Modulus, x: nat, y: nat): (r: nat)
    requires g.Valid() && g.Elem(y)
    ensures g.Elem(r)
  {
    if x == 0 then 0 else
      var low := if x % 2 == 1 then y else 0;
      var high := TimesAlpha(g, ClMul(g, x / 2, y));
      XorBound(low, high, g.bits);
      Xor(low, high)
  }

  // ---------------------------------------------------------------------------------
  // Multiplication by alpha is linear, and every element splits into a bit and alpha times the rest
  // ---------------------------------------------------------------------------------

  lemma XorElem(g: Modulus, a: nat, b: nat)
    requires g.Elem(a) && g.Elem(b)
    ensures g.Elem(Xor(a, b))
  {
    XorBound(a, b, g.bits);
  }

  /** (a ^ b) ^ (c ^ d) == (a ^ c) ^ (b ^ d). */
  lemma XorMiddle(a: nat, b: nat, c: nat, d: nat)
    ensures Xor(Xor(a, b), Xor(c, d)) == Xor(Xor(a, c), Xor(b, d))
  {
    hide Xor;
    XorAssoc(a, b, Xor(c, d));
    XorAssoc(b, c, d);
    XorComm(b, c);
    XorAssoc(c, b, d);
    XorAssoc(a, c, Xor(b, d));
  }

  /** TimesAlpha by cases, on the pieces of its argument. */
  lemma AlphaCases(g: Modulus, low: nat)
    requires g.Valid() && low < Pow2(g.bits - 1)
    ensures Pow2(g.bits) == 2 * Pow2(g.bits - 1)
    ensures g.Elem(low) && g.Elem(2 * low) && g.Elem(low + Pow2(g.bits - 1))
    ensures TimesAlpha(g, low) == 2 * low
    ensures TimesAlpha(g, low + Pow2(g.bits - 1)) == Xor(g.top, 2 * low)
  {}

  /** Every element is low or low + mask for some low below the mask. */
  lemma SplitHighBit(g: Modulus, x: nat) returns (low: nat, high: bool)
    requires g.Valid() && g.Elem(x)
    ensures low < Pow2(g.bits - 1) && x == if high then low + Pow2(g.bits - 1) else low
  {
    var mask := Pow2(g.bits - 1);
    high := x >= mask;
    low := if high then x - mask else x;
  }

  /** Linearity when only the first operand has its top bit set. */
  lemma AlphaLinearHigh(g: Modulus, a: nat, b: nat)
    requires g.Valid() && a < Pow2(g.bits - 1) && b < Pow2(g.bits - 1)
    requires g.Elem(a + Pow2(g.bits - 1)) && g.Elem(b)
    ensures g.Elem(Xor(a + Pow2(g.bits - 1), b))
    ensures TimesAlpha(g, Xor(a + Pow2(g.bits - 1), b)) == Xor(TimesAlpha(g, a + Pow2(g.bits - 1)), TimesAlpha(g, b))
  {
    hide Xor, Pow2, TimesAlpha;
    XorElem(g, a + Pow2(g.bits - 1), b);
    XorHighBit(a, b, g.bits - 1);
    XorBound(a, b, g.bits - 1);
    XorDouble(a, b);
    AlphaCases(g, a);
    AlphaCases(g, b);
    AlphaCases(g, Xor(a, b));
    XorAssoc(g.top, 2 * a, 2 * b);
  }

  /** Linearity when both operands have their top bit set: the two reductions cancel. */
  lemma AlphaLinearHighs(g: Modulus, a: nat, b: nat)
    requires g.Valid() && a < Pow2(g.bits - 1) && b < Pow2(g.bits - 1)
    requires g.Elem(a + Pow2(g.bits - 1)) && g.Elem(b + Pow2(g.bits - 1))
    ensures g.Elem(Xor(a + Pow2(g.bits - 1), b + Pow2(g.bits - 1)))
    ensures TimesAlpha(g, Xor(a + Pow2(g.bits - 1), b + Pow2(g.bits - 1)))
         == Xor(TimesAlpha(g, a + Pow2(g.bits - 1)), TimesAlpha(g, b + Pow2(g.bits - 1)))
  {
    hide Xor, Pow2, TimesAlpha;
    XorElem(g, a + Pow2(g.bits - 1), b + Pow2(g.bits - 1));
    XorHighBits(a, b, g.bits - 1);
    XorBound(a, b, g.bits - 1);
    XorDouble(a, b);
    AlphaCases(g, a);
    AlphaCases(g, b);
    AlphaCases(g, Xor(a, b));
    XorMiddle(g.top, 2 * a, g.top, 2 * b);
    XorSelf(g.top);
    XorZero(2 * Xor(a, b));
  }

  lemma AlphaLinear(g: Modulus, a: nat, b: nat)
    requires g.Valid() && g.Elem(a) && g.Elem(b)
    ensures g.Elem(Xor(a, b))
    ensures TimesAlpha(g, Xor(a, b)) == Xor(TimesAlpha(g, a), TimesAlpha(g, b))
  {
    hide Xor, Pow2, TimesAlpha;
    XorElem(g, a, b);
    var la, ha := SplitHighBit(g, a);
    var lb, hb := SplitHighBit(g, b);
    if ha && hb {
      AlphaLinearHighs(g, la, lb);
    } else if ha {
      AlphaLinearHigh(g, la, lb);
    } else if hb {
      AlphaLinearHigh(g, lb, la);
      XorComm(a, b);
      XorComm(TimesAlpha(g, a), TimesAlpha(g, b));
    } else {
      XorBound(a, b, g.bits - 1);
      XorDouble(a, b);
      AlphaCases(g, a);
      AlphaCases(g, b);
      AlphaCases(g, Xor(a, b));
    }
  }

  lemma {:induction false} ShiftLinear(g: Modulus, i: nat, a: nat, b: nat)
    requires g.Valid() && g.Elem(a) && g.Elem(b)
    ensures g.Elem(Xor(a, b))
    ensures Shift(g, i, Xor(a, b)) == Xor(Shift(g, i, a), Shift(g, i, b))
  {
    hide Xor, TimesAlpha;
    XorElem(g, a, b);
    if i > 0 {
      ShiftLinear(g, i - 1, a, b);
      AlphaLinear(g, Shift(g, i - 1, a), Shift(g, i - 1, b));
    }
  }

  lemma {:induction false} ShiftAdd(g: Modulus, i: nat, j: nat, y: nat)
    requires g.Valid() && g.Elem(y)
    ensures Shift(g, i + j, y) == Shift(g, i, Shift(g, j, y))
  {
    hide TimesAlpha;
    if i > 0 { ShiftAdd(g, i - 1, j, y); }
  }

  lemma {:induction false} ShiftZero(g: Modulus, i: nat)
    requires g.Valid()
    ensures Shift(g, i, 0) == 0
  {
    if i > 0 { ShiftZero(g, i - 1); }
  }

  /** x == bit0(x) ^ alpha * (x >> 1). */
  lemma {:induction false} SplitLowBit(g: Modulus, x: nat)
    requires g.Valid() && g.Elem(x)
    ensures g.Elem(x / 2) && g.Elem(x % 2)
    ensures TimesAlpha(g, x / 2) == 2 * (x / 2)
    ensures x == Xor(x % 2, TimesAlpha(g, x / 2))
  {
    var h := x / 2;
    assert h < Pow2(g.bits - 1);
    XorBits(x % 2, 2 * h);
    XorZero(h);
    SameBits(x, Xor(x % 2, 2 * h));
  }

  // ---------------------------------------------------------------------------------
  // ClMul is bilinear, commutes with alpha on both sides, and is a commutative ring product
  // ---------------------------------------------------------------------------------

  lemma {:induction false} MulStep(g: Modulus, x: nat, y: nat)
    requires g.Valid() && g.Elem(y)
    ensures ClMul(g, x, y) == Xor(if x % 2 == 1 then y else 0, TimesAlpha(g, ClMul(g, x / 2, y)))
  {}

  lemma {:induction false} MulLinearRight(g: Modulus, x: nat, a: nat, b: nat)
    requires g.Valid() && g.Elem(a) && g.Elem(b)
    ensures g.Elem(Xor(a, b))
    ensures ClMul(g, x, Xor(a, b)) == Xor(ClMul(g, x, a), ClMul(g, x, b))
  {
    XorElem(g, a, b);
    if x > 0 {
      MulLinearRight(g, x / 2, a, b);
      var p, q := ClMul(g, x / 2, a), ClMul(g, x / 2, b);
      AlphaLinear(g, p, q);
      MulStep(g, x, a);
      MulStep(g, x, b);
      MulStep(g, x, Xor(a, b));
      hide Xor, ClMul, TimesAlpha;
      if x % 2 == 1 {
        XorMiddle(a, b, TimesAlpha(g, p), TimesAlpha(g, q));
      } else {
        XorZero(TimesAlpha(g, p));
        XorZero(TimesAlpha(g, q));
        XorZero(Xor(TimesAlpha(g, p), TimesAlpha(g, q)));
      }
    }
  }

  lemma {:induction false} MulAlphaRight(g: Modulus, x: nat, y: nat)
    requires g.Valid() && g.Elem(y)
    ensures ClMul(g, x, TimesAlpha(g, y)) == TimesAlpha(g, ClMul(g, x, y))
  {
    if x > 0 {
      MulAlphaRight(g, x / 2, y);
      MulStep(g, x, y);
      MulStep(g, x, TimesAlpha(g, y));
      var p := TimesAlpha(g, ClMul(g, x / 2, y));
      AlphaLinear(g, if x % 2 == 1 then y else 0, p);
    }
  }

  lemma {:induction false} MulLinearLeft(g: Modulus, a: nat, b: nat, y: nat)
    requires g.Valid() && g.Elem(y)
    ensures ClMul(g, Xor(a, b), y) == Xor(ClMul(g, a, y), ClMul(g, b, y))
    decreases a + b
  {
    if a == 0 && b == 0 {
      XorZero(0);
    } else {
      MulLinearLeft(g, a / 2, b / 2, y);
      var p, q := ClMul(g, a / 2, y), ClMul(g, b / 2, y);
      AlphaLinear(g, p, q);
      XorBits(a, b);
      MulStep(g, a, y);
      MulStep(g, b, y);
      MulStep(g, Xor(a, b), y);
      hide Xor, ClMul, TimesAlpha;
      XorMiddle(if a % 2 == 1 then y else 0, if b % 2 == 1 then y else 0, TimesAlpha(g, p), TimesAlpha(g, q));
      XorSelf(y);
      XorZero(y);
      XorZero(0);
    }
  }

  lemma {:induction false} MulOneRight(g: Modulus, x: nat)
    requires g.Valid() && g.Elem(x)
    ensures g.Elem(1) && ClMul(g, x, 1) == x
  {
    OneIsElem(g);
    if x > 0 {
      SplitLowBit(g, x);
      MulOneRight(g, x / 2);
    }
  }

  lemma MulOneLeft(g: Modulus, y: nat)
    requires g.Valid() && g.Elem(y)
    ensures ClMul(g, 1, y) == y
  {
    MulStep(g, 1, y);
    assert ClMul(g, 0, y) == 0;
    XorZero(y);
  }

  /** Doubling the left factor without reduction multiplies the product by alpha. */
  lemma MulDoubleLeft(g: Modulus, x: nat, y: nat)
    requires g.Valid() && g.Elem(y)
    ensures ClMul(g, 2 * x, y) == TimesAlpha(g, ClMul(g, x, y))
  {
    hide Xor, ClMul, TimesAlpha, Pow2;
    assert (2 * x) % 2 == 0 && (2 * x) / 2 == x;
    MulStep(g, 2 * x, y);
    XorZero(TimesAlpha(g, ClMul(g, x, y)));
  }

  lemma {:induction false} MulPowerLeft(g: Modulus, j: nat, y: nat)
    requires g.Valid() && g.Elem(y)
    ensures ClMul(g, Pow2(j), y) == Shift(g, j, y)
  {
    if j == 0 {
      MulOneLeft(g, y);
    } else {
      MulPowerLeft(g, j - 1, y);
      MulDoubleLeft(g, Pow2(j - 1), y);
    }
  }

  /** alpha^bits is the bit pattern top. */
  lemma ExpAtBits(g: Modulus)
    requires g.Valid()
    ensures Exp(g, g.bits) == g.top
    ensures Exp(g, g.bits - 1) == Pow2(g.bits - 1)
  {
    OneIsElem(g);
    var mask := Pow2(g.bits - 1);
    MulOneRight(g, mask);
    MulPowerLeft(g, g.bits - 1, 1);
    XorZero(g.top);
    assert TimesAlpha(g, mask) == Xor(g.top, 0);
  }

  /** Multiplying by top is multiplying by alpha^bits, for every element and not only for 1. */
  lemma {:induction false} MulTop(g: Modulus, y: nat)
    requires g.Valid() && g.Elem(y)
    ensures ClMul(g, g.top, y) == Shift(g, g.bits, y)
  {
    var t, m := g.top, g.bits;
    OneIsElem(g);
    if y == 0 {
      assert Xor(0, 0) == 0;
      MulLinearRight(g, t, 0, 0);
      XorSelf(ClMul(g, t, 0));
      ShiftZero(g, m);
    } else if y == 1 {
      MulOneRight(g, t);
      ExpAtBits(g);
    } else {
      SplitLowBit(g, y);
      var h := y / 2;
      MulTop(g, y % 2);
      MulTop(g, h);
      MulLinearRight(g, t, y % 2, TimesAlpha(g, h));
      MulAlphaRight(g, t, h);
      ShiftLinear(g, m, y % 2, TimesAlpha(g, h));
      ShiftAdd(g, m, 1, h);
      ShiftAdd(g, 1, m, h);
      assert Shift(g, 1, h) == TimesAlpha(g, h);
      assert Shift(g, 1, Shift(g, m, h)) == TimesAlpha(g, Shift(g, m, h));
    }
  }

  lemma ShiftStep(g: Modulus, i: nat, y: nat)
    requires g.Valid() && g.Elem(y)
    ensures Shift(g, i + 1, y) == TimesAlpha(g, Shift(g, i, y))
  {}

  lemma MulAlphaLeftHigh(g: Modulus, low: nat, y: nat)
    requires g.Valid() && g.Elem(y) && low < Pow2(g.bits - 1)
    ensures ClMul(g, Xor(g.top, 2 * low), y) == TimesAlpha(g, ClMul(g, low + Pow2(g.bits - 1), y))
  {
    hide Xor, ClMul, Pow2, TimesAlpha, Shift;
    var mask := Pow2(g.bits - 1);
    ShiftStep(g, g.bits - 1, y);
    MulLinearLeft(g, g.top, 2 * low, y);
    MulTop(g, y);
    MulDoubleLeft(g, low, y);
    AddIsXor(low, g.bits - 1);
    MulLinearLeft(g, mask, low, y);
    MulPowerLeft(g, g.bits - 1, y);
    AlphaLinear(g, ClMul(g, mask, y), ClMul(g, low, y));
  }

  lemma MulAlphaLeft(g: Modulus, x: nat, y: nat)
    requires g.Valid() && g.Elem(x) && g.Elem(y)
    ensures ClMul(g, TimesAlpha(g, x), y) == TimesAlpha(g, ClMul(g, x, y))
  {
    hide ClMul, Xor, Shift, TimesAlpha, Pow2;
    var low, high := SplitHighBit(g, x);
    AlphaCases(g, low);
    MulDoubleLeft(g, low, y);
    if high { MulAlphaLeftHigh(g, low, y); }
  }

  lemma {:induction false} MulShiftLeft(g: Modulus, i: nat, x: nat, y: nat)
    requires g.Valid() && g.Elem(x) && g.Elem(y)
    ensures ClMul(g, Shift(g, i, x), y) == Shift(g, i, ClMul(g, x, y))
  {
    if i > 0 {
      MulShiftLeft(g, i - 1, x, y);
      MulAlphaLeft(g, Shift(g, i - 1, x), y);
    }
  }

  /** Multiplying by alpha^i is multiplying by alpha, i times. */
  lemma MulExp(g: Modulus, i: nat, y: nat)
    requires g.Valid() && g.Elem(y)
    ensures ClMul(g, Exp(g, i), y) == Shift(g, i, y)
  {
    OneIsElem(g);
    MulShiftLeft(g, i, 1, y);
    MulOneLeft(g, y);
  }

  lemma ExpAdd(g: Modulus, i: nat, j: nat)
    requires g.Valid()
    ensures Exp(g, i + j) == ClMul(g, Exp(g, i), Exp(g, j)) == Shift(g, i, Exp(g, j))
  {
    OneIsElem(g);
    MulExp(g, i, Exp(g, j));
    ShiftAdd(g, i, j, 1);
  }

  lemma {:induction false} MulComm(g: Modulus, x: nat, y: nat)
    requires g.Valid() && g.Elem(x) && g.Elem(y)
    ensures ClMul(g, x, y) == ClMul(g, y, x)
  {
    OneIsElem(g);
    if x == 0 {
      assert Xor(0, 0) == 0;
      MulLinearRight(g, y, 0, 0);
      XorSelf(ClMul(g, y, 0));
    } else if x == 1 {
      MulOneLeft(g, y);
      MulOneRight(g, y);
    } else {
      SplitLowBit(g, x);
      MulComm(g, x % 2, y);
      MulComm(g, x / 2, y);
      MulLinearRight(g, y, x % 2, TimesAlpha(g, x / 2));
      MulLinearLeft(g, x % 2, TimesAlpha(g, x / 2), y);
      MulAlphaRight(g, y, x / 2);
      MulAlphaLeft(g, x / 2, y);
    }
  }

  lemma {:induction false} MulAssoc(g: Modulus, x: nat, y: nat, z: nat)
    requires g.Valid() && g.Elem(x) && g.Elem(y) && g.Elem(z)
    ensures ClMul(g, ClMul(g, x, y), z) == ClMul(g, x, ClMul(g, y, z))
  {
    if x > 0 {
      var low := if x % 2 == 1 then y else 0;
      var p := ClMul(g, x / 2, y);
      MulAssoc(g, x / 2, y, z);
      MulStep(g, x, y);
      MulLinearLeft(g, low, TimesAlpha(g, p), z);
      MulAlphaLeft(g, p, z);
      MulStep(g, x, ClMul(g, y, z));
    }
  }

  // ---------------------------------------------------------------------------------
  // Primitive moduli
  // ---------------------------------------------------------------------------------

  /** alpha has multiplicative order exactly 2^bits - 1. */
  ghost predicate Primitive(g: Modulus)
  {
    && g.Valid()
    && Exp(g, g.Size()) == 1
    && forall d | 0 < d < g.Size() :: Exp(g, d) != 1
  }

  lemma ExpPeriod(g: Modulus, i: nat)
    requires Primitive(g)
    ensures Exp(g, i + g.Size()) == Exp(g, i)
  {
    ExpAdd(g, i, g.Size());
    OneIsElem(g);
  }

  lemma ExpNonzero(g: Modulus, i: nat)
    requires Primitive(g) && i < g.Size()
    ensures Exp(g, i) != 0
  {
    ExpAdd(g, g.Size() - i, i);
    ShiftZero(g, g.Size() - i);
  }

  lemma ExpInjective(g: Modulus, i: nat, j: nat)
    requires Primitive(g) && i < j < g.Size()
    ensures Exp(g, i) != Exp(g, j)
  {
    hide Exp, ClMul, Primitive;
    var n := g.Size();
    // had the two powers been equal, alpha^(j-i) would be 1
    PrimitiveOrder(g, j - i);
    ExpAdd(g, n - i, i);
    ExpAdd(g, n - i, j);
    ExpPeriod(g, j - i);
    assert n - i + j == j - i + n;
  }

  lemma PrimitiveOrder(g: Modulus, d: nat)
    requires Primitive(g) && 0 < d < g.Size()
    ensures g.Valid() && Exp(g, d) != 1 && Exp(g, g.Size()) == 1
  {}

  ghost function Interval(n: nat): (s: set<nat>)
    ensures |s| == n
    ensures forall v: nat :: v in s <==> 1 <= v <= n
  {
    if n == 0 then {} else Interval(n - 1) + {n}
  }

  ghost function Image(f: seq<nat>): (s: set<nat>)
    ensures forall v: nat :: v in s <==> v in f
  {
    if f == [] then {} else Image(f[..|f| - 1]) + {f[|f| - 1]}
  }

  lemma {:induction false} InjectiveImageSize(f: seq<nat>)
    requires forall i, j | 0 <= i < j < |f| :: f[i] != f[j]
    ensures |Image(f)| == |f|
  {
    if f != [] {
      var init := f[..|f| - 1];
      InjectiveImageSize(init);
      assert f[|f| - 1] !in init;
    }
  }

  /** An injective map from n positions into n values hits every value. */
  lemma Pigeonhole(f: seq<nat>)
    requires forall i | 0 <= i < |f| :: 1 <= f[i] <= |f|
    requires forall i, j | 0 <= i < j < |f| :: f[i] != f[j]
    ensures forall v: nat | 1 <= v <= |f| :: v in f
  {
    InjectiveImageSize(f);
    var image, all := Image(f), Interval(|f|);
    assert image <= all;
    assert all == image + (all - image);
    assert |all - image| == 0;
  }

  /** Every nonzero element is a power of alpha, in exactly one way. */
  lemma ExpSurjective(g: Modulus, x: nat) returns (i: nat)
    requires Primitive(g) && g.Elem(x) && x != 0
    ensures i < g.Size() && Exp(g, i) == x
    ensures forall j: nat | j < g.Size() && Exp(g, j) == x :: j == i
  {
    var n := g.Size();
    var f := seq(n, i requires 0 <= i => Exp(g, i));
    forall i | 0 <= i < n ensures 1 <= f[i] <= n { ExpNonzero(g, i); }
    forall i, j | 0 <= i < j < n ensures f[i] != f[j] { ExpInjective(g, i, j); }
    Pigeonhole(f);
    assert x in f;
    i :| 0 <= i < n && f[i] == x;
    forall j: nat | j < n && Exp(g, j) == x ensures j == i {
      if j < i { ExpInjective(g, j, i); } else if i < j { ExpInjective(g, i, j); }
    }
  }

  /** A product vanishes only when a factor does. */
  lemma MulNonzero(g: Modulus, x: nat, y: nat)
    requires Primitive(g) && g.Elem(x) && g.Elem(y) && x != 0 && y != 0
    ensures ClMul(g, x, y) != 0
  {
    hide Xor, ClMul, TimesAlpha, Shift;
    var i := ExpSurjective(g, x);
    var n := g.Size();
    MulExp(g, i, y);
    // shifting the product by the remaining n - i places gives back y
    ShiftAdd(g, n - i, i, y);
    ShiftZero(g, n - i);
    MulExp(g, n, y);
    MulOneLeft(g, y);
  }
}
