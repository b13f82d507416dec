/** Bitwise exclusive or of natural numbers of any width, the addition of GF(2^m). */
module Bits {
  function Pow2(m: nat): (r: nat)
    ensures r >= 1
  {
    if m == 0 then 1 else 2 * Pow2(m - 1)
  }

  /** The lowest bits differ or agree; the remaining bits are combined recursively. */
  function Xor(a: nat, b: nat): nat
  {
    if a == 0 && b == 0 then 0
    else (if a % 2 == b % 2 then 0 else 1) + 2 * Xor(a / 2, b / 2)
  }

  lemma {:induction false} XorBits(a: nat, b: nat)
    ensures Xor(a, b) % 2 == (if a % 2 == b % 2 then 0 else 1)
    ensures Xor(a, b) / 2 == Xor(a / 2, b / 2)
  {
    var rest := Xor(a / 2, b / 2);
    assert (2 * rest) / 2 == rest && (1 + 2 * rest) / 2 == rest;
  }

  lemma {:induction false} XorZero(a: nat)
    ensures Xor(a, 0) == a == Xor(0, a)
  {
    if a > 0 { XorZero(a / 2); }
  }

  lemma {:induction false} XorSelf(a: nat)
    ensures Xor(a, a) == 0
  {
    if a > 0 { XorSelf(a / 2); }
  }

  lemma {:induction false} XorComm(a: nat, b: nat)
    ensures Xor(a, b) == Xor(b, a)
  {
    if a > 0 || b > 0 { XorComm(a / 2, b / 2); }
  }

  /** Two numbers with the same lowest bit and the same remaining bits are equal. */
  lemma SameBits(a: nat, b: nat)
    requires a % 2 == b % 2 && a / 2 == b / 2
    ensures a == b
  {}

  lemma {:induction false} XorAssoc(a: nat, b: nat, c: nat)
    ensures Xor(Xor(a, b), c) == Xor(a, Xor(b, c))
    decreases a + b + c
  {
    if a > 0 || b > 0 || c > 0 {
      XorAssoc(a / 2, b / 2, c / 2);
      XorBits(a, b);
      XorBits(b, c);
      XorBits(Xor(a, b), c);
      XorBits(a, Xor(b, c));
      SameBits(Xor(Xor(a, b), c), Xor(a, Xor(b, c)));
    }
  }

  lemma XorDouble(a: nat, b: nat)
    ensures Xor(2 * a, 2 * b) == 2 * Xor(a, b)
  {
    XorBits(2 * a, 2 * b);
  }

  lemma {:induction false} XorBound(a: nat, b: nat, m: nat)
    requires a < Pow2(m) && b < Pow2(m)
    ensures Xor(a, b) < Pow2(m)
  {
    if m > 0 { XorBound(a / 2, b / 2, m - 1); }
  }

  lemma {:induction false} AddHighBit(a: nat, h: nat)
    ensures (a + 2 * h) % 2 == a % 2
    ensures (a + 2 * h) / 2 == a / 2 + h
  {}

  /** Bit m of two numbers below 2^m is free: setting it in one operand sets it in the result. */
  lemma {:induction false} XorHighBit(a: nat, b: nat, m: nat)
    requires a < Pow2(m) && b < Pow2(m)
    ensures Xor(a + Pow2(m), b) == Xor(a, b) + Pow2(m)
  {
    hide Xor;
    if m == 0 {
      XorZero(0);
      XorZero(1);
    } else {
      var h := Pow2(m - 1);
      XorHighBit(a / 2, b / 2, m - 1);
      AddHighBit(a, h);
      XorBits(a, b);
      XorBits(a + 2 * h, b);
      AddHighBit(Xor(a, b), h);
      SameBits(Xor(a + 2 * h, b), Xor(a, b) + 2 * h);
    }
  }

  /** On numbers below 2^m, adding 2^m is xoring with it. */
  lemma AddIsXor(a: nat, m: nat)
    requires a < Pow2(m)
    ensures a + Pow2(m) == Xor(Pow2(m), a)
  {
    XorHighBit(0, a, m);
    XorZero(a);
  }

  lemma XorHighBits(a: nat, b: nat, m: nat)
    requires a < Pow2(m) && b < Pow2(m)
    ensures Xor(a + Pow2(m), b + Pow2(m)) == Xor(a, b)
  {
    hide Xor, Pow2;
    var h := Pow2(m);
    AddIsXor(a, m);
    AddIsXor(b, m);
    XorComm(h, a);
    XorComm(h, b);
    XorComm(b, h);
    XorAssoc(a, h, Xor(h, b));
    XorAssoc(h, h, b);
    XorSelf(h);
    XorZero(b);
  }
}
