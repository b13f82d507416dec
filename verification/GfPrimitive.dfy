/** The polynomials the repository lists, and the proof that the one for GF_BITS = 8 is primitive. */
module GfPrimitive {
  import opened Bits
  import opened Galois

  /** Coefficients from x^0 upwards, indexed by GF_BITS; there is no code for 0 and 1 bits. */
  const ALL_PP: seq<string> := [
    "", "", "111", "1101", "11001", "101001", "1100001", "10010001", "101110001",
    "1000100001", "10010000001", "101000000001", "1100101000001", "11011000000001",
    "110000100010001", "1100000000000001", "11010000000010001"]

  /** The value of the first m coefficients of a polynomial. */
  function Top(pp: string, m: nat): (r: nat)
    requires m <= |pp|
    ensures r < Pow2(m)
  {
    if m == 0 then 0
    else if pp[m - 1] == '1' then Top(pp, m - 1) + Pow2(m - 1)
    else Top(pp, m - 1)
  }

  predicate Supported(bits: nat) { 2 <= bits <= 16 }

  lemma PolynomialLengths(bits: nat)
    requires Supported(bits)
    ensures |ALL_PP[bits]| == bits + 1
  {}

  function ModulusOf(bits: nat): (g: Modulus)
    requires Supported(bits)
    ensures g.Valid() && g.bits == bits
  {
    PolynomialLengths(bits);
    Modulus(bits, Top(ALL_PP[bits], bits))
  }

  // ---------------------------------------------------------------------------------
  // A criterion for primitivity: it suffices to look at size / p for the primes p of size
  // ---------------------------------------------------------------------------------

  lemma ExpZeroth(g: Modulus)
    requires g.Valid()
    ensures Exp(g, 0) == 1
  {}

  lemma {:induction false} ExpMultiple(g: Modulus, d: nat, q: nat)
    requires g.Valid() && Exp(g, d) == 1
    ensures Exp(g, d * q) == 1
  {
    hide Shift, ClMul, Pow2, TimesAlpha;
    if q == 0 {
      assert d * q == 0;
      ExpZeroth(g);
    } else {
      ExpMultiple(g, d, q - 1);
      ExpAdd(g, d, d * (q - 1));
      OneIsElem(g);
      MulOneLeft(g, 1);
      assert d + d * (q - 1) == d * q;
    }
  }

  lemma ExactQuotient(n: nat, e: nat) returns (q: nat)
    requires e > 0 && n % e == 0
    ensures n == e * q
  {
    q := n / e;
  }

  lemma ExpDivisor(g: Modulus, e: nat, n: nat)
    requires g.Valid() && e > 0 && Exp(g, e) == 1
    ensures n % e == 0 ==> Exp(g, n) == 1
  {
    hide Exp, Pow2;
    if n % e == 0 {
      var q := ExactQuotient(n, e);
      ExpMultiple(g, e, q);
    }
  }

  /** If alpha^a and alpha^n are 1 then so is alpha to the remainder of n by a. */
  lemma ExpRemainder(g: Modulus, a: nat, n: nat)
    requires g.Valid() && a > 0 && Exp(g, a) == 1 && Exp(g, n) == 1
    ensures Exp(g, n % a) == 1
  {
    var q := n / a;
    ExpMultiple(g, a, q);
    assert n % a + a * q == n;
    ExpAdd(g, n % a, a * q);
    OneIsElem(g);
  }

  /** The smallest positive exponent that gives 1 divides every exponent that gives 1. */
  lemma {:induction false} OrderDivides(g: Modulus, d: nat, n: nat) returns (e: nat)
    requires g.Valid() && 0 < d && Exp(g, d) == 1 && Exp(g, n) == 1
    ensures 0 < e <= d && n % e == 0 && Exp(g, e) == 1
  {
    if n % d == 0 {
      e := d;
    } else {
      ExpRemainder(g, d, n);
      e := OrderDivides(g, n % d, n);
    }
  }

  /** A proper divisor of 255 = 3 * 5 * 17 divides 255 / 3, 255 / 5 or 255 / 17. */
  lemma DivisorsOf255(e: nat)
    requires 0 < e < 255 && 255 % e == 0
    ensures 85 % e == 0 || 51 % e == 0 || 15 % e == 0
  {
    var q := 255 / e;
    assert e * q == 255;
    if e <= 15 {
      SmallDivisorOf255(e, q);
    } else {
      if q >= 16 { ProductAtLeast(e, q); }
      SmallDivisorOf255(q, e);
    }
  }

  lemma ProductAtLeast(a: nat, b: nat)
    requires a >= 16 && b >= 16
    ensures a * b >= 256
  {
    assert a * b >= 16 * b;
  }

  lemma EvenProduct(h: nat, b: nat)
    ensures (2 * h * b) % 2 == 0
  {
    assert 2 * h * b == 2 * (h * b);
  }

  lemma SmallDivisorOf255(a: nat, b: nat)
    requires 0 < a <= 15 && a * b == 255
    ensures (a, b) in {(1, 255), (3, 85), (5, 51), (15, 17)}
  {
    assert (a * b) % 2 == 1;
    if a % 2 == 0 { EvenProduct(a / 2, b); }
    match a
    case 1 => case 3 => case 5 => case 7 => case 9 => case 11 => case 13 => case 15 =>
    case _ =>
  }

  // ---------------------------------------------------------------------------------
  // GF_BITS = 8: powers of alpha computed on machine bytes
  // ---------------------------------------------------------------------------------

  const G8: Modulus := Modulus(8, 29)

  lemma TopOf8()
    ensures ModulusOf(8) == G8
  {
    var pp := ALL_PP[8];
    assert pp == "101110001";
    assert Top(pp, 3) == 5;
    assert Top(pp, 5) == 29;
    assert Top(pp, 8) == 29;
  }

  /** A lowest bit in front of the remaining bits. */
  function Join(c: bool, rest: nat): nat { (if c then 1 else 0) + 2 * rest }

  /** The number held by the seven low bits of a byte, and by all eight. */
  function Val7(x: bv8): nat {
    Join(x & 1 != 0, Join(x & 2 != 0, Join(x & 4 != 0, Join(x & 8 != 0,
      Join(x & 16 != 0, Join(x & 32 != 0, Join(x & 64 != 0, 0)))))))
  }

  function Val(x: bv8): nat {
    Join(x & 1 != 0, Join(x & 2 != 0, Join(x & 4 != 0, Join(x & 8 != 0,
      Join(x & 16 != 0, Join(x & 32 != 0, Join(x & 64 != 0, Join(x & 128 != 0, 0))))))))
  }

  lemma JoinParts(c: bool, rest: nat)
    ensures Join(c, rest) % 2 == (if c then 1 else 0) && Join(c, rest) / 2 == rest
  {}

  lemma XorJoin(c: bool, d: bool, p: nat, q: nat)
    ensures Xor(Join(c, p), Join(d, q)) == Join(c != d, Xor(p, q))
  {
    hide Xor, Join;
    JoinParts(c, p);
    JoinParts(d, q);
    JoinParts(c != d, Xor(p, q));
    XorBits(Join(c, p), Join(d, q));
    SameBits(Xor(Join(c, p), Join(d, q)), Join(c != d, Xor(p, q)));
  }

  lemma ByteXor(x: bv8, y: bv8, mask: bv8)
    requires mask in {1, 2, 4, 8, 16, 32, 64, 128}
    ensures ((x ^ y) & mask != 0) <==> ((x & mask != 0) != (y & mask != 0))
  {}

  lemma ValXor(x: bv8, y: bv8)
    ensures Xor(Val(x), Val(y)) == Val(x ^ y)
  {
    hide Xor, Join;
    XorZero(0);
    var p8, q8 := 0, 0;
    ByteXor(x, y, 128);
    XorJoin(x & 128 != 0, y & 128 != 0, p8, q8);
    var p7, q7 := Join(x & 128 != 0, p8), Join(y & 128 != 0, q8);
    ByteXor(x, y, 64);
    XorJoin(x & 64 != 0, y & 64 != 0, p7, q7);
    var p6, q6 := Join(x & 64 != 0, p7), Join(y & 64 != 0, q7);
    ByteXor(x, y, 32);
    XorJoin(x & 32 != 0, y & 32 != 0, p6, q6);
    var p5, q5 := Join(x & 32 != 0, p6), Join(y & 32 != 0, q6);
    ByteXor(x, y, 16);
    XorJoin(x & 16 != 0, y & 16 != 0, p5, q5);
    var p4, q4 := Join(x & 16 != 0, p5), Join(y & 16 != 0, q5);
    ByteXor(x, y, 8);
    XorJoin(x & 8 != 0, y & 8 != 0, p4, q4);
    var p3, q3 := Join(x & 8 != 0, p4), Join(y & 8 != 0, q4);
    ByteXor(x, y, 4);
    XorJoin(x & 4 != 0, y & 4 != 0, p3, q3);
    var p2, q2 := Join(x & 4 != 0, p3), Join(y & 4 != 0, q3);
    ByteXor(x, y, 2);
    XorJoin(x & 2 != 0, y & 2 != 0, p2, q2);
    var p1, q1 := Join(x & 2 != 0, p2), Join(y & 2 != 0, q2);
    ByteXor(x, y, 1);
    XorJoin(x & 1 != 0, y & 1 != 0, p1, q1);
  }

  lemma ShiftedBits(x: bv8)
    ensures ((x << 1) & 1 == 0)
    ensures ((x << 1) & 2 != 0) <==> (x & 1 != 0)
    ensures ((x << 1) & 4 != 0) <==> (x & 2 != 0)
    ensures ((x << 1) & 8 != 0) <==> (x & 4 != 0)
    ensures ((x << 1) & 16 != 0) <==> (x & 8 != 0)
    ensures ((x << 1) & 32 != 0) <==> (x & 16 != 0)
    ensures ((x << 1) & 64 != 0) <==> (x & 32 != 0)
    ensures ((x << 1) & 128 != 0) <==> (x & 64 != 0)
  {}

  /** Left shift by one doubles the seven low bits and drops the eighth. */
  lemma ValShift(x: bv8)
    ensures Val(x << 1) == 2 * Val7(x)
    ensures Val(x) == Val7(x) + (if x & 128 == 0 then 0 else 128)
    ensures Val7(x) < 128
  {
    ShiftedBits(x);
  }

  /** TimesAlpha on a byte. */
  function Next(x: bv8): bv8 { (x << 1) ^ (if x & 128 == 0 then 0 else 0x1d) }

  lemma NextIsTimesAlpha(x: bv8)
    ensures G8.Elem(Val(x)) && TimesAlpha(G8, Val(x)) == Val(Next(x))
  {
    hide Xor, Val, Val7;
    Size8();
    ValShift(x);
    ValXor(0x1d, x << 1);
    SomeValues();
    AlphaCases(G8, Val7(x));
  }

  function Next5(x: bv8): bv8 { Next(Next(Next(Next(Next(x))))) }

  function Next17(x: bv8): bv8 { Next(Next(Next5(Next5(Next5(x))))) }

  lemma ExpNext(i: nat, x: bv8)
    requires Exp(G8, i) == Val(x)
    ensures Exp(G8, i + 1) == Val(Next(x))
  {
    hide TimesAlpha, Val, Next;
    NextIsTimesAlpha(x);
  }

  lemma Step5(i: nat, x: bv8)
    requires Exp(G8, i) == Val(x)
    ensures Exp(G8, i + 5) == Val(Next5(x))
  {
    hide Exp, Val, Next;
    ExpNext(i, x);
    ExpNext(i + 1, Next(x));
    ExpNext(i + 2, Next(Next(x)));
    ExpNext(i + 3, Next(Next(Next(x))));
    ExpNext(i + 4, Next(Next(Next(Next(x)))));
  }

  lemma Step17(i: nat, x: bv8, y: bv8)
    requires Exp(G8, i) == Val(x) && Next17(x) == y
    ensures Exp(G8, i + 17) == Val(y)
    ensures Exp(G8, i + 15) == Val(Next5(Next5(Next5(x))))
  {
    hide Exp, Val, Next, Next5;
    Step5(i, x);
    Step5(i + 5, Next5(x));
    Step5(i + 10, Next5(Next5(x)));
    var z := Next5(Next5(Next5(x)));
    ExpNext(i + 15, z);
    ExpNext(i + 16, Next(z));
  }

  lemma SomeValues()
    ensures Val(1) == 1 && Val(29) == 29 && Val(38) == 38 && Val(10) == 10 && Val(214) == 214
  {}

  lemma ExpZero()
    ensures Exp(G8, 0) == Val(1)
  {
    SomeValues();
  }

  lemma Run17()
    ensures Next17(1) == 152
    ensures Next17(152) == 78
    ensures Next17(78) == 10
    ensures Next17(10) == 153
    ensures Next17(153) == 214
    ensures Next17(214) == 68
    ensures Next17(68) == 147
    ensures Next17(147) == 79
    ensures Next17(79) == 146
    ensures Next17(146) == 215
    ensures Next17(215) == 220
    ensures Next17(220) == 221
    ensures Next17(221) == 69
    ensures Next17(69) == 11
    ensures Next17(11) == 1
    ensures Next5(Next5(Next5(1))) == 38
  {}

  lemma PowersOfAlpha()
    ensures Exp(G8, 15) == Val(38)
    ensures Exp(G8, 51) == Val(10)
    ensures Exp(G8, 85) == Val(214)
    ensures Exp(G8, 255) == Val(1)
  {
    hide TimesAlpha, Shift, Exp, Val, Next, Next5, Next17;
    ExpZero();
    Run17();
    Step17(0, 1, 152);
    Step17(17, 152, 78);
    Step17(34, 78, 10);
    Step17(51, 10, 153);
    Step17(68, 153, 214);
    Step17(85, 214, 68);
    Step17(102, 68, 147);
    Step17(119, 147, 79);
    Step17(136, 79, 146);
    Step17(153, 146, 215);
    Step17(170, 215, 220);
    Step17(187, 220, 221);
    Step17(204, 221, 69);
    Step17(221, 69, 11);
    Step17(238, 11, 1);
  }

  lemma Run8()
    ensures Next(1) == 2 && Next(2) == 4 && Next(4) == 8 && Next(8) == 16
    ensures Next(16) == 32 && Next(32) == 64 && Next(64) == 128 && Next(128) == 29
    ensures Val(2) == 2
  {}

  /** The polynomial of the code: alpha is 2, and alpha^8 == 1 + alpha^2 + alpha^3 + alpha^4. */
  lemma AlphaToTheEighth()
    ensures Exp(G8, 1) == 2 && Exp(G8, 8) == 29
  {
    hide TimesAlpha, Shift, Exp, Val, Next;
    ExpZero();
    Run8();
    ExpNext(0, 1);
    ExpNext(1, 2);
    ExpNext(2, 4);
    ExpNext(3, 8);
    ExpNext(4, 16);
    ExpNext(5, 32);
    ExpNext(6, 64);
    ExpNext(7, 128);
    SomeValues();
  }

  lemma Size8()
    ensures G8.Valid() && G8.Size() == 255 && Pow2(G8.bits - 1) == 128
  {
    assert Pow2(7) == 128 && Pow2(8) == 256;
  }

  /** No exponent below 255 gives 1: the least one would divide 85, 51 or 15. */
  lemma NoSmallOrder(d: nat)
    requires 0 < d < 255
    ensures G8.Valid() && Exp(G8, d) != 1
  {
    hide Exp, Val;
    Size8();
    PowersOfAlpha();
    SomeValues();
    if Exp(G8, d) == 1 {
      var e := OrderDivides(G8, d, 255);
      ExpDivisor(G8, e, 85);
      ExpDivisor(G8, e, 51);
      ExpDivisor(G8, e, 15);
      DivisorsOf255(e);
    }
  }

  /** The polynomial the repository is built with makes alpha a generator of all 255 nonzero bytes. */
  lemma Polynomial8Primitive()
    ensures Primitive(ModulusOf(8))
  {
    hide Exp, Val;
    TopOf8();
    PowersOfAlpha();
    SomeValues();
    Size8();
    forall d | 0 < d < G8.Size() ensures Exp(G8, d) != 1 {
      NoSmallOrder(d);
    }
  }
}
