/**
 GF(2^8), the field the repository is built with (GF_BITS = 8): addition is exclusive or,
 multiplication is carry-less multiplication modulo the listed polynomial.
*/
module Gf {
  import Bits
  import Galois
  import opened GfPrimitive
  import GfTables

  const GF_BITS: nat := 8
  const GF_SIZE: nat := 255

  type gf = x: nat | x <= GF_SIZE

  function Add(x: gf, y: gf): gf
  {
    Size8();
    Bits.XorBound(x, y, GF_BITS);
    Bits.Xor(x, y)
  }

  function Mul(x: gf, y: gf): gf
  {
    Size8();
    Galois.ClMul(G8, x, y)
  }

  /** alpha^i. */
  function Power(i: nat): gf
  {
    Size8();
    Galois.Exp(G8, i)
  }

  // ---------------------------------------------------------------------------------
  // The field laws
  // ---------------------------------------------------------------------------------

  lemma AddComm(x: gf, y: gf)
    ensures Add(x, y) == Add(y, x)
  {
    Bits.XorComm(x, y);
  }

  lemma AddAssoc(x: gf, y: gf, z: gf)
    ensures Add(Add(x, y), z) == Add(x, Add(y, z))
  {
    Bits.XorAssoc(x, y, z);
  }

  lemma AddZero(x: gf)
    ensures Add(x, 0) == x == Add(0, x)
  {
    Bits.XorZero(x);
  }

  lemma AddSelf(x: gf)
    ensures Add(x, x) == 0
  {
    Bits.XorSelf(x);
  }

  lemma MulComm(x: gf, y: gf)
    ensures Mul(x, y) == Mul(y, x)
  {
    Size8();
    Galois.MulComm(G8, x, y);
  }

  lemma MulAssoc(x: gf, y: gf, z: gf)
    ensures Mul(Mul(x, y), z) == Mul(x, Mul(y, z))
  {
    hide Galois.ClMul;
    Size8();
    Galois.MulAssoc(G8, x, y, z);
  }

  lemma MulOne(x: gf)
    ensures Mul(1, x) == x == Mul(x, 1)
  {
    hide Galois.ClMul;
    Size8();
    Galois.MulOneLeft(G8, x);
    Galois.MulOneRight(G8, x);
  }

  lemma MulZero(x: gf)
    ensures Mul(0, x) == 0 == Mul(x, 0)
  {
    MulComm(0, x);
  }

  lemma Distribute(x: gf, y: gf, z: gf)
    ensures Mul(x, Add(y, z)) == Add(Mul(x, y), Mul(x, z))
    ensures Mul(Add(y, z), x) == Add(Mul(y, x), Mul(z, x))
  {
    hide Galois.ClMul, Bits.Xor;
    Size8();
    Galois.MulLinearRight(G8, x, y, z);
    Galois.MulLinearLeft(G8, y, z, x);
  }

  lemma NoZeroDivisors(x: gf, y: gf)
    ensures Mul(x, y) == 0 <==> x == 0 || y == 0
  {
    hide Galois.ClMul, Galois.Primitive;
    Size8();
    TopOf8();
    Polynomial8Primitive();
    MulZero(x);
    MulZero(y);
    if x != 0 && y != 0 { Galois.MulNonzero(G8, x, y); }
  }

  lemma InverseExists(x: gf)
    requires x != 0
    ensures exists y: gf :: Mul(x, y) == 1
  {
    hide Galois.ClMul, Galois.Exp;
    Size8();
    TopOf8();
    Polynomial8Primitive();
    var i := Galois.ExpSurjective(G8, x);
    GfTables.InverseExp(G8, i);
    var y: gf := Power(GF_SIZE - i);
    assert Mul(x, y) == 1;
  }

  /** The inverse, with the tables' convention that 0 stands in for the inverse of 0. */
  ghost function Inv(x: gf): (y: gf)
    ensures x != 0 ==> Mul(x, y) == 1 == Mul(y, x)
    ensures x == 0 ==> y == 0
  {
    if x == 0 then 0 else
      InverseExists(x);
      var y: gf :| Mul(x, y) == 1;
      MulComm(x, y);
      y
  }

  lemma InverseUnique(x: gf, y: gf)
    requires Mul(x, y) == 1
    ensures x != 0 && y == Inv(x)
  {
    hide Mul;
    MulZero(y);
    var z := Inv(x);
    MulAssoc(z, x, y);
    MulOne(z);
    MulOne(y);
  }

  /** (a + b) + (c + d) == (a + c) + (b + d). */
  lemma AddMiddle(a: gf, b: gf, c: gf, d: gf)
    ensures Add(Add(a, b), Add(c, d)) == Add(Add(a, c), Add(b, d))
  {
    hide Bits.Xor;
    Galois.XorMiddle(a, b, c, d);
  }

  /** Adding the same element twice gives back the original. */
  lemma AddCancel(x: gf, y: gf)
    ensures Add(Add(x, y), y) == x
    ensures Add(y, Add(y, x)) == x
  {
    hide Add;
    AddAssoc(x, y, y);
    AddAssoc(y, y, x);
    AddSelf(y);
    AddZero(x);
  }

  lemma SumZero(x: gf, y: gf)
    ensures Add(x, y) == 0 <==> x == y
  {
    hide Add;
    AddSelf(y);
    AddCancel(x, y);
    AddZero(y);
  }

  lemma PowerLaws(i: nat, j: nat)
    ensures Power(i + j) == Mul(Power(i), Power(j))
    ensures Power(0) == 1
  {
    hide Galois.ClMul, Galois.Shift;
    Size8();
    ZerothPower();
    Galois.ExpAdd(G8, i, j);
  }

  lemma ZerothPower()
    ensures Power(0) == 1
  {}

  lemma PowersDistinct(i: nat, j: nat)
    requires i < j < GF_SIZE
    ensures Power(i) != Power(j) && Power(i) != 0 && Power(j) != 0
  {
    hide Galois.Exp, Galois.Primitive;
    Size8();
    TopOf8();
    Polynomial8Primitive();
    Galois.ExpInjective(G8, i, j);
    Galois.ExpNonzero(G8, i);
    Galois.ExpNonzero(G8, j);
  }

  // ---------------------------------------------------------------------------------
  // init_fec: the tables all codec operations read
  // ---------------------------------------------------------------------------------

  datatype Tables = Tables(exp: seq<gf>, inverse: seq<gf>, mul: seq<seq<gf>>) {
    ghost predicate Valid() {
      && |exp| == 2 * GF_SIZE && (forall i | 0 <= i < |exp| :: exp[i] == Power(i))
      && |inverse| == GF_SIZE + 1 && (forall x: gf :: inverse[x] == Inv(x))
      && |mul| == GF_SIZE + 1 && (forall x: gf :: |mul[x]| == GF_SIZE + 1)
      && (forall x: gf, y: gf :: mul[x][y] == Mul(x, y))
    }
  }

  method InitFec() returns (t: Tables)
    ensures t.Valid()
  {
    hide Galois.Exp, Galois.ClMul, Galois.Primitive;
    Size8();
    TopOf8();
    Polynomial8Primitive();
    var logs := GfTables.GenerateGf(GF_BITS);
    var mul := GfTables.InitMulTable(logs);
    forall x: gf ensures logs.inverse[x] == Inv(x) {
      if x > 0 { InverseUnique(x, logs.inverse[x]); }
    }
    forall x: gf, y: gf ensures mul[x][y] == Mul(x, y) {
      assert GfTables.IsProduct(G8, x, y, mul[x][y]);
    }
    t := Tables(logs.exp, logs.inverse, mul);
  }
}
