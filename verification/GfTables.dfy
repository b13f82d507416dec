/**
 The log, exponent, inverse and multiplication tables, built by the repository's loops
 for any GF_BITS from 2 to 16 whose listed polynomial is primitive.
*/
module GfTables {
  import opened Bits
  import opened Galois
  import opened GfPrimitive

  datatype Tables = Tables(bits: nat, exp: seq<nat>, log: seq<nat>, inverse: seq<nat>)

  /** What every entry of the three tables means. log[0] is the special value GF_SIZE. */
  ghost predicate ValidTables(t: Tables)
  {
    && Supported(t.bits)
    && var g := ModulusOf(t.bits);
    && |t.exp| == 2 * g.Size()
    && |t.log| == |t.inverse| == g.Size() + 1
    && (forall i | 0 <= i < 2 * g.Size() :: t.exp[i] == Exp(g, i))
    && t.log[0] == g.Size() && t.inverse[0] == 0
    && (forall x | 0 < x <= g.Size() :: t.log[x] < g.Size() && Exp(g, t.log[x]) == x)
    && (forall x | 0 < x <= g.Size() :: g.Elem(t.inverse[x]) && ClMul(g, x, t.inverse[x]) == 1)
  }

  lemma SizeFacts(bits: nat)
    requires Supported(bits)
    ensures bits < ModulusOf(bits).Size()
    ensures Pow2(bits) == ModulusOf(bits).Size() + 1
  {
    BitsBelowPower(bits);
  }

  lemma {:induction false} BitsBelowPower(bits: nat)
    requires bits >= 2
    ensures bits + 1 < Pow2(bits)
  {
    if bits > 2 { BitsBelowPower(bits - 1); } else { assert Pow2(2) == 4; }
  }

  // ---------------------------------------------------------------------------------
  // modnn
  // ---------------------------------------------------------------------------------

  /** Folding the high bits onto the low bits keeps the residue modulo 2^bits - 1. */
  lemma FoldResidue(x: nat, p: nat)
    requires p >= 2
    ensures x / p + x % p <= x
    ensures (x / p + x % p) % (p - 1) == x % (p - 1)
  {
    var q, r := x / p, x % p;
    assert x == (p - 1) * q + (q + r);
    AddMultiple(q + r, p - 1, q);
  }

  lemma {:induction false} AddMultiple(a: nat, n: nat, q: nat)
    requires n > 0
    ensures (n * q + a) % n == a % n
  {
    if q > 0 {
      AddMultiple(a, n, q - 1);
      assert n * q == n * (q - 1) + n;
      AddOnce(n * (q - 1) + a, n);
    }
  }

  lemma AddOnce(a: nat, n: nat)
    requires n > 0
    ensures (a + n) % n == a % n
  {
    var k := (a + n) / n - a / n - 1;
    assert n * k == a % n - (a + n) % n by {
      assert n * k == n * ((a + n) / n) - n * (a / n) - n;
    }
    SmallMultiple(n, k);
  }

  lemma SmallMultiple(n: int, k: int)
    requires n > 0
    ensures k >= 1 ==> n * k >= n
    ensures k <= -1 ==> n * k <= -n
  {}

  function Residue(x: nat, n: nat): nat
    requires n > 0
  {
    x % n
  }

  /** One round of modnn: subtract 2^bits - 1, then fold the high bits onto the low bits. */
  lemma ModnnRound(x: nat, size: nat)
    requires 1 <= size <= x
    ensures var y := x - size; y / (size + 1) + y % (size + 1) < x
    ensures var y := x - size; Residue(y / (size + 1) + y % (size + 1), size) == Residue(x, size)
  {
    AddOnce(x - size, size);
    FoldResidue(x - size, size + 1);
  }

  lemma SmallResidue(x: nat, size: nat)
    requires x < size
    ensures Residue(x, size) == x
  {}

  method Modnn(bits: nat, x0: nat) returns (r: nat)
    requires bits >= 2
    ensures r == Residue(x0, Pow2(bits) - 1)
  {
    hide Residue, Pow2;
    BitsBelowPower(bits);
    var size := Pow2(bits) - 1;
    var x: nat := x0;
    while x >= size
      invariant Residue(x, size) == Residue(x0, size)
      decreases x
    {
      ModnnRound(x, size);
      x := x - size;
      x := x / Pow2(bits) + x % Pow2(bits);
    }
    SmallResidue(x, size);
    r := x;
  }

  // ---------------------------------------------------------------------------------
  // generate_gf
  // ---------------------------------------------------------------------------------

  /** log holds the exponent of every power of alpha below i. */
  ghost predicate LogsUpTo(g: Modulus, log: seq<nat>, i: nat)
    requires g.Valid() && |log| == g.Size() + 1
  {
    forall j: nat | j < i :: Exp(g, j) <= g.Size() && log[Exp(g, j)] == j
  }

  lemma ExpInRange(g: Modulus, i: nat)
    requires g.Valid()
    ensures Exp(g, i) <= g.Size()
  {}

  /** Recording one more power does not overwrite the earlier ones, because powers are distinct. */
  lemma RecordLog(g: Modulus, log: seq<nat>, i: nat)
    requires Primitive(g) && |log| == g.Size() + 1 && i < g.Size()
    requires LogsUpTo(g, log, i)
    ensures Exp(g, i) <= g.Size() && LogsUpTo(g, log[Exp(g, i) := i], i + 1)
  {
    hide Exp;
    ExpInRange(g, i);
    forall j: nat | j < i ensures Exp(g, j) != Exp(g, i) {
      ExpInjective(g, j, i);
    }
  }

  /** The first GF_BITS powers of alpha are single bits. */
  lemma {:induction false} SmallExp(g: Modulus, i: nat)
    requires g.Valid() && i < g.bits
    ensures Exp(g, i) == Pow2(i)
    ensures Pow2(i) <= g.Size()
  {
    if i > 0 {
      SmallExp(g, i - 1);
      PowMonotone(i, g.bits - 1);
    }
  }

  lemma {:induction false} PowMonotone(i: nat, j: nat)
    requires i <= j
    ensures Pow2(i) <= Pow2(j)
    decreases j
  {
    if i < j { PowMonotone(i, j - 1); }
  }

  lemma ExpSucc(g: Modulus, i: nat)
    requires g.Valid()
    ensures Exp(g, i + 1) == TimesAlpha(g, Exp(g, i))
  {}

  /** The code clears the top bit with an exclusive or before shifting. */
  lemma ClearTopBit(g: Modulus, x: nat)
    requires g.Valid() && g.Elem(x)
    ensures var mask := Pow2(g.bits - 1);
      TimesAlpha(g, x) == if x >= mask then Xor(g.top, 2 * Xor(x, mask)) else 2 * x
  {
    hide Xor;
    var low, high := SplitHighBit(g, x);
    XorHighBits(low, 0, g.bits - 1);
    XorZero(low);
  }

  lemma AddTopBit(pp: string, i: nat)
    requires i < |pp|
    ensures Top(pp, i + 1) == if pp[i] == '1' then Xor(Top(pp, i), Pow2(i)) else Top(pp, i)
  {
    hide Xor;
    AddIsXor(Top(pp, i), i);
    XorComm(Top(pp, i), Pow2(i));
  }

  /** The bits of the polynomial give alpha^GF_BITS while the lower powers are shifted out. */
  method FirstPowers(bits: nat, exp: array<nat>, log: array<nat>)
    requires Supported(bits) && Primitive(ModulusOf(bits)) && exp != log
    requires exp.Length == 2 * ModulusOf(bits).Size() && log.Length == ModulusOf(bits).Size() + 1
    requires bits < exp.Length
    modifies exp, log
    ensures forall j | 0 <= j <= bits :: exp[j] == Exp(ModulusOf(bits), j)
    ensures LogsUpTo(ModulusOf(bits), log[..], bits + 1)
  {
    hide Exp, Xor, Top, Pow2, LogsUpTo, ModulusOf, Primitive;
    ghost var g := ModulusOf(bits);
    SizeFacts(bits);
    PolynomialLengths(bits);
    ModulusTop(bits);
    var pp := ALL_PP[bits];
    var mask := 1;
    exp[bits] := 0;
    Zeroth(g, pp, log[..]);
    for i := 0 to bits
      invariant mask == Pow2(i)
      invariant exp[bits] == Top(pp, i)
      invariant forall j | 0 <= j < i :: exp[j] == Exp(g, j)
      invariant LogsUpTo(g, log[..], i)
    {
      SmallExp(g, i);
      RecordLog(g, log[..], i);
      AddTopBit(pp, i);
      Double(i);
      exp[i] := mask;
      log[exp[i]] := i;
      if pp[i] == '1' {
        exp[bits] := Xor(exp[bits], mask);
      }
      mask := 2 * mask;
    }
    ExpAtBits(g);
    RecordLog(g, log[..], bits);
    log[exp[bits]] := bits;
  }

  lemma ModulusTop(bits: nat)
    requires Supported(bits)
    ensures |ALL_PP[bits]| == bits + 1 && ModulusOf(bits).top == Top(ALL_PP[bits], bits)
  {
    PolynomialLengths(bits);
  }

  lemma Zeroth(g: Modulus, pp: string, log: seq<nat>)
    requires g.Valid() && |log| == g.Size() + 1
    ensures Pow2(0) == 1 && Top(pp, 0) == 0 && LogsUpTo(g, log, 0)
  {}

  lemma Double(i: nat)
    ensures Pow2(i + 1) == 2 * Pow2(i)
  {}

  /** The remaining powers are each alpha times the one before. */
  method LaterPowers(bits: nat, exp: array<nat>, log: array<nat>)
    requires Supported(bits) && Primitive(ModulusOf(bits)) && exp != log
    requires exp.Length == 2 * ModulusOf(bits).Size() && log.Length == ModulusOf(bits).Size() + 1
    requires bits < exp.Length
    requires forall j | 0 <= j <= bits :: exp[j] == Exp(ModulusOf(bits), j)
    requires LogsUpTo(ModulusOf(bits), log[..], bits + 1)
    modifies exp, log
    ensures forall j | 0 <= j < ModulusOf(bits).Size() :: exp[j] == Exp(ModulusOf(bits), j)
    ensures LogsUpTo(ModulusOf(bits), log[..], ModulusOf(bits).Size())
  {
    hide Exp, Xor, Top, Pow2, LogsUpTo;
    ghost var g := ModulusOf(bits);
    SizeFacts(bits);
    ExpAtBits(g);
    var size := Pow2(bits) - 1;
    var mask := Pow2(bits - 1);
    for i := bits + 1 to size
      invariant forall j | 0 <= j < i :: exp[j] == Exp(g, j)
      invariant LogsUpTo(g, log[..], i)
    {
      ClearTopBit(g, exp[i - 1]);
      ExpSucc(g, i - 1);
      RecordLog(g, log[..], i);
      if exp[i - 1] >= mask {
        exp[i] := Xor(exp[bits], 2 * Xor(exp[i - 1], mask));
      } else {
        exp[i] := 2 * exp[i - 1];
      }
      log[exp[i]] := i;
    }
  }

  /** With every power recorded, log inverts exp on all nonzero elements. */
  lemma LogsComplete(g: Modulus, log: seq<nat>, x: nat)
    requires Primitive(g) && |log| == g.Size() + 1 && LogsUpTo(g, log, g.Size())
    requires 0 < x <= g.Size()
    ensures log[x] < g.Size() && Exp(g, log[x]) == x
  {
    hide Exp;
    var i := ExpSurjective(g, x);
  }

  /** alpha^(size - i) is the inverse of alpha^i. */
  lemma InverseExp(g: Modulus, i: nat)
    requires Primitive(g) && i <= g.Size()
    ensures ClMul(g, Exp(g, i), Exp(g, g.Size() - i)) == 1
  {
    hide Exp, ClMul;
    ExpAdd(g, i, g.Size() - i);
  }

  /** The second half of exp repeats the first, so that exp can be read at a sum of two logarithms. */
  method ExtendPowers(bits: nat, exp: array<nat>)
    requires Supported(bits) && Primitive(ModulusOf(bits))
    requires exp.Length == 2 * ModulusOf(bits).Size()
    requires forall j | 0 <= j < ModulusOf(bits).Size() :: exp[j] == Exp(ModulusOf(bits), j)
    modifies exp
    ensures forall j | 0 <= j < exp.Length :: exp[j] == Exp(ModulusOf(bits), j)
  {
    hide Exp, Pow2;
    ghost var g := ModulusOf(bits);
    SizeFacts(bits);
    var size := Pow2(bits) - 1;
    for i := 0 to size
      invariant forall j | 0 <= j < size + i :: exp[j] == Exp(g, j)
    {
      ExpPeriod(g, i);
      exp[i + size] := exp[i];
    }
  }

  method Inverses(bits: nat, exp: seq<nat>, log: seq<nat>) returns (inverses: seq<nat>)
    requires Supported(bits) && Primitive(ModulusOf(bits))
    requires |exp| == 2 * ModulusOf(bits).Size() && |log| == ModulusOf(bits).Size() + 1
    requires forall j | 0 <= j < |exp| :: exp[j] == Exp(ModulusOf(bits), j)
    requires forall x | 0 < x <= ModulusOf(bits).Size() ::
               log[x] < ModulusOf(bits).Size() && Exp(ModulusOf(bits), log[x]) == x
    ensures |inverses| == |log| && inverses[0] == 0
    ensures forall x | 0 < x <= ModulusOf(bits).Size() ::
              ModulusOf(bits).Elem(inverses[x]) && ClMul(ModulusOf(bits), x, inverses[x]) == 1
  {
    hide Exp, Pow2, ClMul;
    ghost var g := ModulusOf(bits);
    SizeFacts(bits);
    OneSquared(g);
    var size := Pow2(bits) - 1;
    var inverse := new nat[size + 1];
    inverse[0] := 0;
    inverse[1] := 1;
    for i := 2 to size + 1
      invariant inverse[0] == 0
      invariant forall x | 1 <= x < i :: g.Elem(inverse[x]) && ClMul(g, x, inverse[x]) == 1
    {
      InverseExp(g, log[i]);
      assert log[i] > 0 by { ExpIsOne(g, log[i]); }
      inverse[i] := exp[size - log[i]];
    }
    inverses := inverse[..];
  }

  lemma OneSquared(g: Modulus)
    requires g.Valid()
    ensures g.Elem(1) && ClMul(g, 1, 1) == 1
  {
    OneIsElem(g);
    MulOneLeft(g, 1);
  }

  lemma ExpIsOne(g: Modulus, i: nat)
    requires g.Valid()
    ensures i == 0 ==> Exp(g, i) == 1
  {}

  method GenerateGf(bits: nat) returns (t: Tables)
    requires Supported(bits) && Primitive(ModulusOf(bits))
    ensures ValidTables(t) && t.bits == bits
  {
    hide Exp, Pow2, LogsUpTo, ClMul;
    ghost var g := ModulusOf(bits);
    SizeFacts(bits);
    var size := Pow2(bits) - 1;
    var exp := new nat[2 * size];
    var log := new nat[size + 1];
    FirstPowers(bits, exp, log);
    LaterPowers(bits, exp, log);
    forall x | 0 < x <= size ensures log[x] < size && Exp(g, log[x]) == x {
      LogsComplete(g, log[..], x);
    }
    log[0] := size;
    var logs := log[..];
    assert forall x | 0 < x <= size :: logs[x] < size && Exp(g, logs[x]) == x;
    ExtendPowers(bits, exp);
    var inverses := Inverses(bits, exp[..], logs);
    t := Tables(bits, exp[..], logs, inverses);
  }

  // ---------------------------------------------------------------------------------
  // gf_mul, by table for GF_BITS <= 8 and by logarithms above
  // ---------------------------------------------------------------------------------

  lemma ResidueBelowTwice(s: nat, n: nat)
    requires s < 2 * n
    ensures Residue(s, n) == if s < n then s else s - n
  {
    if s >= n {
      AddOnce(s - n, n);
      SmallResidue(s - n, n);
    }
  }

  /** exp may be read at a sum of two logarithms with or without reducing it. */
  lemma ExpResidue(g: Modulus, s: nat)
    requires Primitive(g) && s < 2 * g.Size()
    ensures Residue(s, g.Size()) < g.Size()
    ensures Exp(g, Residue(s, g.Size())) == Exp(g, s)
  {
    hide Exp, Pow2, Residue;
    ResidueBelowTwice(s, g.Size());
    if s >= g.Size() { ExpPeriod(g, s - g.Size()); }
  }

  lemma MulByLogs(t: Tables, x: nat, y: nat)
    requires ValidTables(t) && Primitive(ModulusOf(t.bits))
    requires 0 < x < |t.log| && 0 < y < |t.log|
    ensures ModulusOf(t.bits).Elem(y)
    ensures Exp(ModulusOf(t.bits), t.log[x] + t.log[y]) == ClMul(ModulusOf(t.bits), x, y)
  {
    hide Exp, ClMul, Pow2, ModulusOf, Primitive;
    ExpAdd(ModulusOf(t.bits), t.log[x], t.log[y]);
  }

  /** One entry before row and column 0 are cleared. Reading log[0] = GF_SIZE keeps the index in range. */
  method MulEntry(t: Tables, i: nat, j: nat) returns (r: nat)
    requires ValidTables(t) && Primitive(ModulusOf(t.bits))
    requires i < |t.log| && j < |t.log|
    ensures i > 0 && j > 0 ==> IsProduct(ModulusOf(t.bits), i, j, r)
  {
    hide Exp, ClMul, Pow2, Residue, ModulusOf, Primitive;
    ghost var g := ModulusOf(t.bits);
    SizeFacts(t.bits);
    var sum := t.log[i] + t.log[j];
    var index := Modnn(t.bits, sum);
    ResidueBelow(sum, g.Size());
    if i > 0 && j > 0 {
      ExpResidue(g, sum);
      MulByLogs(t, i, j);
    }
    r := t.exp[index];
  }

  lemma ResidueBelow(s: nat, n: nat)
    requires n > 0
    ensures Residue(s, n) < n
  {}

  ghost predicate IsProduct(g: Modulus, i: nat, j: nat, r: nat)
    requires g.Valid()
  {
    g.Elem(j) && r == ClMul(g, i, j)
  }

  /** The whole table holds products. */
  ghost predicate Products(g: Modulus, mul: seq<seq<nat>>)
    requires g.Valid()
  {
    && |mul| == g.Size() + 1
    && (forall i | 0 <= i < |mul| :: |mul[i]| == |mul|)
    && (forall i, j | 0 <= i < |mul| && 0 <= j < |mul| :: IsProduct(g, i, j, mul[i][j]))
  }

  method InitMulTable(t: Tables) returns (mul: seq<seq<nat>>)
    requires ValidTables(t) && Primitive(ModulusOf(t.bits))
    ensures Products(ModulusOf(t.bits), mul)
  {
    hide Exp, ClMul, Pow2, ModulusOf, Primitive, IsProduct;
    ghost var g := ModulusOf(t.bits);
    var n := |t.log|;
    var table := new nat[n, n];
    for i := 0 to n
      invariant forall a, b | 1 <= a < i && 1 <= b < n :: IsProduct(g, a, b, table[a, b])
    {
      for j := 0 to n
        invariant forall a, b | 1 <= a < i && 1 <= b < n :: IsProduct(g, a, b, table[a, b])
        invariant i > 0 ==> forall b | 1 <= b < j :: IsProduct(g, i, b, table[i, b])
      {
        table[i, j] := MulEntry(t, i, j);
      }
    }
    for j := 0 to n
      invariant forall a, b | 1 <= a < n && 1 <= b < n :: IsProduct(g, a, b, table[a, b])
      invariant forall b | 0 <= b < j :: table[0, b] == 0 && table[b, 0] == 0
    {
      table[0, j] := 0;
      table[j, 0] := 0;
    }
    forall i, j | 0 <= i < n && 0 <= j < n
      ensures IsProduct(g, i, j, table[i, j])
    {
      ProductWithZero(g, i, j);
    }
    mul := seq(n, i requires 0 <= i < n reads table => seq(n, j requires 0 <= j < n reads table => table[i, j]));
  }

  lemma ProductWithZero(g: Modulus, x: nat, y: nat)
    requires g.Valid() && x <= g.Size() && y <= g.Size()
    ensures x == 0 || y == 0 ==> IsProduct(g, x, y, 0)
  {
    if y == 0 {
      MulComm(g, x, y);
    }
  }

  /** gf_mul for GF_BITS > 8: the doubled exp table makes the reduction unnecessary. */
  method MulByLog(t: Tables, x: nat, y: nat) returns (r: nat)
    requires ValidTables(t) && Primitive(ModulusOf(t.bits))
    requires x < |t.log| && y < |t.log|
    ensures IsProduct(ModulusOf(t.bits), x, y, r)
  {
    hide Exp, ClMul, Pow2, ModulusOf, Primitive;
    ProductWithZero(ModulusOf(t.bits), x, y);
    if x == 0 || y == 0 {
      r := 0;
    } else {
      MulByLogs(t, x, y);
      r := t.exp[t.log[x] + t.log[y]];
    }
  }
}
