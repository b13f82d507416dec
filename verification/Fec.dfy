/** fec_new: the Vandermonde matrix, its product with the inverted top, and the systematic encoding matrix. */
module Fec {
  import opened Gf
  import opened Linear
  import opened Poly
  import opened Vandermonde
  import opened RsCode
  import opened InvertMat
  import InvertVdm
  import Bits
  import GfTables
  import Galois
  import GfPrimitive

  datatype Option<+T> = None | Some(value: T)

  /** The descriptor returned by fec_new. It never changes afterwards. */
  datatype Code = Code(k: nat, n: nat, encMatrix: Mat) {
    ghost predicate Valid() {
      ValidSizes(k, n) && encMatrix == Encoder(k, n)
    }
  }

  // ---------------------------------------------------------------------------------
  // fec_new
  // ---------------------------------------------------------------------------------

  lemma PowerResidue(s: nat)
    ensures Power(GfTables.Residue(s, GF_SIZE)) == Power(s)
  {
    hide Galois.Exp, GfPrimitive.Val, Galois.Shift, Galois.ClMul;
    var q := s / GF_SIZE;
    GfPrimitive.Size8();
    GfPrimitive.PowersOfAlpha();
    GfPrimitive.SomeValues();
    GfPrimitive.ExpMultiple(GfPrimitive.G8, GF_SIZE, q);
    Galois.ExpAdd(GfPrimitive.G8, GfTables.Residue(s, GF_SIZE), GF_SIZE * q);
    Galois.OneIsElem(GfPrimitive.G8);
    Galois.MulOneRight(GfPrimitive.G8, Galois.Exp(GfPrimitive.G8, GfTables.Residue(s, GF_SIZE)));
  }

  lemma {:induction false} PowOfPower(r: nat, c: nat)
    ensures Pow(Power(r), c) == Power(r * c)
  {
    hide Power, Mul;
    if c == 0 {
      ZerothPower();
    } else {
      PowOfPower(r, c - 1);
      PowerLaws(r, r * (c - 1));
      assert r + r * (c - 1) == r * c;
    }
  }

  lemma PowOfZero(c: nat)
    ensures Pow(0, c) == if c == 0 then 1 else 0
  {
    hide Mul;
    if c > 0 { MulZero(Pow(0, c - 1)); }
  }

  /** Rows of powers: of 0, which is written separately, and of alpha^0, alpha^1, ... */
  method FillVandermonde(t: Tables, m: array2<gf>, k: nat, n: nat)
    requires t.Valid() && 1 <= k && 1 <= n && m.Length0 == n && m.Length1 == k
    modifies m
    ensures forall j | 0 <= j < k :: m[0, j] == if j == 0 then 1 else 0
    ensures forall i, j | 1 <= i < n && 0 <= j < k :: m[i, j] == Power((i - 1) * j)
  {
    hide Power, GfTables.Residue;
    m[0, 0] := 1;
    for col := 1 to k
      invariant forall j | 0 <= j < col :: m[0, j] == if j == 0 then 1 else 0
    {
      m[0, col] := 0;
    }
    for i := 1 to n
      invariant forall j | 0 <= j < k :: m[0, j] == if j == 0 then 1 else 0
      invariant forall x, j | 1 <= x < i && 0 <= j < k :: m[x, j] == Power((x - 1) * j)
    {
      FillRow(t, m, i, k);
    }
  }

  /** The inner loop. */
  method FillRow(t: Tables, m: array2<gf>, i: nat, k: nat)
    requires t.Valid() && 1 <= i < m.Length0 && m.Length1 == k
    modifies m
    ensures forall j | 0 <= j < k :: m[i, j] == Power((i - 1) * j)
    ensures forall x, j | 0 <= x < m.Length0 && x != i && 0 <= j < k :: m[x, j] == old(m[x, j])
  {
    hide Power, GfTables.Residue;
    var row := i - 1;
    for col := 0 to k
      invariant forall j | 0 <= j < col :: m[i, j] == Power(row * j)
      invariant forall x, j | 0 <= x < m.Length0 && x != i && 0 <= j < k :: m[x, j] == old(m[x, j])
    {
      var e := GfTables.Modnn(GF_BITS, row * col);
      PowerResidue(row * col);
      ModnnBits(e, row * col);
      m[i, col] := t.exp[e];
    }
  }

  /** An entry of the matrix as a power of the point of its row. */
  lemma PointPower(i: nat, j: nat)
    ensures Pow(Point(i), j) == if i == 0 then if j == 0 then 1 else 0 else Power((i - 1) * j)
  {
    hide Power, Pow;
    if i == 0 {
      PowOfZero(j);
    } else {
      PowOfPower(i - 1, j);
    }
  }

  lemma ModnnBits(e: nat, x: nat)
    requires e == GfTables.Residue(x, Bits.Pow2(GF_BITS) - 1)
    ensures e == GfTables.Residue(x, GF_SIZE) && e < GF_SIZE
  {
    GfPrimitive.Size8();
  }

  ghost function RowPart(m: array2<gf>, i: nat, k: nat): (r: Vec)
    requires i < m.Length0 && k <= m.Length1
    reads m
    ensures |r| == k
  {
    seq(k, j requires 0 <= j < k reads m => m[i, j])
  }

  ghost function ColPart(m: array2<gf>, k: nat, j: nat): (r: Vec)
    requires j < m.Length1 && k <= m.Length0
    reads m
    ensures |r| == k
  {
    seq(k, i requires 0 <= i < k reads m => m[i, j])
  }

  /** C = AB for the rows of A and C from `first` on, and the rows of B from 0 on. */
  method MatMul(t: Tables, a: array2<gf>, b: array2<gf>, c: array2<gf>, first: nat, n: nat, k: nat, m: nat)
    requires t.Valid() && c != a && c != b
    requires first + n <= a.Length0 && k <= a.Length1 && k <= b.Length0 && m <= b.Length1
    requires first + n <= c.Length0 && m == c.Length1
    modifies c
    ensures forall i, j | first <= i < first + n && 0 <= j < m :: c[i, j] == Dot(RowPart(a, i, k), ColPart(b, k, j))
    ensures forall i, j | 0 <= i < c.Length0 && 0 <= j < m && !(first <= i < first + n) :: c[i, j] == old(c[i, j])
  {
    hide Mul, Add;
    for row := first to first + n
      invariant forall i, j | first <= i < row && 0 <= j < m :: c[i, j] == Dot(RowPart(a, i, k), ColPart(b, k, j))
      invariant forall i, j | 0 <= i < c.Length0 && 0 <= j < m && !(first <= i < row) :: c[i, j] == old(c[i, j])
    {
      for col := 0 to m
        invariant forall i, j | first <= i < row && 0 <= j < m :: c[i, j] == Dot(RowPart(a, i, k), ColPart(b, k, j))
        invariant forall j | 0 <= j < col :: c[row, j] == Dot(RowPart(a, row, k), ColPart(b, k, j))
        invariant forall i, j | 0 <= i < c.Length0 && 0 <= j < m && !(first <= i <= row) :: c[i, j] == old(c[i, j])
      {
        c[row, col] := DotOf(t, a, row, b, col, k);
      }
    }
  }

  /** The accumulator loop for one entry of a product. */
  method DotOf(t: Tables, a: array2<gf>, row: nat, b: array2<gf>, col: nat, k: nat) returns (acc: gf)
    requires t.Valid() && row < a.Length0 && k <= a.Length1 && k <= b.Length0 && col < b.Length1
    ensures acc == Dot(RowPart(a, row, k), ColPart(b, k, col))
  {
    hide Mul, Add;
    acc := 0;
    ghost var x, y := RowPart(a, row, k), ColPart(b, k, col);
    for i := 0 to k
      invariant acc == Dot(x[..i], y[..i])
    {
      DotLast(x[..i], y[..i], x[i], y[i]);
      assert x[..i] + [x[i]] == x[..i + 1] && y[..i] + [y[i]] == y[..i + 1];
      acc := Add(acc, t.mul[a[row, i]][b[i, col]]);
    }
    assert x[..k] == x && y[..k] == y;
  }

  method FecNew(t: Tables, k: nat, n: nat) returns (code: Option<Code>)
    requires t.Valid() && k >= 1
    ensures code.Some? <==> ValidSizes(k, n)
    ensures code.Some? ==> code.value.Valid() && code.value.k == k && code.value.n == n
  {
    hide Power, Pow, Point, Dot, BasisMatrix, CodeProd;
    if k > GF_SIZE + 1 || n > GF_SIZE + 1 || k > n {
      return None;
    }
    var tmp := new gf[n, k];
    FillVandermonde(t, tmp, k, n);
    ghost var powers := seq(n, i requires 0 <= i < n => Powers(Point(i), k));
    forall i, j | 0 <= i < n && 0 <= j < k ensures tmp[i, j] == Pow(Point(i), j) { PointPower(i, j); }
    assert forall i | 0 <= i < n :: RowPart(tmp, i, k) == powers[i];
    var error := InvertVdm.InvertVdm(t, tmp, k, Points(k));
    assert forall i | k <= i < n :: RowPart(tmp, i, k) == powers[i];
    assert forall j | 0 <= j < k :: ColPart(tmp, k, j) == Col(Interpolate(k), j);
    var enc := new gf[n, k];
    MatMul(t, tmp, tmp, enc, k, n - k, k, k);
    WriteIdentity(enc, k);
    RowsAre(enc, Encoder(k, n));
    var rows := seq(n, i requires 0 <= i < n reads enc => seq(k, j requires 0 <= j < k reads enc => enc[i, j]));
    assert rows == Rows(enc);
    code := Some(Code(k, n, rows));
  }

  method WriteIdentity(enc: array2<gf>, k: nat)
    requires k <= enc.Length0 && enc.Length1 == k
    modifies enc
    ensures forall i, j | 0 <= i < k && 0 <= j < k :: enc[i, j] == Unit(k, i)[j]
    ensures forall i, j | k <= i < enc.Length0 && 0 <= j < k :: enc[i, j] == old(enc[i, j])
  {
    for i := 0 to k
      invariant forall x, j | 0 <= x < i && 0 <= j < k :: enc[x, j] == Unit(k, x)[j]
      invariant forall x, j | k <= x < enc.Length0 && 0 <= j < k :: enc[x, j] == old(enc[x, j])
    {
      for c := 0 to k
        invariant forall x, j | 0 <= x < i && 0 <= j < k :: enc[x, j] == Unit(k, x)[j]
        invariant forall j | 0 <= j < c :: enc[i, j] == 0
        invariant forall x, j | k <= x < enc.Length0 && 0 <= j < k :: enc[x, j] == old(enc[x, j])
      {
        enc[i, c] := 0;
      }
      enc[i, i] := 1;
    }
  }
}
