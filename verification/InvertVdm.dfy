/** invert_vdm on a two-dimensional array holding a Vandermonde matrix in its top k rows. */
module InvertVdm {
  import opened Gf
  import opened Linear
  import opened Poly
  import opened Vandermonde

  /** The coefficients below the leading 1, right-aligned in an array of length k. */
  ghost predicate Aligned(c: Vec, prod: Vec, k: nat)
  {
    && |c| == k && 1 <= |prod| <= k + 1 && prod[|prod| - 1] == 1
    && var shift := k + 1 - |prod|;
    && (forall j | 0 <= j < shift :: c[j] == 0)
    && forall j | 0 <= j < |prod| - 1 :: c[shift + j] == prod[j]
  }

  lemma AlignedStart(c: Vec, ps: seq<gf>, k: nat)
    requires |c| == k >= 1 && |ps| >= 1
    requires c[k - 1] == ps[0] && forall j | 0 <= j < k - 1 :: c[j] == 0
    ensures Aligned(c, CodeProd(ps[..1]), k)
  {
    hide CodeProd;
    CodeProdOne(ps[..1]);
  }

  /** One pass of the coefficient loop multiplies by the next factor, all but the constant term. */
  lemma AlignedStep(before: Vec, after: Vec, q: Vec, next: Vec, k: nat, i: nat, a: gf)
    requires Aligned(before, q, k) && |q| == i + 1 && 1 <= i < k == |after|
    requires next == Times(q, a)[0 := 0]
    requires forall x | 0 <= x < k - i :: after[x] == before[x]
    requires forall x | k - i <= x < k - 1 :: after[x] == Add(before[x], Mul(a, before[x + 1]))
    requires after[k - 1] == Add(before[k - 1], a)
    ensures Aligned(after, next, k)
  {
    hide Times, Add, Mul;
    TimesAt(q, a, i + 1);
    forall j | 0 <= j < i + 1 ensures after[k - i - 1 + j] == next[j] {
      TimesAt(q, a, j);
      if j >= 1 {
        var x := k - i + (j - 1);
        assert before[x] == q[j - 1];
        if j < i {
          assert before[x + 1] == q[j];
        } else {
          MulOne(a);
        }
      }
    }
  }

  method ProductCoefficients(t: Tables, p: array<gf>, k: nat) returns (c: array<gf>)
    requires t.Valid() && p.Length == k >= 1
    ensures fresh(c) && c[..] == CodeProd(p[..])[..k]
  {
    hide Times, Add, Mul, CodeProd;
    c := new gf[k](_ => 0);
    c[k - 1] := p[0];
    AlignedStart(c[..], p[..], k);
    for i := 1 to k
      invariant Aligned(c[..], CodeProd(p[..i]), k)
    {
      var a := p[i];
      ghost var before := c[..];
      for j := k - i to k - 1
        invariant forall x | 0 <= x < k - i :: c[x] == before[x]
        invariant forall x | k - i <= x < j :: c[x] == Add(before[x], Mul(a, before[x + 1]))
        invariant forall x | j <= x < k :: c[x] == before[x]
      {
        c[j] := Add(c[j], t.mul[a][c[j + 1]]);
      }
      c[k - 1] := Add(c[k - 1], a);
      NextCodeProd(p[..], i);
      AlignedStep(before, c[..], CodeProd(p[..i]), CodeProd(p[..i + 1]), k, i, a);
    }
    assert p[..k] == p[..];
  }

  lemma NextCodeProd(ps: seq<gf>, i: nat)
    requires 1 <= i < |ps|
    ensures CodeProd(ps[..i + 1]) == Times(CodeProd(ps[..i]), ps[i])[0 := 0]
  {
    hide Times;
    assert ps[..i + 1][..i] == ps[..i];
  }

  /** The Horner value after the coefficients from i upwards. */
  ghost function EvalFrom(q: Vec, i: nat, x: gf): gf
    requires i <= |q|
  {
    Eval(q[i..], x)
  }

  /** The quotient by x - xx into b, and its Horner value at xx. */
  method Quotient(t: Tables, c: array<gf>, xx: gf, k: nat, b: array<gf>, ghost prod: Vec) returns (value: gf)
    requires t.Valid() && c.Length == b.Length == k >= 1 && b != c
    requires |prod| == k + 1 && prod[k] == 1 && c[..] == prod[..k]
    modifies b
    ensures b[..] == SynDiv(prod, xx) && value == Eval(SynDiv(prod, xx), xx)
  {
    hide Add, Mul, SynDiv, EvalFrom, Eval;
    ghost var q := SynDiv(prod, xx);
    SynDivTop(prod, xx);
    value := 1;
    b[k - 1] := 1;
    EvalSingle(q, xx, k);
    var i: int := k - 2;
    while i >= 0
      invariant -1 <= i <= k - 2
      invariant forall x | i < x < k :: b[x] == q[x]
      invariant value == EvalFrom(q, i + 1, xx)
    {
      SynDivStep(prod, xx, i);
      assert c[i + 1] == c[..][i + 1];
      b[i] := Add(c[i + 1], t.mul[xx][b[i + 1]]);
      EvalStep(q, xx, i);
      value := Add(t.mul[xx][value], b[i]);
      i := i - 1;
    }
    EvalAll(q, xx);
  }

  lemma EvalAll(q: Vec, x: gf)
    ensures EvalFrom(q, 0, x) == Eval(q, x)
  {
    assert q[0..] == q;
  }

  lemma EvalSingle(q: Vec, x: gf, k: nat)
    requires |q| == k >= 1 && q[k - 1] == 1
    ensures EvalFrom(q, k - 1, x) == 1
  {
    hide Add, Mul;
    var last := q[k - 1..];
    assert last == [1] && last[1..] == [];
    MulZero(x);
    AddZero(1);
    assert Eval(last, x) == Add(1, Mul(x, Eval(last[1..], x)));
  }

  lemma EvalStep(q: Vec, x: gf, i: nat)
    requires i < |q|
    ensures EvalFrom(q, i, x) == Add(Mul(x, EvalFrom(q, i + 1, x)), q[i])
  {
    hide Add, Mul;
    assert q[i..][1..] == q[i + 1..];
    AddComm(q[i], Mul(x, Eval(q[i + 1..], x)));
  }

  /** The top k rows of the array. */
  ghost predicate TopIs(src: array2<gf>, m: Mat, k: nat)
    requires k <= src.Length0 && k <= src.Length1 && IsMat(m, k, k)
    reads src
  {
    forall i, j | 0 <= i < k && 0 <= j < k :: src[i, j] == m[i][j]
  }

  /** The points stand in the second column. */
  method ReadPoints(src: array2<gf>, k: nat, ghost ps: seq<gf>) returns (p: array<gf>)
    requires 2 <= k <= src.Length0 && src.Length1 == k == |ps| && TopIs(src, Vdm(ps, k), k)
    ensures fresh(p) && p[..] == ps
  {
    p := new gf[k];
    for i := 0 to k
      invariant forall x | 0 <= x < i :: p[x] == ps[x]
      modifies p
    {
      assert src[i, 1] == Vdm(ps, k)[i][1];
      PowOne(ps[i]);
      p[i] := src[i, 1];
    }
  }

  /** Column `row` of the result: the quotient divided by its value at the point. */
  method FillColumn(t: Tables, src: array2<gf>, k: nat, row: nat, b: array<gf>, value: gf, ghost column: Vec)
    requires t.Valid() && row < k <= src.Length0 && src.Length1 == k == b.Length == |column|
    requires column == Scale(Inv(value), b[..])
    modifies src
    ensures forall i, j | 0 <= i < src.Length0 && 0 <= j < k ::
              src[i, j] == if i < k && j == row then column[i] else old(src[i, j])
  {
    hide Mul, Inv;
    for col := 0 to k
      invariant forall i, j | 0 <= i < src.Length0 && 0 <= j < k ::
                  src[i, j] == if i < col && j == row then column[i] else old(src[i, j])
    {
      src[col, row] := t.mul[t.inverse[value]][b[col]];
    }
  }

  method InvertVdm(t: Tables, src: array2<gf>, k: nat, ghost ps: seq<gf>) returns (error: nat)
    requires t.Valid() && 1 <= k <= src.Length0 && src.Length1 == k == |ps|
    requires TopIs(src, Vdm(ps, k), k)
    modifies src
    ensures error == 0
    ensures TopIs(src, CodeInverse(ps), k)
    ensures forall i, j | k <= i < src.Length0 && 0 <= j < k :: src[i, j] == old(src[i, j])
  {
    hide Add, Mul, CodeProd, BasisMatrix, SynDiv, Eval;
    if k == 1 {
      OneByOne(ps);
      return 0;
    }
    var p := ReadPoints(src, k, ps);
    var c := ProductCoefficients(t, p, k);
    CodeProdMonic(ps);
    var b := new gf[k];
    assert p[..] == ps;
    for row := 0 to k
      invariant forall i, j | 0 <= i < k && 0 <= j < row :: src[i, j] == CodeInverse(ps)[i][j]
      invariant forall i, j | k <= i < src.Length0 && 0 <= j < k :: src[i, j] == old(src[i, j])
      modifies src, b
    {
      var value := Quotient(t, c, p[row], k, b, CodeProd(ps));
      ghost var column := BasisColumn(CodeProd(ps), ps[row]);
      ColumnOfBasis(CodeProd(ps), ps, row);
      assert forall i | 0 <= i < k :: CodeInverse(ps)[i][row] == column[i];
      FillColumn(t, src, k, row, b, value, column);
    }
    error := 0;
  }

  lemma PowOne(x: gf)
    ensures Pow(x, 1) == x
  {
    hide Mul;
    MulOne(x);
  }

  lemma CodeProdMonic(ps: seq<gf>)
    requires |ps| >= 1
    ensures CodeProd(ps)[|ps|] == 1
  {
    hide Prod, CodeProd;
    if |ps| == 1 {
      CodeProdOne(ps);
    } else {
      CodeProdTop(ps);
      ProdMonic(ps);
    }
  }

  /** For one point nothing is done: the matrix (1) is its own inverse. */
  lemma OneByOne(ps: seq<gf>)
    requires |ps| == 1
    ensures CodeInverse(ps)[0][0] == 1 == Vdm(ps, 1)[0][0]
  {
    hide Add, Mul, CodeProd, SynDiv;
    CodeProdOne(ps);
    SynDivTop([ps[0], 1], ps[0]);
    var q := SynDiv([ps[0], 1], ps[0]);
    EvalSingle(q, ps[0], 1);
    assert q[0..] == q;
    ColumnOfBasis(CodeProd(ps), ps, 0);
    MulOne(1);
    InverseUnique(1, 1);
  }
}
