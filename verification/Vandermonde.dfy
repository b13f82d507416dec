/**
 invert_vdm: the inverse of a Vandermonde matrix from its points, by polynomial
 coefficients. The loop that builds the product polynomial never adds the term for the
 constant coefficient, so the result is the inverse only when that term is zero; the exact
 condition is proved in CodeInverseCorrect.
*/
module Vandermonde {
  import opened Gf
  import opened Linear
  import opened Poly

  function Vdm(ps: seq<gf>, k: nat): (r: Mat)
    ensures IsMat(r, |ps|, k)
  {
    seq(|ps|, i requires 0 <= i < |ps| => Powers(ps[i], k))
  }

  /** Distinct points: the matrix sends no nonzero vector to 0. */
  lemma VdmInjective(ps: seq<gf>, x: Vec, y: Vec)
    requires Distinct(ps) && |x| == |y| == |ps|
    requires Apply(Vdm(ps, |ps|), x) == Apply(Vdm(ps, |ps|), y)
    ensures x == y
  {
    hide Add, Mul, Eval, Dot;
    var k := |ps|;
    var d := Plus(x, y);
    forall i | 0 <= i < k ensures Eval(d, ps[i]) == 0 {
      EvalPlus(x, y, ps[i]);
      DotPowers(ps[i], x);
      DotPowers(ps[i], y);
      assert Apply(Vdm(ps, k), x)[i] == Apply(Vdm(ps, k), y)[i];
      AddSelf(Eval(x, ps[i]));
    }
    RootBound(d, ps);
    forall i | 0 <= i < k ensures x[i] == y[i] {
      assert d[i] == 0;
      SumZero(x[i], y[i]);
    }
  }

  ghost predicate RightInverse(v: Mat, w: Mat, k: nat)
    requires IsMat(v, k, k) && IsMat(w, k, k)
  {
    forall y: Vec | |y| == k :: Apply(v, Apply(w, y)) == y
  }

  /** For an injective matrix a right inverse is a two-sided inverse. */
  lemma RightInverseSuffices(ps: seq<gf>, w: Mat)
    requires Distinct(ps) && IsMat(w, |ps|, |ps|)
    requires RightInverse(Vdm(ps, |ps|), w, |ps|)
    ensures Inverses(Vdm(ps, |ps|), w, |ps|)
  {
    hide Apply, Vdm, Distinct, RightInverse;
    forall x: Vec, y: Vec | |x| == |y| == |ps|
      ensures y == Apply(Vdm(ps, |ps|), x) <==> x == Apply(w, y)
    {
      RightInversePair(ps, w, x, y);
    }
  }

  lemma RightInversePair(ps: seq<gf>, w: Mat, x: Vec, y: Vec)
    requires Distinct(ps) && IsMat(w, |ps|, |ps|) && |x| == |y| == |ps|
    requires RightInverse(Vdm(ps, |ps|), w, |ps|)
    ensures y == Apply(Vdm(ps, |ps|), x) <==> x == Apply(w, y)
  {
    hide Apply, Vdm, Distinct;
    if y == Apply(Vdm(ps, |ps|), x) { VdmInjective(ps, x, Apply(w, y)); }
  }

  // ---------------------------------------------------------------------------------
  // Lagrange basis polynomials are the columns of the inverse
  // ---------------------------------------------------------------------------------

  /** Quotient of a product polynomial by one factor, divided by its value at that point. */
  ghost function BasisColumn(prod: Vec, r: gf): (c: Vec)
    requires |prod| >= 1
    ensures |c| == |prod| - 1
  {
    Scale(Inv(Eval(SynDiv(prod, r), r)), SynDiv(prod, r))
  }

  ghost function BasisMatrix(prod: Vec, ps: seq<gf>): (w: Mat)
    requires |prod| == |ps| + 1
    ensures IsMat(w, |ps|, |ps|)
  {
    seq(|ps|, col requires 0 <= col < |ps| =>
      seq(|ps|, row requires 0 <= row < |ps| => BasisColumn(prod, ps[row])[col]))
  }

  /** The quotient by x - p_row vanishes at the other points and not at p_row. */
  lemma QuotientValues(ps: seq<gf>, row: nat, j: nat)
    requires Distinct(ps) && row < |ps| && j < |ps|
    ensures Eval(SynDiv(Prod(ps), ps[row]), ps[j]) == 0 <==> j != row
  {
    hide Add, Mul, Eval, Prod, SynDiv;
    var b := SynDiv(Prod(ps), ps[row]);
    forall i | 0 <= i < |ps| && i != row ensures Eval(b, ps[i]) == 0 {
      ProdRoots(ps, row);
      ProdRoots(ps, i);
      RootOfQuotient(Prod(ps), ps[row], ps[i]);
    }
    if j == row && Eval(b, ps[row]) == 0 {
      RootBound(b, ps);
      SynDivTop(Prod(ps), ps[row]);
      ProdMonic(ps);
    }
  }

  lemma BasisValues(ps: seq<gf>, row: nat, j: nat)
    requires Distinct(ps) && row < |ps| && j < |ps|
    ensures Eval(BasisColumn(Prod(ps), ps[row]), ps[j]) == if j == row then 1 else 0
  {
    hide Add, Mul, Eval, Prod, SynDiv;
    var b := SynDiv(Prod(ps), ps[row]);
    var t := Eval(b, ps[row]);
    EvalScale(Inv(t), b, ps[j]);
    QuotientValues(ps, row, j);
    QuotientValues(ps, row, row);
    MulZero(Inv(t));
  }

  lemma ColumnOfBasis(prod: Vec, ps: seq<gf>, row: nat)
    requires |prod| == |ps| + 1 && row < |ps|
    ensures Col(BasisMatrix(prod, ps), row) == BasisColumn(prod, ps[row])
  {
    hide BasisColumn;
  }

  lemma BasisIsInverse(ps: seq<gf>)
    requires Distinct(ps)
    ensures Inverses(Vdm(ps, |ps|), BasisMatrix(Prod(ps), ps), |ps|)
  {
    hide Dot, Eval, Prod, BasisColumn, BasisMatrix;
    var k := |ps|;
    var v, w := Vdm(ps, k), BasisMatrix(Prod(ps), ps);
    forall i, j | 0 <= i < k && 0 <= j < k ensures Product(v, w, k)[i][j] == Identity(k)[i][j] {
      ColumnOfBasis(Prod(ps), ps, j);
      DotPowers(ps[i], Col(w, j));
      BasisValues(ps, j, i);
    }
    forall i | 0 <= i < k ensures Product(v, w, k)[i] == Identity(k)[i] {}
    assert Product(v, w, k) == Identity(k);
    forall y: Vec | |y| == k ensures Apply(v, Apply(w, y)) == y {
      ApplyProduct(v, w, y);
      ApplyIdentity(y);
    }
    RightInverseSuffices(ps, w);
  }

  // ---------------------------------------------------------------------------------
  // The polynomial the code builds
  // ---------------------------------------------------------------------------------

  /** The first point gives x + p0; every later point multiplies by x + p but leaves the constant 0. */
  function CodeProd(ps: seq<gf>): (r: Vec)
    requires |ps| >= 1
    ensures |r| == |ps| + 1
  {
    if |ps| == 1 then [ps[0], 1]
    else Times(CodeProd(ps[..|ps| - 1]), ps[|ps| - 1])[0 := 0]
  }

  /** Where the missing term goes: it is zero exactly when one of the first two points is. */
  predicate CodeIsExact(ps: seq<gf>)
  {
    |ps| <= 2 || ps[0] == 0 || ps[1] == 0
  }

  lemma TimesAt(q: Vec, c: gf, j: nat)
    requires j <= |q| && q != []
    ensures Times(q, c)[j] ==
      if j == 0 then Mul(c, q[0])
      else if j == |q| then q[|q| - 1]
      else Add(q[j - 1], Mul(c, q[j]))
  {
    hide Add, Mul;
    MulZero(c);
    AddZero(Mul(c, q[0]));
    AddZero(q[|q| - 1]);
  }

  lemma ProdOfOne(ps: seq<gf>)
    requires |ps| == 1
    ensures Prod(ps) == [ps[0], 1]
  {
    hide Times;
    assert ps[..0] == [];
    assert Prod([]) == [1];
    TimesAt([1], ps[0], 0);
    TimesAt([1], ps[0], 1);
    MulOne(ps[0]);
  }

  lemma ProdStep(ps: seq<gf>)
    requires |ps| >= 2
    ensures Prod(ps) == Times(Prod(ps[..|ps| - 1]), ps[|ps| - 1])
    ensures CodeProd(ps) == Times(CodeProd(ps[..|ps| - 1]), ps[|ps| - 1])[0 := 0]
  {
    hide Times;
  }

  /** The code's coefficients agree with the product except below position n-1, where p0 * p1 is missing. */
  lemma {:induction false} CodeProdTop(ps: seq<gf>)
    requires |ps| >= 2
    ensures CodeProd(ps)[|ps|] == Prod(ps)[|ps|]
    ensures CodeProd(ps)[|ps| - 1] == Prod(ps)[|ps| - 1]
    ensures Add(CodeProd(ps)[|ps| - 2], Mul(ps[0], ps[1])) == Prod(ps)[|ps| - 2]
  {
    hide Add, Mul, Times, Prod, CodeProd;
    var n := |ps| - 1;
    var init, a := ps[..n], ps[n];
    ProdStep(ps);
    if n == 1 {
      CodeProdOne(init);
      ProdOfOne(init);
      TimesAt(CodeProd(init), a, 0);
      MulComm(ps[0], ps[1]);
      AddZero(Mul(ps[0], ps[1]));
    } else {
      CodeProdTop(init);
      var c, e, m := CodeProd(init)[n - 2], Mul(a, CodeProd(init)[n - 1]), Mul(ps[0], ps[1]);
      AddAssoc(c, e, m);
      AddComm(e, m);
      AddAssoc(c, m, e);
      forall j | n - 1 <= j <= n + 1
        ensures j == n - 1 ==> Add(CodeProd(ps)[j], Mul(ps[0], ps[1])) == Prod(ps)[j]
        ensures j > n - 1 ==> CodeProd(ps)[j] == Prod(ps)[j]
      {
        TimesAt(CodeProd(init), a, j);
        TimesAt(Prod(init), a, j);
      }
    }
  }

  lemma CodeProdOne(ps: seq<gf>)
    requires |ps| == 1
    ensures CodeProd(ps) == [ps[0], 1]
  {}

  /** When p0 * p1 is 0 the code builds the product, from two points on. */
  lemma {:induction false} CodeProdExact(ps: seq<gf>)
    requires |ps| >= 2 && (ps[0] == 0 || ps[1] == 0)
    ensures CodeProd(ps) == Prod(ps) && Prod(ps)[0] == 0
  {
    hide Add, Mul, Times, Prod, CodeProd;
    var n := |ps| - 1;
    var init, a := ps[..n], ps[n];
    ProdStep(ps);
    TimesAt(Prod(init), a, 0);
    if n == 1 {
      CodeProdOne(init);
      ProdOfOne(init);
      NoZeroDivisors(ps[1], ps[0]);
    } else {
      CodeProdExact(init);
      MulZero(a);
    }
  }

  /** The division never reads the constant coefficient. */
  lemma SynDivIgnoresConstant(a: Vec, b: Vec, r: gf)
    requires |a| == |b| >= 1 && a[1..] == b[1..]
    ensures SynDiv(a, r) == SynDiv(b, r)
  {
    hide Eval;
    forall i | 0 <= i < |a| - 1 ensures SynDiv(a, r)[i] == SynDiv(b, r)[i] {
      assert a[i + 1..] == a[1..][i..];
      assert b[i + 1..] == b[1..][i..];
    }
  }

  ghost function CodeInverse(ps: seq<gf>): (w: Mat)
    requires |ps| >= 1
    ensures IsMat(w, |ps|, |ps|)
  {
    BasisMatrix(CodeProd(ps), ps)
  }

  lemma TwoTail(a: Vec, b: Vec)
    requires |a| == |b| == 3 && a[1] == b[1] && a[2] == b[2]
    ensures a[1..] == b[1..]
  {}

  lemma CodeTailExact(ps: seq<gf>)
    requires |ps| >= 1 && CodeIsExact(ps)
    ensures CodeProd(ps)[1..] == Prod(ps)[1..]
  {
    hide Prod, CodeProd, Add, Mul;
    if |ps| == 1 {
      ProdOfOne(ps);
      CodeProdOne(ps);
    } else if |ps| == 2 {
      CodeProdTop(ps);
      TwoTail(CodeProd(ps), Prod(ps));
    } else {
      CodeProdExact(ps);
    }
  }

  lemma CodeInverseIfExact(ps: seq<gf>)
    requires |ps| >= 1 && Distinct(ps) && CodeIsExact(ps)
    ensures Inverses(Vdm(ps, |ps|), CodeInverse(ps), |ps|)
  {
    hide Prod, CodeProd, SynDiv, Eval, Scale;
    CodeTailExact(ps);
    forall row | 0 <= row < |ps| ensures BasisColumn(CodeProd(ps), ps[row]) == BasisColumn(Prod(ps), ps[row]) {
      SynDivIgnoresConstant(CodeProd(ps), Prod(ps), ps[row]);
    }
    BasisIsInverse(ps);
    assert CodeInverse(ps) == BasisMatrix(Prod(ps), ps) by {
      forall i | 0 <= i < |ps| ensures CodeInverse(ps)[i] == BasisMatrix(Prod(ps), ps)[i] {}
    }
  }

  /** Two inverses of one matrix have the same columns. */
  lemma InverseColumnsUnique(a: Mat, b: Mat, c: Mat, k: nat, j: nat)
    requires IsMat(a, k, k) && IsMat(b, k, k) && IsMat(c, k, k) && j < k
    requires Inverses(a, b, k) && Inverses(a, c, k)
    ensures Col(b, j) == Col(c, j)
  {
    hide Apply, Col;
    InverseUndoes(a, b, k, Unit(k, j));
    InverseUndoes(a, c, k, Apply(b, Unit(k, j)));
    ApplyUnit(b, k, j);
    ApplyUnit(c, k, j);
  }

  /** The three top coefficients of a quotient. */
  lemma QuotientTop(a: Vec, r: gf, k: nat)
    requires |a| == k + 1 && k >= 3
    ensures SynDiv(a, r)[k - 1] == a[k]
    ensures SynDiv(a, r)[k - 2] == Add(a[k - 1], Mul(r, a[k]))
    ensures SynDiv(a, r)[k - 3] == Add(a[k - 2], Mul(r, Add(a[k - 1], Mul(r, a[k]))))
  {
    hide Add, Mul, SynDiv;
    SynDivTop(a, r);
    SynDivStep(a, r, k - 2);
    SynDivStep(a, r, k - 3);
  }

  lemma AddExtra(c: gf, m: gf, e: gf)
    ensures Add(Add(c, m), e) == Add(Add(c, e), m)
  {
    hide Add;
    AddAssoc(c, e, m);
    AddComm(e, m);
    AddAssoc(c, m, e);
  }

  /** A difference m in the third coefficient from the top shows unchanged in the quotient. */
  lemma QuotientShift(a: Vec, b: Vec, r: gf, k: nat, m: gf)
    requires |a| == |b| == k + 1 && k >= 3
    requires a[k] == b[k] && a[k - 1] == b[k - 1] && Add(a[k - 2], m) == b[k - 2]
    ensures Add(SynDiv(a, r)[k - 3], m) == SynDiv(b, r)[k - 3]
  {
    hide Add, Mul, SynDiv;
    QuotientTop(a, r, k);
    QuotientTop(b, r, k);
    AddExtra(a[k - 2], m, Mul(r, Add(a[k - 1], Mul(r, a[k]))));
  }

  /** With c the code's polynomial and d the true product: where their quotients differ. */
  lemma QuotientThird(ps: seq<gf>, c: Vec, d: Vec, r: gf, k: nat)
    requires k == |ps| >= 3 && c == CodeProd(ps) && d == Prod(ps)
    ensures Add(SynDiv(c, r)[k - 3], Mul(ps[0], ps[1])) == SynDiv(d, r)[k - 3]
    ensures SynDiv(c, r)[k - 1] == 1 == SynDiv(d, r)[k - 1]
  {
    hide Add, Mul, Prod, CodeProd, SynDiv;
    CodeProdTop(ps);
    ProdMonic(ps);
    SynDivTop(c, r);
    SynDivTop(d, r);
    QuotientShift(c, d, r, k, Mul(ps[0], ps[1]));
  }

  /** If two multiples of quotients agree on two positions, the difference between the quotients is 0. */
  lemma SameMultiples(sc: gf, st: gf, b: gf, m: gf)
    requires st != 0 && Mul(sc, 1) == Mul(st, 1) && Mul(sc, b) == Mul(st, Add(b, m))
    ensures m == 0
  {
    hide Add, Mul;
    MulOne(sc);
    MulOne(st);
    Distribute(st, b, m);
    AddCancel(Mul(st, m), Mul(st, b));
    AddSelf(Mul(st, b));
    NoZeroDivisors(st, m);
  }

  lemma SameColumnMeansExact(ps: seq<gf>, c: Vec, d: Vec)
    requires |ps| >= 3 && Distinct(ps) && c == CodeProd(ps) && d == Prod(ps)
    requires BasisColumn(c, ps[0]) == BasisColumn(d, ps[0])
    ensures CodeIsExact(ps)
  {
    hide Add, Mul, Prod, CodeProd, SynDiv, Eval;
    var k, r, m := |ps|, ps[0], Mul(ps[0], ps[1]);
    var bc, bt := SynDiv(c, r), SynDiv(d, r);
    var sc, st := Inv(Eval(bc, r)), Inv(Eval(bt, r));
    QuotientThird(ps, c, d, r, k);
    QuotientValues(ps, 0, 0);
    assert BasisColumn(c, r) == Scale(sc, bc) && BasisColumn(d, r) == Scale(st, bt);
    assert Scale(sc, bc)[k - 1] == Mul(sc, 1) && Scale(st, bt)[k - 1] == Mul(st, 1);
    assert Scale(sc, bc)[k - 3] == Mul(sc, bc[k - 3]) && Scale(st, bt)[k - 3] == Mul(st, bt[k - 3]);
    MulZero(Eval(bt, r));
    SameMultiples(sc, st, bc[k - 3], m);
    NoZeroDivisors(ps[0], ps[1]);
  }

  /**
   The exact condition: for distinct points the code computes the inverse of the
   Vandermonde matrix if and only if there are at most two points or one of the first two is 0.
  */
  lemma CodeInverseCorrect(ps: seq<gf>)
    requires |ps| >= 1 && Distinct(ps)
    ensures Inverses(Vdm(ps, |ps|), CodeInverse(ps), |ps|) <==> CodeIsExact(ps)
  {
    hide Inverses, Vdm, BasisMatrix, BasisColumn, Prod, CodeProd;
    if CodeIsExact(ps) {
      CodeInverseIfExact(ps);
    } else if Inverses(Vdm(ps, |ps|), CodeInverse(ps), |ps|) {
      BasisIsInverse(ps);
      InverseColumnsUnique(Vdm(ps, |ps|), CodeInverse(ps), BasisMatrix(Prod(ps), ps), |ps|, 0);
      ColumnOfBasis(CodeProd(ps), ps, 0);
      ColumnOfBasis(Prod(ps), ps, 0);
      SameColumnMeansExact(ps, CodeProd(ps), Prod(ps));
    }
  }

  /** A concrete matrix on which invert_vdm goes wrong: three points, none of them 0. */
  lemma CodeInverseWrongFor123()
    ensures Distinct([1, 2, 3]) && !Inverses(Vdm([1, 2, 3], 3), CodeInverse([1, 2, 3]), 3)
  {
    hide Inverses, Vdm, CodeInverse;
    CodeInverseCorrect([1, 2, 3]);
  }
}
