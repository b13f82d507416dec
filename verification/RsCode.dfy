/**
 The systematic code as mathematics: packet i of a codeword is the value at point i of the
 polynomial of degree below k that takes the data as its values at the first k points.
*/
module RsCode {
  import opened Gf
  import opened Linear
  import opened Poly
  import opened Vandermonde
  import opened Shuffle
  import GfPrimitive

  /** The evaluation points 0, alpha^0, alpha^1, ... */
  function Point(i: nat): gf { if i == 0 then 0 else Power(i - 1) }

  function Points(n: nat): (r: seq<gf>)
    ensures |r| == n
  {
    seq(n, i requires 0 <= i < n => Point(i))
  }

  predicate ValidSizes(k: nat, n: nat) { 1 <= k <= n <= GF_SIZE + 1 }

  lemma PointsDiffer(i: nat, j: nat)
    requires i < j <= GF_SIZE
    ensures Point(i) != Point(j)
  {
    hide Power;
    if i > 0 {
      PowersDistinct(i - 1, j - 1);
    } else if j > 1 {
      PowersDistinct(0, j - 1);
    } else {
      ZerothPower();
    }
  }

  lemma PointsDistinct(k: nat)
    requires k <= GF_SIZE + 1
    ensures Distinct(Points(k))
  {
    hide Point;
    forall i, j | 0 <= i < j < k ensures Points(k)[i] != Points(k)[j] { PointsDiffer(i, j); }
  }

  /** From data to polynomial coefficients. */
  ghost function Interpolate(k: nat): (w: Mat)
    requires k >= 1
    ensures IsMat(w, k, k)
  {
    CodeInverse(Points(k))
  }

  /** The encoding matrix: the identity on top, polynomial values below. */
  ghost function Encoder(k: nat, n: nat): (r: Mat)
    requires ValidSizes(k, n)
    ensures IsMat(r, n, k)
  {
    seq(n, i requires 0 <= i < n =>
      if i < k then Unit(k, i) else VecMat(Powers(Point(i), k), Interpolate(k), k))
  }

  lemma InterpolateInverts(k: nat)
    requires 1 <= k <= GF_SIZE + 1
    ensures Inverses(Vdm(Points(k), k), Interpolate(k), k)
  {
    hide Inverses, Vdm, CodeInverse, Power;
    PointsDistinct(k);
    CodeInverseCorrect(Points(k));
  }

  /** Data to coefficients and back to the values at the first k points. */
  lemma InterpolateValues(k: nat, d: Vec, i: nat)
    requires 1 <= k <= GF_SIZE + 1 && |d| == k && i < k
    ensures Eval(Apply(Interpolate(k), d), Point(i)) == d[i]
  {
    hide Interpolate, Dot, Eval, Point;
    var v, f := Vdm(Points(k), k), Apply(Interpolate(k), d);
    InterpolateInverts(k);
    InverseUndoes(v, Interpolate(k), k, d);
    DotPowers(Point(i), f);
    assert Apply(v, f)[i] == Dot(v[i], f);
  }

  /** Every row of the encoding matrix evaluates the same polynomial at its own point. */
  lemma RowsEvaluate(k: nat, n: nat, i: nat, d: Vec)
    requires ValidSizes(k, n) && i < n && |d| == k
    ensures Dot(Encoder(k, n)[i], d) == Eval(Apply(Interpolate(k), d), Point(i))
  {
    hide Interpolate, Dot, Eval, Point, Apply, VecMat;
    if i < k {
      DotUnitLeft(d, i);
      InterpolateValues(k, d, i);
    } else {
      DotVecMat(Powers(Point(i), k), Interpolate(k), d);
      DotPowers(Point(i), Apply(Interpolate(k), d));
    }
  }

  /** The polynomial f takes the data as its values at 0, alpha^0, alpha^1, ... */
  ghost predicate TakesData(f: Vec, d: Vec)
  {
    |f| == |d| && |d| > 0 && Eval(f, 0) == d[0] && forall j | 1 <= j < |d| :: Eval(f, Power(j - 1)) == d[j]
  }

  /** There is exactly one such polynomial with as many coefficients as data. */
  lemma OnePolynomial(f: Vec, d: Vec)
    requires 1 <= |d| == |f| <= GF_SIZE + 1
    ensures TakesData(f, d) <==> f == Apply(Interpolate(|d|), d)
  {
    hide Interpolate, Dot, Eval, Power, Inverses, Powers;
    var k := |d|;
    var v, w := Vdm(Points(k), k), Interpolate(k);
    InterpolateInverts(k);
    forall j | 0 <= j < k ensures Apply(v, f)[j] == Eval(f, if j == 0 then 0 else Power(j - 1)) {
      DotPowers(Point(j), f);
      assert Apply(v, f)[j] == Dot(v[j], f);
    }
    InverseSwaps(v, w, k, f, d);
  }

  /**
   The code without its matrix: the polynomial through the data at 0, alpha^0, alpha^1, ... is
   evaluated at the next powers of alpha.
  */
  lemma CodewordValues(k: nat, n: nat, f: Vec, d: Vec, i: nat)
    requires ValidSizes(k, n) && |f| == |d| == k && i < n
    requires Eval(f, 0) == d[0] && forall j | 1 <= j < k :: Eval(f, Power(j - 1)) == d[j]
    ensures Dot(Encoder(k, n)[i], d) == if i == 0 then d[0] else Eval(f, Power(i - 1))
  {
    hide Interpolate, Dot, Eval, Power, Encoder;
    OnePolynomial(f, d);
    RowsEvaluate(k, n, i, d);
  }

  lemma EvalLine(a: gf, b: gf, x: gf)
    ensures Eval([a, b], x) == Add(a, Mul(x, b))
  {
    hide Add, Mul;
    assert [a, b][1..] == [b] && [b][1..] == [];
    assert Eval([], x) == 0;
    assert Eval([b], x) == Add(b, Mul(x, 0));
    MulZero(x);
    AddZero(b);
  }

  lemma SimpleLines(x: gf)
    ensures Eval([1, 1], x) == Add(1, x) && Eval([0, 1], x) == x
  {
    hide Eval, Add, Mul;
    EvalLine(1, 1, x);
    EvalLine(0, 1, x);
    MulOne(x);
    AddZero(x);
  }

  lemma AlphaIsTwo()
    ensures Power(0) == 1 && Power(1) == 2 && Add(1, 2) == 3
  {
    ZerothPower();
    GfPrimitive.SomeValues();
    GfPrimitive.TopOf8();
  }

  /** The parity row for two packets and one more: 1 + x and x, at alpha == 2. */
  lemma FirstParityRow()
    ensures Encoder(2, 3)[2] == [3, 2]
  {
    hide Interpolate, Power, Encoder, Add, Mul, Eval, Dot;
    AlphaIsTwo();
    SimpleLines(0);
    SimpleLines(1);
    SimpleLines(2);
    AddSelf(1);
    AddZero(1);
    CodewordValues(2, 3, [1, 1], [1, 0], 2);
    CodewordValues(2, 3, [0, 1], [0, 1], 2);
    var row := Encoder(2, 3)[2];
    DotUnit(row, 0);
    DotUnit(row, 1);
    assert Unit(2, 0) == [1, 0] && Unit(2, 1) == [0, 1];
  }

  /** The rows of the encoding matrix for a list of indices. */
  ghost function PickRows(k: nat, n: nat, index: seq<nat>): (m: Mat)
    requires ValidSizes(k, n) && forall i | 0 <= i < |index| :: index[i] < n
    ensures IsMat(m, |index|, k)
  {
    var rows := Encoder(k, n);
    assert forall i | 0 <= i < n :: |rows[i]| == k;
    seq(|index|, i requires 0 <= i < |index| => rows[index[i]])
  }

  function PickPoints(index: seq<nat>): (ps: seq<gf>)
    ensures |ps| == |index|
  {
    seq(|index|, i requires 0 <= i < |index| => Point(index[i]))
  }

  lemma PickPointsDistinct(index: seq<nat>)
    requires DistinctIndices(index) && forall i | 0 <= i < |index| :: index[i] <= GF_SIZE
    ensures Distinct(PickPoints(index))
  {
    hide Point;
    forall i, j | 0 <= i < j < |index| ensures PickPoints(index)[i] != PickPoints(index)[j] {
      if index[i] < index[j] { PointsDiffer(index[i], index[j]); } else { PointsDiffer(index[j], index[i]); }
    }
  }

  /** Picked rows map data to the values of its polynomial at the picked points. */
  lemma PickedRowsEvaluate(k: nat, n: nat, index: seq<nat>, d: Vec)
    requires ValidSizes(k, n) && |index| == |d| == k
    requires forall i | 0 <= i < k :: index[i] < n
    ensures Apply(PickRows(k, n, index), d) == Apply(Vdm(PickPoints(index), k), Apply(Interpolate(k), d))
  {
    hide Dot, Eval, Encoder, Interpolate, Point;
    var f := Apply(Interpolate(k), d);
    forall i | 0 <= i < k
      ensures Apply(PickRows(k, n, index), d)[i] == Apply(Vdm(PickPoints(index), k), f)[i]
    {
      RowsEvaluate(k, n, index[i], d);
      DotPowers(Point(index[i]), f);
    }
  }

  /** The inverse of the picked rows: interpolate through the picked points, evaluate at the first k. */
  ghost function PickedInverse(k: nat, index: seq<nat>): (m: Mat)
    requires |index| == k >= 1
    ensures IsMat(m, k, k)
  {
    Product(Vdm(Points(k), k), BasisMatrix(Prod(PickPoints(index)), PickPoints(index)), k)
  }

  lemma PickedInverseWorks(k: nat, n: nat, index: seq<nat>, d: Vec, y: Vec)
    requires ValidSizes(k, n) && |index| == |d| == |y| == k && DistinctIndices(index)
    requires forall i | 0 <= i < k :: index[i] < n
    ensures y == Apply(PickRows(k, n, index), d) <==> d == Apply(PickedInverse(k, index), y)
  {
    hide Apply, PickRows, Interpolate, Vdm, BasisMatrix, PickPoints, Prod, Product;
    var ps := PickPoints(index);
    var b := BasisMatrix(Prod(ps), ps);
    var v := Vdm(Points(k), k);
    PickedRowsEvaluate(k, n, index, d);
    PickPointsDistinct(index);
    BasisIsInverse(ps);
    InterpolateInverts(k);
    var f := Apply(Interpolate(k), d);
    ApplyProduct(v, b, y);
    assert y == Apply(Vdm(ps, k), f) <==> f == Apply(b, y);
    assert d == Apply(v, Apply(b, y)) <==> Apply(b, y) == Apply(Interpolate(k), d);
  }

  /** A matrix with two equal rows has no inverse. */
  lemma EqualRowsNotInvertible(m: Mat, k: nat, i: nat, j: nat)
    requires IsMat(m, k, k) && i < k && j < k && i != j && m[i] == m[j]
    ensures !Invertible(m, k)
  {
    hide Dot;
    var y := Unit(k, i);
    forall x: Vec | |x| == k ensures Apply(m, x) != y {
      assert Apply(m, x)[i] == Apply(m, x)[j];
      assert y[i] == 1 && y[j] == 0;
    }
    if b: Mat :| IsMat(b, k, k) && Inverses(m, b, k) {
      InverseUndoes(m, b, k, y);
    }
  }

  /** k rows of the encoding matrix are invertible exactly when they are k different rows. */
  lemma PickedRowsInvertible(k: nat, n: nat, index: seq<nat>)
    requires ValidSizes(k, n) && |index| == k
    requires forall i | 0 <= i < k :: index[i] < n
    ensures Invertible(PickRows(k, n, index), k) <==> DistinctIndices(index)
  {
    hide Apply, Encoder, PickedInverse;
    if DistinctIndices(index) {
      var b := PickedInverse(k, index);
      assert Inverses(PickRows(k, n, index), b, k) by {
        hide PickRows;
        forall d: Vec, y: Vec | |d| == |y| == k
          ensures y == Apply(PickRows(k, n, index), d) <==> d == Apply(b, y)
        {
          PickedInverseWorks(k, n, index, d, y);
        }
      }
    } else {
      var i, j :| 0 <= i < j < k && index[i] == index[j];
      EqualRowsNotInvertible(PickRows(k, n, index), k, i, j);
    }
  }
}
