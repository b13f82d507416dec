/** Vectors and matrices over GF(2^8). A matrix is a sequence of rows. */
module Linear {
  import opened Gf

  type Vec = seq<gf>
  type Mat = seq<seq<gf>>

  function Dot(a: Vec, b: Vec): gf
    requires |a| == |b|
  {
    if |a| == 0 then 0
    else Add(Dot(a[..|a| - 1], b[..|b| - 1]), Mul(a[|a| - 1], b[|b| - 1]))
  }

  function Plus(a: Vec, b: Vec): (r: Vec)
    requires |a| == |b|
    ensures |r| == |a|
  {
    seq(|a|, i requires 0 <= i < |a| => Add(a[i], b[i]))
  }

  function Scale(c: gf, a: Vec): (r: Vec)
    ensures |r| == |a|
  {
    seq(|a|, i requires 0 <= i < |a| => Mul(c, a[i]))
  }

  function Zeros(k: nat): (r: Vec)
    ensures |r| == k
  {
    seq(k, _ => 0)
  }

  function Unit(k: nat, p: nat): (r: Vec)
    ensures |r| == k
  {
    seq(k, i => if i == p then 1 else 0)
  }

  predicate IsMat(m: Mat, rows: nat, cols: nat)
  {
    |m| == rows && forall i | 0 <= i < rows :: |m[i]| == cols
  }

  /** Matrix times column vector. */
  function Apply(m: Mat, x: Vec): (r: Vec)
    requires IsMat(m, |m|, |x|)
    ensures |r| == |m|
  {
    seq(|m|, i requires 0 <= i < |m| => Dot(m[i], x))
  }

  // ---------------------------------------------------------------------------------
  // Dot products
  // ---------------------------------------------------------------------------------

  lemma DotLast(a: Vec, b: Vec, x: gf, y: gf)
    requires |a| == |b|
    ensures Dot(a + [x], b + [y]) == Add(Dot(a, b), Mul(x, y))
  {
    hide Add, Mul;
    assert (a + [x])[..|a|] == a && (b + [y])[..|b|] == b;
  }

  lemma {:induction false} DotComm(a: Vec, b: Vec)
    requires |a| == |b|
    ensures Dot(a, b) == Dot(b, a)
  {
    hide Add, Mul;
    if a != [] {
      DotComm(a[..|a| - 1], b[..|b| - 1]);
      MulComm(a[|a| - 1], b[|b| - 1]);
    }
  }

  lemma {:induction false} DotPlus(a: Vec, b: Vec, c: Vec)
    requires |a| == |b| == |c|
    ensures Dot(a, Plus(b, c)) == Add(Dot(a, b), Dot(a, c))
  {
    hide Add, Mul;
    if a == [] {
      AddSelf(0);
    } else {
      var n := |a| - 1;
      DotPlus(a[..n], b[..n], c[..n]);
      assert Plus(b, c)[..n] == Plus(b[..n], c[..n]);
      Distribute(a[n], b[n], c[n]);
      AddMiddle(Dot(a[..n], b[..n]), Dot(a[..n], c[..n]), Mul(a[n], b[n]), Mul(a[n], c[n]));
    }
  }

  lemma {:induction false} DotScale(c: gf, a: Vec, b: Vec)
    requires |a| == |b|
    ensures Dot(a, Scale(c, b)) == Mul(c, Dot(a, b))
  {
    hide Add, Mul;
    if a == [] {
      MulZero(c);
    } else {
      var n := |a| - 1;
      DotScale(c, a[..n], b[..n]);
      assert Scale(c, b)[..n] == Scale(c, b[..n]);
      MulAssoc(a[n], c, b[n]);
      MulComm(a[n], c);
      MulAssoc(c, a[n], b[n]);
      Distribute(c, Dot(a[..n], b[..n]), Mul(a[n], b[n]));
    }
  }

  lemma {:induction false} DotZeros(a: Vec)
    ensures Dot(a, Zeros(|a|)) == 0
  {
    hide Add, Mul;
    if a != [] {
      var n := |a| - 1;
      DotZeros(a[..n]);
      assert Zeros(|a|)[..n] == Zeros(n);
      MulZero(a[n]);
      AddSelf(0);
    }
  }

  /** Changing one entry changes the product by the matching multiple of the difference. */
  lemma {:induction false} DotUpdate(a: Vec, b: Vec, p: nat, v: gf)
    requires |a| == |b| && p < |b|
    ensures Dot(a, b[p := v]) == Add(Dot(a, b), Mul(a[p], Add(b[p], v)))
  {
    hide Add, Mul;
    var n := |a| - 1;
    var d := Dot(a[..n], b[..n]);
    if p == n {
      assert b[p := v][..n] == b[..n];
      Distribute(a[n], b[n], v);
      AddAssoc(d, Mul(a[n], b[n]), Add(Mul(a[n], b[n]), Mul(a[n], v)));
      AddCancel(Mul(a[n], v), Mul(a[n], b[n]));
    } else {
      DotUpdate(a[..n], b[..n], p, v);
      assert b[p := v][..n] == b[..n][p := v];
      var e := Mul(a[p], Add(b[p], v));
      AddAssoc(d, e, Mul(a[n], b[n]));
      AddComm(e, Mul(a[n], b[n]));
      AddAssoc(d, Mul(a[n], b[n]), e);
    }
  }

  lemma DotUnit(a: Vec, p: nat)
    requires p < |a|
    ensures Dot(a, Unit(|a|, p)) == a[p]
  {
    hide Add, Mul;
    assert Unit(|a|, p) == Zeros(|a|)[p := 1];
    DotZeros(a);
    DotUpdate(a, Zeros(|a|), p, 1);
    AddZero(1);
    MulOne(a[p]);
    AddZero(a[p]);
  }

  lemma DotUnitLeft(a: Vec, p: nat)
    requires p < |a|
    ensures Dot(Unit(|a|, p), a) == a[p]
  {
    hide Add, Mul;
    DotUnit(a, p);
    DotComm(a, Unit(|a|, p));
  }

  /** Row operation: adding c times one row to another adds c times its product. */
  lemma DotRowOp(a: Vec, c: gf, b: Vec, x: Vec)
    requires |a| == |b| == |x|
    ensures Dot(Plus(a, Scale(c, b)), x) == Add(Dot(a, x), Mul(c, Dot(b, x)))
  {
    hide Add, Mul;
    DotComm(Plus(a, Scale(c, b)), x);
    DotPlus(x, a, Scale(c, b));
    DotScale(c, x, b);
    DotComm(x, a);
    DotComm(x, b);
  }

  lemma DotScaleLeft(c: gf, a: Vec, x: Vec)
    requires |a| == |x|
    ensures Dot(Scale(c, a), x) == Mul(c, Dot(a, x))
  {
    hide Add, Mul;
    DotComm(Scale(c, a), x);
    DotScale(c, x, a);
    DotComm(a, x);
  }

  // ---------------------------------------------------------------------------------
  // Single entries pulled out of a dot product
  // ---------------------------------------------------------------------------------

  /** The product without the contribution of position p. */
  function Rest(a: Vec, x: Vec, p: nat): gf
    requires |a| == |x| && p < |a|
  {
    Dot(a[p := 0], x)
  }

  lemma DotAt(a: Vec, x: Vec, p: nat, c: gf, d: gf)
    requires |a| == |x| && p < |a|
    ensures Dot(a[p := c], x[p := d]) == Add(Rest(a, x, p), Mul(c, d))
  {
    hide Add, Mul;
    var a0 := a[p := 0];
    // first change the entry of the vector, then the entry of the row
    DotUpdate(a0, x, p, d);
    MulZero(Add(x[p], d));
    AddZero(Dot(a0, x));
    var x' := x[p := d];
    DotComm(a0, x');
    DotUpdate(x', a0, p, c);
    AddZero(c);
    MulComm(d, c);
    assert a0[p := c] == a[p := c];
    DotComm(x', a[p := c]);
  }

  lemma DotAtSame(a: Vec, x: Vec, p: nat)
    requires |a| == |x| && p < |a|
    ensures Dot(a, x) == Add(Rest(a, x, p), Mul(a[p], x[p]))
  {
    hide Add, Mul;
    DotAt(a, x, p, a[p], x[p]);
    assert a[p := a[p]] == a && x[p := x[p]] == x;
  }

  function Swap<T>(s: seq<T>, i: nat, j: nat): (r: seq<T>)
    requires i < |s| && j < |s|
    ensures |r| == |s|
  {
    s[i := s[j]][j := s[i]]
  }

  lemma DotSwap(a: Vec, x: Vec, i: nat, j: nat)
    requires |a| == |x| && i < |a| && j < |a|
    ensures Dot(Swap(a, i, j), Swap(x, i, j)) == Dot(a, x)
  {
    hide Add, Mul;
    if i == j {
      assert Swap(a, i, j) == a && Swap(x, i, j) == x;
    } else {
      var a', x' := a[i := a[j]], x[i := x[j]];
      DotAt(a', x', j, a[i], x[i]);
      // what remains without j: the entry at i is the old entry at j
      DotAt(a[j := 0], x, i, a[j], x[j]);
      assert a[j := 0][i := a[j]] == a'[j := 0];
      DotAtSame(a[j := 0], x, i);
      DotAtSame(a, x, j);
      assert Rest(a', x', j) == Add(Rest(a[j := 0], x, i), Mul(a[j], x[j]));
      AddAssoc(Rest(a[j := 0], x, i), Mul(a[j], x[j]), Mul(a[i], x[i]));
      AddComm(Mul(a[j], x[j]), Mul(a[i], x[i]));
      AddAssoc(Rest(a[j := 0], x, i), Mul(a[i], x[i]), Mul(a[j], x[j]));
    }
  }

  // ---------------------------------------------------------------------------------
  // Matrix products and inverses
  // ---------------------------------------------------------------------------------

  function Col(m: Mat, j: nat): (r: Vec)
    requires forall i | 0 <= i < |m| :: j < |m[i]|
    ensures |r| == |m|
  {
    seq(|m|, i requires 0 <= i < |m| => m[i][j])
  }

  /** Row vector times matrix. */
  function VecMat(a: Vec, m: Mat, cols: nat): (r: Vec)
    requires IsMat(m, |a|, cols)
    ensures |r| == cols
  {
    seq(cols, j requires 0 <= j < cols => Dot(a, Col(m, j)))
  }

  lemma {:induction false} DotVecMat(a: Vec, m: Mat, x: Vec)
    requires IsMat(m, |a|, |x|)
    ensures Dot(VecMat(a, m, |x|), x) == Dot(a, Apply(m, x))
  {
    hide Add, Mul;
    if a == [] {
      assert forall j | 0 <= j < |x| :: VecMat(a, m, |x|)[j] == 0;
      assert VecMat(a, m, |x|) == Zeros(|x|);
      DotComm(Zeros(|x|), x);
      DotZeros(x);
    } else {
      var n := |a| - 1;
      DotVecMat(a[..n], m[..n], x);
      VecMatLast(a, m, |x|);
      DotRowOp(VecMat(a[..n], m[..n], |x|), a[n], m[n], x);
      assert Apply(m, x)[..n] == Apply(m[..n], x);
    }
  }

  lemma VecMatLast(a: Vec, m: Mat, cols: nat)
    requires IsMat(m, |a|, cols) && a != []
    ensures var n := |a| - 1; VecMat(a, m, cols) == Plus(VecMat(a[..n], m[..n], cols), Scale(a[n], m[n]))
  {
    hide Add, Mul;
    var n := |a| - 1;
    forall j | 0 <= j < cols
      ensures Dot(a, Col(m, j)) == Add(Dot(a[..n], Col(m[..n], j)), Mul(a[n], m[n][j]))
    {
      assert Col(m, j)[..n] == Col(m[..n], j);
    }
  }

  function Product(a: Mat, b: Mat, cols: nat): (r: Mat)
    requires IsMat(a, |a|, |b|) && IsMat(b, |b|, cols)
    ensures IsMat(r, |a|, cols)
  {
    seq(|a|, i requires 0 <= i < |a| => VecMat(a[i], b, cols))
  }

  lemma ApplyProduct(a: Mat, b: Mat, x: Vec)
    requires IsMat(a, |a|, |b|) && IsMat(b, |b|, |x|)
    ensures Apply(Product(a, b, |x|), x) == Apply(a, Apply(b, x))
  {
    hide Dot;
    forall i | 0 <= i < |a|
      ensures Apply(Product(a, b, |x|), x)[i] == Apply(a, Apply(b, x))[i]
    {
      DotVecMat(a[i], b, x);
    }
  }

  function Identity(k: nat): (r: Mat)
    ensures IsMat(r, k, k)
  {
    seq(k, i requires 0 <= i < k => Unit(k, i))
  }

  lemma ApplyUnit(m: Mat, k: nat, j: nat)
    requires IsMat(m, |m|, k) && j < k
    ensures Apply(m, Unit(k, j)) == Col(m, j)
  {
    hide Dot;
    forall i | 0 <= i < |m| ensures Apply(m, Unit(k, j))[i] == m[i][j] {
      DotUnit(m[i], j);
    }
  }

  lemma ApplyIdentity(x: Vec)
    ensures Apply(Identity(|x|), x) == x
  {
    hide Dot;
    forall i | 0 <= i < |x| ensures Apply(Identity(|x|), x)[i] == x[i] {
      DotUnitLeft(x, i);
    }
  }

  /** b undoes a and a undoes b. */
  ghost predicate Inverses(a: Mat, b: Mat, k: nat)
    requires IsMat(a, k, k) && IsMat(b, k, k)
  {
    forall x: Vec, y: Vec | |x| == |y| == k :: y == Apply(a, x) <==> x == Apply(b, y)
  }

  lemma InverseUndoes(a: Mat, b: Mat, k: nat, x: Vec)
    requires IsMat(a, k, k) && IsMat(b, k, k) && Inverses(a, b, k) && |x| == k
    ensures Apply(b, Apply(a, x)) == x && Apply(a, Apply(b, x)) == x
  {}

  lemma InverseSwaps(a: Mat, b: Mat, k: nat, x: Vec, y: Vec)
    requires IsMat(a, k, k) && IsMat(b, k, k) && Inverses(a, b, k) && |x| == |y| == k
    ensures y == Apply(a, x) <==> x == Apply(b, y)
  {}

  lemma LeftInverseProduct(a: Mat, b: Mat, k: nat)
    requires IsMat(a, k, k) && IsMat(b, k, k)
    requires forall x: Vec | |x| == k :: Apply(b, Apply(a, x)) == x
    ensures Product(b, a, k) == Identity(k)
  {
    hide Dot, Apply, Product, Identity, Unit;
    forall i, j | 0 <= i < k && 0 <= j < k
      ensures Product(b, a, k)[i][j] == Identity(k)[i][j]
    {
      ProductEntry(b, a, k, i, j);
      IdentityEntry(k, i, j);
    }
    forall i | 0 <= i < k ensures Product(b, a, k)[i] == Identity(k)[i] {}
  }

  /** Column j of a product is the product applied to column j. */
  lemma ProductEntry(b: Mat, a: Mat, k: nat, i: nat, j: nat)
    requires IsMat(a, k, k) && IsMat(b, k, k) && i < k && j < k
    ensures Product(b, a, k)[i][j] == Apply(b, Apply(a, Unit(k, j)))[i]
  {
    hide Dot, Unit;
    ApplyUnit(a, k, j);
  }

  lemma IdentityEntry(k: nat, i: nat, j: nat)
    requires i < k && j < k
    ensures Identity(k)[i][j] == Unit(k, j)[i]
  {}

  /** Inverse maps are exactly matrices whose products both ways are the identity. */
  lemma InversesAreProducts(a: Mat, b: Mat, k: nat)
    requires IsMat(a, k, k) && IsMat(b, k, k)
    ensures Inverses(a, b, k) <==> Product(a, b, k) == Identity(k) && Product(b, a, k) == Identity(k)
  {
    hide Apply, Dot, Product;
    if Inverses(a, b, k) {
      forall x: Vec | |x| == k
        ensures Apply(b, Apply(a, x)) == x && Apply(a, Apply(b, x)) == x
      {
        InverseUndoes(a, b, k, x);
      }
      LeftInverseProduct(a, b, k);
      LeftInverseProduct(b, a, k);
    }
    if Product(a, b, k) == Identity(k) && Product(b, a, k) == Identity(k) {
      forall x: Vec | |x| == k
        ensures Apply(b, Apply(a, x)) == x && Apply(a, Apply(b, x)) == x
      {
        ApplyProduct(a, b, x);
        ApplyProduct(b, a, x);
        ApplyIdentity(x);
      }
    }
  }

  ghost predicate Invertible(a: Mat, k: nat)
    requires IsMat(a, k, k)
  {
    exists b: Mat :: IsMat(b, k, k) && Inverses(a, b, k)
  }

  /** A nonzero vector that the matrix sends to 0. */
  ghost predicate Singular(a: Mat, k: nat)
    requires IsMat(a, k, k)
  {
    exists x: Vec :: |x| == k && x != Zeros(k) && Apply(a, x) == Zeros(k)
  }

  lemma ApplyZeros(a: Mat, k: nat)
    requires IsMat(a, |a|, k)
    ensures Apply(a, Zeros(k)) == Zeros(|a|)
  {
    hide Dot;
    forall i | 0 <= i < |a| ensures Apply(a, Zeros(k))[i] == 0 {
      DotZeros(a[i]);
    }
  }

  lemma SingularNotInvertible(a: Mat, k: nat)
    requires IsMat(a, k, k) && Singular(a, k)
    ensures !Invertible(a, k)
  {
    hide Apply, Dot;
    var x: Vec :| |x| == k && x != Zeros(k) && Apply(a, x) == Zeros(k);
    if b: Mat :| IsMat(b, k, k) && Inverses(a, b, k) {
      InverseUndoes(a, b, k, x);
      ApplyZeros(b, k);
    }
  }
}
