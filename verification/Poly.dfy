/** Polynomials over GF(2^8), held as coefficient vectors with the constant term first. */
module Poly {
  import opened Gf
  import opened Linear

  function Eval(a: Vec, x: gf): gf
  {
    if a == [] then 0 else Add(a[0], Mul(x, Eval(a[1..], x)))
  }

  function Pow(x: gf, i: nat): gf
  {
    if i == 0 then 1 else Mul(x, Pow(x, i - 1))
  }

  /** A row of a Vandermonde matrix. */
  function Powers(x: gf, k: nat): (r: Vec)
    ensures |r| == k
  {
    seq(k, i requires 0 <= i < k => Pow(x, i))
  }

  // ---------------------------------------------------------------------------------
  // Evaluation is linear, and is the dot product with a row of powers
  // ---------------------------------------------------------------------------------

  lemma {:induction false} EvalLast(a: Vec, c: gf, x: gf)
    ensures Eval(a + [c], x) == Add(Eval(a, x), Mul(Pow(x, |a|), c))
  {
    hide Add, Mul;
    if a == [] {
      assert [] + [c] == [c];
      MulZero(x);
      AddZero(c);
      MulOne(c);
    } else {
      assert (a + [c])[1..] == a[1..] + [c];
      EvalLast(a[1..], c, x);
      var p := Pow(x, |a| - 1);
      Distribute(x, Eval(a[1..], x), Mul(p, c));
      MulAssoc(x, p, c);
      AddAssoc(a[0], Mul(x, Eval(a[1..], x)), Mul(Mul(x, p), c));
    }
  }

  lemma {:induction false} DotPowers(x: gf, a: Vec)
    ensures Dot(Powers(x, |a|), a) == Eval(a, x)
  {
    hide Add, Mul;
    if a != [] {
      var n := |a| - 1;
      DotPowers(x, a[..n]);
      assert Powers(x, |a|)[..n] == Powers(x, n);
      EvalLast(a[..n], a[n], x);
      assert a[..n] + [a[n]] == a;
    }
  }

  lemma {:induction false} EvalPlus(a: Vec, b: Vec, x: gf)
    requires |a| == |b|
    ensures Eval(Plus(a, b), x) == Add(Eval(a, x), Eval(b, x))
  {
    hide Add, Mul;
    if a == [] {
      AddSelf(0);
    } else {
      assert Plus(a, b)[1..] == Plus(a[1..], b[1..]);
      EvalPlus(a[1..], b[1..], x);
      Distribute(x, Eval(a[1..], x), Eval(b[1..], x));
      AddMiddle(a[0], b[0], Mul(x, Eval(a[1..], x)), Mul(x, Eval(b[1..], x)));
    }
  }

  lemma {:induction false} EvalScale(c: gf, a: Vec, x: gf)
    ensures Eval(Scale(c, a), x) == Mul(c, Eval(a, x))
  {
    hide Add, Mul;
    if a == [] {
      MulZero(c);
    } else {
      assert Scale(c, a)[1..] == Scale(c, a[1..]);
      EvalScale(c, a[1..], x);
      var e := Eval(a[1..], x);
      MulAssoc(x, c, e);
      MulComm(x, c);
      MulAssoc(c, x, e);
      Distribute(c, a[0], Mul(x, e));
    }
  }

  // ---------------------------------------------------------------------------------
  // Synthetic division by x - r
  // ---------------------------------------------------------------------------------

  /** The quotient of a by (x - r): each coefficient is a Horner value of a tail of a. */
  function SynDiv(a: Vec, r: gf): (q: Vec)
    requires |a| >= 1
    ensures |q| == |a| - 1
  {
    seq(|a| - 1, i requires 0 <= i < |a| - 1 => Eval(a[i + 1..], r))
  }

  /** Horner's step, which is how the quotient is computed from the top coefficient down. */
  lemma SynDivStep(a: Vec, r: gf, i: nat)
    requires i + 2 < |a|
    ensures SynDiv(a, r)[i] == Add(a[i + 1], Mul(r, SynDiv(a, r)[i + 1]))
  {
    hide Add, Mul;
    assert a[i + 1..][1..] == a[i + 2..];
  }

  lemma SynDivTop(a: Vec, r: gf)
    requires |a| >= 2
    ensures SynDiv(a, r)[|a| - 2] == a[|a| - 1]
  {
    hide Add, Mul;
    var top := a[|a| - 1..];
    assert top == [a[|a| - 1]];
    assert Eval(top[1..], r) == 0;
    MulZero(r);
    AddZero(a[|a| - 1]);
  }

  /** x * (d * q + e) + a0 == d * (e + x * q) + (a0 + r * e), where d = x + r. */
  lemma DivisionStep(x: gf, r: gf, a0: gf, q: gf, e: gf)
    ensures Add(a0, Mul(x, Add(Mul(Add(x, r), q), e)))
         == Add(Mul(Add(x, r), Add(e, Mul(x, q))), Add(a0, Mul(r, e)))
  {
    hide Add, Mul;
    var d := Add(x, r);
    var s := Mul(x, Mul(d, q));
    // left: a0 + (s + x * e)
    Distribute(x, Mul(d, q), e);
    // right: (d * e + s) + (a0 + r * e) with d * e == x * e + r * e
    Distribute(d, e, Mul(x, q));
    MulAssoc(d, x, q);
    MulComm(d, x);
    MulAssoc(x, d, q);
    Distribute(e, x, r);
    var xe, re := Mul(x, e), Mul(r, e);
    AddComm(Add(xe, re), s);
    AddComm(a0, re);
    AddMiddle(s, Add(xe, re), re, a0);
    AddComm(Add(s, re), Add(Add(xe, re), a0));
    RearrangeDivision(a0, s, xe, re);
  }

  lemma RearrangeDivision(a0: gf, s: gf, xe: gf, re: gf)
    ensures Add(Add(s, Add(xe, re)), Add(re, a0)) == Add(a0, Add(s, xe))
  {
    hide Add;
    AddAssoc(s, xe, re);
    AddAssoc(Add(s, xe), re, Add(re, a0));
    AddCancel(a0, re);
    AddComm(Add(s, xe), a0);
  }

  /** a(x) == (x - r) * q(x) + a(r). */
  lemma {:induction false} Division(a: Vec, r: gf, x: gf)
    requires |a| >= 1
    ensures Eval(a, x) == Add(Mul(Add(x, r), Eval(SynDiv(a, r), x)), Eval(a, r))
  {
    hide Add, Mul;
    if |a| == 1 {
      assert SynDiv(a, r) == [];
      assert a[1..] == [];
      MulZero(x);
      MulZero(r);
      MulZero(Add(x, r));
      AddZero(Eval(a, r));
    } else {
      var t := a[1..];
      Division(t, r, x);
      assert SynDiv(a, r)[1..] == SynDiv(t, r);
      assert SynDiv(a, r)[0] == Eval(t, r);
      DivisionStep(x, r, a[0], Eval(SynDiv(t, r), x), Eval(t, r));
    }
  }

  // ---------------------------------------------------------------------------------
  // A polynomial with as many roots as coefficients is zero
  // ---------------------------------------------------------------------------------

  predicate Distinct(ps: seq<gf>)
  {
    forall i, j | 0 <= i < j < |ps| :: ps[i] != ps[j]
  }

  /** A root of a other than r is a root of the quotient by x - r. */
  lemma RootOfQuotient(a: Vec, r: gf, x: gf)
    requires |a| >= 1 && x != r && Eval(a, r) == 0 && Eval(a, x) == 0
    ensures Eval(SynDiv(a, r), x) == 0
  {
    hide Add, Mul, Eval;
    Division(a, r, x);
    var e := Eval(SynDiv(a, r), x);
    AddZero(Mul(Add(x, r), e));
    SumZero(x, r);
    NoZeroDivisors(Add(x, r), e);
  }

  /** If r is a root and the quotient is zero, so are all coefficients. */
  lemma ZeroQuotient(a: Vec, r: gf)
    requires |a| >= 1 && Eval(a, r) == 0 && SynDiv(a, r) == Zeros(|a| - 1)
    ensures a == Zeros(|a|)
  {
    hide Add, Mul;
    forall i | 0 <= i < |a| ensures a[i] == 0 {
      assert Eval(a[i..], r) == 0 by {
        if i > 0 { assert SynDiv(a, r)[i - 1] == Eval(a[i - 1 + 1..], r); }
        assert a[0..] == a;
      }
      var tail := a[i + 1..];
      assert a[i..][1..] == tail;
      assert Eval(tail, r) == 0 by {
        if i + 1 < |a| { assert SynDiv(a, r)[i] == 0; }
      }
      MulZero(r);
      AddZero(a[i]);
    }
  }

  lemma {:induction false} RootBound(a: Vec, roots: seq<gf>)
    requires |a| <= |roots| && Distinct(roots)
    requires forall i | 0 <= i < |roots| :: Eval(a, roots[i]) == 0
    ensures a == Zeros(|a|)
    decreases |roots|
  {
    hide Add, Mul, Eval, SynDiv;
    if a != [] {
      var n := |roots| - 1;
      var r := roots[n];
      forall i | 0 <= i < n ensures Eval(SynDiv(a, r), roots[..n][i]) == 0 {
        RootOfQuotient(a, r, roots[i]);
      }
      RootBound(SynDiv(a, r), roots[..n]);
      ZeroQuotient(a, r);
    }
  }

  // ---------------------------------------------------------------------------------
  // The product of the factors x - p
  // ---------------------------------------------------------------------------------

  /** (x + c) * q. */
  function Times(q: Vec, c: gf): (r: Vec)
    ensures |r| == |q| + 1
  {
    Plus([0] + q, Scale(c, q + [0]))
  }

  lemma EvalTimes(q: Vec, c: gf, x: gf)
    ensures Eval(Times(q, c), x) == Mul(Add(x, c), Eval(q, x))
  {
    hide Add, Mul;
    EvalPlus([0] + q, Scale(c, q + [0]), x);
    EvalScale(c, q + [0], x);
    EvalLast(q, 0, x);
    MulZero(Pow(x, |q|));
    AddZero(Eval(q, x));
    assert ([0] + q)[1..] == q;
    AddZero(Mul(x, Eval(q, x)));
    Distribute(Eval(q, x), x, c);
  }

  function Prod(ps: seq<gf>): (r: Vec)
    ensures |r| == |ps| + 1
  {
    if ps == [] then [1] else Times(Prod(ps[..|ps| - 1]), ps[|ps| - 1])
  }

  lemma {:induction false} ProdRoots(ps: seq<gf>, i: nat)
    requires i < |ps|
    ensures Eval(Prod(ps), ps[i]) == 0
  {
    hide Add, Mul, Eval, Times;
    var n := |ps| - 1;
    EvalTimes(Prod(ps[..n]), ps[n], ps[i]);
    if i == n {
      AddSelf(ps[n]);
      MulZero(Eval(Prod(ps[..n]), ps[i]));
    } else {
      ProdRoots(ps[..n], i);
      MulZero(Add(ps[i], ps[n]));
    }
  }

  lemma TimesMonic(q: Vec, c: gf)
    requires q != [] && q[|q| - 1] == 1
    ensures Times(q, c)[|q|] == 1
  {
    hide Add, Mul;
    MulZero(c);
    AddZero(1);
  }

  lemma {:induction false} ProdMonic(ps: seq<gf>)
    ensures Prod(ps)[|ps|] == 1
  {
    hide Times;
    if ps != [] {
      var n := |ps| - 1;
      ProdMonic(ps[..n]);
      TimesMonic(Prod(ps[..n]), ps[n]);
    }
  }
}
