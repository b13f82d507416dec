/**
 Gauss-Jordan inversion in place. The working matrix mixes columns of the original and of
 the inverse; the exchange relation below says exactly what it maps to what.
*/
module Gauss {
  import opened Gf
  import opened Linear

  // ---------------------------------------------------------------------------------
  // One pivot: exchange an input coordinate with an output coordinate
  // ---------------------------------------------------------------------------------

  /** The pivot row after scaling: its pivot entry becomes the inverse of the pivot. */
  ghost function PivotRow(row: Vec, p: nat): (r: Vec)
    requires p < |row|
    ensures |r| == |row|
  {
    Scale(Inv(row[p]), row[p := 1])
  }

  /** Another row after its pivot column entry was zeroed and the pivot row added in. */
  ghost function ClearedRow(row: Vec, pivotRow: Vec, p: nat): (r: Vec)
    requires p < |row| == |pivotRow|
    ensures |r| == |row|
  {
    Plus(row[p := 0], Scale(row[p], pivotRow))
  }

  ghost function Pivot(m: Mat, p: nat): (r: Mat)
    requires IsMat(m, |m|, |m|) && p < |m|
    ensures IsMat(r, |m|, |m|)
  {
    var pivotRow := PivotRow(m[p], p);
    seq(|m|, i requires 0 <= i < |m| => if i == p then pivotRow else ClearedRow(m[i], pivotRow, p))
  }

  /** s + c * u == w exactly when c^-1 * (s + w) == u. */
  lemma SolveForPivot(s: gf, c: gf, u: gf, w: gf)
    requires c != 0
    ensures Add(s, Mul(c, u)) == w <==> Mul(Inv(c), Add(s, w)) == u
  {
    hide Add, Mul;
    MulAssoc(c, Inv(c), Add(s, w));
    MulOne(Add(s, w));
    MulAssoc(Inv(c), c, u);
    MulOne(u);
    AddCancel(Mul(c, u), s);
    AddCancel(w, s);
    AddComm(s, w);
    AddComm(s, Mul(c, u));
  }

  lemma PivotRowSolves(row: Vec, p: nat, u: Vec, w: gf)
    requires p < |row| == |u| && row[p] != 0
    ensures Dot(row, u) == w <==> Dot(PivotRow(row, p), u[p := w]) == u[p]
  {
    hide Add, Mul, Dot;
    DotAtSame(row, u, p);
    DotScaleLeft(Inv(row[p]), row[p := 1], u[p := w]);
    DotAt(row, u, p, 1, w);
    MulOne(w);
    SolveForPivot(Rest(row, u, p), row[p], u[p], w);
  }

  /** Once the pivot row holds, clearing a row does not change what it computes. */
  lemma ClearedRowSame(row: Vec, pivotRow: Vec, p: nat, u: Vec, w: gf)
    requires p < |row| == |u| == |pivotRow|
    requires Dot(pivotRow, u[p := w]) == u[p]
    ensures Dot(ClearedRow(row, pivotRow, p), u[p := w]) == Dot(row, u)
  {
    hide Add, Mul, Dot;
    DotRowOp(row[p := 0], row[p], pivotRow, u[p := w]);
    DotAt(row, u, p, 0, w);
    MulZero(w);
    AddZero(Rest(row, u, p));
    DotAtSame(row, u, p);
  }

  /** The pivoted matrix maps u with its p-th entry replaced to v with its p-th entry replaced. */
  lemma PivotExchange(m: Mat, p: nat, u: Vec, v: Vec)
    requires IsMat(m, |m|, |m|) && p < |m| == |u| == |v| && m[p][p] != 0
    ensures Apply(m, u) == v <==> Apply(Pivot(m, p), u[p := v[p]]) == v[p := u[p]]
  {
    hide Dot, ClearedRow, PivotRow;
    var m', u', v' := Pivot(m, p), u[p := v[p]], v[p := u[p]];
    PivotRowSolves(m[p], p, u, v[p]);
    if Dot(m'[p], u') == u[p] {
      forall i | 0 <= i < |m| && i != p ensures Dot(m'[i], u') == Dot(m[i], u) {
        ClearedRowSame(m[i], m'[p], p, u, v[p]);
      }
      if Apply(m, u) == v {
        forall i | 0 <= i < |m| ensures Apply(m', u')[i] == v'[i] {
          assert Dot(m[i], u) == v[i];
        }
      }
      if Apply(m', u') == v' {
        forall i | 0 <= i < |m| ensures Apply(m, u)[i] == v[i] {
          assert Dot(m'[i], u') == v'[i];
        }
      }
    } else {
      assert Apply(m', u')[p] != v'[p];
      assert Apply(m, u)[p] != v[p];
    }
  }

  // ---------------------------------------------------------------------------------
  // The relation kept by the main loop
  // ---------------------------------------------------------------------------------

  /** a where marked, b elsewhere. */
  function Select(marks: seq<bool>, a: Vec, b: Vec): (r: Vec)
    requires |marks| == |a| == |b|
    ensures |r| == |a|
  {
    seq(|a|, i requires 0 <= i < |a| => if marks[i] then a[i] else b[i])
  }

  predicate IsPerm(sigma: seq<nat>, k: nat)
  {
    |sigma| == k && forall i | 0 <= i < k :: sigma[i] < k
  }

  function Permute(sigma: seq<nat>, y: Vec): (r: Vec)
    requires IsPerm(sigma, |y|)
    ensures |r| == |y|
  {
    seq(|y|, i requires 0 <= i < |y| => y[sigma[i]])
  }

  /** m maps (output where pivoted, input elsewhere) to (input where pivoted, output elsewhere). */
  ghost predicate Maps(m: Mat, marks: seq<bool>, x: Vec, z: Vec)
    requires IsMat(m, |x|, |x|) && |marks| == |x| == |z|
  {
    Apply(m, Select(marks, z, x)) == Select(marks, x, z)
  }

  /** The working matrix m describes the original matrix a, rows permuted by sigma. */
  ghost predicate Exchanged(a: Mat, m: Mat, marks: seq<bool>, sigma: seq<nat>, k: nat)
    requires IsMat(a, k, k) && IsMat(m, k, k) && |marks| == k && IsPerm(sigma, k)
  {
    forall x: Vec, y: Vec | |x| == |y| == k :: y == Apply(a, x) <==> Maps(m, marks, x, Permute(sigma, y))
  }

  function Count(marks: seq<bool>): (n: nat)
    ensures n <= |marks|
  {
    if marks == [] then 0 else Count(marks[..|marks| - 1]) + if marks[|marks| - 1] then 1 else 0
  }

  lemma {:induction false} CountMark(marks: seq<bool>, p: nat)
    requires p < |marks| && !marks[p]
    ensures Count(marks[p := true]) == Count(marks) + 1
  {
    var n := |marks| - 1;
    if p == n {
      assert marks[p := true][..n] == marks[..n];
    } else {
      CountMark(marks[..n], p);
      assert marks[p := true][..n] == marks[..n][p := true];
    }
  }

  lemma {:induction false} CountAll(marks: seq<bool>)
    ensures Count(marks) == |marks| <==> forall i | 0 <= i < |marks| :: marks[i]
  {
    if marks != [] { CountAll(marks[..|marks| - 1]); }
  }

  lemma {:induction false} CountNone(marks: seq<bool>)
    requires forall i | 0 <= i < |marks| :: !marks[i]
    ensures Count(marks) == 0
  {
    if marks != [] { CountNone(marks[..|marks| - 1]); }
  }

  function IdentityPerm(k: nat): (r: seq<nat>)
    ensures IsPerm(r, k)
  {
    seq(k, i => i)
  }

  lemma ExchangeStart(a: Mat, k: nat)
    requires IsMat(a, k, k)
    ensures Exchanged(a, a, seq(k, _ => false), IdentityPerm(k), k)
  {
    hide Apply;
    var marks := seq(k, _ => false);
    forall x: Vec, y: Vec | |x| == |y| == k
      ensures y == Apply(a, x) <==> Maps(a, marks, x, Permute(IdentityPerm(k), y))
    {
      assert Permute(IdentityPerm(k), y) == y;
      assert Select(marks, y, x) == x && Select(marks, x, y) == y;
    }
  }

  /** Rows that are not pivoted yet may be swapped if the permutation is swapped with them. */
  lemma ExchangeSwap(a: Mat, m: Mat, marks: seq<bool>, sigma: seq<nat>, k: nat, i: nat, j: nat)
    requires IsMat(a, k, k) && IsMat(m, k, k) && |marks| == k && IsPerm(sigma, k)
    requires Exchanged(a, m, marks, sigma, k)
    requires i < k && j < k && !marks[i] && !marks[j]
    ensures IsPerm(Swap(sigma, i, j), k) && IsMat(Swap(m, i, j), k, k)
    ensures Exchanged(a, Swap(m, i, j), marks, Swap(sigma, i, j), k)
  {
    hide Dot;
    var m', sigma' := Swap(m, i, j), Swap(sigma, i, j);
    forall x: Vec, y: Vec | |x| == |y| == k
      ensures y == Apply(a, x) <==> Maps(m', marks, x, Permute(sigma', y))
    {
      SwapMaps(m, marks, x, Permute(sigma, y), i, j);
      assert Permute(sigma', y) == Swap(Permute(sigma, y), i, j);
    }
  }

  lemma SwapInjective<T>(s: seq<T>, r: seq<T>, i: nat, j: nat)
    requires |s| == |r| && i < |s| && j < |s|
    ensures Swap(s, i, j) == Swap(r, i, j) <==> s == r
  {
    assert Swap(Swap(s, i, j), i, j) == s;
    assert Swap(Swap(r, i, j), i, j) == r;
  }

  lemma SwapMaps(m: Mat, marks: seq<bool>, x: Vec, z: Vec, i: nat, j: nat)
    requires IsMat(m, |x|, |x|) && |marks| == |x| == |z|
    requires i < |x| && j < |x| && !marks[i] && !marks[j]
    ensures IsMat(Swap(m, i, j), |x|, |x|)
    ensures Maps(Swap(m, i, j), marks, x, Swap(z, i, j)) <==> Maps(m, marks, x, z)
  {
    hide Dot;
    var u, v := Select(marks, z, x), Select(marks, x, z);
    assert Select(marks, Swap(z, i, j), x) == u;
    assert Select(marks, x, Swap(z, i, j)) == Swap(v, i, j);
    assert Apply(Swap(m, i, j), u) == Swap(Apply(m, u), i, j);
    SwapInjective(Apply(m, u), v, i, j);
  }

  lemma ExchangePivot(a: Mat, m: Mat, marks: seq<bool>, sigma: seq<nat>, k: nat, p: nat)
    requires IsMat(a, k, k) && IsMat(m, k, k) && |marks| == k && IsPerm(sigma, k)
    requires Exchanged(a, m, marks, sigma, k)
    requires p < k && !marks[p] && m[p][p] != 0
    ensures Exchanged(a, Pivot(m, p), marks[p := true], sigma, k)
  {
    hide Apply, Pivot, Permute;
    forall x: Vec, y: Vec | |x| == |y| == k
      ensures y == Apply(a, x) <==> Maps(Pivot(m, p), marks[p := true], x, Permute(sigma, y))
    {
      PivotMaps(m, marks, x, Permute(sigma, y), p);
    }
  }

  lemma PivotMaps(m: Mat, marks: seq<bool>, x: Vec, z: Vec, p: nat)
    requires IsMat(m, |x|, |x|) && |marks| == |x| == |z|
    requires p < |x| && !marks[p] && m[p][p] != 0
    ensures Maps(Pivot(m, p), marks[p := true], x, z) <==> Maps(m, marks, x, z)
  {
    hide Apply, Pivot;
    var u, v := Select(marks, z, x), Select(marks, x, z);
    PivotExchange(m, p, u, v);
    assert Select(marks[p := true], z, x) == u[p := v[p]];
    assert Select(marks[p := true], x, z) == v[p := u[p]];
  }

  /** No pivot left although some row is unpivoted: the original matrix is singular. */
  lemma StuckIsSingular(a: Mat, m: Mat, marks: seq<bool>, sigma: seq<nat>, k: nat)
    requires IsMat(a, k, k) && IsMat(m, k, k) && |marks| == k && IsPerm(sigma, k)
    requires Exchanged(a, m, marks, sigma, k)
    requires Count(marks) < k
    requires forall i, j | 0 <= i < k && 0 <= j < k && !marks[i] && !marks[j] :: m[i][j] == 0
    ensures Singular(a, k)
  {
    hide Dot;
    CountAll(marks);
    var j :| 0 <= j < k && !marks[j];
    var u := Unit(k, j);
    ApplyUnit(m, k, j);
    var x := Select(marks, Apply(m, u), u);
    var y := Zeros(k);
    assert Permute(sigma, y) == y;
    assert Select(marks, y, x) == u;
    assert Select(marks, x, y) == Apply(m, u);
    assert y == Apply(a, x);
    assert x[j] == 1 && x != Zeros(k);
  }

  // ---------------------------------------------------------------------------------
  // The columns are unscrambled at the end
  // ---------------------------------------------------------------------------------

  ghost predicate Scrambled(a: Mat, m: Mat, sigma: seq<nat>, k: nat)
    requires IsMat(a, k, k) && IsMat(m, k, k) && IsPerm(sigma, k)
  {
    forall x: Vec, y: Vec | |x| == |y| == k :: y == Apply(a, x) <==> x == Apply(m, Permute(sigma, y))
  }

  lemma ExchangeDone(a: Mat, m: Mat, marks: seq<bool>, sigma: seq<nat>, k: nat)
    requires IsMat(a, k, k) && IsMat(m, k, k) && |marks| == k && IsPerm(sigma, k)
    requires Exchanged(a, m, marks, sigma, k) && Count(marks) == k
    ensures Scrambled(a, m, sigma, k)
  {
    hide Apply, Permute, Count, Maps;
    CountAll(marks);
    forall x: Vec, y: Vec | |x| == |y| == k
      ensures y == Apply(a, x) <==> x == Apply(m, Permute(sigma, y))
    {
      AllMarked(m, marks, x, Permute(sigma, y));
    }
  }

  lemma AllMarked(m: Mat, marks: seq<bool>, x: Vec, z: Vec)
    requires IsMat(m, |x|, |x|) && |marks| == |x| == |z|
    requires forall i | 0 <= i < |marks| :: marks[i]
    ensures Maps(m, marks, x, z) <==> Apply(m, z) == x
  {
    hide Apply;
    assert Select(marks, z, x) == z && Select(marks, x, z) == x;
  }

  ghost function SwapColumns(m: Mat, k: nat, i: nat, j: nat): (r: Mat)
    requires IsMat(m, k, k) && i < k && j < k
    ensures IsMat(r, k, k)
  {
    seq(k, row requires 0 <= row < k => Swap(m[row], i, j))
  }

  lemma ApplySwapColumns(m: Mat, k: nat, i: nat, j: nat, z: Vec)
    requires IsMat(m, k, k) && i < k && j < k && |z| == k
    ensures Apply(SwapColumns(m, k, i, j), Swap(z, i, j)) == Apply(m, z)
  {
    hide Dot, Swap;
    forall row | 0 <= row < k
      ensures Apply(SwapColumns(m, k, i, j), Swap(z, i, j))[row] == Apply(m, z)[row]
    {
      DotSwap(m[row], z, i, j);
    }
  }

  /** Swapping two columns undoes the swap of two rows recorded in the permutation. */
  lemma UnscrambleStep(a: Mat, m: Mat, sigma: seq<nat>, k: nat, i: nat, j: nat)
    requires IsMat(a, k, k) && IsMat(m, k, k) && IsPerm(sigma, k) && i < k && j < k
    requires Scrambled(a, m, sigma, k)
    ensures IsPerm(Swap(sigma, i, j), k)
    ensures Scrambled(a, SwapColumns(m, k, i, j), Swap(sigma, i, j), k)
  {
    hide Apply, SwapColumns;
    var m', sigma' := SwapColumns(m, k, i, j), Swap(sigma, i, j);
    forall x: Vec, y: Vec | |x| == |y| == k
      ensures y == Apply(a, x) <==> x == Apply(m', Permute(sigma', y))
    {
      assert Permute(sigma', y) == Swap(Permute(sigma, y), i, j);
      ApplySwapColumns(m, k, i, j, Permute(sigma, y));
    }
  }

  lemma UnscrambleDone(a: Mat, m: Mat, k: nat)
    requires IsMat(a, k, k) && IsMat(m, k, k)
    requires Scrambled(a, m, IdentityPerm(k), k)
    ensures Inverses(a, m, k)
  {
    hide Apply;
    forall x: Vec, y: Vec | |x| == |y| == k
      ensures y == Apply(a, x) <==> x == Apply(m, y)
    {
      assert Permute(IdentityPerm(k), y) == y;
    }
  }
}
