/** invert_mat: in-place Gauss-Jordan inversion with pivoting on a two-dimensional array. */
module InvertMat {
  import opened Gf
  import opened Linear
  import opened Gauss

  ghost function RowOf(m: array2<gf>, i: nat): (r: Vec)
    requires i < m.Length0
    reads m
    ensures |r| == m.Length1
  {
    seq(m.Length1, j requires 0 <= j < m.Length1 reads m => m[i, j])
  }

  ghost function Rows(m: array2<gf>): (r: Mat)
    reads m
    ensures IsMat(r, m.Length0, m.Length1)
  {
    seq(m.Length0, i requires 0 <= i < m.Length0 reads m => RowOf(m, i))
  }

  /** A matrix is determined by its rows. */
  lemma RowsAre(m: array2<gf>, r: Mat)
    requires IsMat(r, m.Length0, m.Length1)
    requires forall i, j | 0 <= i < m.Length0 && 0 <= j < m.Length1 :: m[i, j] == r[i][j]
    ensures Rows(m) == r
  {
    forall i | 0 <= i < m.Length0 ensures RowOf(m, i) == r[i] {}
  }

  method SwapRows(src: array2<gf>, irow: nat, icol: nat)
    requires irow < src.Length0 && icol < src.Length0
    modifies src
    ensures Rows(src) == Swap(old(Rows(src)), irow, icol)
  {
    ghost var m := Rows(src);
    ghost var target := Swap(m, irow, icol);
    for ix := 0 to src.Length1
      invariant forall i, j | 0 <= i < src.Length0 && 0 <= j < src.Length1 ::
                  src[i, j] == if j < ix then target[i][j] else m[i][j]
    {
      src[irow, ix], src[icol, ix] := src[icol, ix], src[irow, ix];
    }
    RowsAre(src, target);
  }

  method SwapCols(src: array2<gf>, k: nat, i: nat, j: nat)
    requires src.Length0 == src.Length1 == k && i < k && j < k
    modifies src
    ensures Rows(src) == SwapColumns(old(Rows(src)), k, i, j)
  {
    ghost var m := Rows(src);
    ghost var target := SwapColumns(m, k, i, j);
    for row := 0 to k
      invariant forall r, c | 0 <= r < k && 0 <= c < k ::
                  src[r, c] == if r < row then target[r][c] else m[r][c]
    {
      src[row, i], src[row, j] := src[row, j], src[row, i];
    }
    RowsAre(src, target);
  }

  /** Multiply one row by a constant. */
  method ScaleRow(t: Tables, src: array2<gf>, p: nat, c: gf)
    requires t.Valid() && p < src.Length0
    modifies src
    ensures Rows(src) == old(Rows(src))[p := Scale(c, old(Rows(src))[p])]
  {
    hide Mul;
    ghost var m := Rows(src);
    ghost var target := m[p := Scale(c, m[p])];
    for ix := 0 to src.Length1
      invariant forall i, j | 0 <= i < src.Length0 && 0 <= j < src.Length1 ::
                  src[i, j] == if j < ix then target[i][j] else m[i][j]
    {
      src[p, ix] := t.mul[c][src[p, ix]];
    }
    RowsAre(src, target);
  }

  /** addmul on two rows of one matrix; nothing is done when c is 0. */
  method AddMulRow(t: Tables, src: array2<gf>, dst: nat, from: nat, c: gf)
    requires t.Valid() && dst < src.Length0 && from < src.Length0 && dst != from
    modifies src
    ensures Rows(src) == old(Rows(src))[dst := Plus(old(Rows(src))[dst], Scale(c, old(Rows(src))[from]))]
  {
    hide Mul, Add;
    ghost var m := Rows(src);
    ghost var target := m[dst := Plus(m[dst], Scale(c, m[from]))];
    if c != 0 {
      for ix := 0 to src.Length1
        invariant forall i, j | 0 <= i < src.Length0 && 0 <= j < src.Length1 ::
                    src[i, j] == if j < ix then target[i][j] else m[i][j]
      {
        src[dst, ix] := Add(src[dst, ix], t.mul[c][src[from, ix]]);
      }
    } else {
      PlusScaleZero(m[dst], m[from]);
    }
    RowsAre(src, target);
  }

  lemma PlusScaleZero(a: Vec, b: Vec)
    requires |a| == |b|
    ensures Plus(a, Scale(0, b)) == a
  {
    hide Mul, Add;
    forall i | 0 <= i < |a| ensures Plus(a, Scale(0, b))[i] == a[i] {
      MulZero(b[i]);
      AddZero(a[i]);
    }
  }

  // ---------------------------------------------------------------------------------
  // One column of the main loop
  // ---------------------------------------------------------------------------------

  lemma PivotRowOfOne(row: Vec, p: nat)
    requires p < |row| && row[p] == 1
    ensures PivotRow(row, p) == row
  {
    hide Mul, Add;
    MulOne(1);
    InverseUnique(1, 1);
    forall i | 0 <= i < |row| ensures PivotRow(row, p)[i] == row[i] {
      MulOne(row[i]);
    }
  }

  /** Scale the pivot row, unless its pivot is already 1. */
  method NormalizePivot(t: Tables, src: array2<gf>, p: nat)
    requires t.Valid() && p < src.Length0 == src.Length1
    requires src[p, p] != 0
    modifies src
    ensures Rows(src) == old(Rows(src))[p := PivotRow(old(Rows(src))[p], p)]
  {
    hide Mul, Add;
    ghost var m := Rows(src);
    var c := src[p, p];
    if c != 1 {
      c := t.inverse[c];
      src[p, p] := 1;
      RowsAre(src, m[p := m[p][p := 1]]);
      ScaleRow(t, src, p, c);
      assert Rows(src) == m[p := PivotRow(m[p], p)];
    } else {
      PivotRowOfOne(m[p], p);
    }
  }

  /** bcmp of a row with the row holding a single 1. */
  method RowEquals(src: array2<gf>, p: nat, other: array<gf>) returns (same: bool)
    requires p < src.Length0 && other.Length == src.Length1
    ensures same <==> RowOf(src, p) == other[..]
  {
    for ix := 0 to src.Length1
      invariant forall j | 0 <= j < ix :: src[p, j] == other[j]
    {
      if src[p, ix] != other[ix] {
        assert RowOf(src, p)[ix] != other[..][ix];
        return false;
      }
    }
    same := true;
  }

  /** With a unit pivot row every other row is its own cleared version. */
  lemma UnitPivotSkips(m: Mat, p: nat)
    requires IsMat(m, |m|, |m|) && p < |m|
    requires PivotRow(m[p], p) == Unit(|m|, p)
    ensures Pivot(m, p) == m[p := PivotRow(m[p], p)]
  {
    hide PivotRow;
    forall i | 0 <= i < |m| && i != p ensures Pivot(m, p)[i] == m[i] {
      ClearedByUnit(m[i], p);
    }
  }

  lemma ClearedByUnit(row: Vec, p: nat)
    requires p < |row|
    ensures ClearedRow(row, Unit(|row|, p), p) == row
  {
    hide Mul, Add;
    MulOne(row[p]);
    MulZero(row[p]);
    AddZero(row[p]);
    forall j | 0 <= j < |row| ensures ClearedRow(row, Unit(|row|, p), p)[j] == row[j] {
      AddZero(row[j]);
    }
  }

  /** Clear the pivot column in all other rows. */
  method ClearColumn(t: Tables, src: array2<gf>, p: nat, ghost m: Mat)
    requires t.Valid() && p < src.Length0 == src.Length1 == |m| && IsMat(m, |m|, |m|)
    requires Rows(src) == m[p := PivotRow(m[p], p)]
    modifies src
    ensures Rows(src) == Pivot(m, p)
  {
    hide PivotRow, ClearedRow, Scale, Plus;
    var k := src.Length0;
    for ix := 0 to k
      invariant forall i | 0 <= i < k :: Rows(src)[i] == if i < ix || i == p then Pivot(m, p)[i] else m[i]
    {
      if ix != p {
        ghost var before := Rows(src);
        assert RowOf(src, ix) == m[ix];
        var c := src[ix, p];
        src[ix, p] := 0;
        RowsAre(src, before[ix := before[ix][p := 0]]);
        AddMulRow(t, src, ix, p, c);
        ClearedRowUnfold(m[ix], PivotRow(m[p], p), p);
      }
    }
    assert Rows(src) == Pivot(m, p);
  }

  lemma ClearedRowUnfold(row: Vec, pivotRow: Vec, p: nat)
    requires p < |row| == |pivotRow|
    ensures ClearedRow(row, pivotRow, p) == Plus(row[p := 0], Scale(row[p], pivotRow))
  {}

  method PivotColumn(t: Tables, src: array2<gf>, p: nat, idRow: array<gf>)
    requires t.Valid() && p < src.Length0 == src.Length1 == idRow.Length
    requires src[p, p] != 0 && idRow[..] == Zeros(idRow.Length)
    modifies src, idRow
    ensures Rows(src) == Pivot(old(Rows(src)), p)
    ensures idRow[..] == Zeros(idRow.Length)
  {
    hide PivotRow, Pivot, Scale, Plus;
    ghost var m := Rows(src);
    NormalizePivot(t, src, p);
    ghost var normalized := Rows(src);
    idRow[p] := 1;
    assert idRow[..] == Unit(idRow.Length, p);
    var same := RowEquals(src, p, idRow);
    assert Rows(src) == normalized;
    if !same {
      ClearColumn(t, src, p, m);
    } else {
      assert RowOf(src, p) == normalized[p] == PivotRow(m[p], p);
      UnitPivotSkips(m, p);
    }
    idRow[p] := 0;
    assert idRow[..] == Zeros(idRow.Length);
  }

  /** ipiv is the array form of the set of pivoted columns. */
  ghost predicate MarksAre(ipiv: array<nat>, marks: seq<bool>)
    reads ipiv
  {
    ipiv.Length == |marks| && forall i | 0 <= i < |marks| :: ipiv[i] == if marks[i] then 1 else 0
  }

  /** The diagonal first, then every unpivoted row and column. */
  method FindPivot(src: array2<gf>, k: nat, ipiv: array<nat>, col: nat, ghost marks: seq<bool>)
    returns (found: bool, irow: nat, icol: nat)
    requires src.Length0 == src.Length1 == k == |marks| && col < k && MarksAre(ipiv, marks)
    ensures found ==> irow < k && icol < k && !marks[irow] && !marks[icol] && src[irow, icol] != 0
    ensures !found ==> forall i, j | 0 <= i < k && 0 <= j < k && !marks[i] && !marks[j] :: src[i, j] == 0
  {
    if ipiv[col] != 1 && src[col, col] != 0 {
      return true, col, col;
    }
    for row := 0 to k
      invariant forall i, j | 0 <= i < row && 0 <= j < k && !marks[i] && !marks[j] :: src[i, j] == 0
    {
      if ipiv[row] != 1 {
        for ix := 0 to k
          invariant forall j | 0 <= j < ix && !marks[j] :: src[row, j] == 0
        {
          if ipiv[ix] == 0 {
            if src[row, ix] != 0 {
              return true, row, ix;
            }
          } else if ipiv[ix] > 1 {
            assert false;  // a column is never chosen twice
          }
        }
      }
    }
    found, irow, icol := false, 0, 0;
  }

  /** The recorded row swaps, composed, give the permutation reached after each column. */
  ghost predicate History(sigmas: seq<seq<nat>>, indxr: seq<nat>, indxc: seq<nat>, k: nat, cols: nat)
  {
    && |sigmas| == cols + 1 && cols <= |indxr| == |indxc|
    && sigmas[0] == IdentityPerm(k)
    && (forall c | 0 <= c <= cols :: IsPerm(sigmas[c], k))
    && forall c | 0 <= c < cols ::
         indxr[c] < k && indxc[c] < k && sigmas[c + 1] == Swap(sigmas[c], indxr[c], indxc[c])
  }

  /** The row swaps, replayed backwards on the columns. */
  method Unscramble(src: array2<gf>, k: nat, indxr: array<nat>, indxc: array<nat>,
                    ghost a: Mat, ghost sigmas: seq<seq<nat>>)
    requires src.Length0 == src.Length1 == k == indxr.Length == indxc.Length && IsMat(a, k, k)
    requires History(sigmas, indxr[..], indxc[..], k, k) && Scrambled(a, Rows(src), sigmas[k], k)
    modifies src
    ensures Inverses(a, Rows(src), k)
  {
    hide SwapColumns, Scrambled, Inverses, Swap;
    var n: nat := k;
    while n > 0
      invariant n <= k
      invariant Scrambled(a, Rows(src), sigmas[n], k)
    {
      n := n - 1;
      var col := n;
      UnscrambleStep(a, Rows(src), sigmas[n + 1], k, indxr[col], indxc[col]);
      SwapTwice(sigmas[n], indxr[..][col], indxc[..][col]);
      if indxr[col] != indxc[col] {
        SwapCols(src, k, indxr[col], indxc[col]);
      } else {
        SwapSameColumn(Rows(src), k, indxr[col]);
      }
    }
    UnscrambleDone(a, Rows(src), k);
  }

  lemma SwapTwice<T>(s: seq<T>, i: nat, j: nat)
    requires i < |s| && j < |s|
    ensures Swap(Swap(s, i, j), i, j) == s
  {}

  lemma SwapSameColumn(m: Mat, k: nat, i: nat)
    requires IsMat(m, k, k) && i < k
    ensures SwapColumns(m, k, i, i) == m
  {
    forall row | 0 <= row < k ensures SwapColumns(m, k, i, i)[row] == m[row] {}
  }

  lemma HistoryStep(sigmas: seq<seq<nat>>, indxr: seq<nat>, indxc: seq<nat>, k: nat, col: nat, irow: nat, icol: nat)
    requires History(sigmas, indxr, indxc, k, col) && col < |indxr| && irow < k && icol < k
    ensures History(sigmas + [Swap(sigmas[col], irow, icol)], indxr[col := irow], indxc[col := icol], k, col + 1)
  {}

  /** Swap the pivot onto the diagonal and clear its column. */
  method ReduceColumn(t: Tables, src: array2<gf>, k: nat, irow: nat, icol: nat, idRow: array<gf>,
                      ghost a: Mat, ghost marks: seq<bool>, ghost sigma: seq<nat>)
    requires t.Valid() && src.Length0 == src.Length1 == idRow.Length == k == |marks|
    requires irow < k && icol < k && !marks[irow] && !marks[icol] && src[irow, icol] != 0
    requires IsMat(a, k, k) && IsPerm(sigma, k) && Exchanged(a, Rows(src), marks, sigma, k)
    requires idRow[..] == Zeros(k)
    modifies src, idRow
    ensures IsPerm(Swap(sigma, irow, icol), k)
    ensures Exchanged(a, Rows(src), marks[icol := true], Swap(sigma, irow, icol), k)
    ensures idRow[..] == Zeros(k)
  {
    hide Pivot, Swap, Exchanged;
    ghost var m := Rows(src);
    assert m[irow][icol] == src[irow, icol];
    if irow != icol {
      SwapRows(src, irow, icol);
    } else {
      SwapSame(m, icol);
    }
    ExchangeSwap(a, m, marks, sigma, k, irow, icol);
    SwapAt(m, irow, icol);
    assert src[icol, icol] == Rows(src)[icol][icol];
    ExchangePivot(a, Rows(src), marks, Swap(sigma, irow, icol), k, icol);
    if src[icol, icol] == 0 {
      assert false;  // the pivot just moved here is not 0
    }
    PivotColumn(t, src, icol, idRow);
  }

  /** The state of the elimination after `col` columns. */
  ghost predicate Reduced(a: Mat, m: Mat, marks: seq<bool>, sigmas: seq<seq<nat>>, indxr: seq<nat>, indxc: seq<nat>,
                          k: nat, col: nat)
  {
    && IsMat(a, k, k) && IsMat(m, k, k) && |marks| == k && Count(marks) == col
    && History(sigmas, indxr, indxc, k, col) && |sigmas| == col + 1 && IsPerm(sigmas[col], k)
    && Exchanged(a, m, marks, sigmas[col], k)
  }

  lemma ReducedStart(a: Mat, k: nat, indxr: seq<nat>, indxc: seq<nat>)
    requires IsMat(a, k, k) && |indxr| == |indxc|
    ensures Reduced(a, a, seq(k, _ => false), [IdentityPerm(k)], indxr, indxc, k, 0)
  {
    hide Count, History, Exchanged;
    ExchangeStart(a, k);
    CountNone(seq(k, _ => false));
    HistoryStart(indxr, indxc, k);
  }

  lemma ReducedStep(a: Mat, m: Mat, m': Mat, marks: seq<bool>, sigmas: seq<seq<nat>>, indxr: seq<nat>, indxc: seq<nat>,
                    k: nat, col: nat, irow: nat, icol: nat)
    requires Reduced(a, m, marks, sigmas, indxr, indxc, k, col) && col < |indxr| && irow < k && icol < k && !marks[icol]
    requires IsMat(m', k, k) && IsPerm(Swap(sigmas[col], irow, icol), k)
    requires Exchanged(a, m', marks[icol := true], Swap(sigmas[col], irow, icol), k)
    ensures Reduced(a, m', marks[icol := true], sigmas + [Swap(sigmas[col], irow, icol)],
                    indxr[col := irow], indxc[col := icol], k, col + 1)
  {
    hide Count, History, Exchanged, Swap;
    CountMark(marks, icol);
    HistoryStep(sigmas, indxr, indxc, k, col, irow, icol);
  }

  lemma ReducedMeans(a: Mat, m: Mat, marks: seq<bool>, sigmas: seq<seq<nat>>, indxr: seq<nat>, indxc: seq<nat>, k: nat,
                     col: nat)
    requires Reduced(a, m, marks, sigmas, indxr, indxc, k, col)
    ensures IsMat(a, k, k) && IsMat(m, k, k) && |marks| == k && Count(marks) == col && |sigmas| == col + 1
    ensures IsPerm(sigmas[col], k) && Exchanged(a, m, marks, sigmas[col], k) && History(sigmas, indxr, indxc, k, col)
  {}

  /** One column: find a pivot, move it onto the diagonal, clear its column and note the swap. */
  method EliminateColumn(t: Tables, src: array2<gf>, k: nat, col: nat, ipiv: array<nat>, indxr: array<nat>,
                         indxc: array<nat>,
                         idRow: array<gf>, ghost a: Mat, ghost marks: seq<bool>, ghost sigmas: seq<seq<nat>>)
    returns (found: bool, ghost marks': seq<bool>, ghost sigmas': seq<seq<nat>>)
    requires t.Valid() && src.Length0 == src.Length1 == idRow.Length == indxr.Length == indxc.Length == k == |marks|
    requires col < k && ipiv != indxr && ipiv != indxc && indxr != indxc
    requires MarksAre(ipiv, marks) && idRow[..] == Zeros(k)
    requires Reduced(a, Rows(src), marks, sigmas, indxr[..], indxc[..], k, col)
    modifies src, ipiv, indxr, indxc, idRow
    ensures found ==> MarksAre(ipiv, marks') && |marks'| == k && idRow[..] == Zeros(k)
    ensures found ==> Reduced(a, Rows(src), marks', sigmas', indxr[..], indxc[..], k, col + 1)
    ensures !found ==> Singular(a, k)
  {
    hide Swap, Exchanged, Count, Singular, History, Reduced, IsPerm;
    marks', sigmas' := marks, sigmas;
    ReducedMeans(a, Rows(src), marks, sigmas, indxr[..], indxc[..], k, col);
    var irow, icol;
    found, irow, icol := FindPivot(src, k, ipiv, col, marks);
    if !found {
      StuckIsSingular(a, Rows(src), marks, sigmas[col], k);
      return;
    }
    ghost var before := Rows(src);
    ipiv[icol] := ipiv[icol] + 1;
    marks' := marks[icol := true];
    ReduceColumn(t, src, k, irow, icol, idRow, a, marks, sigmas[col]);
    ReducedStep(a, before, Rows(src), marks, sigmas, indxr[..], indxc[..], k, col, irow, icol);
    indxr[col] := irow;
    indxc[col] := icol;
    sigmas' := sigmas + [Swap(sigmas[col], irow, icol)];
  }

  method InvertMat(t: Tables, src: array2<gf>, k: nat) returns (error: nat)
    requires t.Valid() && src.Length0 == src.Length1 == k
    modifies src
    ensures error == 0 || error == 1
    ensures error == 0 <==> Invertible(old(Rows(src)), k)
    ensures error == 1 <==> Singular(old(Rows(src)), k)
    ensures error == 0 ==> Inverses(old(Rows(src)), Rows(src), k)
  {
    hide Exchanged, Scrambled, Inverses, Count, Singular, History, Reduced, IsPerm, Invertible;
    ghost var a := Rows(src);
    var indxc := new nat[k];
    var indxr := new nat[k];
    var ipiv := new nat[k](_ => 0);
    var idRow := new gf[k](_ => 0);
    assert idRow[..] == Zeros(k);
    ghost var marks := seq(k, _ => false);
    ghost var sigmas := [IdentityPerm(k)];
    ReducedStart(a, k, indxr[..], indxc[..]);
    for col := 0 to k
      invariant MarksAre(ipiv, marks) && |marks| == k && idRow[..] == Zeros(k)
      invariant Reduced(a, Rows(src), marks, sigmas, indxr[..], indxc[..], k, col)
    {
      var found;
      found, marks, sigmas := EliminateColumn(t, src, k, col, ipiv, indxr, indxc, idRow, a, marks, sigmas);
      if !found {
        SingularNotInvertible(a, k);
        return 1;
      }
    }
    ReducedMeans(a, Rows(src), marks, sigmas, indxr[..], indxc[..], k, k);
    ExchangeDone(a, Rows(src), marks, sigmas[k], k);
    Unscramble(src, k, indxr, indxc, a, sigmas);
    HasInverse(a, Rows(src), k);
    error := 0;
  }

  lemma HasInverse(a: Mat, b: Mat, k: nat)
    requires IsMat(a, k, k) && IsMat(b, k, k) && Inverses(a, b, k)
    ensures Invertible(a, k) && !Singular(a, k)
  {
    hide Inverses, Singular;
    assert Invertible(a, k);
    if Singular(a, k) { SingularNotInvertible(a, k); }
  }

  lemma HistoryStart(indxr: seq<nat>, indxc: seq<nat>, k: nat)
    requires |indxr| == |indxc|
    ensures History([IdentityPerm(k)], indxr, indxc, k, 0)
  {}

  lemma SwapSame<T>(s: seq<T>, i: nat)
    requires i < |s|
    ensures Swap(s, i, i) == s
  {}

  lemma SwapAt<T>(s: seq<T>, i: nat, j: nat)
    requires i < |s| && j < |s|
    ensures Swap(s, i, j)[j] == s[i]
  {}
}
