/**
 * `Matrix::<N, N>::inverse` of `src/geometry.rs`: Gauss-Jordan elimination
 * on the augmented rows `[A | I]`, over exact reals.  The functions below
 * describe one step of the elimination each; `Inverse` performs them in
 * place on a local vector of rows, and the lemmas prove that a returned
 * matrix is a right inverse.
 */
module Inversion {
  import opened Common
  import opened Geometry
  import opened Matrices

  /** Pivots smaller than this in magnitude count as zero. */
  const Epsilon: real := 0.0000000001

  /** `f32::abs` */
  function AbsReal(x: real): real
  {
    if x < 0.0 then -x else x
  }

  /** `n` rows of `2n` entries each: the shape of the augmented matrix. */
  predicate AugShape(aug: seq<seq<real>>, n: nat)
  {
    |aug| == n && forall k :: 0 <= k < n ==> |aug[k]| == 2 * n
  }

  /** The augmented rows `[A | I]`. */
  function Augmented(a: Matrix): (aug: seq<seq<real>>)
    requires Shaped(a) && a.rows == a.cols
    ensures AugShape(aug, a.rows)
  {
    seq(a.rows, i requires 0 <= i < a.rows =>
      seq(2 * a.rows, j requires 0 <= j < 2 * a.rows =>
        if j < a.rows then a.matrix[i][j] else Kronecker(i, j - a.rows)))
  }

  /**
   * The pivot row after the search has looked at rows `col..end`: the first
   * row of largest magnitude in column `col`.
   */
  function PivotUpTo(aug: seq<seq<real>>, col: nat, end: nat): (p: nat)
    requires AugShape(aug, |aug|) && col < |aug| && col <= end <= |aug|
    ensures col <= p < |aug| && (end > col ==> p < end)
    decreases end
  {
    if end == col then col
    else
      var p := PivotUpTo(aug, col, end - 1);
      if AbsReal(aug[end - 1][col]) > AbsReal(aug[p][col]) then end - 1 else p
  }

  /** `augmented.swap(col, pivot_row)` when the two differ. */
  function SwapRows(aug: seq<seq<real>>, c: nat, p: nat): (s: seq<seq<real>>)
    requires c < |aug| && p < |aug|
    ensures |s| == |aug|
  {
    if p != c then aug[c := aug[p]][p := aug[c]] else aug
  }

  /** Row `c` divided by its diagonal entry, from column `c` on. */
  function Normalized(aug: seq<seq<real>>, c: nat): (s: seq<seq<real>>)
    requires AugShape(aug, |aug|) && c < |aug| && aug[c][c] != 0.0
    ensures AugShape(s, |aug|)
  {
    aug[c := seq(2 * |aug|, j requires 0 <= j < 2 * |aug| =>
               if j >= c then aug[c][j] / aug[c][c] else aug[c][j])]
  }

  /** `row` minus `factor` times `prow`, from column `c` on. */
  function EliminatedRow(row: seq<real>, prow: seq<real>, factor: real, c: nat): (r: seq<real>)
    requires |row| == |prow|
    ensures |r| == |row|
  {
    seq(|row|, j requires 0 <= j < |row| => if j >= c then row[j] - factor * prow[j] else row[j])
  }

  /** Column `c` cleared in rows `0..i` other than `c`, one row after another. */
  function EliminateUpTo(aug: seq<seq<real>>, c: nat, i: nat): (e: seq<seq<real>>)
    requires AugShape(aug, |aug|) && c < |aug| && i <= |aug|
    ensures AugShape(e, |aug|) && e[c] == aug[c]
    decreases i
  {
    if i == 0 then aug
    else
      var e := EliminateUpTo(aug, c, i - 1);
      if i - 1 == c then e else e[i - 1 := EliminatedRow(e[i - 1], e[c], e[i - 1][c], c)]
  }

  /**
   * One pass of the column loop: find the pivot, give up when it is below
   * `Epsilon`, otherwise swap it into place, normalise its row and clear
   * the rest of the column.
   */
  function Step(aug: seq<seq<real>>, col: nat): (r: Option<seq<seq<real>>>)
    requires AugShape(aug, |aug|) && col < |aug|
    ensures r.Some? ==> AugShape(r.value, |aug|)
  {
    var p := PivotUpTo(aug, col, |aug|);
    if AbsReal(aug[p][col]) < Epsilon then None
    else
      var s := SwapRows(aug, col, p);
      assert AugShape(s, |aug|);
      var m := Normalized(s, col);
      Some(EliminateUpTo(m, col, |aug|))
  }

  /** The column loop from column `col` on. */
  function Reduce(aug: seq<seq<real>>, col: nat): (r: Option<seq<seq<real>>>)
    requires AugShape(aug, |aug|) && col <= |aug|
    ensures r.Some? ==> AugShape(r.value, |aug|)
    decreases |aug| - col
  {
    if col == |aug| then Some(aug)
    else
      match Step(aug, col)
      case None => None
      case Some(next) => Reduce(next, col + 1)
  }

  /** The right half of the augmented rows. */
  function RightHalf(aug: seq<seq<real>>): (m: Matrix)
    requires AugShape(aug, |aug|)
    ensures Shaped(m) && m.rows == m.cols == |aug|
  {
    Matrix(seq(|aug|, i requires 0 <= i < |aug| =>
             seq(|aug|, j requires 0 <= j < |aug| => aug[i][j + |aug|])), |aug|, |aug|)
  }

  /** What `inverse` returns. */
  function GaussJordan(a: Matrix): Option<Matrix>
    requires Shaped(a) && a.rows == a.cols
  {
    match Reduce(Augmented(a), 0)
    case None => None
    case Some(fin) => Some(RightHalf(fin))
  }

  // ---------------------------------------------------------------------
  // The method
  // ---------------------------------------------------------------------

  /** `Matrix::<N, N>::inverse`: the augmented rows are updated in place. */
  method Inverse(a: Matrix) returns (r: Option<Matrix>)
    requires Shaped(a) && a.rows == a.cols
    ensures r == GaussJordan(a)
  {
    var n := a.rows;
    var augmented := Augment(a);
    for col := 0 to n
      invariant AugShape(augmented, n)
      invariant Reduce(augmented, col) == Reduce(Augmented(a), 0)
    {
      ghost var prev := augmented;
      var pivotRow := FindPivot(augmented, col);
      if AbsReal(augmented[pivotRow][col]) < Epsilon {
        return None;
      }
      if pivotRow != col {
        augmented := augmented[col := augmented[pivotRow]][pivotRow := augmented[col]];
      }
      assert augmented == SwapRows(prev, col, pivotRow);
      assert augmented[col][col] == prev[pivotRow][col] != 0.0;
      augmented := NormalizeRow(augmented, col);
      augmented := EliminateColumn(augmented, col);
      assert Step(prev, col) == Some(augmented);
    }
    var inverse := Extract(augmented);
    r := Some(inverse);
  }

  /** The copying loop of `inverse`: `[A | I]` written into rows of zeros. */
  method Augment(a: Matrix) returns (aug: seq<seq<real>>)
    requires Shaped(a) && a.rows == a.cols
    ensures aug == Augmented(a)
  {
    var n := a.rows;
    var zero := seq(2 * n, _ => 0.0);
    aug := seq(n, _ => zero);
    for i := 0 to n
      invariant AugShape(aug, n)
      invariant forall k :: 0 <= k < n ==> aug[k] == if k < i then Augmented(a)[k] else zero
    {
      for j := 0 to n
        invariant AugShape(aug, n)
        invariant forall k :: 0 <= k < n && k != i ==> aug[k] == if k < i then Augmented(a)[k] else zero
        invariant forall c :: 0 <= c < j ==> aug[i][c] == a.matrix[i][c]
        invariant forall c :: n <= c < n + j ==> aug[i][c] == Kronecker(i, c - n)
        invariant forall c :: j <= c < n ==> aug[i][c] == 0.0
        invariant forall c :: n + j <= c < 2 * n ==> aug[i][c] == 0.0
      {
        aug := aug[i := aug[i][j := a.matrix[i][j]]];
        aug := aug[i := aug[i][j + n := if i == j then 1.0 else 0.0]];
      }
      assert forall c :: 0 <= c < 2 * n ==> aug[i][c] == Augmented(a)[i][c];
      assert aug[i] == Augmented(a)[i];
    }
  }

  /** The pivot search of `inverse`: the first row of largest magnitude at or below `col`. */
  method FindPivot(aug: seq<seq<real>>, col: nat) returns (pivotRow: nat)
    requires AugShape(aug, |aug|) && col < |aug|
    ensures pivotRow == PivotUpTo(aug, col, |aug|)
  {
    pivotRow := col;
    for row := col to |aug|
      invariant pivotRow == PivotUpTo(aug, col, row)
    {
      if AbsReal(aug[row][col]) > AbsReal(aug[pivotRow][col]) {
        pivotRow := row;
      }
    }
  }

  /** The normalisation loop of `inverse`: `augmented[col][j] /= pivot` for `j` in `col..2N`. */
  method NormalizeRow(aug: seq<seq<real>>, col: nat) returns (s: seq<seq<real>>)
    requires AugShape(aug, |aug|) && col < |aug| && aug[col][col] != 0.0
    ensures s == Normalized(aug, col)
  {
    var n := |aug|;
    s := aug;
    var pivot := s[col][col];
    for j := col to 2 * n
      invariant |s| == n && s[col := aug[col]] == aug && |s[col]| == 2 * n
      invariant forall c :: 0 <= c < 2 * n ==> s[col][c] == if c < j then Normalized(aug, col)[col][c] else aug[col][c]
    {
      s := s[col := s[col][j := s[col][j] / pivot]];
    }
    assert s[col] == Normalized(aug, col)[col];
  }

  /** The elimination loops of `inverse`: every other row loses a multiple of row `col`. */
  method EliminateColumn(aug: seq<seq<real>>, col: nat) returns (s: seq<seq<real>>)
    requires AugShape(aug, |aug|) && col < |aug|
    ensures s == EliminateUpTo(aug, col, |aug|)
  {
    var n := |aug|;
    s := aug;
    for i := 0 to n
      invariant s == EliminateUpTo(aug, col, i)
    {
      if i != col {
        var factor := s[i][col];
        ghost var before := s;
        for j := col to 2 * n
          invariant |s| == n && s[i := before[i]] == before && |s[i]| == 2 * n
          invariant forall c :: 0 <= c < 2 * n ==>
            s[i][c] == if c < j then EliminatedRow(before[i], before[col], factor, col)[c] else before[i][c]
        {
          s := s[i := s[i][j := s[i][j] - factor * s[col][j]]];
        }
        assert s[i] == EliminatedRow(before[i], before[col], factor, col);
      }
    }
  }

  /** The extraction loop of `inverse`: the right half copied into a new matrix. */
  method Extract(aug: seq<seq<real>>) returns (m: Matrix)
    requires AugShape(aug, |aug|)
    ensures m == RightHalf(aug)
  {
    var n := |aug|;
    var inv := new real[n, n]((_, _) => 0.0);
    for i := 0 to n
      invariant forall r, c :: 0 <= r < i && 0 <= c < n ==> inv[r, c] == aug[r][c + n]
    {
      for j := 0 to n
        invariant forall r, c :: 0 <= r < i && 0 <= c < n ==> inv[r, c] == aug[r][c + n]
        invariant forall c :: 0 <= c < j ==> inv[i, c] == aug[i][c + n]
      {
        inv[i, j] := aug[i][j + n];
      }
    }
    m := Matrix(Entries(inv), n, n);
    forall i | 0 <= i < n
      ensures m.matrix[i] == RightHalf(aug).matrix[i]
    {
      assert forall j :: 0 <= j < n ==> m.matrix[i][j] == RightHalf(aug).matrix[i][j];
    }
    assert m.matrix == RightHalf(aug).matrix;
  }

  // ---------------------------------------------------------------------
  // Correctness: a returned matrix is a right inverse
  // ---------------------------------------------------------------------

  /** The search ends on the first row of largest magnitude in column `col`. */
  lemma {:induction false} PivotIsFirstMaximum(aug: seq<seq<real>>, col: nat, end: nat)
    requires AugShape(aug, |aug|) && col < |aug| && col <= end <= |aug|
    ensures var p := PivotUpTo(aug, col, end);
      (forall row :: col <= row < end ==> AbsReal(aug[row][col]) <= AbsReal(aug[p][col]))
      && (forall row :: col <= row < p ==> AbsReal(aug[row][col]) < AbsReal(aug[p][col]))
  {
    if end > col {
      PivotIsFirstMaximum(aug, col, end - 1);
    }
  }

  /**
   * A pass gives up exactly when every entry of column `col` at or below
   * the diagonal is smaller than `Epsilon` in magnitude.
   */
  lemma StepRejects(aug: seq<seq<real>>, col: nat)
    requires AugShape(aug, |aug|) && col < |aug|
    ensures Step(aug, col).None? <==> forall row :: col <= row < |aug| ==> AbsReal(aug[row][col]) < Epsilon
  {
    PivotIsFirstMaximum(aug, col, |aug|);
  }

  /** A matrix whose first column is zero has no inverse. */
  lemma ZeroColumnSingular(a: Matrix)
    requires Shaped(a) && a.rows == a.cols && a.rows > 0
    requires forall i :: 0 <= i < a.rows ==> a.matrix[i][0] == 0.0
    ensures GaussJordan(a) == None
  {
    var aug := Augmented(a);
    assert forall row :: 0 <= row < a.rows ==> aug[row][0] == 0.0;
    StepRejects(aug, 0);
  }

  /** Column `j` of the augmented rows. */
  function ColumnOf(aug: seq<seq<real>>, j: nat): (v: seq<real>)
    requires AugShape(aug, |aug|) && j < 2 * |aug|
    ensures |v| == |aug|
  {
    seq(|aug|, t requires 0 <= t < |aug| => aug[t][j])
  }

  predicate SquareShape(s: seq<seq<real>>, n: nat)
  {
    |s| == n && forall r :: 0 <= r < n ==> |s[r]| == n
  }

  /** The products that `DotUpTo` adds up. */
  function Terms(u: seq<real>, v: seq<real>): (w: seq<real>)
    requires |u| == |v|
    ensures |w| == |u|
  {
    seq(|u|, t requires 0 <= t < |u| => u[t] * v[t])
  }

  function SumUpTo(w: seq<real>, k: nat): real
    requires k <= |w|
  {
    if k == 0 then 0.0 else SumUpTo(w, k - 1) + w[k - 1]
  }

  lemma {:induction false} DotUpToIsSum(u: seq<real>, v: seq<real>, k: nat)
    requires |u| == |v| && k <= |u|
    ensures DotUpTo(u, v, k) == SumUpTo(Terms(u, v), k)
  {
    if k > 0 {
      DotUpToIsSum(u, v, k - 1);
    }
  }

  /** Entry `(r, j)` of `s` times the augmented rows. */
  ghost function Combination(s: seq<seq<real>>, aug: seq<seq<real>>, r: nat, j: nat): real
    requires AugShape(aug, |aug|) && SquareShape(s, |aug|) && r < |aug| && j < 2 * |aug|
  {
    SumUpTo(Terms(s[r], ColumnOf(aug, j)), |aug|)
  }

  /**
   * `s` times the augmented rows gives back `goal`: the row operations done
   * so far are undone by the column operations recorded in `s`.
   */
  ghost predicate Recovers(s: seq<seq<real>>, aug: seq<seq<real>>, goal: seq<seq<real>>)
  {
    AugShape(aug, |aug|) && SquareShape(s, |aug|) && AugShape(goal, |aug|)
    && forall r, j :: 0 <= r < |aug| && 0 <= j < 2 * |aug| ==> Combination(s, aug, r, j) == goal[r][j]
  }

  /** The first `col` columns are those of the identity. */
  ghost predicate UnitColumns(aug: seq<seq<real>>, col: nat)
  {
    AugShape(aug, |aug|) && col <= |aug|
    && forall k, c :: 0 <= k < |aug| && 0 <= c < col ==> aug[k][c] == Kronecker(k, c)
  }

  /** A sum changes only by the summands at the (at most two) indices `c` and `p` that changed. */
  lemma {:induction false} SumUpToChange(w: seq<real>, w': seq<real>, k: nat, c: nat, p: nat)
    requires |w| == |w'| && k <= |w| && c < |w| && p < |w|
    requires forall t :: 0 <= t < |w| && t != c && t != p ==> w'[t] == w[t]
    ensures SumUpTo(w', k)
      == SumUpTo(w, k)
         + (if c < k then w'[c] - w[c] else 0.0)
         + (if p < k && p != c then w'[p] - w[p] else 0.0)
  {
    if k > 0 {
      SumUpToChange(w, w', k - 1, c, p);
    }
  }

  /** A sum is unchanged when its summands change only at `c` and `p` and keep their total there. */
  lemma SumUpToKept(w: seq<real>, w': seq<real>, c: nat, p: nat)
    requires |w| == |w'| && c < |w| && p < |w|
    requires forall t :: 0 <= t < |w| && t != c && t != p ==> w'[t] == w[t]
    requires c == p ==> w'[c] == w[c]
    requires c != p ==> w'[c] + w'[p] == w[c] + w[p]
    ensures SumUpTo(w', |w|) == SumUpTo(w, |w|)
  {
    SumUpToChange(w, w', |w|, c, p);
  }

  /** Equal factors away from `c` and `p` give equal products there. */
  lemma TermsAgree(u: seq<real>, v: seq<real>, u': seq<real>, v': seq<real>, c: nat, p: nat)
    requires |u| == |v| == |u'| == |v'| && c < |u| && p < |u|
    requires forall t :: 0 <= t < |u| && t != c && t != p ==> u'[t] == u[t] && v'[t] == v[t]
    ensures forall t :: 0 <= t < |u| && t != c && t != p ==> Terms(u', v')[t] == Terms(u, v)[t]
  {
  }

  /** Equal factors give equal products. */
  lemma TermsMatch(u: seq<real>, v: seq<real>, u': seq<real>, v': seq<real>, t: nat, t': nat)
    requires |u| == |v| && |u'| == |v'| && t < |u'| && t' < |u|
    requires u'[t] == u[t'] && v'[t] == v[t']
    ensures Terms(u', v')[t] == Terms(u, v)[t']
  {
  }

  /** The product at `t`. */
  lemma TermAt(u: seq<real>, v: seq<real>, t: nat)
    requires |u| == |v| && t < |u|
    ensures Terms(u, v)[t] == u[t] * v[t]
  {
  }

  /** The column operation that undoes `SwapRows`. */
  ghost function SwapColumns(s: seq<seq<real>>, c: nat, p: nat): (t: seq<seq<real>>)
    requires SquareShape(s, |s|) && c < |s| && p < |s|
    ensures SquareShape(t, |s|)
  {
    if p != c then seq(|s|, r requires 0 <= r < |s| => s[r][c := s[r][p]][p := s[r][c]]) else s
  }

  /** The column operation that undoes `Normalized`. */
  ghost function ScaleColumn(s: seq<seq<real>>, c: nat, x: real): (t: seq<seq<real>>)
    requires SquareShape(s, |s|) && c < |s|
    ensures SquareShape(t, |s|)
  {
    seq(|s|, r requires 0 <= r < |s| => s[r][c := s[r][c] * x])
  }

  /** The column operation that undoes one elimination of row `i`. */
  ghost function AddColumn(s: seq<seq<real>>, c: nat, i: nat, f: real): (t: seq<seq<real>>)
    requires SquareShape(s, |s|) && c < |s| && i < |s|
    ensures SquareShape(t, |s|)
  {
    seq(|s|, r requires 0 <= r < |s| => s[r][c := s[r][c] + f * s[r][i]])
  }

  /** Swapping two rows at or below `col` keeps both invariants. */
  lemma SwapKeeps(s: seq<seq<real>>, aug: seq<seq<real>>, goal: seq<seq<real>>, col: nat, p: nat)
    requires Recovers(s, aug, goal) && UnitColumns(aug, col) && col <= p < |aug|
    ensures Recovers(SwapColumns(s, col, p), SwapRows(aug, col, p), goal)
    ensures UnitColumns(SwapRows(aug, col, p), col)
  {
    var n := |aug|;
    assert AugShape(SwapRows(aug, col, p), n);
    forall r, j | 0 <= r < n && 0 <= j < 2 * n
      ensures Combination(SwapColumns(s, col, p), SwapRows(aug, col, p), r, j) == goal[r][j]
    {
      var w, w' := Terms(s[r], ColumnOf(aug, j)), Terms(SwapColumns(s, col, p)[r], ColumnOf(SwapRows(aug, col, p), j));
      SwapTerms(s, aug, col, p, r, j);
      SumUpToKept(w, w', col, p);
    }
  }

  /** The products of one entry of `SwapKeeps`: the summands at `col` and `p` trade places. */
  lemma SwapTerms(s: seq<seq<real>>, aug: seq<seq<real>>, col: nat, p: nat, r: nat, j: nat)
    requires SquareShape(s, |aug|) && AugShape(aug, |aug|) && col < |aug| && p < |aug|
    requires r < |aug| && j < 2 * |aug|
    ensures var w, w' := Terms(s[r], ColumnOf(aug, j)), Terms(SwapColumns(s, col, p)[r], ColumnOf(SwapRows(aug, col, p), j));
      (forall t :: 0 <= t < |aug| && t != col && t != p ==> w'[t] == w[t])
      && w'[col] == w[p] && w'[p] == w[col]
  {
    var u, v := s[r], ColumnOf(aug, j);
    var u', v' := SwapColumns(s, col, p)[r], ColumnOf(SwapRows(aug, col, p), j);
    assert forall t :: 0 <= t < |aug| && t != col && t != p ==> u'[t] == u[t] && v'[t] == v[t];
    TermsAgree(u, v, u', v', col, p);
    assert u'[col] == u[p] && v'[col] == v[p] && u'[p] == u[col] && v'[p] == v[col];
    TermsMatch(u, v, u', v', col, p);
    TermsMatch(u, v, u', v', p, col);
  }

  /** Dividing by `p` and multiplying back. */
  lemma DivMul(y: real, p: real)
    requires p != 0.0
    ensures (y / p) * p == y
  {
  }

  /** A product is unchanged when one factor is multiplied by `x` and the other divided by it. */
  lemma ScaleCancel(a: real, a': real, b: real, b': real, x: real)
    requires a' == a * x && b' * x == b
    ensures a' * b' == a * b
  {
    assert a' * b' == a * (x * b');
  }

  /** Dividing the pivot row, whose first `col` entries are zero, keeps both invariants. */
  lemma NormalizeKeeps(s: seq<seq<real>>, aug: seq<seq<real>>, goal: seq<seq<real>>, col: nat)
    requires Recovers(s, aug, goal) && UnitColumns(aug, col) && col < |aug| && aug[col][col] != 0.0
    ensures Recovers(ScaleColumn(s, col, aug[col][col]), Normalized(aug, col), goal)
    ensures UnitColumns(Normalized(aug, col), col)
    ensures Normalized(aug, col)[col][col] == 1.0
  {
    var n := |aug|;
    var s' := ScaleColumn(s, col, aug[col][col]);
    var aug' := Normalized(aug, col);
    forall r, j | 0 <= r < n && 0 <= j < 2 * n
      ensures Combination(s', aug', r, j) == goal[r][j]
    {
      NormalizeTerms(s, aug, col, r, j);
      SumUpToKept(Terms(s[r], ColumnOf(aug, j)), Terms(s'[r], ColumnOf(aug', j)), col, col);
    }
  }

  /** The products of one entry of `NormalizeKeeps`: only the summand at `col` is touched, and it keeps its value. */
  lemma NormalizeTerms(s: seq<seq<real>>, aug: seq<seq<real>>, col: nat, r: nat, j: nat)
    requires SquareShape(s, |aug|) && UnitColumns(aug, col) && col < |aug| && aug[col][col] != 0.0
    requires r < |aug| && j < 2 * |aug|
    ensures var w, w' := Terms(s[r], ColumnOf(aug, j)), Terms(ScaleColumn(s, col, aug[col][col])[r], ColumnOf(Normalized(aug, col), j));
      (forall t :: 0 <= t < |aug| && t != col ==> w'[t] == w[t]) && w'[col] == w[col]
  {
    var piv := aug[col][col];
    var u, v := s[r], ColumnOf(aug, j);
    var u', v' := ScaleColumn(s, col, piv)[r], ColumnOf(Normalized(aug, col), j);
    assert forall t :: 0 <= t < |aug| && t != col ==> u'[t] == u[t] && v'[t] == v[t];
    TermsAgree(u, v, u', v', col, col);
    assert u'[col] == u[col] * piv;
    if j >= col {
      assert v'[col] == v[col] / piv;
      DivMul(v[col], piv);
    } else {
      assert v[col] == aug[col][j] == Kronecker(col, j);
      assert v'[col] == v[col];
    }
    ScaledTerm(u, v, u', v', col, piv);
  }

  /** `ScaleCancel` at index `c` of two pairs of factors. */
  lemma ScaledTerm(u: seq<real>, v: seq<real>, u': seq<real>, v': seq<real>, c: nat, x: real)
    requires |u| == |v| && |u'| == |v'| && c < |u| && c < |u'|
    requires u'[c] == u[c] * x && v'[c] * x == v[c]
    ensures Terms(u', v')[c] == Terms(u, v)[c]
  {
    ScaleCancel(u[c], u'[c], v[c], v'[c], x);
    TermAt(u, v, c);
    TermAt(u', v', c);
  }

  /** Removing a multiple of the pivot row from row `i` keeps both invariants. */
  lemma EliminateOneKeeps(s: seq<seq<real>>, e: seq<seq<real>>, goal: seq<seq<real>>, col: nat, i: nat)
    requires Recovers(s, e, goal) && UnitColumns(e, col) && col < |e| && i < |e| && i != col
    requires e[col][col] == 1.0
    ensures var e' := e[i := EliminatedRow(e[i], e[col], e[i][col], col)];
      Recovers(AddColumn(s, col, i, e[i][col]), e', goal)
      && UnitColumns(e', col) && e'[i][col] == 0.0
  {
    var n := |e|;
    var f := e[i][col];
    var e' := e[i := EliminatedRow(e[i], e[col], f, col)];
    var s' := AddColumn(s, col, i, f);
    assert AugShape(e', n);
    forall r, j | 0 <= r < n && 0 <= j < 2 * n
      ensures Combination(s', e', r, j) == goal[r][j]
    {
      EliminateTerms(s, e, col, i, r, j);
      SumUpToKept(Terms(s[r], ColumnOf(e, j)), Terms(s'[r], ColumnOf(e', j)), col, i);
    }
  }

  /** The products of one entry of `EliminateOneKeeps`: the summands at `col` and `i` keep their total. */
  lemma EliminateTerms(s: seq<seq<real>>, e: seq<seq<real>>, col: nat, i: nat, r: nat, j: nat)
    requires SquareShape(s, |e|) && UnitColumns(e, col) && col < |e| && i < |e| && i != col
    requires r < |e| && j < 2 * |e|
    ensures var e' := e[i := EliminatedRow(e[i], e[col], e[i][col], col)];
      var w, w' := Terms(s[r], ColumnOf(e, j)), Terms(AddColumn(s, col, i, e[i][col])[r], ColumnOf(e', j));
      (forall t :: 0 <= t < |e| && t != col && t != i ==> w'[t] == w[t])
      && w'[col] + w'[i] == w[col] + w[i]
  {
    var f := e[i][col];
    var e' := e[i := EliminatedRow(e[i], e[col], f, col)];
    var u, v := s[r], ColumnOf(e, j);
    var u', v' := AddColumn(s, col, i, f)[r], ColumnOf(e', j);
    assert forall t :: 0 <= t < |e| && t != col && t != i ==> u'[t] == u[t] && v'[t] == v[t];
    TermsAgree(u, v, u', v', col, i);
    assert u'[col] == u[col] + f * u[i] && v'[col] == v[col] && u'[i] == u[i];
    if j >= col {
      assert v'[i] == v[i] - f * v[col];
    } else {
      assert v[col] == e[col][j] == Kronecker(col, j);
      assert v'[i] == v[i];
    }
    EliminationTermsAt(u, v, u', v', col, i, f);
  }

  /** `EliminationTerms` at indices `c` and `i` of two pairs of factors. */
  lemma EliminationTermsAt(u: seq<real>, v: seq<real>, u': seq<real>, v': seq<real>, c: nat, i: nat, f: real)
    requires |u| == |v| == |u'| == |v'| && c < |u| && i < |u|
    requires u'[c] == u[c] + f * u[i] && v'[c] == v[c] && u'[i] == u[i]
    requires v'[i] == v[i] - f * v[c] || (v[c] == 0.0 && v'[i] == v[i])
    ensures Terms(u', v')[c] + Terms(u', v')[i] == Terms(u, v)[c] + Terms(u, v)[i]
  {
    EliminationTerms(u[c], u'[c], u[i], v[c], v[i], v'[i], f);
    TermAt(u, v, c);
    TermAt(u, v, i);
    TermAt(u', v', c);
    TermAt(u', v', i);
  }

  /** The two products touched by one elimination keep their sum. */
  lemma EliminationTerms(sc: real, sc': real, si: real, vc: real, vi: real, vi': real, f: real)
    requires sc' == sc + f * si
    requires vi' == vi - f * vc || (vc == 0.0 && vi' == vi)
    ensures sc' * vc + si * vi' == sc * vc + si * vi
  {
  }

  /** Clearing column `col` in rows `0..i` keeps both invariants. */
  lemma {:induction false} EliminateKeeps(s: seq<seq<real>>, m: seq<seq<real>>, goal: seq<seq<real>>, col: nat, i: nat)
    returns (s': seq<seq<real>>)
    requires Recovers(s, m, goal) && UnitColumns(m, col) && col < |m| && i <= |m|
    requires m[col][col] == 1.0
    ensures var e := EliminateUpTo(m, col, i);
      Recovers(s', e, goal) && UnitColumns(e, col)
      && forall k :: 0 <= k < i && k != col ==> e[k][col] == 0.0
  {
    if i == 0 {
      s' := s;
    } else {
      var t := EliminateKeeps(s, m, goal, col, i - 1);
      var e := EliminateUpTo(m, col, i - 1);
      if i - 1 == col {
        s' := t;
      } else {
        EliminateOneKeeps(t, e, goal, col, i - 1);
        s' := AddColumn(t, col, i - 1, e[i - 1][col]);
      }
    }
  }

  /** One pass of the column loop that does not give up makes column `col` a unit column. */
  lemma StepKeeps(s: seq<seq<real>>, aug: seq<seq<real>>, goal: seq<seq<real>>, col: nat) returns (s': seq<seq<real>>)
    requires Recovers(s, aug, goal) && UnitColumns(aug, col) && col < |aug|
    requires Step(aug, col).Some?
    ensures Recovers(s', Step(aug, col).value, goal) && UnitColumns(Step(aug, col).value, col + 1)
  {
    var n := |aug|;
    var p := PivotUpTo(aug, col, n);
    var sw := SwapRows(aug, col, p);
    SwapKeeps(s, aug, goal, col, p);
    var t := SwapColumns(s, col, p);
    assert sw[col][col] == aug[p][col];
    NormalizeKeeps(t, sw, goal, col);
    var m := Normalized(sw, col);
    s' := EliminateKeeps(ScaleColumn(t, col, sw[col][col]), m, goal, col, n);
    var e := EliminateUpTo(m, col, n);
    assert e == Step(aug, col).value;
    forall k, c | 0 <= k < n && 0 <= c < col + 1
      ensures e[k][c] == Kronecker(k, c)
    {
      if c == col && k == col {
        assert e[col] == m[col];
      }
    }
  }

  /** The whole column loop, when it does not give up, leaves `[I | R]`. */
  lemma {:induction false} ReduceKeeps(s: seq<seq<real>>, aug: seq<seq<real>>, goal: seq<seq<real>>, col: nat)
    returns (s': seq<seq<real>>)
    requires Recovers(s, aug, goal) && UnitColumns(aug, col) && col <= |aug|
    requires Reduce(aug, col).Some?
    ensures Recovers(s', Reduce(aug, col).value, goal) && UnitColumns(Reduce(aug, col).value, |aug|)
    decreases |aug| - col
  {
    if col == |aug| {
      s' := s;
    } else {
      var t := StepKeeps(s, aug, goal, col);
      s' := ReduceKeeps(t, Step(aug, col).value, goal, col + 1);
    }
  }

  /** A sum against a unit vector picks out one term. */
  lemma {:induction false} DotKronecker(u: seq<real>, v: seq<real>, j: nat, k: nat)
    requires |u| == |v| && j < |u| && k <= |u|
    requires forall t :: 0 <= t < |v| ==> v[t] == Kronecker(t, j)
    ensures DotUpTo(u, v, k) == if j < k then u[j] else 0.0
  {
    if k > 0 {
      DotKronecker(u, v, j, k - 1);
    }
  }

  /** A unit vector against a sum picks out one term. */
  lemma {:induction false} KroneckerDot(u: seq<real>, v: seq<real>, r: nat, k: nat)
    requires |u| == |v| && r < |u| && k <= |u|
    requires forall t :: 0 <= t < |u| ==> u[t] == Kronecker(r, t)
    ensures DotUpTo(u, v, k) == if r < k then v[r] else 0.0
  {
    if k > 0 {
      KroneckerDot(u, v, r, k - 1);
    }
  }

  /** Once the left half is the identity, `s` is the left half of `goal`. */
  lemma RecoveredEntry(s: seq<seq<real>>, fin: seq<seq<real>>, goal: seq<seq<real>>, r: nat, j: nat)
    requires Recovers(s, fin, goal) && UnitColumns(fin, |fin|) && r < |fin| && j < |fin|
    ensures s[r][j] == goal[r][j]
  {
    var v := ColumnOf(fin, j);
    assert forall t :: 0 <= t < |v| ==> v[t] == fin[t][j] == Kronecker(t, j);
    DotKronecker(s[r], v, j, |fin|);
    DotUpToIsSum(s[r], v, |fin|);
  }

  /** At the start the identity undoes nothing: `I * [A | I] = [A | I]`. */
  lemma InitiallyRecovers(a: Matrix)
    requires Shaped(a) && a.rows == a.cols
    ensures Recovers(IdentityMatrix(a.rows).matrix, Augmented(a), Augmented(a))
    ensures UnitColumns(Augmented(a), 0)
  {
    var n := a.rows;
    var goal := Augmented(a);
    var id := IdentityMatrix(n).matrix;
    forall r, j | 0 <= r < n && 0 <= j < 2 * n
      ensures Combination(id, goal, r, j) == goal[r][j]
    {
      KroneckerDot(id[r], ColumnOf(goal, j), r, n);
      DotUpToIsSum(id[r], ColumnOf(goal, j), n);
    }
  }

  /**
   * At the end `s * [I | R] = [A | I]`: the left halves say `s = A`, the
   * right halves then say `A * R = I`.
   */
  lemma FinallyInverse(a: Matrix, s: seq<seq<real>>, fin: seq<seq<real>>)
    requires Shaped(a) && a.rows == a.cols
    requires Recovers(s, fin, Augmented(a)) && UnitColumns(fin, |fin|)
    ensures MatrixProduct(a, RightHalf(fin)) == IdentityMatrix(a.rows)
  {
    var n := a.rows;
    var goal := Augmented(a);
    forall r, j | 0 <= r < n && 0 <= j < n
      ensures s[r][j] == a.matrix[r][j]
    {
      RecoveredEntry(s, fin, goal, r, j);
    }
    assert forall r :: 0 <= r < n ==> s[r] == a.matrix[r];
    var inv := RightHalf(fin);
    var prod := MatrixProduct(a, inv);
    forall r, j | 0 <= r < n && 0 <= j < n
      ensures prod.matrix[r][j] == Kronecker(r, j)
    {
      assert Column(inv, j) == ColumnOf(fin, j + n);
      DotUpToIsSum(s[r], ColumnOf(fin, j + n), n);
      assert Combination(s, fin, r, j + n) == goal[r][j + n];
    }
    assert forall r :: 0 <= r < n ==> prod.matrix[r] == IdentityMatrix(n).matrix[r];
  }

  /**
   * Over exact arithmetic, a matrix `inverse` returns is a right inverse:
   * `A * R` is the identity.
   */
  lemma InverseIsRightInverse(a: Matrix)
    requires Shaped(a) && a.rows == a.cols
    ensures GaussJordan(a).Some? ==> MatrixProduct(a, GaussJordan(a).value) == IdentityMatrix(a.rows)
  {
    var goal := Augmented(a);
    if Reduce(goal, 0).Some? {
      InitiallyRecovers(a);
      var s := ReduceKeeps(IdentityMatrix(a.rows).matrix, goal, goal, 0);
      FinallyInverse(a, s, Reduce(goal, 0).value);
    }
  }

  /** With a zero row `i`, entry `(i, i)` of `A * R` is 0, so `A * R` is not the identity. */
  lemma ZeroRowProduct(a: Matrix, r: Matrix, i: nat)
    requires Shaped(a) && Shaped(r) && a.rows == a.cols && a.cols == r.rows && r.cols == a.rows && i < a.rows
    requires forall k :: 0 <= k < a.cols ==> a.matrix[i][k] == 0.0
    ensures MatrixProduct(a, r).matrix[i][i] == 0.0
    ensures MatrixProduct(a, r) != IdentityMatrix(a.rows)
  {
    DotUpToSymmetric(a.matrix[i], Column(r, i), a.cols);
    DotZero(Column(r, i), a.matrix[i], a.cols);
    assert IdentityMatrix(a.rows).matrix[i][i] == 1.0;
  }

  /**
   * A matrix with a zero row has no inverse: row `i` of `A * R` would be
   * zero, but row `i` of the identity is not.
   */
  lemma ZeroRowSingular(a: Matrix, i: nat)
    requires Shaped(a) && a.rows == a.cols && i < a.rows
    requires forall k :: 0 <= k < a.cols ==> a.matrix[i][k] == 0.0
    ensures GaussJordan(a) == None
  {
    InverseIsRightInverse(a);
    if GaussJordan(a).Some? {
      ZeroRowProduct(a, GaussJordan(a).value, i);
    }
  }
}
