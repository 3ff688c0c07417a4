/**
 * `Matrix<ROWS, COLS>` of `src/geometry.rs` over exact reals: `new`,
 * `identity`, `trunspose` and the triple-loop product, which fill a local
 * matrix in nested loops, and the conversions between column matrices and
 * vectors.
 */
module Matrices {
  import opened Common
  import opened Geometry

  /**
   * `Matrix<ROWS, COLS>`: the entries and the two dimension fields.  The
   * const parameters become the fields `rows` and `cols`.
   */
  datatype Matrix = Matrix(matrix: seq<seq<real>>, rows: nat, cols: nat)

  /** The entries are `rows` rows of `cols` numbers, as the array type guarantees. */
  predicate Shaped(m: Matrix)
  {
    |m.matrix| == m.rows && forall i :: 0 <= i < |m.matrix| ==> |m.matrix[i]| == m.cols
  }

  /** The entries of a local two-dimensional array, row by row. */
  function Entries(a: array2<real>): seq<seq<real>>
    reads a
  {
    seq(a.Length0, i requires 0 <= i < a.Length0 reads a =>
      seq(a.Length1, j requires 0 <= j < a.Length1 reads a => a[i, j]))
  }

  /** `Matrix::new`: a matrix of zeros. */
  function New(rows: nat, cols: nat): (m: Matrix)
    ensures Shaped(m) && m.rows == rows && m.cols == cols
    ensures forall i, j :: 0 <= i < rows && 0 <= j < cols ==> m.matrix[i][j] == 0.0
  {
    Matrix(seq(rows, _ => seq(cols, _ => 0.0)), rows, cols)
  }

  /** The entries of the identity: 1 on the diagonal, 0 elsewhere. */
  function Kronecker(i: int, j: int): real
  {
    if i == j then 1.0 else 0.0
  }

  /** The `n`-by-`n` identity matrix. */
  function IdentityMatrix(n: nat): Matrix
  {
    Matrix(seq(n, i => seq(n, j => Kronecker(i, j))), n, n)
  }

  /** `Matrix::<N, N>::identity`: sets every entry of a new matrix in a double loop. */
  method Identity(n: nat) returns (r: Matrix)
    ensures Shaped(r) && r.rows == n && r.cols == n
    ensures forall i, j :: 0 <= i < n && 0 <= j < n ==> r.matrix[i][j] == if i == j then 1.0 else 0.0
    ensures r == IdentityMatrix(n)
  {
    var m := new real[n, n]((_, _) => 0.0);
    for i := 0 to n
      invariant forall r, c :: 0 <= r < i && 0 <= c < n ==> m[r, c] == Kronecker(r, c)
    {
      for j := 0 to n
        invariant forall r, c :: 0 <= r < i && 0 <= c < n ==> m[r, c] == Kronecker(r, c)
        invariant forall c :: 0 <= c < j ==> m[i, c] == Kronecker(i, c)
      {
        m[i, j] := if i == j then 1.0 else 0.0;
      }
    }
    r := Matrix(Entries(m), n, n);
    assert forall i :: 0 <= i < n ==> r.matrix[i] == IdentityMatrix(n).matrix[i];
  }

  // ---------------------------------------------------------------------
  // trunspose
  // ---------------------------------------------------------------------

  /**
   * What `trunspose` computes: a `COLS`-by-`ROWS` matrix whose column `i`
   * repeats the diagonal entry `self[i][i]`.  Reading `self[i][i]` with
   * `i >= COLS` panics, which happens when `0 < COLS < ROWS`.
   */
  function Trunsposed(a: Matrix): Outcome<Matrix>
    requires Shaped(a)
  {
    if 0 < a.cols < a.rows then Panic
    else Ok(Matrix(seq(a.cols, j requires 0 <= j < a.cols =>
                     seq(a.rows, i requires 0 <= i < a.rows => a.matrix[i][i])),
                   a.cols, a.rows))
  }

  /** `Matrix::trunspose`: the double loop `m[j][i] = self[i][i]`. */
  method Trunspose(a: Matrix) returns (r: Outcome<Matrix>)
    requires Shaped(a)
    ensures r.Panic? <==> 0 < a.cols < a.rows
    ensures r.Ok? ==> (Shaped(r.value) && r.value.rows == a.cols && r.value.cols == a.rows
      && forall j, i :: 0 <= j < a.cols && 0 <= i < a.rows ==> r.value.matrix[j][i] == a.matrix[i][i])
    ensures r == Trunsposed(a)
  {
    var m := new real[a.cols, a.rows]((_, _) => 0.0);
    for i := 0 to a.rows
      invariant a.cols > 0 ==> i <= a.cols
      invariant forall c, k :: 0 <= c < a.cols && 0 <= k < i ==> m[c, k] == a.matrix[k][k]
    {
      for j := 0 to a.cols
        invariant j > 0 ==> i < a.cols
        invariant forall c, k :: 0 <= c < a.cols && 0 <= k < i ==> m[c, k] == a.matrix[k][k]
        invariant forall c :: 0 <= c < j ==> m[c, i] == a.matrix[i][i]
      {
        if i >= a.cols {
          return Panic;
        }
        m[j, i] := a.matrix[i][i];
      }
    }
    r := Ok(Matrix(Entries(m), a.cols, a.rows));
    forall j | 0 <= j < a.cols
      ensures r.value.matrix[j] == Trunsposed(a).value.matrix[j]
    {
      assert forall i :: 0 <= i < a.rows ==> r.value.matrix[j][i] == a.matrix[i][i];
    }
    assert r.value.matrix == Trunsposed(a).value.matrix;
  }

  /** The transpose: entry `(j, i)` is entry `(i, j)` of the argument. */
  function Transposed(a: Matrix): (t: Matrix)
    requires Shaped(a)
    ensures Shaped(t) && t.rows == a.cols && t.cols == a.rows
  {
    Matrix(seq(a.cols, j requires 0 <= j < a.cols => seq(a.rows, i requires 0 <= i < a.rows => a.matrix[i][j])),
           a.cols, a.rows)
  }

  /** Transposing twice gives the matrix back. */
  lemma TransposeTwice(a: Matrix)
    requires Shaped(a)
    ensures Transposed(Transposed(a)) == a
  {
    var t := Transposed(Transposed(a));
    assert forall i :: 0 <= i < a.rows ==> t.matrix[i] == a.matrix[i];
  }

  /** `trunspose` is not the transpose: on `[[1, 2], [3, 4]]` it gives `[[1, 4], [1, 4]]`. */
  lemma TrunsposeIsNotTranspose()
    ensures var a := Matrix([[1.0, 2.0], [3.0, 4.0]], 2, 2);
      Shaped(a) && Trunsposed(a) == Ok(Matrix([[1.0, 4.0], [1.0, 4.0]], 2, 2))
      && Transposed(a) == Matrix([[1.0, 3.0], [2.0, 4.0]], 2, 2)
  {
    var a := Matrix([[1.0, 2.0], [3.0, 4.0]], 2, 2);
    var tr, t := Trunsposed(a).value.matrix, Transposed(a).matrix;
    assert tr[0] == [1.0, 4.0] && tr[1] == [1.0, 4.0];
    assert tr == [[1.0, 4.0], [1.0, 4.0]];
    assert t[0] == [1.0, 3.0] && t[1] == [2.0, 4.0];
  }

  // ---------------------------------------------------------------------
  // The product
  // ---------------------------------------------------------------------

  /** Column `j` of a matrix. */
  function Column(b: Matrix, j: nat): seq<real>
    requires Shaped(b) && j < b.cols
  {
    seq(b.rows, k requires 0 <= k < b.rows => b.matrix[k][j])
  }

  /** `Σ_k a[i][k] * b[k][j]`, accumulated from zero in order of `k`. */
  function ProductEntry(a: Matrix, b: Matrix, i: nat, j: nat): real
    requires Shaped(a) && Shaped(b) && a.cols == b.rows && i < a.rows && j < b.cols
  {
    DotUpTo(a.matrix[i], Column(b, j), a.cols)
  }

  /**
   * What `mul` computes.  Its result type is `Matrix<COLS, N>`, so row `i`
   * of the product is written to a matrix with `COLS` rows: for `i >= COLS`
   * that write panics, and rows `ROWS..COLS` keep their zeros.
   */
  function Product(a: Matrix, b: Matrix): Outcome<Matrix>
    requires Shaped(a) && Shaped(b) && a.cols == b.rows
  {
    if b.cols > 0 && a.rows > a.cols then Panic
    else Ok(Matrix(seq(a.cols, i requires 0 <= i < a.cols => seq(b.cols, j requires 0 <= j < b.cols =>
                     if i < a.rows then ProductEntry(a, b, i, j) else 0.0)),
                   a.cols, b.cols))
  }

  /** `impl Mul for Matrix`: the triple loop `m[i][j] += self[i][k] * other[k][j]`. */
  method Mul(a: Matrix, b: Matrix) returns (r: Outcome<Matrix>)
    requires Shaped(a) && Shaped(b) && a.cols == b.rows
    ensures r == Product(a, b)
  {
    var m := new real[a.cols, b.cols]((_, _) => 0.0);
    for i := 0 to a.rows
      invariant b.cols > 0 ==> i <= a.cols
      invariant forall r, c :: 0 <= r < a.cols && 0 <= c < b.cols ==> m[r, c] == ProductCell(a, b, i, 0, r, c)
    {
      for j := 0 to b.cols
        invariant j > 0 ==> i < a.cols
        invariant forall r, c :: 0 <= r < a.cols && 0 <= c < b.cols ==> m[r, c] == ProductCell(a, b, i, j, r, c)
      {
        if i >= a.cols {
          return Panic;
        }
        AccumulateEntry(a, b, m, i, j);
      }
    }
    r := Ok(Matrix(Entries(m), a.cols, b.cols));
    forall i | 0 <= i < a.cols
      ensures r.value.matrix[i] == Product(a, b).value.matrix[i]
    {
      assert forall j :: 0 <= j < b.cols ==> r.value.matrix[i][j] == Product(a, b).value.matrix[i][j];
    }
    assert r.value.matrix == Product(a, b).value.matrix;
  }

  /**
   * Entry `(r, c)` of the local matrix of `mul` once the rows before `i`,
   * and the entries of row `i` before `j`, are done.
   */
  function ProductCell(a: Matrix, b: Matrix, i: nat, j: nat, r: nat, c: nat): real
    requires Shaped(a) && Shaped(b) && a.cols == b.rows && c < b.cols
  {
    if (r < i || (r == i && c < j)) && r < a.rows then ProductEntry(a, b, r, c) else 0.0
  }

  /** The innermost loop of `mul`: `m[i][j] = 0`, then add `self[i][k] * other[k][j]` for each `k`. */
  method AccumulateEntry(a: Matrix, b: Matrix, m: array2<real>, i: nat, j: nat)
    requires Shaped(a) && Shaped(b) && a.cols == b.rows && i < a.rows && j < b.cols
    requires m.Length0 == a.cols && m.Length1 == b.cols && i < a.cols
    modifies m
    ensures m[i, j] == ProductEntry(a, b, i, j)
    ensures forall r, c :: 0 <= r < m.Length0 && 0 <= c < m.Length1 && (r != i || c != j) ==> m[r, c] == old(m[r, c])
  {
    m[i, j] := 0.0;
    for k := 0 to a.cols
      invariant m[i, j] == DotUpTo(a.matrix[i], Column(b, j), k)
      invariant forall r, c :: 0 <= r < m.Length0 && 0 <= c < m.Length1 && (r != i || c != j) ==> m[r, c] == old(m[r, c])
    {
      m[i, j] := m[i, j] + a.matrix[i][k] * b.matrix[k][j];
    }
  }

  /** The product a `ROWS`-by-`N` result would hold: row `i` times column `j`. */
  function MatrixProduct(a: Matrix, b: Matrix): (p: Matrix)
    requires Shaped(a) && Shaped(b) && a.cols == b.rows
    ensures Shaped(p) && p.rows == a.rows && p.cols == b.cols
  {
    Matrix(seq(a.rows, i requires 0 <= i < a.rows => seq(b.cols, j requires 0 <= j < b.cols => ProductEntry(a, b, i, j))),
           a.rows, b.cols)
  }

  /** For square left factors `mul` computes the true product. */
  lemma SquareProduct(a: Matrix, b: Matrix)
    requires Shaped(a) && Shaped(b) && a.cols == b.rows && a.rows == a.cols
    ensures Product(a, b) == Ok(MatrixProduct(a, b))
  {
    forall i | 0 <= i < a.rows
      ensures Product(a, b).value.matrix[i] == MatrixProduct(a, b).matrix[i]
    {
      assert forall j :: 0 <= j < b.cols ==> Product(a, b).value.matrix[i][j] == MatrixProduct(a, b).matrix[i][j];
    }
    assert Product(a, b).value.matrix == MatrixProduct(a, b).matrix;
  }

  /**
   * A column times a row: `mul` panics on `Matrix<4, 1> * Matrix<1, 4>`,
   * whose true product is the 4-by-4 outer product.
   */
  lemma OuterProductPanics(a: Matrix, b: Matrix)
    requires Shaped(a) && Shaped(b) && a.rows == 4 && a.cols == 1 && b.rows == 1 && b.cols == 4
    ensures Product(a, b) == Panic
    ensures var p := MatrixProduct(a, b);
      p.rows == 4 && p.cols == 4
      && forall i, j :: 0 <= i < 4 && 0 <= j < 4 ==> p.matrix[i][j] == a.matrix[i][0] * b.matrix[0][j]
  {
    forall i, j | 0 <= i < 4 && 0 <= j < 4
      ensures MatrixProduct(a, b).matrix[i][j] == a.matrix[i][0] * b.matrix[0][j]
    {
      assert DotUpTo(a.matrix[i], Column(b, j), 0) == 0.0;
    }
  }

  /** A sum against a column of the identity picks out one term. */
  lemma {:induction false} DotUnit(row: seq<real>, n: nat, j: nat, k: nat)
    requires k <= |row| && n == |row| && j < n
    ensures DotUpTo(row, Column(IdentityMatrix(n), j), k) == if j < k then row[j] else 0.0
  {
    if k > 0 {
      DotUnit(row, n, j, k - 1);
    }
  }

  /** A sum against a row of the identity picks out one term. */
  lemma {:induction false} UnitDot(b: Matrix, i: nat, j: nat, k: nat)
    requires Shaped(b) && i < b.rows && j < b.cols && k <= b.rows
    ensures DotUpTo(IdentityMatrix(b.rows).matrix[i], Column(b, j), k) == if i < k then b.matrix[i][j] else 0.0
  {
    if k > 0 {
      UnitDot(b, i, j, k - 1);
    }
  }

  /** The identity is neutral on both sides of the product. */
  lemma IdentityNeutral(a: Matrix)
    requires Shaped(a)
    ensures MatrixProduct(a, IdentityMatrix(a.cols)) == a
    ensures MatrixProduct(IdentityMatrix(a.rows), a) == a
  {
    var right := MatrixProduct(a, IdentityMatrix(a.cols));
    forall i, j | 0 <= i < a.rows && 0 <= j < a.cols
      ensures right.matrix[i][j] == a.matrix[i][j]
    {
      DotUnit(a.matrix[i], a.cols, j, a.cols);
    }
    assert forall i :: 0 <= i < a.rows ==> right.matrix[i] == a.matrix[i];
    var left := MatrixProduct(IdentityMatrix(a.rows), a);
    forall i, j | 0 <= i < a.rows && 0 <= j < a.cols
      ensures left.matrix[i][j] == a.matrix[i][j]
    {
      UnitDot(a, i, j, a.rows);
    }
    assert forall i :: 0 <= i < a.rows ==> left.matrix[i] == a.matrix[i];
  }

  /** All entries up to `n` of `z` are zero: the sum against it is zero. */
  lemma {:induction false} DotZero(u: seq<real>, z: seq<real>, n: nat)
    requires n <= |u| && n <= |z| && forall k :: 0 <= k < n ==> z[k] == 0.0
    ensures DotUpTo(u, z, n) == 0.0
  {
    if n > 0 {
      DotZero(u, z, n - 1);
    }
  }

  /** A sum against `v + t * w`, entry by entry, splits into two sums. */
  lemma {:induction false} DotSplit(u: seq<real>, v: seq<real>, w: seq<real>, z: seq<real>, t: real, n: nat)
    requires n <= |u| && n <= |v| && n <= |w| && n <= |z|
    requires forall k :: 0 <= k < n ==> z[k] == v[k] + w[k] * t
    ensures DotUpTo(u, z, n) == DotUpTo(u, v, n) + DotUpTo(u, w, n) * t
  {
    if n > 0 {
      DotSplit(u, v, w, z, t, n - 1);
      assert u[n - 1] * z[n - 1] == u[n - 1] * v[n - 1] + (u[n - 1] * w[n - 1]) * t;
    }
  }

  /** Row `k` of `b` times column `j` of `c`, summed over the first `l` terms. */
  function PartialColumn(b: Matrix, c: Matrix, j: nat, l: nat): (w: seq<real>)
    requires Shaped(b) && Shaped(c) && b.cols == c.rows && j < c.cols && l <= c.rows
    ensures |w| == b.rows
  {
    seq(b.rows, k requires 0 <= k < b.rows => DotUpTo(b.matrix[k], Column(c, j), l))
  }

  /**
   * Row `ab` of `a * b`, from row `u` of `a`, against the first `l` entries
   * of column `j` of `c` is `u` against the same partial sums of `b * c`.
   */
  lemma {:induction false} AssociativeUpTo(u: seq<real>, ab: seq<real>, b: Matrix, c: Matrix, j: nat, l: nat)
    requires Shaped(b) && Shaped(c) && b.cols == c.rows && j < c.cols && l <= c.rows
    requires |u| == b.rows && |ab| == b.cols
    requires forall m :: 0 <= m < |ab| ==> ab[m] == DotUpTo(u, Column(b, m), |u|)
    ensures DotUpTo(ab, Column(c, j), l) == DotUpTo(u, PartialColumn(b, c, j, l), |u|)
  {
    if l == 0 {
      DotZero(u, PartialColumn(b, c, j, 0), |u|);
    } else {
      AssociativeUpTo(u, ab, b, c, j, l - 1);
      AssociativeStep(u, ab, b, c, j, l);
    }
  }

  /** The induction step of `AssociativeUpTo`: one more column of `a * b`. */
  lemma AssociativeStep(u: seq<real>, ab: seq<real>, b: Matrix, c: Matrix, j: nat, l: nat)
    requires Shaped(b) && Shaped(c) && b.cols == c.rows && j < c.cols && 0 < l <= c.rows
    requires |u| == b.rows && |ab| == b.cols
    requires ab[l - 1] == DotUpTo(u, Column(b, l - 1), |u|)
    requires DotUpTo(ab, Column(c, j), l - 1) == DotUpTo(u, PartialColumn(b, c, j, l - 1), |u|)
    ensures DotUpTo(ab, Column(c, j), l) == DotUpTo(u, PartialColumn(b, c, j, l), |u|)
  {
    var t := c.matrix[l - 1][j];
    assert Column(c, j)[l - 1] == t;
    PartialColumnStep(b, c, j, l);
    DotSplit(u, PartialColumn(b, c, j, l - 1), Column(b, l - 1), PartialColumn(b, c, j, l), t, |u|);
  }

  /** One more term in every partial sum of `b * c`. */
  lemma PartialColumnStep(b: Matrix, c: Matrix, j: nat, l: nat)
    requires Shaped(b) && Shaped(c) && b.cols == c.rows && j < c.cols && 0 < l <= c.rows
    ensures forall k :: 0 <= k < b.rows ==>
      PartialColumn(b, c, j, l)[k] == PartialColumn(b, c, j, l - 1)[k] + Column(b, l - 1)[k] * c.matrix[l - 1][j]
  {
    forall k | 0 <= k < b.rows
      ensures PartialColumn(b, c, j, l)[k] == PartialColumn(b, c, j, l - 1)[k] + Column(b, l - 1)[k] * c.matrix[l - 1][j]
    {
      assert Column(c, j)[l - 1] == c.matrix[l - 1][j];
      assert Column(b, l - 1)[k] == b.matrix[k][l - 1];
    }
  }

  /** The product is associative. */
  lemma Associative(a: Matrix, b: Matrix, c: Matrix)
    requires Shaped(a) && Shaped(b) && Shaped(c) && a.cols == b.rows && b.cols == c.rows
    ensures MatrixProduct(MatrixProduct(a, b), c) == MatrixProduct(a, MatrixProduct(b, c))
  {
    var left, right := MatrixProduct(MatrixProduct(a, b), c), MatrixProduct(a, MatrixProduct(b, c));
    forall i | 0 <= i < a.rows
      ensures left.matrix[i] == right.matrix[i]
    {
      forall j | 0 <= j < c.cols
        ensures left.matrix[i][j] == right.matrix[i][j]
      {
        AssociativeUpTo(a.matrix[i], MatrixProduct(a, b).matrix[i], b, c, j, c.rows);
        assert Column(MatrixProduct(b, c), j) == PartialColumn(b, c, j, c.rows);
      }
    }
  }

  /** For square factors `mul` is associative: `(a * b) * c == a * (b * c)`. */
  lemma SquareMulAssociative(a: Matrix, b: Matrix, c: Matrix)
    requires Shaped(a) && Shaped(b) && Shaped(c)
    requires a.rows == a.cols == b.rows == b.cols == c.rows
    ensures Product(a, b).Ok? && Product(b, c).Ok?
    ensures Product(Product(a, b).value, c) == Product(a, Product(b, c).value)
  {
    SquareProduct(a, b);
    SquareProduct(b, c);
    SquareProduct(MatrixProduct(a, b), c);
    SquareProduct(a, MatrixProduct(b, c));
    Associative(a, b, c);
  }

  // ---------------------------------------------------------------------
  // Conversions between column matrices and vectors
  // ---------------------------------------------------------------------

  /** A column matrix: `Matrix<N, 1>`. */
  predicate IsColumn(m: Matrix)
  {
    Shaped(m) && m.cols == 1
  }

  /**
   * What `Vector::<N, f32>::from` computes: the first `N - 1` entries of
   * the column divided by the last one, and a last element left at 0.
   * For `N = 0` the bound `N - 1` underflows and panics; for `N = 1` nothing
   * is divided, so the last entry may be zero.
   */
  function Dehomogenized(m: Matrix): Outcome<Vector>
    requires IsColumn(m) && (m.rows > 1 ==> m.matrix[m.rows - 1][0] != 0.0)
  {
    if m.rows == 0 then Panic
    else Ok(Vector(seq(m.rows, i requires 0 <= i < m.rows =>
                     if i < m.rows - 1 then m.matrix[i][0] / m.matrix[m.rows - 1][0] else 0.0)))
  }

  /** `Vector::<N, f32>::from(Matrix<N, 1>)`: fills a zeroed array in a loop. */
  method VectorFrom(m: Matrix) returns (r: Outcome<Vector>)
    requires IsColumn(m) && (m.rows > 1 ==> m.matrix[m.rows - 1][0] != 0.0)
    ensures r.Panic? <==> m.rows == 0
    ensures r.Ok? ==> (|r.value.vec| == m.rows && r.value.vec[m.rows - 1] == 0.0
      && forall i :: 0 <= i < m.rows - 1 ==> r.value.vec[i] == m.matrix[i][0] / m.matrix[m.rows - 1][0])
    ensures r == Dehomogenized(m)
  {
    if m.rows == 0 {
      return Panic;
    }
    var n := m.rows;
    var v := new real[n](_ => 0.0);
    for i := 0 to n - 1
      invariant forall k :: 0 <= k < i ==> v[k] == m.matrix[k][0] / m.matrix[n - 1][0]
      invariant forall k :: i <= k < n ==> v[k] == 0.0
    {
      v[i] := m.matrix[i][0] / m.matrix[n - 1][0];
    }
    r := Ok(Vector(v[..]));
    assert r.value.vec == Dehomogenized(m).value.vec;
  }

  /** For `N = 1` nothing is divided: the vector is `[0]`, whatever the entry, zero or not. */
  lemma SingleRowFrom(m: Matrix)
    requires IsColumn(m) && m.rows == 1
    ensures Dehomogenized(m) == Ok(Vector([0.0]))
  {
    assert Dehomogenized(m).value.vec == [0.0];
  }

  /** Every entry multiplied by `k`. */
  function ScaledMatrix(m: Matrix, k: real): (s: Matrix)
    requires Shaped(m)
    ensures Shaped(s) && s.rows == m.rows && s.cols == m.cols
  {
    Matrix(seq(m.rows, i requires 0 <= i < m.rows =>
             seq(m.cols, j requires 0 <= j < m.cols => m.matrix[i][j] * k)), m.rows, m.cols)
  }

  /** Homogeneous coordinates: scaling the column by a non-zero factor changes nothing. */
  lemma DehomogenizedScaleFree(m: Matrix, k: real)
    requires IsColumn(m) && m.rows > 0 && m.matrix[m.rows - 1][0] != 0.0 && k != 0.0
    ensures var s := ScaledMatrix(m, k);
      IsColumn(s) && s.matrix[s.rows - 1][0] != 0.0 && Dehomogenized(s) == Dehomogenized(m)
  {
    var s := ScaledMatrix(m, k);
    var w := m.matrix[m.rows - 1][0];
    assert s.matrix[m.rows - 1][0] == w * k != 0.0;
    forall i | 0 <= i < m.rows - 1
      ensures s.matrix[i][0] / s.matrix[m.rows - 1][0] == m.matrix[i][0] / w
    {
      assert s.matrix[i][0] == m.matrix[i][0] * k;
      QuotientScaleFree(m.matrix[i][0], w, k);
    }
    assert Dehomogenized(s).value.vec == Dehomogenized(m).value.vec;
  }

  /** `(x * k) / (w * k) == x / w` for non-zero `w` and `k`. */
  lemma QuotientScaleFree(x: real, w: real, k: real)
    requires w != 0.0 && k != 0.0
    ensures (x * k) / (w * k) == x / w
  {
    var q := x / w;
    assert q * w == x;
    assert (q * (w * k)) == x * k;
  }

  /** `Vector3D::<f32>::from(Matrix<4, 1>)`: rows 0, 1 and 2 divided by row 3. */
  function Vector3DFrom(m: Matrix): Vector3D
    requires IsColumn(m) && m.rows == 4 && m.matrix[3][0] != 0.0
  {
    Vector3D(m.matrix[0][0] / m.matrix[3][0], m.matrix[1][0] / m.matrix[3][0], m.matrix[2][0] / m.matrix[3][0])
  }

  /** `Matrix::<4, 1>::from(Vector3D<f32>)` as written: rows `x`, `y`, `x`, `1`. */
  function Matrix41From(v: Vector3D): (m: Matrix)
    ensures IsColumn(m) && m.rows == 4 && m.matrix[3][0] == 1.0
  {
    Matrix([[v.x], [v.y], [v.x], [1.0]], 4, 1)
  }

  /** The homogeneous column `x`, `y`, `z`, `1`, which the conversion evidently means. */
  function Homogeneous(v: Vector3D): (m: Matrix)
    ensures IsColumn(m) && m.rows == 4 && m.matrix[3][0] == 1.0
  {
    Matrix([[v.x], [v.y], [v.z], [1.0]], 4, 1)
  }

  /** Converting to a column and back loses `z`: it comes back as `x`. */
  lemma Matrix41RoundTrip(v: Vector3D)
    ensures Vector3DFrom(Matrix41From(v)) == Vector3D(v.x, v.y, v.x)
    ensures v.z != v.x ==> Vector3DFrom(Matrix41From(v)) != v
  {
  }

  /** With the homogeneous column the round trip gives the vector back, scaled or not. */
  lemma HomogeneousRoundTrip(v: Vector3D, k: real)
    requires k != 0.0
    ensures Vector3DFrom(Homogeneous(v)) == v
    ensures var s := ScaledMatrix(Homogeneous(v), k);
      IsColumn(s) && s.rows == 4 && s.matrix[3][0] != 0.0 && Vector3DFrom(s) == v
  {
    var s := ScaledMatrix(Homogeneous(v), k);
    assert s.matrix[3][0] == k;
    QuotientScaleFree(v.x, 1.0, k);
    QuotientScaleFree(v.y, 1.0, k);
    QuotientScaleFree(v.z, 1.0, k);
  }
}
