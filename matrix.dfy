/**
 * matrix.c: dense matrices of doubles and resizable vectors. The model keeps
 * the shapes exactly and takes an entry as an exact real: element arithmetic
 * is the real counterpart of the double operation, without rounding.
 * Gaussian elimination (the body of the determinant and of the inverse) is
 * not modelled; its outcome is a parameter.
 */
module Matrices {
  import opened Wrappers

  /** The entries of a matrix, row by row. */
  type Grid = seq<seq<real>>

  /** g has the given number of rows, each of the given length. */
  ghost predicate Rect(g: Grid, rows: nat, cols: nat)
  {
    |g| == rows && forall i :: 0 <= i < rows ==> |g[i]| == cols
  }

  /** The transpose: row j of the result is column j of g. */
  ghost function Transposed(g: Grid, rows: nat, cols: nat): (t: Grid)
    requires Rect(g, rows, cols)
    ensures Rect(t, cols, rows)
  {
    seq(cols, j requires 0 <= j < cols => seq(rows, i requires 0 <= i < rows => g[i][j]))
  }

  /** The entry-wise sum of two grids of one shape. */
  ghost function Sum(g: Grid, h: Grid, rows: nat, cols: nat): (s: Grid)
    requires Rect(g, rows, cols) && Rect(h, rows, cols)
    ensures Rect(s, rows, cols)
  {
    seq(rows, i requires 0 <= i < rows => seq(cols, j requires 0 <= j < cols => g[i][j] + h[i][j]))
  }

  /** The entry-wise difference of two grids of one shape. */
  ghost function Difference(g: Grid, h: Grid, rows: nat, cols: nat): (s: Grid)
    requires Rect(g, rows, cols) && Rect(h, rows, cols)
    ensures Rect(s, rows, cols)
  {
    seq(rows, i requires 0 <= i < rows => seq(cols, j requires 0 <= j < cols => g[i][j] - h[i][j]))
  }

  /** The running sum over k < n of g[i][k] * h[k][j], accumulated from k = 0 up. */
  ghost function Dot(g: Grid, h: Grid, rows: nat, inner: nat, cols: nat, i: nat, j: nat, n: nat): real
    requires Rect(g, rows, inner) && Rect(h, inner, cols)
    requires i < rows && j < cols && n <= inner
  {
    if n == 0 then 0.0 else Dot(g, h, rows, inner, cols, i, j, n - 1) + g[i][n - 1] * h[n - 1][j]
  }

  /** The matrix product of a rows×inner grid and an inner×cols grid. */
  ghost function Product(g: Grid, h: Grid, rows: nat, inner: nat, cols: nat): (p: Grid)
    requires Rect(g, rows, inner) && Rect(h, inner, cols)
    ensures Rect(p, rows, cols)
  {
    seq(rows, i requires 0 <= i < rows =>
      seq(cols, j requires 0 <= j < cols => Dot(g, h, rows, inner, cols, i, j, inner)))
  }

  /** Transposing twice gives back the original. */
  lemma TransposeTwice(g: Grid, rows: nat, cols: nat)
    requires Rect(g, rows, cols)
    ensures Transposed(Transposed(g, rows, cols), cols, rows) == g
  {
    var t := Transposed(Transposed(g, rows, cols), cols, rows);
    forall i | 0 <= i < rows
      ensures t[i] == g[i]
    {
      assert forall j :: 0 <= j < cols ==> t[i][j] == g[i][j];
    }
  }

  /** Sums are taken entry by entry, so they commute with transposition. */
  lemma TransposeSum(g: Grid, h: Grid, rows: nat, cols: nat)
    requires Rect(g, rows, cols) && Rect(h, rows, cols)
    ensures Transposed(Sum(g, h, rows, cols), rows, cols) ==
            Sum(Transposed(g, rows, cols), Transposed(h, rows, cols), cols, rows)
  {
    var l := Transposed(Sum(g, h, rows, cols), rows, cols);
    var r := Sum(Transposed(g, rows, cols), Transposed(h, rows, cols), cols, rows);
    forall j | 0 <= j < cols
      ensures l[j] == r[j]
    {
      assert forall i :: 0 <= i < rows ==> l[j][i] == r[j][i];
    }
  }

  lemma {:induction false} DotTransposed(g: Grid, h: Grid, rows: nat, inner: nat, cols: nat, i: nat, j: nat, n: nat)
    requires Rect(g, rows, inner) && Rect(h, inner, cols)
    requires i < rows && j < cols && n <= inner
    ensures Dot(Transposed(h, inner, cols), Transposed(g, rows, inner), cols, inner, rows, j, i, n) ==
            Dot(g, h, rows, inner, cols, i, j, n)
  {
    if n > 0 {
      DotTransposed(g, h, rows, inner, cols, i, j, n - 1);
    }
  }

  /**
   * The transpose of a product is the product of the transposes in the
   * other order; the sums are accumulated over k in the same order.
   */
  lemma TransposeProduct(g: Grid, h: Grid, rows: nat, inner: nat, cols: nat)
    requires Rect(g, rows, inner) && Rect(h, inner, cols)
    ensures Transposed(Product(g, h, rows, inner, cols), rows, cols) ==
            Product(Transposed(h, inner, cols), Transposed(g, rows, inner), cols, inner, rows)
  {
    var l := Transposed(Product(g, h, rows, inner, cols), rows, cols);
    var r := Product(Transposed(h, inner, cols), Transposed(g, rows, inner), cols, inner, rows);
    forall j | 0 <= j < cols
      ensures l[j] == r[j]
    {
      forall i | 0 <= i < rows
        ensures l[j][i] == r[j][i]
      {
        DotTransposed(g, h, rows, inner, cols, i, j, inner);
      }
    }
  }

  /**
   * The struct matrix: rows × cols doubles. The separately allocated rows
   * of double ** are one two-dimensional array here.
   */
  class Matrix {
    var rows: int
    var cols: int
    var data: array2<real>

    ghost predicate Valid()
      reads this
    {
      rows > 0 && cols > 0 && data.Length0 == rows && data.Length1 == cols
    }

    /** The entries, row by row. */
    ghost function Entries(): (g: Grid)
      requires Valid()
      reads this, data
      ensures Rect(g, rows, cols)
    {
      GridOf(data)
    }

    /** create_matrix for positive dimensions: the entries are not initialised. */
    constructor (rows: int, cols: int)
      requires rows > 0 && cols > 0
      ensures Valid() && fresh(data)
      ensures this.rows == rows && this.cols == cols
    {
      this.rows := rows;
      this.cols := cols;
      data := new real[rows, cols];
    }

    /** A matrix over an array whose entries are already written. */
    constructor Wrap(data: array2<real>)
      requires data.Length0 > 0 && data.Length1 > 0
      ensures Valid() && this.data == data
      ensures rows == data.Length0 && cols == data.Length1
    {
      rows := data.Length0;
      cols := data.Length1;
      this.data := data;
    }

    /**
     * matrix_add: NULL for a NULL or differently shaped operand, otherwise
     * a new matrix of the entry-wise sums.
     */
    method Add(other: Matrix?) returns (r: Matrix?)
      requires Valid() && (other != null ==> other.Valid())
      ensures r == null <==> other == null || other.rows != rows || other.cols != cols
      ensures r != null ==> fresh(r) && fresh(r.data) && r.Valid() && r.rows == rows && r.cols == cols
      ensures r != null ==> r.Entries() == Sum(Entries(), other.Entries(), rows, cols)
    {
      if other == null || rows != other.rows || cols != other.cols {
        return null;
      }
      var a := new real[rows, cols];
      for i := 0 to rows
        invariant forall i', j :: 0 <= i' < i && 0 <= j < cols ==> a[i', j] == data[i', j] + other.data[i', j]
      {
        for j := 0 to cols
          invariant forall i', j' :: 0 <= i' < i && 0 <= j' < cols ==> a[i', j'] == data[i', j'] + other.data[i', j']
          invariant forall j' :: 0 <= j' < j ==> a[i, j'] == data[i, j'] + other.data[i, j']
        {
          a[i, j] := data[i, j] + other.data[i, j];
        }
      }
      r := new Matrix.Wrap(a);
      SameEntries(r, Sum(Entries(), other.Entries(), rows, cols));
    }

    /**
     * matrix_subtract: NULL for a NULL or differently shaped operand,
     * otherwise a new matrix of the entry-wise differences.
     */
    method Subtract(other: Matrix?) returns (r: Matrix?)
      requires Valid() && (other != null ==> other.Valid())
      ensures r == null <==> other == null || other.rows != rows || other.cols != cols
      ensures r != null ==> fresh(r) && fresh(r.data) && r.Valid() && r.rows == rows && r.cols == cols
      ensures r != null ==> r.Entries() == Difference(Entries(), other.Entries(), rows, cols)
    {
      if other == null || rows != other.rows || cols != other.cols {
        return null;
      }
      var a := new real[rows, cols];
      for i := 0 to rows
        invariant forall i', j :: 0 <= i' < i && 0 <= j < cols ==> a[i', j] == data[i', j] - other.data[i', j]
      {
        for j := 0 to cols
          invariant forall i', j' :: 0 <= i' < i && 0 <= j' < cols ==> a[i', j'] == data[i', j'] - other.data[i', j']
          invariant forall j' :: 0 <= j' < j ==> a[i, j'] == data[i, j'] - other.data[i, j']
        {
          a[i, j] := data[i, j] - other.data[i, j];
        }
      }
      r := new Matrix.Wrap(a);
      SameEntries(r, Difference(Entries(), other.Entries(), rows, cols));
    }

    /**
     * matrix_multiply: NULL for a NULL operand or unless cols equals the
     * other's rows; otherwise a new rows × other.cols matrix of the products.
     */
    method Multiply(other: Matrix?) returns (r: Matrix?)
      requires Valid() && (other != null ==> other.Valid())
      ensures r == null <==> other == null || cols != other.rows
      ensures r != null ==> fresh(r) && fresh(r.data) && r.Valid() && r.rows == rows && r.cols == other.cols
      ensures r != null ==> r.Entries() == Product(Entries(), other.Entries(), rows, cols, other.cols)
    {
      if other == null || cols != other.rows {
        return null;
      }
      var x, y := data, other.data;
      ghost var want := Product(GridOf(x), GridOf(y), rows, cols, other.cols);
      var a := new real[rows, other.cols];
      for i := 0 to rows
        invariant forall i', j :: 0 <= i' < i && 0 <= j < other.cols ==> a[i', j] == want[i'][j]
      {
        for j := 0 to other.cols
          invariant forall i', j' :: 0 <= i' < i && 0 <= j' < other.cols ==> a[i', j'] == want[i'][j']
          invariant forall j' :: 0 <= j' < j ==> a[i, j'] == want[i][j']
        {
          a[i, j] := RowTimesColumn(x, y, i, j);
        }
      }
      r := new Matrix.Wrap(a);
      SameEntries(r, want);
    }

    /**
     * matrix_determinant, shape part: a non-square matrix sets the error
     * flag and yields 0; a square one clears the flag and yields what the
     * elimination computes, given here as elimination.
     */
    method Determinant(elimination: real) returns (det: real, error: int)
      requires Valid()
      ensures error == 1 <==> rows != cols
      ensures error == 0 <==> rows == cols
      ensures rows != cols ==> det == 0.0
      ensures rows == cols ==> det == elimination
    {
      if rows != cols {
        return 0.0, 1;
      }
      det, error := elimination, 0;
    }

    /**
     * matrix_transpose: a new cols × rows matrix whose entry (j, i) is
     * entry (i, j) of this one.
     */
    method Transpose() returns (r: Matrix)
      requires Valid()
      ensures fresh(r) && fresh(r.data) && r.Valid() && r.rows == cols && r.cols == rows
      ensures r.Entries() == Transposed(Entries(), rows, cols)
    {
      var a := new real[cols, rows];
      for i := 0 to rows
        invariant forall i', j :: 0 <= i' < i && 0 <= j < cols ==> a[j, i'] == data[i', j]
      {
        for j := 0 to cols
          invariant forall i', j' :: 0 <= i' < i && 0 <= j' < cols ==> a[j', i'] == data[i', j']
          invariant forall j' :: 0 <= j' < j ==> a[j', i] == data[i, j']
        {
          a[j, i] := data[i, j];
        }
      }
      r := new Matrix.Wrap(a);
      SameEntries(r, Transposed(Entries(), rows, cols));
    }

    /**
     * matrix_inverse, shape part: NULL for a non-square matrix and for one
     * the elimination finds singular (elimination is None); otherwise a new
     * square matrix holding what the elimination computes.
     */
    method Inverse(elimination: Option<Grid>) returns (r: Matrix?)
      requires Valid()
      requires elimination.Some? ==> Rect(elimination.value, rows, rows)
      ensures r == null <==> rows != cols || elimination.None?
      ensures r != null ==> fresh(r) && fresh(r.data) && r.Valid() && r.rows == rows && r.cols == rows
      ensures r != null ==> r.Entries() == elimination.value
    {
      if rows != cols || elimination.None? {
        return null;
      }
      var n := rows;
      var e := elimination.value;
      var a := new real[n, n];
      for i := 0 to n
        invariant forall i', j :: 0 <= i' < i && 0 <= j < n ==> a[i', j] == e[i'][j]
      {
        for j := 0 to n
          invariant forall i', j' :: 0 <= i' < i && 0 <= j' < n ==> a[i', j'] == e[i'][j']
          invariant forall j' :: 0 <= j' < j ==> a[i, j'] == e[i][j']
        {
          a[i, j] := e[i][j];
        }
      }
      r := new Matrix.Wrap(a);
      SameEntries(r, e);
    }

    /**
     * matrix_resize to positive dimensions: entries in the overlap keep their
     * values, rows beyond the old count are zero-filled, and the columns an
     * existing row gains are left uninitialised.
     */
    method Resize(newRows: int, newCols: int)
      requires Valid() && newRows > 0 && newCols > 0
      modifies this
      ensures Valid() && fresh(data) && rows == newRows && cols == newCols
      ensures forall i, j :: 0 <= i < old(rows) && 0 <= i < newRows && 0 <= j < old(cols) && 0 <= j < newCols ==>
                Entries()[i][j] == old(Entries())[i][j]
      ensures forall i, j :: old(rows) <= i < newRows && 0 <= j < newCols ==> Entries()[i][j] == 0.0
    {
      ghost var g := Entries();
      var src, oldRows := data, rows;
      var kept := if cols < newCols then cols else newCols;
      var grown := new real[newRows, newCols];
      for i := 0 to newRows
        invariant forall i', j :: 0 <= i' < i && i' < oldRows && 0 <= j < kept ==> grown[i', j] == g[i'][j]
        invariant forall i', j :: oldRows <= i' < i && 0 <= j < newCols ==> grown[i', j] == 0.0
      {
        if i < oldRows {
          for j := 0 to kept
            invariant forall i', j' :: 0 <= i' < i && 0 <= j' < kept ==> grown[i', j'] == g[i'][j']
            invariant forall j' :: 0 <= j' < j ==> grown[i, j'] == g[i][j']
          {
            grown[i, j] := src[i, j];
          }
        } else {
          for j := 0 to newCols
            invariant forall i', j' :: 0 <= i' < i && i' < oldRows && 0 <= j' < kept ==> grown[i', j'] == g[i'][j']
            invariant forall i', j' :: oldRows <= i' < i && 0 <= j' < newCols ==> grown[i', j'] == 0.0
            invariant forall j' :: 0 <= j' < j ==> grown[i, j'] == 0.0
          {
            grown[i, j] := 0.0;
          }
        }
      }
      data := grown;
      rows := newRows;
      cols := newCols;
    }

    /** matrix_copy: a new matrix of the same shape and entries. */
    method Copy() returns (r: Matrix)
      requires Valid()
      ensures fresh(r) && fresh(r.data) && r.Valid() && r.rows == rows && r.cols == cols
      ensures r.Entries() == Entries()
    {
      var a := new real[rows, cols];
      for i := 0 to rows
        invariant forall i', j :: 0 <= i' < i && 0 <= j < cols ==> a[i', j] == data[i', j]
      {
        for j := 0 to cols
          invariant forall i', j' :: 0 <= i' < i && 0 <= j' < cols ==> a[i', j'] == data[i', j']
          invariant forall j' :: 0 <= j' < j ==> a[i, j'] == data[i, j']
        {
          a[i, j] := data[i, j];
        }
      }
      r := new Matrix.Wrap(a);
      SameEntries(r, Entries());
    }
  }

  /** The cells of a two-dimensional array, row by row. */
  ghost function GridOf(a: array2<real>): (g: Grid)
    reads a
    ensures Rect(g, a.Length0, a.Length1)
    ensures forall i, j :: 0 <= i < a.Length0 && 0 <= j < a.Length1 ==> g[i][j] == a[i, j]
  {
    seq(a.Length0, i requires 0 <= i < a.Length0 reads a =>
      seq(a.Length1, j requires 0 <= j < a.Length1 reads a => a[i, j]))
  }

  /**
   * The innermost loop of matrix_multiply: row i of x times column j of y,
   * accumulated from k = 0 up.
   */
  method RowTimesColumn(x: array2<real>, y: array2<real>, i: int, j: int) returns (acc: real)
    requires x.Length1 == y.Length0
    requires 0 <= i < x.Length0 && 0 <= j < y.Length1
    ensures acc == Product(GridOf(x), GridOf(y), x.Length0, x.Length1, y.Length1)[i][j]
  {
    ghost var g := GridOf(x);
    ghost var h := GridOf(y);
    acc := 0.0;
    for k := 0 to x.Length1
      invariant acc == Dot(g, h, x.Length0, x.Length1, y.Length1, i, j, k)
    {
      acc := acc + x[i, k] * y[k, j];
    }
    ProductAt(g, h, x.Length0, x.Length1, y.Length1);
  }


  /** Entry (i, j) of a product is the full running sum for row i and column j. */
  lemma ProductAt(g: Grid, h: Grid, rows: nat, inner: nat, cols: nat)
    requires Rect(g, rows, inner) && Rect(h, inner, cols)
    ensures forall i, j :: 0 <= i < rows && 0 <= j < cols ==>
              Product(g, h, rows, inner, cols)[i][j] == Dot(g, h, rows, inner, cols, i, j, inner)
  {
  }

  /** A matrix whose every entry agrees with g has g as its entries. */
  lemma SameEntries(m: Matrix, g: Grid)
    requires m.Valid() && Rect(g, m.rows, m.cols)
    requires forall i, j :: 0 <= i < m.rows && 0 <= j < m.cols ==> m.data[i, j] == g[i][j]
    ensures m.Entries() == g
  {
    var e := m.Entries();
    forall i | 0 <= i < m.rows
      ensures e[i] == g[i]
    {
      assert forall j :: 0 <= j < m.cols ==> e[i][j] == g[i][j];
    }
  }

  /** create_matrix: NULL unless both dimensions are positive. */
  method CreateMatrix(rows: int, cols: int) returns (m: Matrix?)
    ensures m == null <==> rows <= 0 || cols <= 0
    ensures m != null ==> fresh(m) && fresh(m.data) && m.Valid() && m.rows == rows && m.cols == cols
  {
    if rows <= 0 || cols <= 0 {
      return null;
    }
    m := new Matrix(rows, cols);
  }

  /** s cut or zero-extended to length n. */
  function Resized(s: seq<real>, n: nat): (r: seq<real>)
    ensures |r| == n
    ensures forall i :: 0 <= i < n ==> r[i] == if i < |s| then s[i] else 0.0
  {
    if n <= |s| then s[..n] else s + seq(n - |s|, _ => 0.0)
  }

  /** Growing and then shrinking back to the old length gives the old entries. */
  lemma GrowThenShrink(s: seq<real>, n: nat)
    requires |s| <= n
    ensures Resized(Resized(s, n), |s|) == s
  {
  }

  /** Resizing twice is resizing once when the middle length is not the shortest. */
  lemma ResizeTwice(s: seq<real>, n: nat, m: nat)
    requires m <= n
    ensures Resized(Resized(s, n), m) == Resized(s, m)
  {
  }

  /** The struct vector: size doubles. */
  class Vector {
    var size: int
    var data: array<real>

    ghost predicate Valid()
      reads this
    {
      size >= 0 && data.Length == size
    }

    /** create_vector for a non-negative size: every entry is zero. */
    constructor (size: int)
      requires size >= 0
      ensures Valid() && fresh(data) && this.size == size
      ensures data[..] == seq(size, _ => 0.0)
    {
      this.size := size;
      data := new real[size](_ => 0.0);
    }

    /**
     * vector_resize: a negative size is refused and leaves the vector as it
     * was; otherwise the first min(old, new) entries are kept and any growth
     * is zero-filled.
     */
    method Resize(newSize: int)
      requires Valid()
      modifies this
      ensures Valid()
      ensures newSize < 0 ==> size == old(size) && data == old(data)
      ensures newSize >= 0 ==> size == newSize && data[..] == Resized(old(data[..]), newSize)
    {
      if newSize < 0 {
        return;
      }
      var src := data;
      var grown := new real[newSize];
      var kept := if size < newSize then size else newSize;
      for i := 0 to kept
        invariant forall j :: 0 <= j < i ==> grown[j] == src[j]
      {
        grown[i] := src[i];
      }
      for i := kept to newSize
        invariant forall j :: 0 <= j < kept ==> grown[j] == src[j]
        invariant forall j :: kept <= j < i ==> grown[j] == 0.0
      {
        grown[i] := 0.0;
      }
      data := grown;
      size := newSize;
    }
  }

  /** create_vector: NULL for a negative size, otherwise a zero vector. */
  method CreateVector(size: int) returns (v: Vector?)
    ensures v == null <==> size < 0
    ensures v != null ==> fresh(v) && fresh(v.data) && v.Valid() && v.size == size
    ensures v != null ==> forall i :: 0 <= i < size ==> v.data[i] == 0.0
  {
    if size < 0 {
      return null;
    }
    v := new Vector(size);
  }
}
