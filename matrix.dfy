/**
 * The naive matrix product of spec/fixtures/05.js.
 *
 * A matrix is an array of rows, each row an array of integer entries.
 * `MatrixMultiply` fills a freshly allocated result row by row with three
 * nested loops; `Product` is the value it is proved to compute, and the
 * lemmas at the end relate `Product` to the usual matrix algebra.
 */
module Matrix {

  /** `a` has `rows` rows, each with exactly `cols` entries. */
  predicate IsMatrix(a: seq<seq<int>>, rows: nat, cols: nat) {
    |a| == rows && forall i :: 0 <= i < rows ==> |a[i]| == cols
  }

  /**
   * Everything the loops of matrixMultiply read exists.  The row count of
   * `a` bounds the outer loop; only when it runs is `b[0]` read; only when
   * `b[0]` has entries does the innermost loop run over the first `|a[0]|`
   * columns of every row of `a` and the first `|a[0]|` rows of `b`,
   * reading columns below `|b[0]|`.
   */
  predicate Conformable(a: seq<seq<int>>, b: seq<seq<int>>) {
    |a| > 0 ==>
      |b| > 0 &&
      (|b[0]| > 0 ==>
         |a[0]| <= |b| &&
         (forall i :: 0 <= i < |a| ==> |a[0]| <= |a[i]|) &&
         (forall k :: 0 <= k < |a[0]| ==> |b[0]| <= |b[k]|))
  }

  /** The sum of `row[k] * b[k][j]` over `0 <= k < n`, accumulated left to right. */
  function Dot(row: seq<int>, b: seq<seq<int>>, j: nat, n: nat): (sum: int)
    requires n <= |row| && n <= |b|
    requires forall k :: 0 <= k < n ==> j < |b[k]|
  {
    if n == 0 then 0 else Dot(row, b, j, n - 1) + row[n - 1] * b[n - 1][j]
  }

  /**
   * The matrix matrixMultiply returns: `|a|` rows of `|b[0]|` entries,
   * entry `(i, j)` summing over the first `|a[0]|` columns of row `i`.
   */
  function Product(a: seq<seq<int>>, b: seq<seq<int>>): (c: seq<seq<int>>)
    requires Conformable(a, b)
  {
    seq(|a|, i requires 0 <= i < |a| =>
      seq(|b[0]|, j requires 0 <= j < |b[0]| => Dot(a[i], b, j, |a[0]|)))
  }

  /** The rows of a matrix held in arrays, as values. */
  ghost function Rows(m: array<array<int>>): (r: seq<seq<int>>)
    reads m, m[..]
    ensures |r| == m.Length
    ensures forall i :: 0 <= i < m.Length ==> r[i] == m[i][..]
  {
    seq(m.Length, i requires 0 <= i < m.Length reads m, m[..] => m[i][..])
  }

  /**
   * matrixMultiply(A, B): allocates `result`, then fills one fresh row per
   * row of `A`.  The inputs are values, so they are only read; the result
   * and each of its rows are new objects, no two rows the same array.
   * After iteration `i` rows `0..i` hold their final values.
   */
  method MatrixMultiply(A: seq<seq<int>>, B: seq<seq<int>>) returns (result: array<array<int>>)
    requires Conformable(A, B)
    ensures result.Length == |A|
    ensures forall i :: 0 <= i < |A| ==> result[i].Length == |B[0]|
    ensures fresh(result)
    ensures forall i :: 0 <= i < result.Length ==> fresh(result[i])
    ensures forall i, i' :: 0 <= i < i' < result.Length ==> result[i] != result[i']
    ensures Rows(result) == Product(A, B)
  {
    var empty := new int[0];
    result := new array<int>[|A|](_ => empty);
    for i := 0 to |A|
      invariant forall r :: 0 <= r < i ==> fresh(result[r])
      invariant forall r, r' :: 0 <= r < r' < i ==> result[r] != result[r']
      invariant forall r :: 0 <= r < i ==> result[r][..] == Product(A, B)[r]
    {
      result[i] := ProductRow(A, B, i);
    }
    assert Rows(result) == Product(A, B);
  }

  /**
   * The body of the outer loop of matrixMultiply for row `i`: a fresh row
   * of `B[0].length` entries, each set to 0 and then accumulated with
   * `A[i][k] * B[k][j]` for `k < A[0].length`.
   */
  method ProductRow(A: seq<seq<int>>, B: seq<seq<int>>, i: nat) returns (row: array<int>)
    requires Conformable(A, B) && i < |A|
    ensures fresh(row)
    ensures row[..] == Product(A, B)[i]
  {
    row := new int[|B[0]|];
    for j := 0 to |B[0]|
      invariant forall c :: 0 <= c < j ==> row[c] == Dot(A[i], B, c, |A[0]|)
    {
      row[j] := 0;
      for k := 0 to |A[0]|
        invariant forall c :: 0 <= c < j ==> row[c] == Dot(A[i], B, c, |A[0]|)
        invariant row[j] == Dot(A[i], B, j, k)
      {
        row[j] := row[j] + A[i][k] * B[k][j];
      }
    }
  }

  /**
   * The sample call: `[[1, 2], [3, 4]]` times `[[5, 6], [7, 8]]`.  The
   * logging of the result is left out; the returned matrix is the value.
   */
  method Sample() returns (result: array<array<int>>)
    ensures Rows(result) == [[19, 22], [43, 50]]
  {
    result := MatrixMultiply([[1, 2], [3, 4]], [[5, 6], [7, 8]]);
    SampleProduct();
  }

  /** The value of the sample call. */
  lemma SampleProduct()
    ensures Product([[1, 2], [3, 4]], [[5, 6], [7, 8]]) == [[19, 22], [43, 50]]
  {
    var a, b := [[1, 2], [3, 4]], [[5, 6], [7, 8]];
    var p := Product(a, b);
    assert p[0][0] == Dot(a[0], b, 0, 2) == 19;
    assert p[0][1] == Dot(a[0], b, 1, 2) == 22;
    assert p[1][0] == Dot(a[1], b, 0, 2) == 43;
    assert p[1][1] == Dot(a[1], b, 1, 2) == 50;
    assert p[0] == [19, 22] && p[1] == [43, 50];
  }

  /** With no rows in `A` nothing of `B` is read: any `B` will do, and the product is empty. */
  lemma ProductOfEmpty(b: seq<seq<int>>)
    ensures Conformable([], b) && Product([], b) == []
  {
  }

  /** `a` with every row cut to the length of its first row. */
  function Truncated(a: seq<seq<int>>): (t: seq<seq<int>>)
    requires forall i :: 0 <= i < |a| ==> |a[0]| <= |a[i]|
  {
    seq(|a|, i requires 0 <= i < |a| => a[i][..|a[0]|])
  }

  lemma {:induction false} DotPrefix(row: seq<int>, b: seq<seq<int>>, j: nat, n: nat, len: nat)
    requires n <= len <= |row| && n <= |b|
    requires forall k :: 0 <= k < n ==> j < |b[k]|
    ensures Dot(row, b, j, n) == Dot(row[..len], b, j, n)
  {
    if n > 0 {
      DotPrefix(row, b, j, n - 1, len);
    }
  }

  /**
   * The inner loop is bounded by the length of `A[0]`, so entries of a
   * longer row `A[i]` past that length never contribute.
   */
  lemma ProductUsesLeadingColumns(a: seq<seq<int>>, b: seq<seq<int>>)
    requires Conformable(a, b)
    requires forall i :: 0 <= i < |a| ==> |a[0]| <= |a[i]|
    ensures |a| > 0 ==> IsMatrix(Truncated(a), |a|, |a[0]|)
    ensures Conformable(Truncated(a), b)
    ensures Product(Truncated(a), b) == Product(a, b)
  {
    var t := Truncated(a);
    if |a| > 0 {
      assert |t[0]| == |a[0]|;
      forall i, j | 0 <= i < |a| && 0 <= j < |b[0]|
        ensures Product(t, b)[i][j] == Product(a, b)[i][j]
      {
        DotPrefix(a[i], b, j, |a[0]|, |a[0]|);
      }
    }
    assert forall i :: 0 <= i < |a| ==> Product(t, b)[i] == Product(a, b)[i];
  }

  /** The `n` by `n` identity matrix. */
  function Identity(n: nat): (id: seq<seq<int>>) {
    seq(n, i => seq(n, j => if i == j then 1 else 0))
  }

  lemma {:induction false} DotUnitColumn(row: seq<int>, b: seq<seq<int>>, j: nat, n: nat)
    requires n <= |row| && n <= |b|
    requires forall k :: 0 <= k < n ==> j < |b[k]| && b[k][j] == (if k == j then 1 else 0)
    ensures Dot(row, b, j, n) == if j < n then row[j] else 0
  {
    if n > 0 {
      DotUnitColumn(row, b, j, n - 1);
    }
  }

  lemma {:induction false} DotUnitRow(row: seq<int>, b: seq<seq<int>>, j: nat, n: nat, p: nat)
    requires n <= |row| && n <= |b|
    requires forall k :: 0 <= k < n ==> j < |b[k]| && row[k] == (if k == p then 1 else 0)
    ensures Dot(row, b, j, n) == if p < n then b[p][j] else 0
  {
    if n > 0 {
      DotUnitRow(row, b, j, n - 1, p);
    }
  }

  /** Multiplying by the identity on the right gives back the matrix. */
  lemma {:induction false} RightIdentity(m: seq<seq<int>>, rows: nat, cols: nat)
    requires IsMatrix(m, rows, cols) && (rows == 0 || cols > 0)
    ensures Conformable(m, Identity(cols)) && Product(m, Identity(cols)) == m
  {
    var id := Identity(cols);
    forall i, j | 0 <= i < rows && 0 <= j < cols ensures Product(m, id)[i][j] == m[i][j] {
      DotUnitColumn(m[i], id, j, cols);
    }
    assert forall i :: 0 <= i < rows ==> Product(m, id)[i] == m[i];
  }

  /** Multiplying by the identity on the left gives back the matrix. */
  lemma {:induction false} LeftIdentity(m: seq<seq<int>>, rows: nat, cols: nat)
    requires IsMatrix(m, rows, cols)
    ensures Conformable(Identity(rows), m) && Product(Identity(rows), m) == m
  {
    var id := Identity(rows);
    forall i, j | 0 <= i < rows && 0 <= j < cols ensures Product(id, m)[i][j] == m[i][j] {
      DotUnitRow(id[i], m, j, rows, i);
    }
    assert forall i :: 0 <= i < rows ==> Product(id, m)[i] == m[i];
  }

  lemma {:induction false} DotZero(w: seq<int>, c: seq<seq<int>>, j: nat, p: nat)
    requires p <= |w| && p <= |c|
    requires forall k :: 0 <= k < p ==> j < |c[k]| && w[k] == 0
    ensures Dot(w, c, j, p) == 0
  {
    if p > 0 {
      DotZero(w, c, j, p - 1);
    }
  }

  /** `Dot` is linear in the row: `w = u + s * v` pointwise gives the same combination of sums. */
  lemma {:induction false} DotLinear(w: seq<int>, u: seq<int>, s: int, v: seq<int>, c: seq<seq<int>>, j: nat, p: nat)
    requires p <= |w| && p <= |u| && p <= |v| && p <= |c|
    requires forall k :: 0 <= k < p ==> j < |c[k]| && w[k] == u[k] + s * v[k]
    ensures Dot(w, c, j, p) == Dot(u, c, j, p) + s * Dot(v, c, j, p)
  {
    if p > 0 {
      DotLinear(w, u, s, v, c, j, p - 1);
      var x := c[p - 1][j];
      calc {
        w[p - 1] * x;
        (u[p - 1] + s * v[p - 1]) * x;
        u[p - 1] * x + s * (v[p - 1] * x);
      }
    }
  }

  /**
   * Entry `j` of (row `x` times `b`) times `c` equals `x` times column `j`
   * of `bc`, when `w` is the row `x` times `b` and column `j` of `bc` is
   * `b` times column `j` of `c`.
   */
  lemma {:induction false} DotRegroup(x: seq<int>, b: seq<seq<int>>, c: seq<seq<int>>, bc: seq<seq<int>>,
                                      w: seq<int>, j: nat, n: nat, p: nat)
    requires n <= |x| && n <= |b| && n <= |bc| && p <= |c| && p <= |w|
    requires forall k :: 0 <= k < p ==> j < |c[k]|
    requires forall l :: 0 <= l < n ==> p <= |b[l]| && j < |bc[l]| && bc[l][j] == Dot(b[l], c, j, p)
    requires forall k :: 0 <= k < p ==> w[k] == Dot(x, b, k, n)
    ensures Dot(w, c, j, p) == Dot(x, bc, j, n)
    decreases n
  {
    if n == 0 {
      DotZero(w, c, j, p);
    } else {
      var u := seq(p, k requires 0 <= k < p => Dot(x, b, k, n - 1));
      DotRegroup(x, b, c, bc, u, j, n - 1, p);
      DotLinear(w, u, x[n - 1], b[n - 1], c, j, p);
    }
  }

  /** The product is associative on rectangular matrices of matching shapes. */
  lemma {:induction false} Associativity(a: seq<seq<int>>, b: seq<seq<int>>, c: seq<seq<int>>, m: nat, n: nat, p: nat, q: nat)
    requires IsMatrix(a, m, n) && IsMatrix(b, n, p) && IsMatrix(c, p, q) && 0 < n && 0 < p
    ensures Conformable(a, b) && Conformable(b, c)
    ensures Conformable(Product(a, b), c) && Conformable(a, Product(b, c))
    ensures Product(Product(a, b), c) == Product(a, Product(b, c))
  {
    var ab, bc := Product(a, b), Product(b, c);
    assert IsMatrix(ab, m, p) && IsMatrix(bc, n, q);
    forall i, j | 0 <= i < m && 0 <= j < q ensures Product(ab, c)[i][j] == Product(a, bc)[i][j] {
      DotRegroup(a[i], b, c, bc, ab[i], j, n, p);
    }
    assert forall i :: 0 <= i < m ==> Product(ab, c)[i] == Product(a, bc)[i];
  }
}
