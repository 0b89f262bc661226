/** Fixed-size matrices of integers (Matrix/matrix.hpp): an N×M matrix is a
    sequence of N rows of M entries.  The dimensions are template parameters
    in the original; here they are the `rows` and `cols` arguments of
    `Shaped`.  The square specialisation repeats the general operations and
    adds Trace. */
module Matrix {

  type Grid = seq<seq<int>>

  predicate Shaped(a: Grid, rows: nat, cols: nat) {
    |a| == rows && forall i :: 0 <= i < rows ==> |a[i]| == cols
  }

  /** Matrix(element): every cell holds `element`; the default constructor
      is Filled(rows, cols, 0), T() being 0 for integers. */
  function Filled(rows: nat, cols: nat, element: int): (r: Grid)
    ensures Shaped(r, rows, cols)
    ensures forall i, j :: 0 <= i < rows && 0 <= j < cols ==> r[i][j] == element
  {
    seq(rows, _ => seq(cols, _ => element))
  }

  /** `+=`: elementwise sum. */
  function Add(a: Grid, b: Grid, rows: nat, cols: nat): (r: Grid)
    requires Shaped(a, rows, cols) && Shaped(b, rows, cols)
    ensures Shaped(r, rows, cols)
    ensures forall i, j :: 0 <= i < rows && 0 <= j < cols ==> r[i][j] == a[i][j] + b[i][j]
  {
    seq(rows, i requires 0 <= i < rows => seq(cols, j requires 0 <= j < cols => a[i][j] + b[i][j]))
  }

  /** `-=`: elementwise difference. */
  function Sub(a: Grid, b: Grid, rows: nat, cols: nat): (r: Grid)
    requires Shaped(a, rows, cols) && Shaped(b, rows, cols)
    ensures Shaped(r, rows, cols)
    ensures forall i, j :: 0 <= i < rows && 0 <= j < cols ==> r[i][j] == a[i][j] - b[i][j]
  {
    seq(rows, i requires 0 <= i < rows => seq(cols, j requires 0 <= j < cols => a[i][j] - b[i][j]))
  }

  /** Scalar `*=`: every entry multiplied. */
  function Scale(a: Grid, rows: nat, cols: nat, factor: int): (r: Grid)
    requires Shaped(a, rows, cols)
    ensures Shaped(r, rows, cols)
    ensures forall i, j :: 0 <= i < rows && 0 <= j < cols ==> r[i][j] == a[i][j] * factor
  {
    seq(rows, i requires 0 <= i < rows => seq(cols, j requires 0 <= j < cols => a[i][j] * factor))
  }

  /** Transposed(): an M×N matrix with entry (j, i) taken from (i, j). */
  function Transposed(a: Grid, rows: nat, cols: nat): (r: Grid)
    requires Shaped(a, rows, cols)
    ensures Shaped(r, cols, rows)
    ensures forall i, j :: 0 <= i < rows && 0 <= j < cols ==> r[j][i] == a[i][j]
  {
    seq(cols, j requires 0 <= j < cols => seq(rows, i requires 0 <= i < rows => a[i][j]))
  }

  /** operator== compares the underlying vectors: same entries everywhere. */
  lemma EqualIffEntries(a: Grid, b: Grid, rows: nat, cols: nat)
    requires Shaped(a, rows, cols) && Shaped(b, rows, cols)
    ensures a == b <==> forall i, j :: 0 <= i < rows && 0 <= j < cols ==> a[i][j] == b[i][j]
  {
    if forall i, j :: 0 <= i < rows && 0 <= j < cols ==> a[i][j] == b[i][j] {
      forall i | 0 <= i < rows
        ensures a[i] == b[i]
      {
      }
    }
  }

  /** Adding then subtracting the same matrix restores the original. */
  lemma AddThenSubRestores(a: Grid, b: Grid, rows: nat, cols: nat)
    requires Shaped(a, rows, cols) && Shaped(b, rows, cols)
    ensures Sub(Add(a, b, rows, cols), b, rows, cols) == a
  {
    var r := Sub(Add(a, b, rows, cols), b, rows, cols);
    EqualIffEntries(r, a, rows, cols);
  }

  /** Transposing twice gives the original back. */
  lemma TransposeTwice(a: Grid, rows: nat, cols: nat)
    requires Shaped(a, rows, cols)
    ensures Transposed(Transposed(a, rows, cols), cols, rows) == a
  {
    var r := Transposed(Transposed(a, rows, cols), cols, rows);
    EqualIffEntries(r, a, rows, cols);
  }

  /** Sum over k < upto of a(i, k) · b(k, j). */
  function RowTimesColumn(a: Grid, b: Grid, i: nat, j: nat, upto: nat): int
    requires i < |a| && upto <= |a[i]| && upto <= |b|
    requires forall k :: 0 <= k < upto ==> j < |b[k]|
  {
    if upto == 0 then 0
    else RowTimesColumn(a, b, i, j, upto - 1) + a[i][upto - 1] * b[upto - 1][j]
  }

  /** Entry (i, j) of the product as the source computes it: start from
      the k = 0 term, then add the terms for k = 1 .. M-1. */
  method ProductEntry(a: Grid, b: Grid, m: nat, i: nat, j: nat) returns (entry: int)
    requires m >= 1 && i < |a| && |a[i]| == m && |b| == m
    requires forall k :: 0 <= k < m ==> j < |b[k]|
    ensures entry == RowTimesColumn(a, b, i, j, m)
  {
    entry := a[i][0] * b[0][j];
    var k := 1;
    while k < m
      invariant 1 <= k <= m
      invariant entry == RowTimesColumn(a, b, i, j, k)
    {
      entry := entry + a[i][k] * b[k][j];
      k := k + 1;
    }
  }

  /** The matrix product of an N×M and an M×K matrix (M at least 1, since
      the k = 0 term is read unconditionally). */
  method Product(a: Grid, b: Grid, n: nat, m: nat, kk: nat) returns (r: Grid)
    requires m >= 1 && Shaped(a, n, m) && Shaped(b, m, kk)
    ensures Shaped(r, n, kk)
    ensures forall i, j :: 0 <= i < n && 0 <= j < kk ==> r[i][j] == RowTimesColumn(a, b, i, j, m)
  {
    r := [];
    var i := 0;
    while i < n
      invariant 0 <= i <= n && |r| == i
      invariant forall p :: 0 <= p < i ==> |r[p]| == kk
      invariant forall p, j :: 0 <= p < i && 0 <= j < kk ==> r[p][j] == RowTimesColumn(a, b, p, j, m)
    {
      var row: seq<int> := [];
      var j := 0;
      while j < kk
        invariant 0 <= j <= kk && |row| == j
        invariant forall q :: 0 <= q < j ==> row[q] == RowTimesColumn(a, b, i, q, m)
      {
        var entry := ProductEntry(a, b, m, i, j);
        row := row + [entry];
        j := j + 1;
      }
      r := r + [row];
      i := i + 1;
    }
  }

  /** The identity pattern: ones on the diagonal. */
  function Identity(n: nat): (r: Grid)
    ensures Shaped(r, n, n)
  {
    seq(n, i => seq(n, j => if i == j then 1 else 0))
  }

  /** A row times a column of the identity picks out one entry. */
  lemma {:induction false} RowTimesIdentity(a: Grid, i: nat, j: nat, upto: nat)
    requires i < |a| && upto <= |a[i]| && j < |a[i]|
    ensures RowTimesColumn(a, Identity(|a[i]|), i, j, upto) == if j < upto then a[i][j] else 0
  {
    if upto > 0 {
      RowTimesIdentity(a, i, j, upto - 1);
    }
  }

  /** Sum of the first `upto` diagonal entries. */
  function DiagonalSum(a: Grid, upto: nat): int
    requires upto <= |a| && forall i :: 0 <= i < upto ==> i < |a[i]|
  {
    if upto == 0 then 0 else DiagonalSum(a, upto - 1) + a[upto - 1][upto - 1]
  }

  /** Trace() of a square matrix, as the source computes it: start from
      entry (0, 0), then add the others (N at least 1). */
  method Trace(a: Grid, n: nat) returns (trace: int)
    requires n >= 1 && Shaped(a, n, n)
    ensures trace == DiagonalSum(a, n)
  {
    trace := a[0][0];
    var i := 1;
    while i < n
      invariant 1 <= i <= n
      invariant trace == DiagonalSum(a, i)
    {
      trace := trace + a[i][i];
      i := i + 1;
    }
  }

  /** The trace is additive and unchanged by transposition. */
  lemma {:induction false} DiagonalSumAdd(a: Grid, b: Grid, n: nat, upto: nat)
    requires Shaped(a, n, n) && Shaped(b, n, n) && upto <= n
    ensures DiagonalSum(Add(a, b, n, n), upto) == DiagonalSum(a, upto) + DiagonalSum(b, upto)
  {
    if upto > 0 {
      DiagonalSumAdd(a, b, n, upto - 1);
    }
  }

  lemma {:induction false} DiagonalSumTransposed(a: Grid, n: nat, upto: nat)
    requires Shaped(a, n, n) && upto <= n
    ensures DiagonalSum(Transposed(a, n, n), upto) == DiagonalSum(a, upto)
  {
    if upto > 0 {
      DiagonalSumTransposed(a, n, upto - 1);
    }
  }
}
