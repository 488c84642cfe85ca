/**
 * The integer element layer of matrix.hpp: the `pointwise` in-place loops,
 * the fixed-size `vector<T,N>` (and `covector<T,N>`, which has the same
 * members and layout) and `matrix<T,R,C>` (and `matrix_square<T,N>`, the
 * case `R == C`), stored row-major in one array; element access,
 * `+=`, `-=`, `*=`, `/=`, the copying `operator+`, the outer product of a
 * vector and a covector, and the `row`/`col` slice views.
 *
 * Elements are integers; `/=` is C division, truncating toward zero.
 */
module Matrices {
  import CInt

  /** Elementwise sum. */
  function Add(a: seq<int>, b: seq<int>): (r: seq<int>)
    requires |a| == |b|
    ensures |r| == |a| && forall i | 0 <= i < |a| :: r[i] == a[i] + b[i]
  {
    seq(|a|, i requires 0 <= i < |a| => a[i] + b[i])
  }

  /** Elementwise difference. */
  function Sub(a: seq<int>, b: seq<int>): (r: seq<int>)
    requires |a| == |b|
    ensures |r| == |a| && forall i | 0 <= i < |a| :: r[i] == a[i] - b[i]
  {
    seq(|a|, i requires 0 <= i < |a| => a[i] - b[i])
  }

  /** Every element times `k`. */
  function Times(a: seq<int>, k: int): (r: seq<int>)
    ensures |r| == |a| && forall i | 0 <= i < |a| :: r[i] == a[i] * k
  {
    seq(|a|, i requires 0 <= i < |a| => a[i] * k)
  }

  /** Every element divided by `k`, as C divides. */
  function Over(a: seq<int>, k: int): (r: seq<int>)
    requires k != 0
    ensures |r| == |a| && forall i | 0 <= i < |a| :: r[i] == CInt.Quot(a[i], k)
  {
    seq(|a|, i requires 0 <= i < |a| => CInt.Quot(a[i], k))
  }

  /** `-=` undoes `+=`. */
  lemma SubUndoesAdd(a: seq<int>, b: seq<int>)
    requires |a| == |b|
    ensures Sub(Add(a, b), b) == a
  {
  }

  /** `/=` undoes `*=` by the same non-zero factor. */
  lemma OverUndoesTimes(a: seq<int>, k: int)
    requires k != 0
    ensures Over(Times(a, k), k) == a
  {
    forall i | 0 <= i < |a| ensures Over(Times(a, k), k)[i] == a[i] {
      CInt.QuotOfProduct(a[i], k);
    }
  }

  /** `pointwise::in_place_sum(dest, src, n)`: `dest[i] += src[i]` for `i < n`; `dest` and `src` may be the same array. */
  method InPlaceSum(dest: array<int>, src: array<int>, n: nat)
    requires 0 < n <= dest.Length && n <= src.Length
    modifies dest
    ensures dest[..n] == Add(old(dest[..n]), old(src[..n]))
    ensures dest[n..] == old(dest[n..])
  {
    var i, k := 0, n;
    while 0 < k
      invariant i + k == n
      invariant forall j | 0 <= j < i :: dest[j] == old(dest[j]) + old(src[j])
      invariant forall j | i <= j < dest.Length :: dest[j] == old(dest[j])
      invariant forall j | i <= j < src.Length :: src[j] == old(src[j])
    {
      dest[i] := dest[i] + src[i];
      i, k := i + 1, k - 1;
    }
  }

  /** `pointwise::in_place_difference(dest, src, n)`: `dest[i] -= src[i]` for `i < n`. */
  method InPlaceDifference(dest: array<int>, src: array<int>, n: nat)
    requires 0 < n <= dest.Length && n <= src.Length
    modifies dest
    ensures dest[..n] == Sub(old(dest[..n]), old(src[..n]))
    ensures dest[n..] == old(dest[n..])
  {
    var i, k := 0, n;
    while 0 < k
      invariant i + k == n
      invariant forall j | 0 <= j < i :: dest[j] == old(dest[j]) - old(src[j])
      invariant forall j | i <= j < dest.Length :: dest[j] == old(dest[j])
      invariant forall j | i <= j < src.Length :: src[j] == old(src[j])
    {
      dest[i] := dest[i] - src[i];
      i, k := i + 1, k - 1;
    }
  }

  /** `pointwise::in_place_scalar_product(dest, src, n)`: `dest[i] *= src` for `i < n`. */
  method InPlaceScalarProduct(dest: array<int>, src: int, n: nat)
    requires 0 < n <= dest.Length
    modifies dest
    ensures dest[..n] == Times(old(dest[..n]), src)
    ensures dest[n..] == old(dest[n..])
  {
    var i, k := 0, n;
    while 0 < k
      invariant i + k == n
      invariant forall j | 0 <= j < i :: dest[j] == old(dest[j]) * src
      invariant forall j | i <= j < dest.Length :: dest[j] == old(dest[j])
    {
      dest[i] := dest[i] * src;
      i, k := i + 1, k - 1;
    }
  }

  /** `pointwise::in_place_scalar_quotient(dest, src, n)`: `dest[i] /= src` for `i < n`. */
  method InPlaceScalarQuotient(dest: array<int>, src: int, n: nat)
    requires 0 < n <= dest.Length && src != 0
    modifies dest
    ensures dest[..n] == Over(old(dest[..n]), src)
    ensures dest[n..] == old(dest[n..])
  {
    var i, k := 0, n;
    while 0 < k
      invariant i + k == n
      invariant forall j | 0 <= j < i :: dest[j] == CInt.Quot(old(dest[j]), src)
      invariant forall j | i <= j < dest.Length :: dest[j] == old(dest[j])
    {
      dest[i] := CInt.Quot(dest[i], src);
      i, k := i + 1, k - 1;
    }
  }

  /** `vector<T,N>` and `covector<T,N>`: `N` elements, `N > 0`. */
  class Vector {
    const x: array<int>

    predicate Valid()
      reads this
    {
      0 < x.Length
    }

    /** `vector(src)`: a copy of the first `N` elements of `src`. */
    constructor (src: seq<int>)
      requires 0 < |src|
      ensures Valid() && fresh(x) && x[..] == src
    {
      x := new int[|src|](i requires 0 <= i < |src| => src[i]);
    }

    /** `size()`. */
    function Size(): (n: nat)
      reads this
      requires Valid()
      ensures 0 < n && n == x.Length
    {
      x.Length
    }

    /** `operator[](n)`, reading. */
    function Get(n: nat): int
      reads this, x
      requires n < x.Length
    {
      x[n]
    }

    /** `operator[](n)`, writing through the reference. */
    method Set(n: nat, v: int)
      requires n < x.Length
      modifies x
      ensures x[..] == old(x[..])[n := v]
    {
      x[n] := v;
    }

    /** `operator+=(src)`; `src` may be this vector itself. */
    method AddAssign(src: Vector)
      requires Valid() && src.x.Length == x.Length
      modifies x
      ensures x[..] == Add(old(x[..]), old(src.x[..]))
    {
      InPlaceSum(x, src.x, x.Length);
    }

    /** `operator-=(src)`. */
    method SubAssign(src: Vector)
      requires Valid() && src.x.Length == x.Length
      modifies x
      ensures x[..] == Sub(old(x[..]), old(src.x[..]))
    {
      InPlaceDifference(x, src.x, x.Length);
    }

    /** `operator*=(src)`. */
    method MulAssign(src: int)
      requires Valid()
      modifies x
      ensures x[..] == Times(old(x[..]), src)
    {
      InPlaceScalarProduct(x, src, x.Length);
    }

    /** `operator/=(src)`, for a non-zero divisor. */
    method DivAssign(src: int)
      requires Valid() && src != 0
      modifies x
      ensures x[..] == Over(old(x[..]), src)
    {
      InPlaceScalarQuotient(x, src, x.Length);
    }
  }

  /**
   * `operator+(lhs, rhs)`: `lhs` is taken by value, so the sum lands in a
   * fresh copy and neither argument changes.
   */
  method Plus(lhs: Vector, rhs: Vector) returns (r: Vector)
    requires lhs.Valid() && rhs.x.Length == lhs.x.Length
    ensures fresh(r.x) && r.Valid() && r.x[..] == Add(lhs.x[..], rhs.x[..])
  {
    r := new Vector(lhs.x[..]);
    r.AddAssign(rhs);
  }

  /** Element `(r, c)` of a matrix with `cols` columns sits at `r * cols + c`. */
  function Position(r: nat, c: nat, cols: nat): nat
  {
    r * cols + c
  }

  /** Every element has its own position, inside the array of `rows * cols` elements. */
  lemma PositionInRange(r: nat, c: nat, rows: nat, cols: nat)
    requires r < rows && c < cols
    ensures Position(r, c, cols) < rows * cols
    ensures Position(r, c, cols) / cols == r && Position(r, c, cols) % cols == c
  {
    CInt.DivModOf(r, c, cols);
    assert rows * cols == (rows - 1) * cols + cols;
    assert (rows - 1) * cols - r * cols == (rows - 1 - r) * cols;
  }

  /** Every position of the array holds exactly one element. */
  lemma PositionOnto(k: nat, rows: nat, cols: nat)
    requires 0 < cols && k < rows * cols
    ensures k / cols < rows && k % cols < cols
    ensures Position(k / cols, k % cols, cols) == k
  {
  }

  /** `matrix<T,R,C>` and `matrix_square<T,N>`: `R * C` elements in row-major order. */
  class Matrix {
    const rows: nat
    const cols: nat
    const x: array<int>

    predicate Valid()
      reads this
    {
      0 < rows && 0 < cols && x.Length == rows * cols
    }

    /** `matrix()`: arithmetic elements are left indeterminate; the model starts them at 0. */
    constructor (R: nat, C: nat)
      requires 0 < R && 0 < C
      ensures Valid() && rows == R && cols == C && fresh(x)
    {
      rows, cols := R, C;
      x := new int[R * C](_ => 0);
    }

    /** `operator()(r, c)`, reading. */
    function Get(r: nat, c: nat): int
      reads this, x
      requires Valid() && r < rows && c < cols
    {
      PositionInRange(r, c, rows, cols);
      x[Position(r, c, cols)]
    }

    /** `operator()(r, c)`, writing: element `(r, c)` and no other changes. */
    method Set(r: nat, c: nat, v: int)
      requires Valid() && r < rows && c < cols
      modifies x
      ensures Get(r, c) == v
      ensures forall i, j | 0 <= i < rows && 0 <= j < cols && (i, j) != (r, c) :: Get(i, j) == old(Get(i, j))
    {
      PositionInRange(r, c, rows, cols);
      x[Position(r, c, cols)] := v;
      forall i, j | 0 <= i < rows && 0 <= j < cols && (i, j) != (r, c)
        ensures Position(i, j, cols) != Position(r, c, cols)
      {
        PositionInRange(i, j, rows, cols);
      }
    }

    /** `operator+=(src)`. */
    method AddAssign(src: Matrix)
      requires Valid() && src.x.Length == x.Length
      modifies x
      ensures x[..] == Add(old(x[..]), old(src.x[..]))
    {
      InPlaceSum(x, src.x, x.Length);
    }

    /** `operator-=(src)`. */
    method SubAssign(src: Matrix)
      requires Valid() && src.x.Length == x.Length
      modifies x
      ensures x[..] == Sub(old(x[..]), old(src.x[..]))
    {
      InPlaceDifference(x, src.x, x.Length);
    }

    /** `operator*=(src)`. */
    method MulAssign(src: int)
      requires Valid()
      modifies x
      ensures x[..] == Times(old(x[..]), src)
    {
      InPlaceScalarProduct(x, src, x.Length);
    }

    /** `operator/=(src)`, for a non-zero divisor. */
    method DivAssign(src: int)
      requires Valid() && src != 0
      modifies x
      ensures x[..] == Over(old(x[..]), src)
    {
      InPlaceScalarQuotient(x, src, x.Length);
    }
  }

  /** The elements of the outer product of `lhs` and `rhs`, row after row. */
  function OuterRows(lhs: seq<int>, rhs: seq<int>): (m: seq<int>)
    ensures |m| == |lhs| * |rhs|
  {
    if lhs == [] then []
    else
      var init := OuterRows(lhs[..|lhs| - 1], rhs);
      assert |lhs| * |rhs| == (|lhs| - 1) * |rhs| + |rhs|;
      init + Times(rhs, lhs[|lhs| - 1])
  }

  /** Element `(i, j)` of the outer product is `lhs[i] * rhs[j]`. */
  lemma {:induction false} OuterRowsAt(lhs: seq<int>, rhs: seq<int>, i: nat, j: nat)
    requires i < |lhs| && j < |rhs|
    ensures Position(i, j, |rhs|) < |OuterRows(lhs, rhs)|
    ensures OuterRows(lhs, rhs)[Position(i, j, |rhs|)] == lhs[i] * rhs[j]
  {
    PositionInRange(i, j, |lhs|, |rhs|);
    var n := |lhs| - 1;
    var init := OuterRows(lhs[..n], rhs);
    assert OuterRows(lhs, rhs) == init + Times(rhs, lhs[n]);
    if i < n {
      OuterRowsAt(lhs[..n], rhs, i, j);
    } else {
      assert |init| == n * |rhs|;
    }
  }

  /**
   * `operator*(vector<T,R>, covector<T,C>)`: the outer product, filled row
   * by row, column by column.
   */
  method OuterProduct(lhs: Vector, rhs: Vector) returns (tmp: Matrix)
    requires lhs.Valid() && rhs.Valid()
    ensures fresh(tmp) && fresh(tmp.x) && tmp.Valid()
    ensures tmp.rows == lhs.x.Length && tmp.cols == rhs.x.Length
    ensures forall r, c | 0 <= r < tmp.rows && 0 <= c < tmp.cols :: tmp.Get(r, c) == lhs.x[r] * rhs.x[c]
  {
    var R, C := lhs.x.Length, rhs.x.Length;
    tmp := new Matrix(R, C);
    var r := 0;
    while r < R
      invariant 0 <= r <= R && fresh(tmp.x)
      invariant tmp.Valid() && tmp.rows == R && tmp.cols == C
      invariant r * C <= R * C && tmp.x[..r * C] == OuterRows(lhs.x[..r], rhs.x[..])
    {
      NextRowFits(r, R, C);
      FillRow(tmp.x, r * C, lhs.x[r], rhs.x[..]);
      OuterRowsStep(lhs.x[..], rhs.x[..], r);
      r := r + 1;
    }
    OuterProductElements(tmp, lhs.x[..], rhs.x[..]);
  }

  lemma NextRowFits(r: nat, R: nat, C: nat)
    requires r < R
    ensures r * C + C == (r + 1) * C <= R * C
  {
    CInt.MulAtLeast(R - r, C);
    assert (R - r) * C == R * C - r * C;
  }

  lemma OuterRowsStep(lhs: seq<int>, rhs: seq<int>, r: nat)
    requires r < |lhs|
    ensures OuterRows(lhs[..r + 1], rhs) == OuterRows(lhs[..r], rhs) + Times(rhs, lhs[r])
  {
    assert lhs[..r + 1][..r] == lhs[..r];
  }

  lemma OuterProductElements(tmp: Matrix, lhs: seq<int>, rhs: seq<int>)
    requires tmp.Valid() && tmp.rows == |lhs| && tmp.cols == |rhs|
    requires tmp.x[..|lhs| * |rhs|] == OuterRows(lhs[..|lhs|], rhs)
    ensures forall r, c | 0 <= r < tmp.rows && 0 <= c < tmp.cols :: tmp.Get(r, c) == lhs[r] * rhs[c]
  {
    assert lhs[..|lhs|] == lhs;
    forall i, j | 0 <= i < tmp.rows && 0 <= j < tmp.cols ensures tmp.Get(i, j) == lhs[i] * rhs[j] {
      OuterRowsAt(lhs, rhs, i, j);
    }
  }

  /** The inner loop of the outer product: `tmp(r, c) = lhs[r] * rhs[c]` for every column `c`. */
  method FillRow(a: array<int>, base: nat, factor: int, rhs: seq<int>)
    requires base + |rhs| <= a.Length
    modifies a
    ensures a[..base + |rhs|] == old(a[..base]) + Times(rhs, factor)
  {
    var c := 0;
    while c < |rhs|
      invariant 0 <= c <= |rhs|
      invariant forall j | 0 <= j < base :: a[j] == old(a[j])
      invariant forall j | 0 <= j < c :: a[base + j] == rhs[j] * factor
    {
      a[base + c] := factor * rhs[c];
      c := c + 1;
    }
    assert a[..base + |rhs|] == old(a[..base]) + Times(rhs, factor);
  }

  /**
   * The array positions a row view `row(r)` reaches: the slice starts at
   * `C * r` with stride 1; as written its length is `R`.
   */
  function RowPositionsAsWritten(R: nat, C: nat, r: nat): (p: seq<nat>)
    ensures |p| == R
    ensures forall k | 0 <= k < R && k < C :: p[k] == Position(r, k, C)
    ensures C < R ==> p[C] == Position(r + 1, 0, C)
    ensures r + 1 == R && C < R ==> p[C] == R * C
  {
    seq(R, k => C * r + k)
  }

  /** `col(c)` as written: start `c`, length `C`, stride `R`. */
  function ColPositionsAsWritten(R: nat, C: nat, c: nat): (p: seq<nat>)
    ensures |p| == C && (c < C && C < R ==> |p| < |ColPositions(R, C, c)|)
    ensures 1 < C && 1 < R && R != C ==> p[1] != Position(1, c, C)
  {
    seq(C, k => c + k * R)
  }

  /**
   * With two rows and one column, the last row view as written reaches
   * past the end of the two-element array, and the first column view
   * stops after one of its two elements.
   */
  lemma RowColAsWrittenOverrun()
    ensures RowPositionsAsWritten(2, 1, 1) == [1, 2]
    ensures ColPositionsAsWritten(2, 1, 0) == [0]
  {
  }

  /** `row(r)` corrected: length `C`, so it reaches exactly the elements of row `r`. */
  function RowPositions(R: nat, C: nat, r: nat): (p: seq<nat>)
    requires r < R
    ensures |p| == C && forall k | 0 <= k < C :: p[k] == Position(r, k, C) && p[k] < R * C
  {
    forall k | 0 <= k < C ensures Position(r, k, C) < R * C {
      PositionInRange(r, k, R, C);
    }
    seq(C, k => C * r + k)
  }

  /** `col(c)` corrected: length `R`, stride `C`, so it reaches exactly the elements of column `c`. */
  function ColPositions(R: nat, C: nat, c: nat): (p: seq<nat>)
    requires c < C
    ensures |p| == R && forall k | 0 <= k < R :: p[k] == Position(k, c, C) && p[k] < R * C
  {
    forall k | 0 <= k < R ensures Position(k, c, C) < R * C {
      PositionInRange(k, c, R, C);
    }
    seq(R, k => c + k * C)
  }

  /** For a square matrix the written views and the corrected ones agree. */
  lemma SquareViewsAgree(N: nat, i: nat)
    requires i < N
    ensures RowPositionsAsWritten(N, N, i) == RowPositions(N, N, i)
    ensures ColPositionsAsWritten(N, N, i) == ColPositions(N, N, i)
  {
  }
}
