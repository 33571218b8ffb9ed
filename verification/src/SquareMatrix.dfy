/** Packing square matrices by what they have in common: nothing, one value, a diagonal, a symmetric triangle. */
module SquareMatrix {
  import opened Arithmetic

  /** A floating-point element with exact arithmetic. */
  datatype Element = NaN | Num(value: real)

  const ZERO := Num(0.0)

  /** Comparison of numbers: NaN is equal to nothing. */
  predicate AreClose(a: Element, b: Element) { a.Num? && b.Num? && a.value == b.value }

  predicate IsCloseToZero(a: Element) { AreClose(a, ZERO) }

  // ----- Indices -----

  function Index(n: nat, row: nat, col: nat): nat { n * row + col }

  lemma IndexSplits(n: nat, row: nat, col: nat)
    requires row < n && col < n
    ensures Index(n, row, col) < n * n && Index(n, row, col) / n == row && Index(n, row, col) % n == col
  {
    DivMod(row, n, col);
    MulKeepsOrder(n, row + 1, n);
  }

  lemma IndexJoins(n: nat, k: nat)
    requires k < n * n
    ensures n > 0 && k / n < n && Index(n, k / n, k % n) == k
  {
    if k / n >= n {
      MulKeepsOrder(n, n, k / n);
    }
  }

  predicate IsOnDiagonal(n: nat, k: nat)
    requires n > 0
  {
    k / n == k % n
  }

  /** Where a row of the upper-right triangle starts when the rows are stored one after the other. */
  function TriangleStart(n: nat, row: nat): nat
    requires row <= n
  {
    if row == 0 then 0 else TriangleStart(n, row - 1) + (n - (row - 1))
  }

  function TriangleIndex(n: nat, row: nat, col: nat): nat
    requires row <= col < n
  {
    TriangleStart(n, row) + (col - row)
  }

  function TriangleSize(n: nat): nat { ((1 + n) * n) / 2 }

  lemma {:induction false} TriangleStartClosed(n: nat, row: nat)
    requires row <= n
    ensures 2 * TriangleStart(n, row) == row * (2 * n + 1 - row)
    decreases row
  {
    if row > 0 {
      TriangleStartClosed(n, row - 1);
      assert row * (2 * n + 1 - row) == (row - 1) * (2 * n + 1 - (row - 1)) + 2 * (n - (row - 1));
    }
  }

  /** The triangle's rows fill it exactly. */
  lemma TriangleIsFull(n: nat)
    ensures TriangleStart(n, n) == TriangleSize(n)
  {
    TriangleStartClosed(n, n);
    assert n * (2 * n + 1 - n) == (1 + n) * n;
  }

  lemma {:induction false} TriangleStartIsMonotone(n: nat, row: nat, row': nat)
    requires row <= row' <= n
    ensures TriangleStart(n, row) <= TriangleStart(n, row')
    decreases row' - row
  {
    if row < row' {
      TriangleStartIsMonotone(n, row, row' - 1);
    }
  }

  lemma TriangleIndexFits(n: nat, row: nat, col: nat)
    requires row <= col < n
    ensures TriangleIndex(n, row, col) < TriangleSize(n)
  {
    TriangleStartIsMonotone(n, row + 1, n);
    TriangleIsFull(n);
  }

  /** The size alone tells the modes apart, except that all coincide for a single element. */
  lemma SizesTellModesApart(n: nat)
    requires n >= 2
    ensures 1 < n < TriangleSize(n) < n * n
  {
    MulKeepsOrder(n, 2, n);
    assert (1 + n) * n == n + n * n;
  }

  // ----- Matrices, row by row -----

  predicate IsMatrix(m: seq<Element>, n: nat) { n >= 1 && |m| == n * n }

  ghost predicate AllNaN(m: seq<Element>)
  {
    forall k | 0 <= k < |m| :: m[k].NaN?
  }

  ghost predicate IsScalar(m: seq<Element>, n: nat)
    requires IsMatrix(m, n)
  {
    forall k | 0 <= k < |m| :: if IsOnDiagonal(n, k) then AreClose(m[k], m[0]) else IsCloseToZero(m[k])
  }

  ghost predicate IsDiagonal(m: seq<Element>, n: nat)
    requires IsMatrix(m, n)
  {
    forall k | 0 <= k < |m| && !IsOnDiagonal(n, k) :: IsCloseToZero(m[k])
  }

  /** The element in a row and column. */
  function At(m: seq<Element>, n: nat, row: nat, col: nat): Element
    requires IsMatrix(m, n) && row < n && col < n
  {
    IndexSplits(n, row, col);
    m[Index(n, row, col)]
  }

  ghost predicate IsSymmetric(m: seq<Element>, n: nat)
    requires IsMatrix(m, n)
  {
    forall i: nat, k: nat | i < n && k < n && i != k :: AreClose(At(m, n, i, k), At(m, n, k, i))
  }

  datatype Mode = Empty | Scalar | Diagonal | Symmetric | Full

  ghost function OptimalMode(m: seq<Element>, n: nat): Mode
    requires IsMatrix(m, n)
  {
    if AllNaN(m) then Empty
    else if IsScalar(m, n) then Scalar
    else if IsDiagonal(m, n) then Diagonal
    else if IsSymmetric(m, n) then Symmetric
    else Full
  }

  function DiagonalOf(m: seq<Element>, n: nat): seq<Element>
    requires IsMatrix(m, n)
  {
    seq(n, i requires 0 <= i < n => At(m, n, i, i))
  }

  /** The elements of one row from the diagonal on. */
  function UpperRow(m: seq<Element>, n: nat, row: nat): seq<Element>
    requires IsMatrix(m, n) && row < n
  {
    seq(n - row, c requires 0 <= c < n - row => At(m, n, row, row + c))
  }

  function UpperRows(m: seq<Element>, n: nat, rows: nat): seq<Element>
    requires IsMatrix(m, n) && rows <= n
  {
    if rows == 0 then [] else UpperRows(m, n, rows - 1) + UpperRow(m, n, rows - 1)
  }

  ghost function Pack(m: seq<Element>, n: nat): seq<Element>
    requires IsMatrix(m, n)
  {
    match OptimalMode(m, n)
    case Empty => []
    case Scalar => [m[0]]
    case Diagonal => DiagonalOf(m, n)
    case Symmetric => UpperRows(m, n, n)
    case Full => m
  }

  /** What a packed array means at position `k` of the matrix, judging by its size alone. */
  function UnpackedAt(p: seq<Element>, n: nat, k: nat): Element
    requires n >= 1 && k < n * n
  {
    IndexJoins(n, k);
    var row, col := k / n, k % n;
    if |p| == n || |p| == 1 then
      if IsOnDiagonal(n, k) then p[if |p| == 1 then 0 else row] else ZERO
    else if |p| == TriangleSize(n) then
      TriangleIndexFits(n, Min(row, col), Max(row, col));
      p[TriangleIndex(n, Min(row, col), Max(row, col))]
    else if |p| == n * n then p[k]
    else ZERO
  }

  // ----- Round trip -----

  lemma {:induction false} UpperRowsAt(m: seq<Element>, n: nat, rows: nat, row: nat, col: nat)
    requires IsMatrix(m, n) && row < rows <= n && row <= col < n
    ensures |UpperRows(m, n, rows)| == TriangleStart(n, rows)
    ensures TriangleIndex(n, row, col) < TriangleStart(n, rows)
    ensures UpperRows(m, n, rows)[TriangleIndex(n, row, col)] == At(m, n, row, col)
    decreases rows
  {
    hide At, IsMatrix;
    UpperRowsLength(m, n, rows);
    UpperRowsLength(m, n, rows - 1);
    if row < rows - 1 {
      UpperRowsAt(m, n, rows - 1, row, col);
    } else {
      assert UpperRows(m, n, rows)[TriangleIndex(n, row, col)] == UpperRow(m, n, row)[col - row];
    }
  }

  lemma {:induction false} UpperRowsLength(m: seq<Element>, n: nat, rows: nat)
    requires IsMatrix(m, n) && rows <= n
    ensures |UpperRows(m, n, rows)| == TriangleStart(n, rows)
    decreases rows
  {
    hide At, IsMatrix;
    if rows > 0 {
      UpperRowsLength(m, n, rows - 1);
    }
  }

  /** A matrix of one element is a scalar or not a number. */
  lemma SingleElement(m: seq<Element>)
    requires IsMatrix(m, 1)
    ensures AllNaN(m) || IsScalar(m, 1)
  {
  }

  lemma ScalarComesBack(m: seq<Element>, n: nat, k: nat)
    requires IsMatrix(m, n) && IsScalar(m, n) && k < n * n
    ensures UnpackedAt([m[0]], n, k) == m[k]
  {
    hide TriangleSize, IsOnDiagonal;
  }

  lemma DiagonalComesBack(m: seq<Element>, n: nat, k: nat)
    requires IsMatrix(m, n) && IsDiagonal(m, n) && n >= 2 && k < n * n
    ensures UnpackedAt(DiagonalOf(m, n), n, k) == m[k]
  {
    hide TriangleSize;
    IndexJoins(n, k);
    if IsOnDiagonal(n, k) {
      assert DiagonalOf(m, n)[k / n] == At(m, n, k / n, k / n);
    }
  }

  lemma TriangleComesBack(m: seq<Element>, n: nat, k: nat)
    requires IsMatrix(m, n) && IsSymmetric(m, n) && n >= 2 && k < n * n
    ensures UnpackedAt(UpperRows(m, n, n), n, k) == m[k]
  {
    SizesTellModesApart(n);
    IndexJoins(n, k);
    TriangleIsFull(n);
    var row, col := k / n, k % n;
    hide TriangleSize, TriangleStart, UpperRows, Index;
    UpperRowsAt(m, n, n, Min(row, col), Max(row, col));
    assert m[k] == At(m, n, row, col);
    if row != col {
      assert AreClose(At(m, n, row, col), At(m, n, col, row));
    }
  }

  lemma FullComesBack(m: seq<Element>, n: nat, k: nat)
    requires IsMatrix(m, n) && n >= 2 && k < n * n
    ensures UnpackedAt(m, n, k) == m[k]
  {
    SizesTellModesApart(n);
  }

  lemma EmptyBecomesZero(n: nat, k: nat)
    requires n >= 1 && k < n * n
    ensures UnpackedAt([], n, k) == ZERO
  {
    if n >= 2 {
      SizesTellModesApart(n);
    }
  }

  function Unpack(p: seq<Element>, n: nat): (m: seq<Element>)
    requires n >= 1
    ensures |m| == n * n
  {
    seq(n * n, k requires 0 <= k < n * n => UnpackedAt(p, n, k))
  }

  /** Packing loses nothing exactly if some element is a number: a matrix of NaN comes back as zero. */
  lemma PackingIsLosslessIff(m: seq<Element>, n: nat)
    requires IsMatrix(m, n)
    ensures Unpack(Pack(m, n), n) == m <==> !AllNaN(m)
  {
    hide UnpackedAt, IsScalar, IsDiagonal, IsSymmetric, DiagonalOf, UpperRows;
    if n == 1 {
      SingleElement(m);
    }
    MulKeepsOrder(n, 1, n);
    forall k: nat | k < n * n
      ensures UnpackedAt(Pack(m, n), n, k) == if AllNaN(m) then ZERO else m[k]
    {
      match OptimalMode(m, n)
      case Empty => EmptyBecomesZero(n, k);
      case Scalar => ScalarComesBack(m, n, k);
      case Diagonal => DiagonalComesBack(m, n, k);
      case Symmetric => TriangleComesBack(m, n, k);
      case Full => FullComesBack(m, n, k);
    }
    assert Unpack(Pack(m, n), n)[0] == UnpackedAt(Pack(m, n), n, 0);
  }

  // ----- The loops -----

  method AreAllElementsNan(m: seq<Element>) returns (b: bool)
    ensures b == AllNaN(m)
  {
    for index := 0 to |m|
      invariant forall k | 0 <= k < index :: m[k].NaN?
    {
      if !m[index].NaN? {
        return false;
      }
    }
    b := true;
  }

  method CheckScalar(m: seq<Element>, n: nat) returns (b: bool)
    requires IsMatrix(m, n)
    ensures b == IsScalar(m, n)
  {
    hide IsOnDiagonal;
    for index := 0 to |m|
      invariant forall k | 0 <= k < index :: if IsOnDiagonal(n, k) then AreClose(m[k], m[0]) else IsCloseToZero(m[k])
    {
      if !IsOnDiagonal(n, index) && !IsCloseToZero(m[index]) {
        return false;
      }
      if IsOnDiagonal(n, index) && !AreClose(m[index], m[0]) {
        return false;
      }
    }
    b := true;
  }

  method CheckDiagonal(m: seq<Element>, n: nat) returns (b: bool)
    requires IsMatrix(m, n)
    ensures b == IsDiagonal(m, n)
  {
    hide IsOnDiagonal;
    for index := 0 to |m|
      invariant forall k | 0 <= k < index && !IsOnDiagonal(n, k) :: IsCloseToZero(m[k])
    {
      if !IsOnDiagonal(n, index) && !IsCloseToZero(m[index]) {
        return false;
      }
    }
    b := true;
  }

  method CheckSymmetric(m: seq<Element>, n: nat) returns (b: bool)
    requires IsMatrix(m, n)
    ensures b == IsSymmetric(m, n)
  {
    hide At, AreClose, IsMatrix;
    for i := 0 to n
      invariant forall r: nat, c: nat | r < i && c < n && r != c :: AreClose(At(m, n, r, c), At(m, n, c, r))
    {
      for k := 0 to n
        invariant forall c: nat | c < k && i != c :: AreClose(At(m, n, i, c), At(m, n, c, i))
      {
        if i != k && !AreClose(At(m, n, i, k), At(m, n, k, i)) {
          return false;
        }
      }
    }
    b := true;
  }

  method DetectOptimalMode(m: seq<Element>, n: nat) returns (mode: Mode)
    requires IsMatrix(m, n)
    ensures mode == OptimalMode(m, n)
  {
    hide AllNaN, IsScalar, IsDiagonal, IsSymmetric;
    var b := AreAllElementsNan(m);
    if b {
      return Empty;
    }
    b := CheckScalar(m, n);
    if b {
      return Scalar;
    }
    b := CheckDiagonal(m, n);
    if b {
      return Diagonal;
    }
    b := CheckSymmetric(m, n);
    return if b then Symmetric else Full;
  }

  method PackTriangle(m: seq<Element>, n: nat) returns (packed: seq<Element>)
    requires IsMatrix(m, n)
    ensures packed == UpperRows(m, n, n)
  {
    hide At, IsMatrix;
    packed := [];
    for row := 0 to n
      invariant packed == UpperRows(m, n, row)
    {
      var col := row;
      while col < n
        invariant row <= col <= n
        invariant packed == UpperRows(m, n, row) + UpperRow(m, n, row)[..col - row]
      {
        packed := packed + [At(m, n, row, col)];
        col := col + 1;
      }
    }
  }

  method PackSquareMatrix(m: seq<Element>, n: nat) returns (packed: seq<Element>)
    requires IsMatrix(m, n)
    ensures packed == Pack(m, n)
  {
    hide OptimalMode, At;
    var mode := DetectOptimalMode(m, n);
    packed := [];
    match mode {
      case Empty =>
      case Scalar => packed := [m[0]];
      case Diagonal =>
        for i := 0 to n
          invariant packed == DiagonalOf(m, n)[..i]
        {
          packed := packed + [At(m, n, i, i)];
        }
      case Symmetric => packed := PackTriangle(m, n);
      case Full =>
        for index := 0 to |m|
          invariant packed == m[..index]
        {
          packed := packed + [m[index]];
        }
    }
  }

  lemma UnpackedOnDiagonal(packed: seq<Element>, n: nat, k: nat)
    requires n >= 1 && k < n * n && (|packed| == n || |packed| == 1)
    ensures k / n < n
    ensures UnpackedAt(packed, n, k) ==
      if IsOnDiagonal(n, k) then packed[if |packed| == 1 then 0 else k / n] else ZERO
  {
    IndexJoins(n, k);
  }

  method UnpackDiagonal(packed: seq<Element>, n: nat, dst: array<Element>)
    requires n >= 1 && dst.Length == n * n && (|packed| == n || |packed| == 1)
    modifies dst
    ensures dst[..] == Unpack(packed, n)
  {
    hide IsOnDiagonal, UnpackedAt;
    for index := 0 to dst.Length
      invariant forall k | 0 <= k < index :: dst[k] == UnpackedAt(packed, n, k)
    {
      UnpackedOnDiagonal(packed, n, index);
      if IsOnDiagonal(n, index) {
        dst[index] := packed[if |packed| == 1 then 0 else index / n];
      } else {
        dst[index] := ZERO;
      }
    }
  }

  lemma UnpackedInTriangle(packed: seq<Element>, n: nat, row: nat, col: nat)
    requires n >= 2 && row < n && col < n && |packed| == TriangleSize(n)
    ensures Index(n, row, col) < n * n && TriangleIndex(n, Min(row, col), Max(row, col)) < |packed|
    ensures UnpackedAt(packed, n, Index(n, row, col)) == packed[TriangleIndex(n, Min(row, col), Max(row, col))]
  {
    IndexSplits(n, row, col);
    SizesTellModesApart(n);
    TriangleIndexFits(n, Min(row, col), Max(row, col));
  }

  lemma IndexAdvances(n: nat, row: nat)
    ensures Index(n, row, n) == Index(n, row + 1, 0) && Index(n, 0, 0) == 0 && Index(n, n, 0) == n * n
  {
  }

  lemma IndexInOrder(n: nat, row: nat, col: nat)
    requires col < row < n
    ensures Index(n, col, row) < Index(n, row, col)
  {
    MulKeepsOrder(n, col + 1, row);
  }

  lemma TriangleAdvances(n: nat, row: nat, col: nat)
    requires row < n
    ensures TriangleStart(n, row + 1) == TriangleStart(n, row) + (n - row)
    ensures row <= col < n ==> TriangleIndex(n, row, col) == TriangleStart(n, row) + Max(col - row, 0)
  {
  }

  /** The lower-left triangle is copied from what has been unpacked above it. */
  method UnpackTriangle(packed: seq<Element>, n: nat, dst: array<Element>)
    requires n >= 2 && dst.Length == n * n && |packed| == TriangleSize(n)
    modifies dst
    ensures dst[..] == Unpack(packed, n)
  {
    hide Index, UnpackedAt, TriangleStart, TriangleIndex, TriangleSize;
    var it, sourceIndex := 0, 0;
    IndexAdvances(n, 0);
    assert TriangleStart(n, 0) == 0 by { TriangleStartsAtZero(n); }
    for row := 0 to n
      invariant it == Index(n, row, 0) <= dst.Length && sourceIndex == TriangleStart(n, row)
      invariant forall k | 0 <= k < it :: dst[k] == UnpackedAt(packed, n, k)
    {
      IndexAdvances(n, row);
      TriangleAdvances(n, row, row);
      for col := 0 to n
        invariant it == Index(n, row, col) <= dst.Length
        invariant sourceIndex == TriangleStart(n, row) + Max(col - row, 0)
        invariant forall k | 0 <= k < it :: dst[k] == UnpackedAt(packed, n, k)
      {
        UnpackedInTriangle(packed, n, row, col);
        TriangleAdvances(n, row, col);
        if col >= row {
          dst[it] := packed[sourceIndex];
          sourceIndex := sourceIndex + 1;
        } else {
          UnpackedInTriangle(packed, n, col, row);
          IndexInOrder(n, row, col);
          dst[it] := dst[Index(n, col, row)];
        }
        it := it + 1;
        assert it == Index(n, row, col + 1) by { NextIndex(n, row, col); }
      }
    }
    IndexAdvances(n, n);
  }

  lemma NextIndex(n: nat, row: nat, col: nat)
    ensures Index(n, row, col) + 1 == Index(n, row, col + 1)
  {
  }

  lemma TriangleStartsAtZero(n: nat)
    ensures TriangleStart(n, 0) == 0
  {
  }

  method UnpackSquareMatrix(packed: seq<Element>, n: nat, dst: array<Element>)
    requires n >= 1 && dst.Length == n * n
    modifies dst
    ensures dst[..] == Unpack(packed, n)
  {
    if |packed| == n || |packed| == 1 {
      UnpackDiagonal(packed, n, dst);
    } else if |packed| == TriangleSize(n) {
      UnpackTriangle(packed, n, dst);
    } else {
      for index := 0 to dst.Length
        invariant forall k | 0 <= k < index :: dst[k] == UnpackedAt(packed, n, k)
      {
        dst[index] := if |packed| == dst.Length then packed[index] else ZERO;
      }
    }
  }
}
