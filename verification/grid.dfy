/**
 The board as the game keeps it: a flat, row-major sequence of
 `nrows * ncols` cell codes, with row/column addressing, field access and
 the row-by-row traversal order of `forEach`.
 */
module Grid {
  import opened Cell

  datatype Board = Board(nrows: nat, ncols: nat, cells: seq<Code>)

  /** The flat sequence holds exactly one code per grid position. */
  predicate Valid(b: Board) {
    |b.cells| == b.nrows * b.ncols
  }

  predicate InBounds(b: Board, row: int, col: int) {
    0 <= row < b.nrows && 0 <= col < b.ncols
  }

  lemma MulLtCancel(a: int, b: int, n: int)
    requires n > 0 && a * n < b * n
    ensures a < b
  {
  }

  /** Euclidean division is unique: the quotient and remainder of `q * n + r`. */
  lemma DivModUnique(k: int, n: int, q: int, r: int)
    requires n > 0 && 0 <= r < n && k == q * n + r
    ensures k / n == q && k % n == r
  {
    var q', r' := k / n, k % n;
    assert q' * n + r' == q * n + r;
    MulLtCancel(q', q + 1, n);
    MulLtCancel(q, q' + 1, n);
  }

  lemma RowMajorBound(row: nat, col: nat, nrows: nat, ncols: nat)
    requires row < nrows && col < ncols
    ensures row * ncols + col < nrows * ncols
  {
    assert row * ncols + col < (row + 1) * ncols;
    assert (row + 1) * ncols <= nrows * ncols;
  }

  /** Row-major position of `(row, col)` (the source's `index`). */
  function Index(b: Board, row: int, col: int): (k: nat)
    requires InBounds(b, row, col)
    ensures k < b.nrows * b.ncols
    ensures k / b.ncols == row && k % b.ncols == col
  {
    RowMajorBound(row, col, b.nrows, b.ncols);
    DivModUnique(row * b.ncols + col, b.ncols, row, col);
    row * b.ncols + col
  }

  /** The coordinates a flat position stands for: the inverse of `Index`. */
  function Coords(b: Board, k: int): (rc: (int, int))
    requires 0 <= k < b.nrows * b.ncols
    ensures InBounds(b, rc.0, rc.1)
    ensures Index(b, rc.0, rc.1) == k
  {
    var row, col := k / b.ncols, k % b.ncols;
    assert row * b.ncols <= k;
    MulLtCancel(row, b.nrows, b.ncols);
    (row, col)
  }

  /** Distinct in-range coordinates occupy distinct positions. */
  lemma IndexInjective(b: Board, r1: int, c1: int, r2: int, c2: int)
    requires InBounds(b, r1, c1) && InBounds(b, r2, c2)
    requires Index(b, r1, c1) == Index(b, r2, c2)
    ensures r1 == r2 && c1 == c2
  {
  }

  lemma CoordsOfIndex(b: Board, row: int, col: int)
    requires InBounds(b, row, col)
    ensures Coords(b, Index(b, row, col)) == (row, col)
  {
  }

  /** The source's `getField`. */
  function GetField(b: Board, row: int, col: int): Code
    requires Valid(b) && InBounds(b, row, col)
  {
    b.cells[Index(b, row, col)]
  }

  /** The source's `setField`: only the addressed cell takes the new code. */
  function SetField(b: Board, row: int, col: int, v: Code): (r: Board)
    requires Valid(b) && InBounds(b, row, col)
    ensures Valid(r) && r.nrows == b.nrows && r.ncols == b.ncols
    ensures GetField(r, row, col) == v
    ensures forall i, j :: InBounds(b, i, j) && (i, j) != (row, col) ==> GetField(r, i, j) == GetField(b, i, j)
  {
    var k := Index(b, row, col);
    var r := b.(cells := b.cells[k := v]);
    assert forall i, j :: InBounds(b, i, j) && (i, j) != (row, col) ==> Index(b, i, j) != k by {
      forall i, j | InBounds(b, i, j) && Index(b, i, j) == k
        ensures (i, j) == (row, col)
      {
        IndexInjective(b, i, j, row, col);
      }
    }
    r
  }

  /** Writing back what was read changes nothing. */
  lemma SetFieldOfGetField(b: Board, row: int, col: int)
    requires Valid(b) && InBounds(b, row, col)
    ensures SetField(b, row, col, GetField(b, row, col)) == b
  {
  }

  /** The second of two writes to one cell wins. */
  lemma SetFieldTwice(b: Board, row: int, col: int, v: Code, w: Code)
    requires Valid(b) && InBounds(b, row, col)
    ensures SetField(SetField(b, row, col, v), row, col, w) == SetField(b, row, col, w)
  {
  }

  /** The cells `(i, j), (i, j+1), ..., (i, ncols-1)` visited by the inner loop. */
  function RowOrder(i: nat, j: nat, ncols: nat): seq<(int, int)>
    decreases ncols - j
  {
    if j >= ncols then [] else [(i, j)] + RowOrder(i, j + 1, ncols)
  }

  /** The cells of rows `i, ..., nrows-1`, each row left to right. */
  function RowsOrder(i: nat, nrows: nat, ncols: nat): seq<(int, int)>
    decreases nrows - i
  {
    if i >= nrows then [] else RowOrder(i, 0, ncols) + RowsOrder(i + 1, nrows, ncols)
  }

  /** The coordinates, in order, that the source's `forEach` passes to its callback. */
  function ForEach(nrows: nat, ncols: nat): seq<(int, int)> {
    RowsOrder(0, nrows, ncols)
  }

  lemma {:induction false} RowOrderSpec(i: nat, j: nat, ncols: nat)
    requires j <= ncols
    ensures |RowOrder(i, j, ncols)| == ncols - j
    ensures forall t :: 0 <= t < ncols - j ==> RowOrder(i, j, ncols)[t] == (i, j + t)
    decreases ncols - j
  {
    if j < ncols {
      RowOrderSpec(i, j + 1, ncols);
    }
  }

  lemma {:induction false} RowsOrderLength(i: nat, nrows: nat, ncols: nat)
    requires i <= nrows
    ensures |RowsOrder(i, nrows, ncols)| == (nrows - i) * ncols
    decreases nrows - i
  {
    if i < nrows {
      RowOrderSpec(i, 0, ncols);
      RowsOrderLength(i + 1, nrows, ncols);
      assert (nrows - i) * ncols == ncols + (nrows - (i + 1)) * ncols;
    }
  }

  lemma {:induction false} RowsOrderSpec(i: nat, nrows: nat, ncols: nat)
    requires i <= nrows && ncols > 0
    ensures |RowsOrder(i, nrows, ncols)| == (nrows - i) * ncols
    ensures forall t :: 0 <= t < (nrows - i) * ncols ==>
              RowsOrder(i, nrows, ncols)[t] == (i + t / ncols, t % ncols)
    decreases nrows - i
  {
    RowsOrderLength(i, nrows, ncols);
    if i < nrows {
      RowOrderSpec(i, 0, ncols);
      RowsOrderSpec(i + 1, nrows, ncols);
      var s := RowsOrder(i, nrows, ncols);
      forall t | 0 <= t < (nrows - i) * ncols
        ensures s[t] == (i + t / ncols, t % ncols)
      {
        if t < ncols {
          assert s[t] == RowOrder(i, 0, ncols)[t];
          DivModUnique(t, ncols, 0, t);
        } else {
          var u := t - ncols;
          assert s[t] == RowsOrder(i + 1, nrows, ncols)[u];
          NextRow(t, ncols);
        }
      }
    }
  }

  /** Position `t` lies one row below position `t - ncols`. */
  lemma NextRow(t: int, ncols: int)
    requires ncols > 0 && t >= ncols
    ensures t / ncols == (t - ncols) / ncols + 1 && t % ncols == (t - ncols) % ncols
  {
    var u := t - ncols;
    assert t == (u / ncols + 1) * ncols + u % ncols;
    DivModUnique(t, ncols, u / ncols + 1, u % ncols);
  }

  /**
   `forEach` calls its callback once per grid position, in row-major order:
   its `k`-th call receives the coordinates of flat position `k`.
   */
  lemma ForEachVisitsEachCellOnce(b: Board)
    ensures |ForEach(b.nrows, b.ncols)| == b.nrows * b.ncols
    ensures forall k :: 0 <= k < b.nrows * b.ncols ==> ForEach(b.nrows, b.ncols)[k] == Coords(b, k)
  {
    if b.ncols == 0 {
      assert b.nrows * b.ncols == 0;
      RowsOrderZeroWidth(0, b.nrows);
    } else {
      RowsOrderSpec(0, b.nrows, b.ncols);
      forall k | 0 <= k < b.nrows * b.ncols
        ensures ForEach(b.nrows, b.ncols)[k] == Coords(b, k)
      {
        var rc := Coords(b, k);
        DivModUnique(k, b.ncols, rc.0, rc.1);
      }
    }
  }

  lemma {:induction false} RowsOrderZeroWidth(i: nat, nrows: nat)
    ensures RowsOrder(i, nrows, 0) == []
    decreases nrows - i
  {
    if i < nrows {
      RowsOrderZeroWidth(i + 1, nrows);
    }
  }
}
