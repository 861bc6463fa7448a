/**
 The game state held by a `Minesweeper` board: the initial random layout,
 the per-cell bomb and uncovered bits, the four-neighbour bomb count and
 the two player actions. A board is a value; every action returns the
 board it leaves behind.
 */
module Minesweeper {
  import opened Cell
  import opened Grid

  /** The source's `isBomb`. */
  predicate IsBomb(b: Board, row: int, col: int)
    requires Valid(b) && InBounds(b, row, col)
  {
    Bomb(GetField(b, row, col))
  }

  /** The source's `isUncovered`. */
  predicate IsUncovered(b: Board, row: int, col: int)
    requires Valid(b) && InBounds(b, row, col)
  {
    Uncovered(GetField(b, row, col))
  }

  /** Two boards of one size that hold bombs in exactly the same cells. */
  predicate SameBombs(b1: Board, b2: Board) {
    |b1.cells| == |b2.cells| &&
    forall k :: 0 <= k < |b1.cells| ==> Bomb(b1.cells[k]) == Bomb(b2.cells[k])
  }

  /** Every cell of the board is uncovered. */
  predicate AllUncovered(b: Board)
    requires Valid(b)
  {
    forall i, j :: 0 <= i < b.nrows && 0 <= j < b.ncols ==> IsUncovered(b, i, j)
  }

  /** The source's `uncover`: sets the uncovered bit of one cell. */
  function Uncover(b: Board, row: int, col: int): (r: Board)
    requires Valid(b) && InBounds(b, row, col)
    ensures Valid(r) && r.nrows == b.nrows && r.ncols == b.ncols
    ensures IsUncovered(r, row, col)
    ensures IsBomb(r, row, col) == IsBomb(b, row, col)
    ensures forall i, j :: InBounds(b, i, j) && (i, j) != (row, col) ==> GetField(r, i, j) == GetField(b, i, j)
    ensures SameBombs(b, r)
    ensures forall k :: 0 <= k < |b.cells| ==>
              r.cells[k] == if k == Index(b, row, col) then SetUncovered(b.cells[k]) else b.cells[k]
  {
    SetField(b, row, col, SetUncovered(GetField(b, row, col)))
  }

  /** Uncovering twice is the same as uncovering once. */
  lemma UncoverIdempotent(b: Board, row: int, col: int)
    requires Valid(b) && InBounds(b, row, col)
    ensures Uncover(Uncover(b, row, col), row, col) == Uncover(b, row, col)
  {
  }

  predicate AllInBounds(b: Board, coords: seq<(int, int)>) {
    forall t :: 0 <= t < |coords| ==> InBounds(b, coords[t].0, coords[t].1)
  }

  /** After uncovering `c0`, the visits still to come leave cell `k` as if `c0` were one of them. */
  lemma UncoverFirstVisit(b: Board, c0: (int, int), rest: seq<(int, int)>, k: int)
    requires Valid(b) && InBounds(b, c0.0, c0.1) && 0 <= k < |b.cells|
    ensures var b1 := Uncover(b, c0.0, c0.1);
            (if Coords(b1, k) in rest then SetUncovered(b1.cells[k]) else b1.cells[k]) ==
            (if Coords(b, k) in [c0] + rest then SetUncovered(b.cells[k]) else b.cells[k])
  {
    var c := Coords(b, k);
    CoordsOfIndex(b, c0.0, c0.1);
    SetUncoveredIdempotent(b.cells[k]);
    assert c == c0 <==> k == Index(b, c0.0, c0.1);
  }

  /**
   `forEach` with `uncover` as its callback, over an arbitrary visiting
   order: a cell ends up uncovered exactly when it was already uncovered or
   it is visited, and nothing else about any cell changes.
   */
  function UncoverEach(b: Board, coords: seq<(int, int)>): (r: Board)
    requires Valid(b) && AllInBounds(b, coords)
    ensures Valid(r) && r.nrows == b.nrows && r.ncols == b.ncols
    ensures forall k :: 0 <= k < |b.cells| ==>
              r.cells[k] == if Coords(b, k) in coords then SetUncovered(b.cells[k]) else b.cells[k]
    decreases |coords|
  {
    if |coords| == 0 then b
    else
      var b1 := Uncover(b, coords[0].0, coords[0].1);
      var r := UncoverEach(b1, coords[1..]);
      assert coords == [coords[0]] + coords[1..];
      assert forall k :: 0 <= k < |b.cells| ==>
               r.cells[k] == if Coords(b, k) in coords then SetUncovered(b.cells[k]) else b.cells[k] by {
        forall k | 0 <= k < |b.cells|
          ensures r.cells[k] == if Coords(b, k) in coords then SetUncovered(b.cells[k]) else b.cells[k]
        {
          UncoverFirstVisit(b, coords[0], coords[1..], k);
        }
      }
      r
  }

  /** The reveal-all step of `leftClick`: `forEach` over the whole grid with `uncover`. */
  function UncoverAll(b: Board): (r: Board)
    requires Valid(b)
    ensures Valid(r) && r.nrows == b.nrows && r.ncols == b.ncols
    ensures forall k :: 0 <= k < |b.cells| ==> r.cells[k] == SetUncovered(b.cells[k])
    ensures AllUncovered(r)
    ensures SameBombs(b, r)
  {
    ForEachVisitsEachCellOnce(b);
    var order := ForEach(b.nrows, b.ncols);
    assert forall k :: 0 <= k < |b.cells| ==> order[k] == Coords(b, k);
    UncoverEach(b, order)
  }

  /**
   The nested loop of `forEach` with `uncover` as its callback, written out
   as the source runs it: row by row, each row left to right.
   */
  method RevealAll(b: Board) returns (r: Board)
    requires Valid(b)
    ensures r == UncoverAll(b)
  {
    r := b;
    var i := 0;
    while i < b.nrows
      invariant 0 <= i <= b.nrows
      invariant Valid(r) && r.nrows == b.nrows && r.ncols == b.ncols
      invariant forall k :: 0 <= k < |b.cells| ==>
                  r.cells[k] == if k < i * b.ncols then SetUncovered(b.cells[k]) else b.cells[k]
    {
      var j := 0;
      while j < b.ncols
        invariant 0 <= j <= b.ncols
        invariant Valid(r) && r.nrows == b.nrows && r.ncols == b.ncols
        invariant forall k :: 0 <= k < |b.cells| ==>
                    r.cells[k] == if k < i * b.ncols + j then SetUncovered(b.cells[k]) else b.cells[k]
      {
        assert Index(r, i, j) == i * b.ncols + j;
        r := Uncover(r, i, j);
        j := j + 1;
      }
      assert i * b.ncols + b.ncols == (i + 1) * b.ncols;
      i := i + 1;
    }
    var all := UncoverAll(b);
    assert r.cells == all.cells;
  }

  function Abs(x: int): nat {
    if x < 0 then -x else x
  }

  /** `(i, j)` shares an edge with `(row, col)`; diagonal cells do not. */
  predicate Adjacent(row: int, col: int, i: int, j: int) {
    Abs(i - row) + Abs(j - col) == 1
  }

  /** The source's `nearBombs`: bombs above, below, left and right, each side bounds-checked. */
  function NearBombs(b: Board, row: int, col: int): (n: nat)
    requires Valid(b) && InBounds(b, row, col)
    ensures n <= 4
  {
    var up := if row > 0 && IsBomb(b, row - 1, col) then 1 else 0;
    var down := if row < b.nrows - 1 && IsBomb(b, row + 1, col) then 1 else 0;
    var left := if col > 0 && IsBomb(b, row, col - 1) then 1 else 0;
    var right := if col < b.ncols - 1 && IsBomb(b, row, col + 1) then 1 else 0;
    up + down + left + right
  }

  /** The in-range bomb cells that share an edge with `(row, col)`. */
  function BombNeighbours(b: Board, row: int, col: int): set<(int, int)>
    requires Valid(b)
  {
    set i, j | 0 <= i < b.nrows && 0 <= j < b.ncols && Adjacent(row, col, i, j) && IsBomb(b, i, j) :: (i, j)
  }

  /** A singleton when the cell is in range and holds a bomb, else empty. */
  function BombAt(b: Board, i: int, j: int): (s: set<(int, int)>)
    requires Valid(b)
    ensures |s| <= 1
  {
    if InBounds(b, i, j) && IsBomb(b, i, j) then {(i, j)} else {}
  }

  /** The four cells that share an edge with `(row, col)` are exactly the adjacent ones. */
  lemma AdjacentCases(row: int, col: int, i: int, j: int)
    ensures Adjacent(row, col, i, j) <==>
              (i, j) == (row - 1, col) || (i, j) == (row + 1, col) ||
              (i, j) == (row, col - 1) || (i, j) == (row, col + 1)
  {
  }

  /** Membership in `BombNeighbours`, cell by cell. */
  lemma InBombNeighbours(b: Board, row: int, col: int, p: (int, int))
    requires Valid(b)
    ensures p in BombNeighbours(b, row, col) <==>
              InBounds(b, p.0, p.1) && Adjacent(row, col, p.0, p.1) && IsBomb(b, p.0, p.1)
  {
    if InBounds(b, p.0, p.1) && Adjacent(row, col, p.0, p.1) && IsBomb(b, p.0, p.1) {
      var i, j := p.0, p.1;
      assert (i, j) in BombNeighbours(b, row, col);
    }
  }

  lemma BombNeighboursAsUnion(b: Board, row: int, col: int)
    requires Valid(b) && InBounds(b, row, col)
    ensures BombNeighbours(b, row, col) ==
              BombAt(b, row - 1, col) + BombAt(b, row + 1, col) + BombAt(b, row, col - 1) + BombAt(b, row, col + 1)
  {
    var n := BombNeighbours(b, row, col);
    var u := BombAt(b, row - 1, col) + BombAt(b, row + 1, col) + BombAt(b, row, col - 1) + BombAt(b, row, col + 1);
    forall p
      ensures p in n <==> p in u
    {
      InBombNeighbours(b, row, col, p);
      AdjacentCases(row, col, p.0, p.1);
    }
  }

  lemma CardDisjointUnion(s: set<(int, int)>, t: set<(int, int)>)
    requires s * t == {}
    ensures |s + t| == |s| + |t|
  {
  }

  /** `nearBombs` is the number of bomb cells among the in-range orthogonal neighbours. */
  lemma NearBombsCountsAdjacentBombs(b: Board, row: int, col: int)
    requires Valid(b) && InBounds(b, row, col)
    ensures NearBombs(b, row, col) == |BombNeighbours(b, row, col)|
  {
    var u, d := BombAt(b, row - 1, col), BombAt(b, row + 1, col);
    var l, r := BombAt(b, row, col - 1), BombAt(b, row, col + 1);
    assert NearBombs(b, row, col) == |u| + |d| + |l| + |r|;
    BombNeighboursAsUnion(b, row, col);
    CardDisjointUnion(u, d);
    CardDisjointUnion(u + d, l);
    CardDisjointUnion(u + d + l, r);
  }

  /** `nearBombs` reads the bomb bits of the in-range orthogonal neighbours and nothing else. */
  lemma NearBombsReadsOnlyNeighbours(b1: Board, b2: Board, row: int, col: int)
    requires Valid(b1) && Valid(b2) && b1.nrows == b2.nrows && b1.ncols == b2.ncols
    requires InBounds(b1, row, col)
    requires forall i, j :: InBounds(b1, i, j) && Adjacent(row, col, i, j) ==> IsBomb(b1, i, j) == IsBomb(b2, i, j)
    ensures NearBombs(b1, row, col) == NearBombs(b2, row, col)
  {
  }

  /** Boards with the same bombs show the same counts everywhere. */
  lemma NearBombsDependsOnlyOnBombs(b1: Board, b2: Board)
    requires Valid(b1) && Valid(b2) && b1.nrows == b2.nrows && b1.ncols == b2.ncols
    requires SameBombs(b1, b2)
    ensures forall i, j :: InBounds(b1, i, j) ==> NearBombs(b1, i, j) == NearBombs(b2, i, j)
  {
    forall i, j | InBounds(b1, i, j)
      ensures NearBombs(b1, i, j) == NearBombs(b2, i, j)
    {
      NearBombsReadsOnlyNeighbours(b1, b2, i, j);
    }
  }

  /** The board with two rows and two columns whose only bomb is in the top-left corner. */
  function CornerBomb(): (b: Board)
    ensures Valid(b)
  {
    Board(2, 2, [1, 0, 0, 0])
  }

  /** On that board the diagonal cell counts no bomb. */
  lemma NearBombsIgnoresDiagonals()
    ensures NearBombs(CornerBomb(), 1, 1) == 0
  {
  }

  /** On that board the cells sharing an edge with the bomb count it once. */
  lemma NearBombsCountsEdges()
    ensures NearBombs(CornerBomb(), 0, 1) == 1
    ensures NearBombs(CornerBomb(), 1, 0) == 1
  {
  }

  /**
   The source's `leftClick`, without redrawing: a click on an uncovered cell
   does nothing; otherwise the cell is uncovered, and if it holds a bomb the
   whole board is uncovered.
   */
  function LeftClick(b: Board, row: int, col: int): (r: Board)
    requires Valid(b) && InBounds(b, row, col)
    ensures Valid(r) && r.nrows == b.nrows && r.ncols == b.ncols
    ensures SameBombs(b, r)
    ensures IsUncovered(r, row, col)
    ensures forall k :: 0 <= k < |b.cells| && Uncovered(b.cells[k]) ==> Uncovered(r.cells[k])
    ensures IsUncovered(b, row, col) ==> r == b
    ensures !IsUncovered(b, row, col) && !IsBomb(b, row, col) ==>
              GetField(r, row, col) == Pack(false, true) &&
              forall i, j :: InBounds(b, i, j) && (i, j) != (row, col) ==> GetField(r, i, j) == GetField(b, i, j)
    ensures !IsUncovered(b, row, col) && IsBomb(b, row, col) ==>
              AllUncovered(r) && forall k :: 0 <= k < |b.cells| ==> r.cells[k] == SetUncovered(b.cells[k])
  {
    if IsUncovered(b, row, col) then b
    else
      var b1 := Uncover(b, row, col);
      if IsBomb(b1, row, col) then
        var r := UncoverAll(b1);
        assert forall k :: 0 <= k < |b.cells| ==> r.cells[k] == SetUncovered(b.cells[k]) by {
          forall k | 0 <= k < |b.cells|
            ensures r.cells[k] == SetUncovered(b.cells[k])
          {
            SetUncoveredIdempotent(b.cells[k]);
          }
        }
        r
      else b1
  }

  /** The source's `rightClick`: it returns early on an uncovered cell and otherwise does nothing either. */
  function RightClick(b: Board, row: int, col: int): (r: Board)
    requires Valid(b) && InBounds(b, row, col)
    ensures r == b
  {
    b
  }

  /** A player action on one cell, as the mouse handler dispatches it. */
  datatype Click = Left(row: int, col: int) | Right(row: int, col: int)

  predicate ClicksInBounds(b: Board, clicks: seq<Click>) {
    forall t :: 0 <= t < |clicks| ==> InBounds(b, clicks[t].row, clicks[t].col)
  }

  function Step(b: Board, c: Click): (r: Board)
    requires Valid(b) && InBounds(b, c.row, c.col)
  {
    match c
    case Left(row, col) => LeftClick(b, row, col)
    case Right(row, col) => RightClick(b, row, col)
  }

  /**
   A game played as a sequence of clicks: the board keeps its size and its
   bombs, and no cell is ever covered again.
   */
  function Play(b: Board, clicks: seq<Click>): (r: Board)
    requires Valid(b) && ClicksInBounds(b, clicks)
    ensures Valid(r) && r.nrows == b.nrows && r.ncols == b.ncols
    ensures SameBombs(b, r)
    ensures forall k :: 0 <= k < |b.cells| && Uncovered(b.cells[k]) ==> Uncovered(r.cells[k])
    decreases |clicks|
  {
    if |clicks| == 0 then b
    else Play(Step(b, clicks[0]), clicks[1..])
  }

  /** No sequence of clicks changes the count shown for any cell. */
  lemma PlayKeepsNearBombs(b: Board, clicks: seq<Click>)
    requires Valid(b) && ClicksInBounds(b, clicks)
    ensures forall i, j :: InBounds(b, i, j) ==> NearBombs(Play(b, clicks), i, j) == NearBombs(b, i, j)
  {
    NearBombsDependsOnlyOnBombs(Play(b, clicks), b);
  }

  /**
   The literal `0.1` of the set-up loop as the IEEE 754 double the
   comparison actually uses: the nearest double to 1/10, slightly above it.
   */
  const BombThreshold: real := 0.1000000000000000055511151231257827021181583404541015625

  /** A draw equal to that double is a bomb, although it exceeds 1/10. */
  lemma ThresholdIsTheDouble()
    ensures BombThreshold > 0.1
    ensures BombThreshold == 3602879701896397.0 / 36028797018963968.0
  {
  }

  /**
   The board set-up loop of the `Minesweeper` constructor. `draws` are the
   successive results of the random generator; the loop counts down, so the
   `t`-th draw decides cell `n - 1 - t`, which gets a bomb when the draw is at
   most `BombThreshold`.
   */
  method Init(nrows: nat, ncols: nat, draws: seq<real>) returns (b: Board)
    requires |draws| == nrows * ncols
    ensures Valid(b) && b.nrows == nrows && b.ncols == ncols
    ensures forall k :: 0 <= k < |b.cells| ==> b.cells[k] == 0 || b.cells[k] == 1
    ensures forall k :: 0 <= k < |b.cells| ==> !Uncovered(b.cells[k])
    ensures forall k :: 0 <= k < |b.cells| ==> Bomb(b.cells[k]) == (draws[|draws| - 1 - k] <= BombThreshold)
  {
    var n := nrows * ncols;
    var a := new Code[n];
    var i := n;
    while i > 0
      invariant 0 <= i <= n
      invariant forall k :: i <= k < n ==> a[k] == if draws[n - 1 - k] <= BombThreshold then 1 else 0
    {
      i := i - 1;
      a[i] := if draws[n - 1 - i] <= BombThreshold then 1 else 0;
    }
    b := Board(nrows, ncols, a[..]);
  }
}
