/** src/App.jsx: the viewer's navigation state. The component keeps one piece of state,
    `currentCell`; `getVisibleCells` lays out the 5 x 7 window of ids around it and
    `handleCellClick` moves to a clicked cell when it is one king move away. Ids here are
    plain integers: the window reaches past the top and left edges of the grid, so they
    can be negative. */
module Viewer {
  import opened Grid

  function Abs(x: int): nat {
    if x < 0 then -x else x
  }

  /** `Math.floor(cell / 33)` */
  function ViewRow(cell: int): (row: int)
    ensures row * 33 <= cell < row * 33 + 33
  {
    cell / 33
  }

  /** `cell % 33` with JavaScript's truncating `%`: the remainder has the sign of `cell`. */
  function ViewCol(cell: int): (col: int)
    ensures cell >= 0 ==> 0 <= col < 33
    ensures cell < 0 ==> -33 < col <= 0
    ensures (cell - col) % 33 == 0
  {
    if cell >= 0 then cell % 33 else -((-cell) % 33)
  }

  /** On the ids of the grid the viewer's row and column are the grid's. */
  lemma ViewMatchesGrid(cell: nat)
    ensures ViewRow(cell) == Row(cell) && ViewCol(cell) == Col(cell)
  {
  }

  /** Entry `[i][j]` of the window around `center`: row `row - 2 + i`, column `col - 3 + j`. */
  function WindowCell(center: int, i: int, j: int): int {
    (ViewRow(center) - 2 + i) * 33 + (ViewCol(center) - 3 + j)
  }

  /** `getVisibleCells(centerCell)`: the rows `row - 2 .. row + 2`, each holding the ids of
      the columns `col - 3 .. col + 3`. */
  method GetVisibleCells(centerCell: int) returns (cells: seq<seq<int>>)
    ensures |cells| == 5
    ensures forall i :: 0 <= i < 5 ==> |cells[i]| == 7
    ensures forall i, j :: 0 <= i < 5 && 0 <= j < 7 ==> cells[i][j] == WindowCell(centerCell, i, j)
  {
    var row := ViewRow(centerCell);
    var col := ViewCol(centerCell);
    cells := [];
    var r := row - 2;
    while r <= row + 2
      invariant row - 2 <= r <= row + 3
      invariant |cells| == r - (row - 2)
      invariant forall i :: 0 <= i < |cells| ==> |cells[i]| == 7
      invariant forall i, j :: 0 <= i < |cells| && 0 <= j < 7 ==> cells[i][j] == WindowCell(centerCell, i, j)
    {
      var rowCells: seq<int> := [];
      var c := col - 3;
      while c <= col + 3
        invariant col - 3 <= c <= col + 4
        invariant |rowCells| == c - (col - 3)
        invariant forall j :: 0 <= j < |rowCells| ==> rowCells[j] == r * 33 + (col - 3 + j)
      {
        var cellId := r * 33 + c;
        rowCells := rowCells + [cellId];
        c := c + 1;
      }
      cells := cells + [rowCells];
      r := r + 1;
    }
  }

  /** The guard of `handleCellClick`: the target differs from the current cell by at most
      one row and at most one column, and not by zero in both. */
  predicate IsNeighbour(current: int, target: int) {
    var rowDiff := Abs(ViewRow(target) - ViewRow(current));
    var colDiff := Abs(ViewCol(target) - ViewCol(current));
    rowDiff <= 1 && colDiff <= 1 && !(rowDiff == 0 && colDiff == 0)
  }

  /** The `App` component's state. */
  class App {
    var currentCell: int

    /** `useState(504)` */
    constructor()
      ensures currentCell == 504
    {
      currentCell := 504;
    }

    /** `handleCellClick(cellId)`: move when the target is a neighbour, otherwise ignore. */
    method HandleCellClick(cellId: int)
      modifies this
      ensures currentCell == if IsNeighbour(old(currentCell), cellId) then cellId else old(currentCell)
    {
      var currentRow := ViewRow(currentCell);
      var currentCol := ViewCol(currentCell);
      var targetRow := ViewRow(cellId);
      var targetCol := ViewCol(cellId);
      var rowDiff := Abs(targetRow - currentRow);
      var colDiff := Abs(targetCol - currentCol);
      if rowDiff <= 1 && colDiff <= 1 && !(rowDiff == 0 && colDiff == 0) {
        currentCell := cellId;
      }
    }

    /** `visibleCells`, recomputed from the current state on every render. */
    method VisibleCells() returns (cells: seq<seq<int>>)
      ensures |cells| == 5 && forall i :: 0 <= i < 5 ==> |cells[i]| == 7
      ensures forall i, j :: 0 <= i < 5 && 0 <= j < 7 ==> cells[i][j] == WindowCell(currentCell, i, j)
    {
      cells := GetVisibleCells(currentCell);
    }
  }

  /** On the grid the window is centred on its cell. */
  lemma WindowCentre(center: int)
    requires center >= 0
    ensures WindowCell(center, 2, 3) == center
  {
    PositionRoundTrip(center);
  }

  /** Left to right a window row counts up by one; top to bottom a column counts up by 33. */
  lemma WindowSteps(center: int, i: int, j: int)
    ensures WindowCell(center, i, j + 1) == WindowCell(center, i, j) + 1
    ensures WindowCell(center, i + 1, j) == WindowCell(center, i, j) + 33
  {
  }

  /** Clicking the current cell does nothing. */
  lemma ClickSelfRejected(cell: int)
    ensures !IsNeighbour(cell, cell)
  {
  }

  /** A target two or more rows or columns away is refused. */
  lemma FarClickRejected(current: int, target: int)
    requires Abs(ViewRow(target) - ViewRow(current)) >= 2 || Abs(ViewCol(target) - ViewCol(current)) >= 2
    ensures !IsNeighbour(current, target)
  {
  }

  /** `currentCell + 1` from the last column lies at the start of the next row, 32 columns
      away, and is refused. */
  lemma RowWrapRejected(current: nat)
    requires Col(current) == 32
    ensures !IsNeighbour(current, current + 1)
  {
    PositionRoundTrip(current);
    PositionRoundTrip(current + 1);
    assert Row(current + 1) == Row(current) + 1 && Col(current + 1) == 0 by {
      CellAtRoundTrip(Row(current) + 1, 0);
      assert CellAt(Row(current) + 1, 0) == current + 1;
    }
  }

  /** On the grid a neighbour is one of the eight king-move offsets that does not wrap
      around the left or right edge. */
  lemma NeighbourOffsets(current: nat, target: nat)
    ensures IsNeighbour(current, target) <==>
      && target as int - current in {-34, -33, -32, -1, 1, 32, 33, 34}
      && -1 <= Col(target) - Col(current) <= 1
  {
    PositionRoundTrip(current);
    PositionRoundTrip(target);
  }

  /** Every cell the click handler accepts from a grid cell lies in its window, at the
      place given by the row and column differences. */
  lemma NeighboursVisible(current: nat, target: nat)
    requires IsNeighbour(current, target)
    ensures var i, j := 2 + Row(target) - Row(current), 3 + Col(target) - Col(current);
      0 <= i < 5 && 0 <= j < 7 && WindowCell(current, i, j) == target
  {
    PositionRoundTrip(current);
    PositionRoundTrip(target);
  }

  /** Above or left of the grid the two decompositions part ways: from cell 0 the click on
      -1 (shown left of 0) is accepted as a diagonal move, and the window around -1 has -34,
      not -1, at its centre. */
  lemma NegativeCellOffCentre()
    ensures IsNeighbour(0, -1)
    ensures WindowCell(-1, 2, 3) == -34
  {
    assert ViewRow(-1) == -1 && ViewCol(-1) == -1;
  }
}
