/** Choosing the next cell to fill: any empty cell, or a most constrained one. */
module Selector {
  import opened Grid
  import opened Constraints

  /** The empty cells of row `row` from column `col` on, left to right. */
  function EmptyInRow(b: Board, row: int, col: int): seq<(int, int)>
    requires 0 <= row < 9 && 0 <= col <= 9
    decreases 9 - col
  {
    if col == 9 then []
    else (if b[row][col] == 0 then [(row, col)] else []) + EmptyInRow(b, row, col + 1)
  }

  /** The empty cells of rows `row`..8 in row-major order. */
  function EmptyFrom(b: Board, row: int): seq<(int, int)>
    requires 0 <= row <= 9
    decreases 9 - row
  {
    if row == 9 then [] else EmptyInRow(b, row, 0) + EmptyFrom(b, row + 1)
  }

  /** The list comprehension of `find_empty_cell`: every empty cell, row by row. */
  function EmptyCells(b: Board): seq<(int, int)> {
    EmptyFrom(b, 0)
  }

  lemma {:induction false} EmptyInRowMembers(b: Board, row: int, col: int, x: (int, int))
    requires 0 <= row < 9 && 0 <= col <= 9
    ensures x in EmptyInRow(b, row, col) <==> x.0 == row && col <= x.1 < 9 && b[row][x.1] == 0
    decreases 9 - col
  {
    if col < 9 {
      EmptyInRowMembers(b, row, col + 1, x);
    }
  }

  lemma {:induction false} EmptyFromMembers(b: Board, row: int, x: (int, int))
    requires 0 <= row <= 9
    ensures x in EmptyFrom(b, row) <==> row <= x.0 < 9 && 0 <= x.1 < 9 && b[x.0][x.1] == 0
    decreases 9 - row
  {
    if row < 9 {
      EmptyInRowMembers(b, row, 0, x);
      EmptyFromMembers(b, row + 1, x);
    }
  }

  /** The comprehension lists exactly the empty cells. */
  lemma EmptyCellsMembers(b: Board)
    ensures forall x :: x in EmptyCells(b) <==> IsValidCell(x.0, x.1) && b[x.0][x.1] == 0
  {
    forall x ensures x in EmptyCells(b) <==> IsValidCell(x.0, x.1) && b[x.0][x.1] == 0 {
      EmptyFromMembers(b, 0, x);
    }
  }

  /** There is no empty cell to list exactly when the grid is full. */
  lemma EmptyCellsFull(b: Board)
    ensures EmptyCells(b) == [] <==> Full(b)
  {
    EmptyCellsMembers(b);
    if EmptyCells(b) == [] {
      forall i, j | IsValidCell(i, j) ensures b[i][j] != 0 {
        assert (i, j) !in EmptyCells(b);
      }
    } else {
      assert EmptyCells(b)[0] in EmptyCells(b);
    }
  }

  /** `find_empty_cell`: `random.choice` over the empty cells, with the random draw
      given as `pick` (taken modulo the number of empty cells); (-1, -1) on a full grid. */
  function FindEmptyCell(b: Board, pick: nat): (cell: (int, int))
    ensures cell == (-1, -1) <==> Full(b)
    ensures cell != (-1, -1) ==> IsValidCell(cell.0, cell.1) && b[cell.0][cell.1] == 0
  {
    EmptyCellsMembers(b);
    EmptyCellsFull(b);
    var emptyCells := EmptyCells(b);
    if emptyCells == [] then
      (-1, -1)
    else
      assert emptyCells[pick % |emptyCells|] in emptyCells;
      emptyCells[pick % |emptyCells|]
  }

  lemma ModSmall(k: int, n: int)
    requires 0 <= k < n
    ensures k % n == k
  {
  }

  /** Every empty cell is one that some draw returns. */
  lemma FindEmptyCellReachesAll(b: Board, i: int, j: int)
    requires IsValidCell(i, j) && b[i][j] == 0
    ensures exists pick: nat :: FindEmptyCell(b, pick) == (i, j)
  {
    EmptyCellsMembers(b);
    var cells := EmptyCells(b);
    assert (i, j) in cells;
    var k :| 0 <= k < |cells| && cells[k] == (i, j);
    ModSmall(k, |cells|);
    assert FindEmptyCell(b, k) == cells[k];
  }

  /** (i, j) comes before position (row, col) in the row-major scan. */
  predicate Scanned(i: int, j: int, row: int, col: int) {
    i < row || (i == row && j < col)
  }

  /** What the scan of `find_most_constrained_cell` knows once it reaches (row, col):
      every cell in `minCells` is a scanned empty cell with `minPossible` full candidates,
      no scanned empty cell has fewer, and `minPossible` is still 10 while no empty cell
      was seen. */
  ghost predicate ScanState(b: Board, row: int, col: int, minPossible: int, minCells: seq<(int, int)>) {
    (forall k :: 0 <= k < |minCells| ==>
       IsValidCell(minCells[k].0, minCells[k].1) && Scanned(minCells[k].0, minCells[k].1, row, col) &&
       b[minCells[k].0][minCells[k].1] == 0 && |Candidates(b, minCells[k].0, minCells[k].1)| == minPossible) &&
    (forall i, j :: IsValidCell(i, j) && Scanned(i, j, row, col) && b[i][j] == 0 ==>
       minPossible <= |Candidates(b, i, j)|) &&
    (minCells == [] ==>
       minPossible == 10 && forall i, j :: IsValidCell(i, j) && Scanned(i, j, row, col) ==> b[i][j] != 0)
  }

  /** One step of the scan: (row, col) is filled, or has more candidates than the minimum. */
  lemma ScanKeep(b: Board, row: int, col: int, minPossible: int, minCells: seq<(int, int)>)
    requires IsValidCell(row, col) && ScanState(b, row, col, minPossible, minCells)
    requires b[row][col] != 0 || (minCells != [] && |Candidates(b, row, col)| > minPossible)
    ensures ScanState(b, row, col + 1, minPossible, minCells)
  {
  }

  /** One step of the scan: (row, col) beats the minimum so far. */
  lemma ScanNewMin(b: Board, row: int, col: int, minPossible: int, minCells: seq<(int, int)>)
    requires IsValidCell(row, col) && ScanState(b, row, col, minPossible, minCells)
    requires b[row][col] == 0 && |Candidates(b, row, col)| < minPossible
    ensures ScanState(b, row, col + 1, |Candidates(b, row, col)|, [(row, col)])
  {
  }

  /** One step of the scan: (row, col) ties with the minimum so far. */
  lemma ScanTie(b: Board, row: int, col: int, minPossible: int, minCells: seq<(int, int)>)
    requires IsValidCell(row, col) && ScanState(b, row, col, minPossible, minCells)
    requires b[row][col] == 0 && |Candidates(b, row, col)| == minPossible
    ensures ScanState(b, row, col + 1, minPossible, minCells + [(row, col)])
  {
    CandidatesAtMostNine(b, row, col);
  }

  lemma ScanNextRow(b: Board, row: int, minPossible: int, minCells: seq<(int, int)>)
    requires 0 <= row < 9 && ScanState(b, row, 9, minPossible, minCells)
    ensures ScanState(b, row + 1, 0, minPossible, minCells)
  {
  }

  /** `find_most_constrained_cell`: scans the grid row by row, keeps the empty cells
      with the fewest full candidates, and returns any one of them (the random
      tie-break is a free choice here), or (-1, -1) when no cell is empty. */
  method FindMostConstrainedCell(b: Board) returns (cell: (int, int))
    ensures cell == (-1, -1) <==> Full(b)
    ensures cell != (-1, -1) ==>
              IsValidCell(cell.0, cell.1) && b[cell.0][cell.1] == 0 &&
              forall i, j :: IsValidCell(i, j) && b[i][j] == 0 ==>
                |Candidates(b, cell.0, cell.1)| <= |Candidates(b, i, j)|
  {
    var minPossible := 10;
    var minCells: seq<(int, int)> := [];
    for row := 0 to 9
      invariant ScanState(b, row, 0, minPossible, minCells)
    {
      for col := 0 to 9
        invariant ScanState(b, row, col, minPossible, minCells)
      {
        if b[row][col] == 0 {
          var possibleNumbers := GetNumbers(b, row, col);
          if |possibleNumbers| < minPossible {
            ScanNewMin(b, row, col, minPossible, minCells);
            minPossible := |possibleNumbers|;
            minCells := [(row, col)];
          } else if |possibleNumbers| == minPossible {
            ScanTie(b, row, col, minPossible, minCells);
            minCells := minCells + [(row, col)];
          } else {
            ScanKeep(b, row, col, minPossible, minCells);
          }
        } else {
          ScanKeep(b, row, col, minPossible, minCells);
        }
      }
      ScanNextRow(b, row, minPossible, minCells);
    }
    if minCells != [] {
      var k :| 0 <= k < |minCells|;
      cell := minCells[k];
    } else {
      cell := (-1, -1);
    }
  }
}
