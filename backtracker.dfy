/** The randomised backtracking search that fills the grid in place. */
module Backtracker {
  import opened Grid
  import opened Adjacency
  import opened Constraints
  import opened Validator
  import opened Selector
  import opened Witness

  /** (i, j) is an empty cell other than (row, col) sharing its row, column or box. */
  ghost predicate EmptyPeer(b: Board, row: int, col: int, i: int, j: int) {
    IsValidCell(i, j) && (i, j) != (row, col) && SameUnit(row, col, i, j) && b[i][j] == 0
  }

  /** `get_neighboring_cells`: the column and row scan, then the box scan. Cells that lie
      in the box and in the row or column are listed twice; only which cells appear is
      specified. */
  method GetNeighboringCells(b: Board, row: int, col: int) returns (neighbors: seq<(int, int)>)
    requires IsValidCell(row, col)
    ensures forall n :: n in neighbors ==> EmptyPeer(b, row, col, n.0, n.1)
    ensures forall i, j :: EmptyPeer(b, row, col, i, j) ==> (i, j) in neighbors
  {
    neighbors := [];
    for i := 0 to 9
      invariant forall n :: n in neighbors ==> EmptyPeer(b, row, col, n.0, n.1)
      invariant forall k :: 0 <= k < i && k != row && b[k][col] == 0 ==> (k, col) in neighbors
      invariant forall k :: 0 <= k < i && k != col && b[row][k] == 0 ==> (row, k) in neighbors
    {
      if i != row && b[i][col] == 0 {
        neighbors := neighbors + [(i, col)];
      }
      if i != col && b[row][i] == 0 {
        neighbors := neighbors + [(row, i)];
      }
    }
    var boxStartRow, boxStartCol := BoxStart(row), BoxStart(col);
    forall k | 0 <= k < 9 ensures (boxStartRow <= k < boxStartRow + 3 <==> k / 3 == row / 3) {
      BoxRange(row, k);
    }
    forall k | 0 <= k < 9 ensures (boxStartCol <= k < boxStartCol + 3 <==> k / 3 == col / 3) {
      BoxRange(col, k);
    }
    ghost var lineCells := neighbors;
    for i := boxStartRow to boxStartRow + 3
      invariant forall n :: n in neighbors ==> EmptyPeer(b, row, col, n.0, n.1)
      invariant forall n :: n in lineCells ==> n in neighbors
      invariant forall k, l ::
                  (boxStartRow <= k < i && boxStartCol <= l < boxStartCol + 3 &&
                   (k, l) != (row, col) && b[k][l] == 0) ==> (k, l) in neighbors
    {
      for j := boxStartCol to boxStartCol + 3
        invariant forall n :: n in neighbors ==> EmptyPeer(b, row, col, n.0, n.1)
        invariant forall n :: n in lineCells ==> n in neighbors
        invariant forall k, l ::
                    (boxStartRow <= k < i && boxStartCol <= l < boxStartCol + 3 &&
                     (k, l) != (row, col) && b[k][l] == 0) ==> (k, l) in neighbors
        invariant forall l :: boxStartCol <= l < j && (i, l) != (row, col) && b[i][l] == 0 ==> (i, l) in neighbors
      {
        if (i != row || j != col) && b[i][j] == 0 {
          neighbors := neighbors + [(i, j)];
        }
      }
    }
  }

  /** Whether every empty neighbour has a base candidate can be read off any list
      that holds exactly the empty neighbours. */
  lemma NeighborsDecide(b: Board, row: int, col: int, neighbors: seq<(int, int)>)
    requires IsValidCell(row, col)
    requires forall n :: n in neighbors ==> EmptyPeer(b, row, col, n.0, n.1)
    requires forall i, j :: EmptyPeer(b, row, col, i, j) ==> (i, j) in neighbors
    ensures (forall m :: 0 <= m < |neighbors| ==>
               IsValidCell(neighbors[m].0, neighbors[m].1) &&
               PossibleNumbers(b, neighbors[m].0, neighbors[m].1) != {}) <==>
            (forall i, j :: EmptyPeer(b, row, col, i, j) ==> PossibleNumbers(b, i, j) != {})
  {
    if forall m :: 0 <= m < |neighbors| ==>
         IsValidCell(neighbors[m].0, neighbors[m].1) &&
         PossibleNumbers(b, neighbors[m].0, neighbors[m].1) != {} {
      forall i, j | EmptyPeer(b, row, col, i, j) ensures PossibleNumbers(b, i, j) != {} {
        var m :| 0 <= m < |neighbors| && neighbors[m] == (i, j);
      }
    } else {
      var m :| 0 <= m < |neighbors| &&
               !(IsValidCell(neighbors[m].0, neighbors[m].1) &&
                 PossibleNumbers(b, neighbors[m].0, neighbors[m].1) != {});
      assert neighbors[m] in neighbors;
    }
  }

  /** Lines 89-95 of `solve_sudoku`: after a placement, every empty neighbour must
      still have a base candidate; the scan stops at the first one that has none. */
  method ForwardCheck(b: Board, row: int, col: int) returns (validForwardCheck: bool)
    requires IsValidCell(row, col)
    ensures validForwardCheck <==>
              forall i, j :: EmptyPeer(b, row, col, i, j) ==> PossibleNumbers(b, i, j) != {}
  {
    var neighbors := GetNeighboringCells(b, row, col);
    NeighborsDecide(b, row, col, neighbors);
    validForwardCheck := true;
    var k := 0;
    while k < |neighbors|
      invariant 0 <= k <= |neighbors|
      invariant validForwardCheck
      invariant forall m :: 0 <= m < k ==>
                  IsValidCell(neighbors[m].0, neighbors[m].1) &&
                  PossibleNumbers(b, neighbors[m].0, neighbors[m].1) != {}
    {
      var r, c := neighbors[k].0, neighbors[k].1;
      var possibleNumsForNeighbor := PossibleNumbers(b, r, c);
      if possibleNumsForNeighbor == {} {
        validForwardCheck := false;
        break;
      }
      k := k + 1;
    }
  }

  // Why each way a candidate can fail rules out every completion that uses it.

  /** A completion puts one of the base candidates into the chosen cell. */
  lemma CompletionsUseBaseCandidates(b: Board, row: int, col: int)
    requires IsValidCell(row, col) && b[row][col] == 0
    ensures forall s :: IsCompletion(b, s) ==> s[row][col] in PossibleNumbers(b, row, col)
  {
    forall s | IsCompletion(b, s) ensures s[row][col] in PossibleNumbers(b, row, col) {
      CompletionChoosesCandidate(b, s, row, col);
    }
  }

  /** A digit the adjacency rule rejects is in no completion. */
  lemma RejectedDigitUnused(b: Board, row: int, col: int, num: int)
    requires IsValidCell(row, col) && b[row][col] == 0
    requires !IsValidPlacement(b, row, col, num)
    ensures forall s :: IsCompletion(b, s) ==> s[row][col] != num
  {
    forall s | IsCompletion(b, s) ensures s[row][col] != num {
      CompletionChoosesCandidate(b, s, row, col);
    }
  }

  /** A placement that leaves an empty neighbour without base candidates is in no completion. */
  lemma DeadEndDigitUnused(b: Board, row: int, col: int, num: int)
    requires IsValidCell(row, col) && b[row][col] == 0
    requires !forall i, j :: EmptyPeer(Place(b, row, col, num), row, col, i, j) ==>
                PossibleNumbers(Place(b, row, col, num), i, j) != {}
    ensures forall s :: IsCompletion(b, s) ==> s[row][col] != num
  {
    var placed := Place(b, row, col, num);
    var i, j :| EmptyPeer(placed, row, col, i, j) && PossibleNumbers(placed, i, j) == {};
    forall s | IsCompletion(b, s) ensures s[row][col] != num {
      if s[row][col] == num {
        CompletionChoosesCandidate(b, s, row, col);
        CompletionLeavesCandidates(placed, s, i, j);
      }
    }
  }

  /** A placement from which no completion exists is in no completion. */
  lemma UnsolvableDigitUnused(b: Board, row: int, col: int, num: int)
    requires IsValidCell(row, col) && b[row][col] == 0
    requires forall s :: !IsCompletion(Place(b, row, col, num), s)
    ensures forall s :: IsCompletion(b, s) ==> s[row][col] != num
  {
    forall s | IsCompletion(b, s) ensures s[row][col] != num {
      if s[row][col] == num {
        CompletionChoosesCandidate(b, s, row, col);
      }
    }
  }

  /** What the search ends with after filling an empty cell extends the grid it started from. */
  lemma ExtendsThroughPlace(b: Board, row: int, col: int, num: int, s: Board)
    requires IsValidCell(row, col) && b[row][col] == 0
    requires Extends(Place(b, row, col, num), s)
    ensures Extends(b, s)
  {
  }

  /** One assignment `board[row][col] = d` on the array. */
  method Write(g: array2<int>, row: int, col: int, d: int)
    requires g.Length0 == 9 && g.Length1 == 9 && IsValidCell(row, col)
    modifies g
    ensures Cells(g) == Place(old(Cells(g)), row, col, d)
  {
    g[row, col] := d;
    BoardExt(Cells(g), Place(old(Cells(g)), row, col, d));
  }

  /** `solve_sudoku`: picks a most constrained empty cell, tries its base candidates in
      any order (the shuffle is a free choice here), writes a digit that passes the
      adjacency rule, forward-checks, recurses, and undoes the write on failure.
      On success the grid is complete and extends the input (and stays legal if the
      input was); on failure the grid is as it was and no legal completion exists. */
  method SolveSudoku(g: array2<int>) returns (solved: bool)
    requires g.Length0 == 9 && g.Length1 == 9
    modifies g
    ensures solved ==> Full(Cells(g)) && Extends(old(Cells(g)), Cells(g))
    ensures solved && Legal(old(Cells(g))) ==> Legal(Cells(g))
    ensures !solved ==> Cells(g) == old(Cells(g))
    ensures !solved ==> forall s :: !IsCompletion(old(Cells(g)), s)
    decreases |Blanks(Cells(g))|
  {
    var b := Cells(g);
    var cell := FindMostConstrainedCell(b);
    var row, col := cell.0, cell.1;
    if row == -1 && col == -1 {
      return true;
    }
    var possibleNumbers := PossibleNumbers(b, row, col);
    CompletionsUseBaseCandidates(b, row, col);
    var untried := possibleNumbers;
    while untried != {}
      invariant untried <= possibleNumbers
      invariant Cells(g) == b
      invariant forall s :: IsCompletion(b, s) ==> s[row][col] in untried
      decreases untried
    {
      var num :| num in untried;
      untried := untried - {num};
      if !IsValidPlacement(b, row, col, num) {
        RejectedDigitUnused(b, row, col, num);
        continue;
      }
      var placed := Place(b, row, col, num);
      Write(g, row, col, num);
      // The source redraws the window here (lines 84-87); that has no effect on the grid.
      var validForwardCheck := ForwardCheck(placed, row, col);
      if !validForwardCheck {
        DeadEndDigitUnused(b, row, col, num);
        Write(g, row, col, 0);
        PlaceUndo(b, row, col, num);
        continue;
      }
      PlaceShrinksBlanks(b, row, col, num);
      var ok := SolveSudoku(g);
      if ok {
        ExtendsThroughPlace(b, row, col, num, Cells(g));
        if Legal(b) {
          assert num in Candidates(b, row, col);
          PlaceKeepsLegal(b, row, col, num);
        }
        return true;
      }
      UnsolvableDigitUnused(b, row, col, num);
      Write(g, row, col, 0);
      PlaceUndo(b, row, col, num);
    }
    return false;
  }

  /** No two king or knight neighbours hold the same digit, and no two orthogonal
      neighbours hold consecutive digits. */
  ghost predicate ChessRules(b: Board) {
    forall i, j, k, l :: IsValidCell(i, j) && IsValidCell(k, l) ==>
      ((KnightRelated(i, j, k, l) || KingRelated(i, j, k, l)) ==> b[i][j] != b[k][l]) &&
      (Orthogonal(i, j, k, l) ==> Abs(b[i][j] - b[k][l]) != 1)
  }

  /** A complete legal grid is a finished puzzle: digits 1..9, accepted by the
      validator, and obeying the chess rules. */
  lemma SolvedGrid(b: Board)
    requires Full(b) && Legal(b)
    ensures forall i, j :: IsValidCell(i, j) ==> 1 <= b[i][j] <= 9
    ensures ValidSudoku(b)
    ensures ChessRules(b)
  {
    LegalIsValid(b);
    forall i, j, k, l | IsValidCell(i, j) && IsValidCell(k, l)
      ensures (KnightRelated(i, j, k, l) || KingRelated(i, j, k, l)) ==> b[i][j] != b[k][l]
      ensures Orthogonal(i, j, k, l) ==> Abs(b[i][j] - b[k][l]) != 1
    {
      if (i, j) != (k, l) {
        assert Compatible(b, i, j, b[i][j]);
      }
    }
  }

  lemma EmptyBoardLegal()
    ensures Legal(EmptyBoard())
  {
  }

  /** `generate_sudoku`: a fresh empty grid, then one search (its result is ignored).
      The empty grid has a legal completion (`SolutionCompletesEmpty`) and the search
      is complete, so it always succeeds: the grid returned is a finished puzzle, which
      passes `is_valid_sudoku`, and the log write for an invalid grid never happens. */
  method GenerateSudoku() returns (puzzle: array2<int>)
    ensures fresh(puzzle) && puzzle.Length0 == 9 && puzzle.Length1 == 9
    ensures Full(Cells(puzzle)) && Legal(Cells(puzzle)) && ChessRules(Cells(puzzle))
    ensures forall i, j :: IsValidCell(i, j) ==> 1 <= Cells(puzzle)[i][j] <= 9
    ensures ValidSudoku(Cells(puzzle))
  {
    puzzle := new int[9, 9]((_, _) => 0);
    BoardExt(Cells(puzzle), EmptyBoard());
    EmptyBoardLegal();
    SolutionCompletesEmpty();
    var solved := SolveSudoku(puzzle);
    // A failed search would mean the empty grid has no completion.
    assert solved;
    SolvedGrid(Cells(puzzle));
    var valid := IsValidSudoku(Cells(puzzle));
    // Lines 65-67 append an invalid grid to the log file; `valid` always holds here.
    assert valid;
  }
}
