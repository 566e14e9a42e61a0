/** Concrete grids that show what each rule excludes. */
module Scenarios {
  import opened Grid
  import opened Adjacency
  import opened Constraints

  /** On the empty grid every cell may take any digit. */
  lemma EmptyGridAllCandidates(row: int, col: int)
    requires IsValidCell(row, col)
    ensures PossibleNumbers(EmptyBoard(), row, col) == Digits
    ensures Candidates(EmptyBoard(), row, col) == Digits
  {
    forall d ensures d in Candidates(EmptyBoard(), row, col) <==> d in Digits {
      CandidateIff(EmptyBoard(), row, col, d);
    }
  }

  /** The empty grid with a single 5 at row 3, column 3. */
  function FiveAtCentreCorner(): Board {
    Place(EmptyBoard(), 3, 3, 5)
  }

  /** A king step across a box corner: the classical rules allow the 5, the king rule does not. */
  lemma KingExcludesAcrossBoxes()
    ensures 5 in PossibleNumbers(FiveAtCentreCorner(), 2, 2)
    ensures 5 !in Candidates(FiveAtCentreCorner(), 2, 2)
  {
    var b := FiveAtCentreCorner();
    PossibleNumbersSpec(b, 2, 2, 5);
    AdjacencySpec(b, 2, 2, 5);
    assert Forbids(b, 2, 2, 5, 3, 3);
  }

  /** A knight jump into another box, row and column: excluded only by the knight rule. */
  lemma KnightExcludesAcrossBoxes()
    ensures 5 in PossibleNumbers(FiveAtCentreCorner(), 1, 2)
    ensures 5 !in Candidates(FiveAtCentreCorner(), 1, 2)
  {
    var b := FiveAtCentreCorner();
    PossibleNumbersSpec(b, 1, 2, 5);
    AdjacencySpec(b, 1, 2, 5);
    assert Forbids(b, 1, 2, 5, 3, 3);
  }

  /** The right-hand neighbour loses the 5 (same row) and the consecutive 4 and 6, nothing else. */
  lemma NeighbourExcludesConsecutive()
    ensures Candidates(FiveAtCentreCorner(), 3, 4) == Digits - {4, 5, 6}
  {
    var b := FiveAtCentreCorner();
    forall d ensures d in Candidates(b, 3, 4) <==> d in Digits - {4, 5, 6} {
      CandidateIff(b, 3, 4, d);
      if 1 <= d <= 9 && d !in {4, 5, 6} {
        forall k, l | IsValidCell(k, l) && (k, l) != (3, 4) && b[k][l] != 0
          ensures !Clash(d, b[k][l], 3, 4, k, l)
        {
          assert (k, l) == (3, 3);
        }
      }
      if d in {4, 5, 6} {
        assert Clash(d, b[3][3], 3, 4, 3, 3);
      }
    }
  }
}
