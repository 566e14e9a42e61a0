/** A finished grid: the empty grid has at least one legal completion. */
module Witness {
  import opened Grid
  import opened Adjacency
  import opened Constraints

  /** The first row; every row is this pattern rotated left. */
  const Pattern: seq<int> := [4, 8, 3, 7, 2, 6, 1, 5, 9]

  /** How far each row is rotated: three places per row, one more per band of three rows. */
  const Shift: seq<int> := [0, 3, 6, 1, 4, 7, 2, 5, 8]

  /** Position in `Pattern` of the digit at (i, j). */
  function Slot(i: int, j: int): int
    requires IsValidCell(i, j)
  {
    if j + Shift[i] < 9 then j + Shift[i] else j + Shift[i] - 9
  }

  /** A full grid obeying every rule. */
  function Solution(): Board {
    [
      [4, 8, 3, 7, 2, 6, 1, 5, 9],
      [7, 2, 6, 1, 5, 9, 4, 8, 3],
      [1, 5, 9, 4, 8, 3, 7, 2, 6],
      [8, 3, 7, 2, 6, 1, 5, 9, 4],
      [2, 6, 1, 5, 9, 4, 8, 3, 7],
      [5, 9, 4, 8, 3, 7, 2, 6, 1],
      [3, 7, 2, 6, 1, 5, 9, 4, 8],
      [6, 1, 5, 9, 4, 8, 3, 7, 2],
      [9, 4, 8, 3, 7, 2, 6, 1, 5]
    ]
  }

  /** Each row of the grid is `Pattern` rotated left by `Shift`. */
  lemma SolutionIsRotated(i: int, j: int)
    requires IsValidCell(i, j)
    ensures Solution()[i][j] == Pattern[Slot(i, j)]
  {
    assert i == 0 || i == 1 || i == 2 || i == 3 || i == 4 || i == 5 || i == 6 || i == 7 || i == 8;
    assert j == 0 || j == 1 || j == 2 || j == 3 || j == 4 || j == 5 || j == 6 || j == 7 || j == 8;
  }

  /** Digits in `Pattern` are equal only at the same slot, and consecutive only two slots apart. */
  lemma PatternDistance(x: int, y: int)
    requires 0 <= x < 9 && 0 <= y < 9
    ensures Pattern[x] == Pattern[y] <==> x == y
    ensures Abs(Pattern[x] - Pattern[y]) == 1 ==> x - y in {2, -7, -2, 7}
  {
    assert x == 0 || x == 1 || x == 2 || x == 3 || x == 4 || x == 5 || x == 6 || x == 7 || x == 8;
    assert y == 0 || y == 1 || y == 2 || y == 3 || y == 4 || y == 5 || y == 6 || y == 7 || y == 8;
  }

  /** How the rotation changes between rows. */
  lemma ShiftSteps(i: int, k: int)
    requires 0 <= i < 9 && 0 <= k < 9
    ensures i != k ==> Shift[i] != Shift[k]
    ensures i / 3 == k / 3 ==> Shift[i] - Shift[k] == 3 * (i - k)
    ensures i - k == 1 ==> Shift[i] - Shift[k] in {3, -5}
    ensures i - k == 2 ==> Shift[i] - Shift[k] in {6, -2}
  {
    assert i == 0 || i == 1 || i == 2 || i == 3 || i == 4 || i == 5 || i == 6 || i == 7 || i == 8;
    assert k == 0 || k == 1 || k == 2 || k == 3 || k == 4 || k == 5 || k == 6 || k == 7 || k == 8;
  }

  /** The slots of two cells differ by the column offset plus the rotation offset, up to a wrap. */
  lemma SlotOffset(i: int, j: int, k: int, l: int)
    requires IsValidCell(i, j) && IsValidCell(k, l)
    ensures var e := (j - l) + (Shift[i] - Shift[k]);
            Slot(i, j) - Slot(k, l) in {e - 9, e, e + 9}
  {
  }

  /** Cells in one row, column or box hold different slots. */
  lemma UnitSlotsDiffer(i: int, j: int, k: int, l: int)
    requires IsValidCell(i, j) && IsValidCell(k, l) && (i, j) != (k, l)
    requires SameUnit(i, j, k, l)
    ensures Slot(i, j) != Slot(k, l)
  {
    SlotOffset(i, j, k, l);
    ShiftSteps(i, k);
    if i != k && j != l {
      // Same box: the rotation offset is three per row, the column offset at most two.
      assert -2 <= j - l <= 2 && -2 <= i - k <= 2;
    }
  }

  /** Knight- and king-related cells hold different slots. */
  lemma NearSlotsDiffer(i: int, j: int, k: int, l: int)
    requires IsValidCell(i, j) && IsValidCell(k, l)
    requires KnightRelated(i, j, k, l) || KingRelated(i, j, k, l)
    ensures Slot(i, j) != Slot(k, l)
  {
    SlotOffset(i, j, k, l);
    ShiftSteps(i, k);
    ShiftSteps(k, i);
  }

  /** Orthogonal neighbours are never two slots apart, so they never hold consecutive digits. */
  lemma OrthogonalSlots(i: int, j: int, k: int, l: int)
    requires IsValidCell(i, j) && IsValidCell(k, l) && Orthogonal(i, j, k, l)
    ensures Slot(i, j) - Slot(k, l) !in {2, -7, -2, 7}
  {
    SlotOffset(i, j, k, l);
    ShiftSteps(i, k);
    ShiftSteps(k, i);
  }

  /** No two cells of the grid clash. */
  lemma SolutionPair(i: int, j: int, k: int, l: int)
    requires IsValidCell(i, j) && IsValidCell(k, l) && (i, j) != (k, l)
    ensures !Clash(Solution()[i][j], Solution()[k][l], i, j, k, l)
  {
    SolutionIsRotated(i, j);
    SolutionIsRotated(k, l);
    PatternDistance(Slot(i, j), Slot(k, l));
    if SameUnit(i, j, k, l) {
      UnitSlotsDiffer(i, j, k, l);
    }
    if KnightRelated(i, j, k, l) || KingRelated(i, j, k, l) {
      NearSlotsDiffer(i, j, k, l);
    }
    if Orthogonal(i, j, k, l) {
      OrthogonalSlots(i, j, k, l);
    }
  }

  /** The grid completes the empty grid: it is full, legal, and (trivially) keeps every filled cell. */
  lemma SolutionCompletesEmpty()
    ensures IsCompletion(EmptyBoard(), Solution())
  {
    var s := Solution();
    forall i, j | IsValidCell(i, j)
      ensures 1 <= s[i][j] <= 9 && Compatible(s, i, j, s[i][j])
    {
      SolutionIsRotated(i, j);
      forall k, l | IsValidCell(k, l) && (k, l) != (i, j) && s[k][l] != 0
        ensures !Clash(s[i][j], s[k][l], i, j, k, l)
      {
        SolutionPair(i, j, k, l);
      }
    }
  }
}
