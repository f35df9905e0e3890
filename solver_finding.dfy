/** The bounds depth_first_search checks before it descends, shown on a
    board of one row: as written they ignore the targets still to be
    decided, so they refuse the root of a board whose mines all lie on
    targets, and the search records no placement at all. The corrected
    bounds (Solver.MineSweeperSolver.BombGuard and SafeGuard) let the
    search reach every consistent placement. */
module SolverFinding {
  import opened Wrappers
  import opened SolverGrid
  import opened Solver

  /** The bound of the bomb branch as written: the mines left after this
      one fit on the hard cells alone. */
  predicate AsWrittenBombGuard(nHard: int, nTotal: int, nDefined: int)
  {
    nHard >= nTotal - nDefined - 1 && nDefined + 1 <= nTotal
  }

  /** The bound of the safe branch as written. */
  predicate AsWrittenSafeGuard(nHard: int, nTotal: int, nDefined: int)
  {
    nHard >= nTotal - nDefined && nDefined <= nTotal
  }

  /** One row of six cells: closed, 1, closed, closed, 1, closed, with two
      mines in all. Every closed cell touches a 1, so there is no hard
      cell; neither 1 decides anything, so all four closed cells are
      targets. */
  const Row: seq<seq<int>> := [[-1, 1, -1, -1, 1, -1]]
  const RowMines: int := 2

  /** Mines on the first and the fourth cell meet both clues. */
  const Placement: set<(int, int)> := {(0, 0), (0, 3)}

  lemma RowListsLeft(nl: seq<seq<seq<(int, int)>>>)
    requires IsNeighborTable(nl, 1, 6)
    ensures nl[0][0] == [(0, 1)] && nl[0][1] == [(0, 0), (0, 2)] && nl[0][2] == [(0, 1), (0, 3)]
  {
  }

  lemma RowListsRight(nl: seq<seq<seq<(int, int)>>>)
    requires IsNeighborTable(nl, 1, 6)
    ensures nl[0][3] == [(0, 2), (0, 4)] && nl[0][4] == [(0, 3), (0, 5)] && nl[0][5] == [(0, 4)]
  {
  }

  lemma RowLists(nl: seq<seq<seq<(int, int)>>>)
    requires IsNeighborTable(nl, 1, 6)
    ensures nl[0][0] == [(0, 1)] && nl[0][1] == [(0, 0), (0, 2)] && nl[0][2] == [(0, 1), (0, 3)]
    ensures nl[0][3] == [(0, 2), (0, 4)] && nl[0][4] == [(0, 3), (0, 5)] && nl[0][5] == [(0, 4)]
  {
    RowListsLeft(nl);
    RowListsRight(nl);
  }

  /** Neither 1 has as many closed neighbours as its clue, and every
      closed cell has an open neighbour. */
  lemma RowCounts()
    ensures CloseCount(Row, 1, 6, [(0, 0), (0, 2)]) == 2 && CloseCount(Row, 1, 6, [(0, 3), (0, 5)]) == 2
    ensures CloseCount(Row, 1, 6, [(0, 1)]) == 0 && CloseCount(Row, 1, 6, [(0, 4)]) == 0
    ensures CloseCount(Row, 1, 6, [(0, 1), (0, 3)]) == 1 && CloseCount(Row, 1, 6, [(0, 2), (0, 4)]) == 1
    ensures OpenCount(Row, 1, 6, [(0, 1)]) == 1 && OpenCount(Row, 1, 6, [(0, 4)]) == 1
    ensures OpenCount(Row, 1, 6, [(0, 1), (0, 3)]) == 1 && OpenCount(Row, 1, 6, [(0, 2), (0, 4)]) == 1
  {
    assert [(0, 0), (0, 2)][..1] == [(0, 0)] && [(0, 3), (0, 5)][..1] == [(0, 3)];
    assert [(0, 1), (0, 3)][..1] == [(0, 1)] && [(0, 2), (0, 4)][..1] == [(0, 2)];
  }

  lemma RowCells()
    ensures |Row| == 1 && Row[0] == [-1, 1, -1, -1, 1, -1]
  {
  }

  /** The open cells of the row are its two 1s. */
  lemma RowOpenCells()
    ensures forall y, x :: 0 <= y < 1 && 0 <= x < 6 && Row[y][x] != -1 ==> y == 0 && (x == 1 || x == 4) && Row[y][x] == 1
  {
  }

  lemma RowNotHardLeft(height: nat, width: nat, nl: seq<seq<seq<(int, int)>>>)
    requires height == 1 && width == 6 && Board(Row, height, width, nl)
    ensures !IsHard(Row, height, width, nl, 0, 0) && !IsHard(Row, height, width, nl, 0, 1)
    ensures !IsHard(Row, height, width, nl, 0, 2)
  {
    RowLists(nl);
    RowCounts();
    RowCells();
  }

  lemma RowNotHardRight(height: nat, width: nat, nl: seq<seq<seq<(int, int)>>>)
    requires height == 1 && width == 6 && Board(Row, height, width, nl)
    ensures !IsHard(Row, height, width, nl, 0, 3) && !IsHard(Row, height, width, nl, 0, 4)
    ensures !IsHard(Row, height, width, nl, 0, 5)
  {
    RowLists(nl);
    RowCounts();
    RowCells();
  }

  /** The placement puts one mine next to each 1. */
  lemma PlacementCounts()
    ensures CountIn(Placement, [(0, 0), (0, 2)]) == 1 && CountIn(Placement, [(0, 3), (0, 5)]) == 1
  {
    assert [(0, 0), (0, 2)][..1] == [(0, 0)] && [(0, 3), (0, 5)][..1] == [(0, 3)];
  }

  /** The row has no hard cell. The sizes are passed as variables so that
      the neighbour lists are taken from RowLists, not recomputed. */
  lemma RowNoHard(height: nat, width: nat, nl: seq<seq<seq<(int, int)>>>)
    requires height == 1 && width == 6 && Board(Row, height, width, nl)
    ensures HardCount(Row, height, width, nl, height) == 0
  {
    RowNotHardLeft(height, width, nl);
    RowNotHardRight(height, width, nl);
    assert HardInRow(Row, height, width, nl, 0, 1) == 0;
    assert HardInRow(Row, height, width, nl, 0, 2) == 0;
    assert HardInRow(Row, height, width, nl, 0, 3) == 0;
    assert HardInRow(Row, height, width, nl, 0, 4) == 0;
    assert HardInRow(Row, height, width, nl, 0, 5) == 0;
    assert HardInRow(Row, height, width, nl, 0, 6) == 0;
    assert HardCount(Row, height, width, nl, 0) == 0;
  }

  lemma RowNoBombByLeft(height: nat, width: nat, nl: seq<seq<seq<(int, int)>>>, y: int, x: int)
    requires height == 1 && width == 6 && Board(Row, height, width, nl) && 0 <= y < height && 0 <= x < width
    ensures !BombBy(Row, height, width, nl, 0, 0, y, x) && !BombBy(Row, height, width, nl, 0, 1, y, x)
    ensures !BombBy(Row, height, width, nl, 0, 2, y, x)
  {
    RowLists(nl);
    RowCells();
    RowCounts();
  }

  lemma RowNoBombByRight(height: nat, width: nat, nl: seq<seq<seq<(int, int)>>>, y: int, x: int)
    requires height == 1 && width == 6 && Board(Row, height, width, nl) && 0 <= y < height && 0 <= x < width
    ensures !BombBy(Row, height, width, nl, 0, 3, y, x) && !BombBy(Row, height, width, nl, 0, 4, y, x)
    ensures !BombBy(Row, height, width, nl, 0, 5, y, x)
  {
    RowLists(nl);
    RowCells();
    RowCounts();
  }

  /** No clue of the row forces a mine. */
  lemma RowNoForcedBomb(height: nat, width: nat, nl: seq<seq<seq<(int, int)>>>, y: int, x: int)
    requires height == 1 && width == 6 && Board(Row, height, width, nl) && 0 <= y < height && 0 <= x < width
    ensures !ForcedBomb(Row, height, width, nl, y, x)
  {
    RowNoBombByLeft(height, width, nl, y, x);
    RowNoBombByRight(height, width, nl, y, x);
  }

  /** Neither 1 of the row has a marked mine around it. */
  lemma RowUnmarked(height: nat, width: nat, nl: seq<seq<seq<(int, int)>>>, bomb: array2<bool>)
    requires height == 1 && width == 6 && Board(Row, height, width, nl)
    requires bomb.Length0 == height && bomb.Length1 == width
    requires forall i, j :: 0 <= i < height && 0 <= j < width ==> !bomb[i, j]
    ensures MarkCount(bomb, nl[0][1]) == 0 && MarkCount(bomb, nl[0][4]) == 0
  {
    RowLists(nl);
    assert nl[0][1][..1] == [(0, 0)] && nl[0][4][..1] == [(0, 3)];
  }

  lemma RowNoSafeByLeft(height: nat, width: nat, nl: seq<seq<seq<(int, int)>>>, bomb: array2<bool>, y: int, x: int)
    requires height == 1 && width == 6 && Board(Row, height, width, nl)
    requires bomb.Length0 == height && bomb.Length1 == width
    requires forall i, j :: 0 <= i < height && 0 <= j < width ==> !bomb[i, j]
    requires 0 <= y < height && 0 <= x < width && Row[y][x] == -1
    ensures !SafeBy(Row, height, width, nl, bomb, 0, 0, y, x) && !SafeBy(Row, height, width, nl, bomb, 0, 1, y, x)
    ensures !SafeBy(Row, height, width, nl, bomb, 0, 2, y, x)
  {
    RowLists(nl);
    RowCells();
    RowUnmarked(height, width, nl, bomb);
  }

  lemma RowNoSafeByRight(height: nat, width: nat, nl: seq<seq<seq<(int, int)>>>, bomb: array2<bool>, y: int, x: int)
    requires height == 1 && width == 6 && Board(Row, height, width, nl)
    requires bomb.Length0 == height && bomb.Length1 == width
    requires forall i, j :: 0 <= i < height && 0 <= j < width ==> !bomb[i, j]
    requires 0 <= y < height && 0 <= x < width && Row[y][x] == -1
    ensures !SafeBy(Row, height, width, nl, bomb, 0, 3, y, x) && !SafeBy(Row, height, width, nl, bomb, 0, 4, y, x)
    ensures !SafeBy(Row, height, width, nl, bomb, 0, 5, y, x)
  {
    RowLists(nl);
    RowCells();
    RowUnmarked(height, width, nl, bomb);
  }

  /** With no mine marked, no clue of the row makes a closed cell safe. */
  lemma RowNoForcedSafe(height: nat, width: nat, nl: seq<seq<seq<(int, int)>>>, bomb: array2<bool>, y: int, x: int)
    requires height == 1 && width == 6 && Board(Row, height, width, nl)
    requires bomb.Length0 == height && bomb.Length1 == width
    requires forall i, j :: 0 <= i < height && 0 <= j < width ==> !bomb[i, j]
    requires 0 <= y < height && 0 <= x < width && Row[y][x] == -1
    ensures !ForcedSafe(Row, height, width, nl, bomb, y, x)
  {
    RowNoSafeByLeft(height, width, nl, bomb, y, x);
    RowNoSafeByRight(height, width, nl, bomb, y, x);
  }

  /** A solver built on the row, with what pre-deduction leaves: no
      marked bomb, no hard cell, and {(0, 0), (0, 3)} a placement on
      the targets that meets every clue with no mine left over. */
  method RowSolver() returns (s: MineSweeperSolver)
    ensures fresh(s.bombCells) && fresh(s.safeCells) && fresh(s.probs)
    ensures s.cellStates == Row && s.nTotalBombs == RowMines
    ensures s.Shape() && s.MemoExact() && s.Bounded() && s.Unmarked(0) && s.SettledOn(s.BombSet(), s.SafeSet())
    ensures s.Tally() && s.LeavesOk() && s.leaves == [] && s.BombSet() == s.deduced
    ensures s.nHardCells == 0 && s.nInitialBombs == 0 && s.BombSet() == {}
    ensures s.Admissible(s.BombSet(), Placement)
  {
    assert Rect(Row, 1, 6);
    s := new MineSweeperSolver(Row, RowMines);
    RowNoHard(s.height, s.width, s.neighborList);
    forall y, x | 0 <= y < s.height && 0 <= x < s.width ensures !s.bombCells[y, x] {
      RowNoForcedBomb(s.height, s.width, s.neighborList, y, x);
    }
    assert s.BombSet() == {};
    RowPlacement(s);
  }

  /** On the solver of the row, with no mine marked: the placement lies on
      the targets and meets both clues. */
  lemma RowPlacement(s: MineSweeperSolver)
    requires s.Shape() && s.cellStates == Row && s.nTotalBombs == RowMines && s.nHardCells == 0
    requires forall y, x :: 0 <= y < s.height && 0 <= x < s.width ==>
               (s.safeCells[y, x] <==> ForcedSafe(s.cellStates, s.height, s.width, s.neighborList, s.bombCells, y, x))
    requires forall y, x ::
               (0 <= y < s.height && 0 <= x < s.width &&
                IsTarget(s.cellStates, s.height, s.width, s.neighborList, s.bombCells, s.safeCells, y, x)) ==> (y, x) in s.targets
    requires s.BombSet() == {} && forall y, x :: 0 <= y < s.height && 0 <= x < s.width ==> !s.bombCells[y, x]
    ensures s.Admissible(s.BombSet(), Placement)
  {
    RowOnTargets(s);
    RowConsistent(s);
    assert {} + Placement == Placement && |Placement| == 2;
  }

  /** The placement lies on the targets of the row. */
  lemma RowOnTargets(s: MineSweeperSolver)
    requires s.Shape() && s.cellStates == Row
    requires forall y, x :: 0 <= y < s.height && 0 <= x < s.width ==>
               (s.safeCells[y, x] <==> ForcedSafe(s.cellStates, s.height, s.width, s.neighborList, s.bombCells, y, x))
    requires forall y, x ::
               (0 <= y < s.height && 0 <= x < s.width &&
                IsTarget(s.cellStates, s.height, s.width, s.neighborList, s.bombCells, s.safeCells, y, x)) ==> (y, x) in s.targets
    requires forall y, x :: 0 <= y < s.height && 0 <= x < s.width ==> !s.bombCells[y, x]
    ensures Placement <= s.TargetsFrom(0)
  {
    RowCells();
    assert s.height == 1 && s.width == |Row[0]| == 6;
    RowLists(s.neighborList);
    RowCounts();
    RowTargetAt(s, 0);
    RowTargetAt(s, 3);
  }

  /** A closed cell of the row with an open neighbour is a target. */
  lemma RowTargetAt(s: MineSweeperSolver, x: int)
    requires s.Shape() && s.cellStates == Row
    requires forall y, x :: 0 <= y < s.height && 0 <= x < s.width ==>
               (s.safeCells[y, x] <==> ForcedSafe(s.cellStates, s.height, s.width, s.neighborList, s.bombCells, y, x))
    requires forall y, x ::
               (0 <= y < s.height && 0 <= x < s.width &&
                IsTarget(s.cellStates, s.height, s.width, s.neighborList, s.bombCells, s.safeCells, y, x)) ==> (y, x) in s.targets
    requires forall y, x :: 0 <= y < s.height && 0 <= x < s.width ==> !s.bombCells[y, x]
    requires s.height == 1 && s.width == 6 && 0 <= x < 6 && Row[0][x] == -1
    requires OpenCount(Row, s.height, s.width, s.neighborList[0][x]) != 0
    ensures (0, x) in s.targets && (0, x) in s.TargetsFrom(0)
  {
    RowNoForcedSafe(s.height, s.width, s.neighborList, s.bombCells, 0, x);
    assert IsTarget(Row, s.height, s.width, s.neighborList, s.bombCells, s.safeCells, 0, x);
    var k :| 0 <= k < |s.targets| && s.targets[k] == (0, x);
  }

  /** Every clue of the row is met by the placement. */
  lemma RowClues(height: nat, width: nat, nl: seq<seq<seq<(int, int)>>>)
    requires height == 1 && width == 6 && Board(Row, height, width, nl)
    ensures forall y, x :: 0 <= y < height && 0 <= x < width && Row[y][x] != -1 ==>
              CountIn(Placement, nl[y][x]) == Row[y][x]
  {
    RowLists(nl);
    PlacementCounts();
    assert CountIn(Placement, nl[0][1]) == 1 && CountIn(Placement, nl[0][4]) == 1;
    RowOpenCells();
  }

  lemma RowConsistent(s: MineSweeperSolver)
    requires s.Shape() && s.cellStates == Row
    ensures s.Consistent(Placement)
  {
    RowCells();
    assert s.height == 1 && s.width == |Row[0]| == 6;
    RowClues(s.height, s.width, s.neighborList);
  }

  /** The bounds as written, at the root of the row: neither holds, so
      depth_first_search as written returns there without recording a
      leaf, prob_sum stays 0 and get_probs divides by it, although the
      placement {(0, 0), (0, 3)} is consistent with the board. */
  method GuardsRefuseRoot() returns (s: MineSweeperSolver)
    ensures s.Shape() && s.Admissible(s.BombSet(), Placement)
    ensures !AsWrittenBombGuard(s.nHardCells, s.nTotalBombs, s.nInitialBombs)
    ensures !AsWrittenSafeGuard(s.nHardCells, s.nTotalBombs, s.nInitialBombs)
  {
    s := RowSolver();
  }

  /** The corrected search on the row: it reaches the placement and
      solve gives probabilities. */
  method RowSolved() returns (s: MineSweeperSolver, r: Option<array2<real>>)
    ensures r.Some? && Reached(s.leaves, 0, Placement)
  {
    s := RowSolver();
    r := s.Solve();
  }
}
