/** The assignment the search loop of compute stops on, shown on a board of
    one row: the loop as written never tallies it, and the corrected
    search (Probability.Compute) does. */
module ComputeFinding {
  import opened Binomial
  import opened ProbabilitySpec
  import opened SearchRegion
  import opened Probability
  import Constants

  /** One row of five cells: three closed, a 1, one closed; the third
      cell is flagged. The 1 is met by the flag, and the last cell is the
      only target; the first two cells are land. */
  const RowState: seq<int> := [Constants.CLOSED, Constants.CLOSED, Constants.CLOSED, 1, Constants.CLOSED]
  const RowFlags: seq<bool> := [false, false, true, false, false]
  const RowNeighbors: seq<seq<nat>> := [[1], [0, 2], [1, 3], [2, 4], [3]]
  const RowMines: int := 2

  lemma RowLand()
    ensures LandMask(RowState, RowNeighbors) == [true, true, false, false, false]
  {
    var land := LandMask(RowState, RowNeighbors);
    assert RowNeighbors[0] == [1] && RowNeighbors[1] == [0, 2] && RowNeighbors[2] == [1, 3];
    assert RowNeighbors[3] == [2, 4] && RowNeighbors[4] == [3];
    assert land[0] && land[1];
    assert !land[2] by { assert RowState[RowNeighbors[2][1]] != Constants.CLOSED; }
    assert !land[3] && !land[4];
  }

  lemma RowTargets()
    ensures Select(TargetMask(RowState, RowFlags, [true, true, false, false, false])) == [4]
  {
    var mask := TargetMask(RowState, RowFlags, [true, true, false, false, false]);
    assert mask == [false, false, false, false, true];
    assert SelectFrom(mask, 5) == [];
    assert SelectFrom(mask, 4) == [4];
    assert SelectFrom(mask, 0) == SelectFrom(mask, 1) == SelectFrom(mask, 2) == SelectFrom(mask, 3) == [4];
  }

  lemma RowOpened()
    ensures Select(OpenedMask(RowState)) == [3]
  {
    assert OpenedMask(RowState) == [false, false, false, true, false];
    var mask := OpenedMask(RowState);
    assert SelectFrom(mask, 5) == SelectFrom(mask, 4) == [];
    assert SelectFrom(mask, 3) == [3];
    assert SelectFrom(mask, 0) == SelectFrom(mask, 1) == SelectFrom(mask, 2) == [3];
  }

  lemma RowCounts()
    ensures CountTrue(RowFlags) == 1 && CountTrue([true, true, false, false, false]) == 2
    ensures FlagsAt(RowFlags, [2, 4]) == 1
    ensures TargetSlots(map[4 := 0], [2, 4]) == [0]
    ensures MineLikeAt([Safe], [0]) == 0 && MineLikeAt([Mine], [0]) == 1
  {
    assert [2, 4][1..] == [4] && [4][1..] == [];
    assert RowFlags[1..] == [false, true, false, false];
  }

  lemma RowSymmetric()
    ensures Symmetric(RowNeighbors)
  {
    forall i, j | 0 <= i < |RowNeighbors| && 0 <= j < |RowNeighbors|
      ensures j in RowNeighbors[i] <==> i in RowNeighbors[j]
    {
    }
  }

  lemma RowFlagsClosed()
    ensures forall j :: 0 <= j < |RowFlags| && RowFlags[j] ==> RowState[j] == Constants.CLOSED
  {
  }

  /** The caches of a calculator built on that row. */
  lemma RowCaches(pc: ProbabilityCalculator)
    requires pc.Caches() && pc.cellState == RowState && pc.flags == RowFlags && pc.neighbors == RowNeighbors
    ensures pc.targetIndex == [4] && pc.openedIndices == [3] && pc.targetNeighbors[3] == [0]
    ensures pc.nLandCells == 2 && pc.nFlags == 1
  {
    RowIndices(pc);
    RowCounts();
    assert pc.rev == map[4 := 0];
    assert RowNeighbors[3] == [2, 4];
  }

  lemma RowIndices(pc: ProbabilityCalculator)
    requires pc.Caches() && pc.cellState == RowState && pc.flags == RowFlags && pc.neighbors == RowNeighbors
    ensures pc.targetIndex == [4] && pc.openedIndices == [3]
    ensures pc.nLandCells == 2 && pc.nFlags == 1
  {
    RowLand();
    RowTargets();
    RowOpened();
    RowCounts();
  }

  /** The row is sane, and of the two assignments of its target only
      [Safe] meets the 1. */
  lemma RowFacts(pc: ProbabilityCalculator)
    requires pc.Caches() && pc.cellState == RowState && pc.flags == RowFlags && pc.neighbors == RowNeighbors
    ensures pc.targetIndex == [4] && pc.nLandCells == 2 && pc.nFlags == 1
    ensures pc.Sane()
    ensures pc.Consistent([Safe]) && !pc.Consistent([Mine])
  {
    RowCaches(pc);
    RowCounts();
    RowSymmetric();
    RowFlagsClosed();
    assert RowNeighbors[3] == [2, 4];
    assert pc.openedIndices[0] == 3;
  }

  /** A calculator freshly built on the row, with what is known of it. */
  method NewRow() returns (pc: ProbabilityCalculator)
    ensures fresh(pc) && fresh(pc.state) && fresh(pc.count)
    ensures pc.Valid() && pc.Initial() && pc.state.Length == 1
    ensures pc.targetIndex == [4] && pc.nLandCells == 2 && pc.nFlags == 1 && pc.nMines == 2
    ensures pc.Sane() && pc.Consistent([Safe]) && !pc.Consistent([Mine])
  {
    pc := new ProbabilityCalculator(RowState, RowFlags, RowNeighbors, RowMines);
    RowFacts(pc);
  }

  /** On the row, every logged assignment settles to [Safe]. */
  lemma RowLogSafe(pc: ProbabilityCalculator, log: seq<seq<SlotState>>)
    requires pc.Sane() && pc.targetIndex == [4] && !pc.Consistent([Mine])
    requires pc.LogConsistent(log)
    ensures forall a :: 0 <= a < |log| ==> Settle(log[a]) == [Safe]
  {
    forall a | 0 <= a < |log| ensures Settle(log[a]) == [Safe] {
      var p := Settle(log[a]);
      assert Assignment(p, 1);
      assert p == [p[0]];
    }
  }

  /** On the row, entry a of a log of consistent assignments settles to [Safe]. */
  lemma RowEntry(pc: ProbabilityCalculator, log: seq<seq<SlotState>>, a: nat)
    requires pc.Sane() && pc.targetIndex == [4] && !pc.Consistent([Mine])
    requires pc.LogConsistent(log) && a < |log|
    ensures Settle(log[a]) == [Safe]
  {
    RowLogSafe(pc, log);
  }

  /** On the row, a log of consistent assignments none of which settles to
      [Safe] is empty. */
  lemma RowNothingLogged(pc: ProbabilityCalculator, log: seq<seq<SlotState>>)
    requires pc.Sane() && pc.targetIndex == [4] && !pc.Consistent([Mine])
    requires pc.LogConsistent(log) && forall a :: 0 <= a < |log| ==> Settle(log[a]) != [Safe]
    ensures log == []
  {
    RowLogSafe(pc, log);
    if |log| > 0 {
      RowEntry(pc, log, 0);
      assert false;
    }
  }

  /** On the row, a sound log of distinct consistent assignments that
      holds [Safe] is exactly [[Safe]]. */
  lemma RowOnlySafeLogged(pc: ProbabilityCalculator, log: seq<seq<SlotState>>)
    requires pc.Sane() && pc.targetIndex == [4] && !pc.Consistent([Mine])
    requires pc.LogSound(log) && pc.LogSettled(log) && pc.LogConsistent(log) && pc.Logged([Safe], log)
    ensures log == [[Safe]]
  {
    RowLogSafe(pc, log);
    if |log| > 1 {
      RowEntry(pc, log, 0);
      RowEntry(pc, log, 1);
      assert false;
    }
    assert |log| == 1;
    var q := log[0];
    assert NoUndefined(q) && |q| == 1 && Settle(q) == [Safe];
    assert !MineLike(q[0]);
    assert q == [Safe];
  }

  /** The weights of [Safe] on the row: C(2, 1) ways for the second mine
      among the two land cells, one of them with a given land cell mined. */
  lemma RowWeights()
    ensures SumWeight(2, 1, [[Safe]]) == 2 && SumLand(2, 1, [[Safe]]) == 1
  {
    assert MineCount([Safe]) == 0;
    assert Choose(2, 1) == 2 && ChooseInt(1, 0) == 1;
    assert [[Safe]][..0] == [];
  }

  lemma Half(pc: ProbabilityCalculator)
    requires pc.count4land == 1 && pc.totalCount == 2
    ensures pc.count4land as real / pc.totalCount as real == 0.5
  {
  }

  /** The loop as written, on that row: [Safe] is consistent, yet nothing
      is tallied, so the total weight is 0 and compute would report a land
      probability of 1.0 although one of the two land cells holds the
      second mine. The search assumes a mine on the target, the flag then
      over-fills the 1, the backtrack turns the target safe, and the loop
      ends on [Safe] without checking it. */
  method LastAssignmentMissed() returns (pc: ProbabilityCalculator)
    ensures pc.Sane() && pc.targetIndex == [4] && pc.Consistent([Safe])
    ensures pc.counted == [] && pc.totalCount == 0
  {
    pc := NewRow();
    pc.Enumerate();
    assert pc.state[..] == [Safe];
    RowNothingLogged(pc, pc.counted);
  }

  /** The corrected search run on the row: it logs exactly [Safe]. */
  method RowCompute() returns (pc: ProbabilityCalculator, target: Constants.TargetData, pLand: real)
    ensures pc.counted == [[Safe]] && pc.Tally() && pc.nLandCells == 2 && pc.nFlags == 1 && pc.nMines == 2
    ensures target.index == [4]
    ensures pc.totalCount > 0 ==> pLand == pc.count4land as real / pc.totalCount as real
  {
    pc := NewRow();
    target, pLand := pc.Compute();
    RowOnlySafeLogged(pc, pc.counted);
  }

  /** The corrected search, on that row: exactly the assignment [Safe] is
      tallied, with weight C(2, 1) = 2, and the land probability is 1/2. */
  method LastAssignmentCounted() returns (pc: ProbabilityCalculator, target: Constants.TargetData, pLand: real)
    ensures pc.counted == [[Safe]] && pc.totalCount == 2
    ensures target.index == [4] && pLand == 0.5
  {
    pc, target, pLand := RowCompute();
    RowWeights();
    Half(pc);
  }
}
