/** The native solver (cpp/solver.cpp): pre-deduced bombs and safe cells,
    then a depth-first search over the target cells that tries "bomb" and
    "safe" for each, prunes with the clues of the open neighbours and with
    the mine-count bounds, and at every leaf adds C(hard cells, remaining
    mines) to the tallies. Tallies are exact reals, not long doubles. */
module Solver {
  import opened Binomial
  import opened Wrappers
  import opened SolverGrid

  /** A tally over a positive total lies in [0, 1]. */
  lemma RatioInUnit(x: real, y: real)
    requires 0.0 < y && 0.0 <= x <= y
    ensures 0.0 <= x / y <= 1.0
  {
    assert x / y * y == x;
  }

  /** normalize_probs: every tally divided by the total, in place. */
  method NormalizeProbs(probs: array<real>, probSum: real)
    requires probSum != 0.0
    modifies probs
    ensures forall i :: 0 <= i < probs.Length ==> probs[i] == old(probs[i]) / probSum
  {
    for i := 0 to probs.Length
      invariant forall i' :: 0 <= i' < i ==> probs[i'] == old(probs[i']) / probSum
      invariant forall i' :: i <= i' < probs.Length ==> probs[i'] == old(probs[i'])
    {
      probs[i] := probs[i] / probSum;
    }
  }

  /** One leaf of the search: the cells marked bomb there and the mines
      left for the hard cells. */
  datatype Leaf = Leaf(bombs: set<(int, int)>, remaining: int)

  /** How many listed cells lie in the set. */
  function CountIn(bombs: set<(int, int)>, ns: seq<(int, int)>): (r: nat)
    ensures r <= |ns|
  {
    if ns == [] then 0 else CountIn(bombs, ns[..|ns| - 1]) + (if ns[|ns| - 1] in bombs then 1 else 0)
  }

  /** Counting the marks of b is counting the set of marked cells. */
  lemma {:induction false} MarkCountIsCountIn(b: array2<bool>, ns: seq<(int, int)>, bombs: set<(int, int)>)
    requires AllIn(b.Length0, b.Length1, ns)
    requires forall k :: 0 <= k < |ns| ==> (ns[k] in bombs <==> b[ns[k].0, ns[k].1])
    ensures MarkCount(b, ns) == CountIn(bombs, ns)
  {
    if ns != [] {
      MarkCountIsCountIn(b, ns[..|ns| - 1], bombs);
    }
  }

  /** One open cell in the list makes the open count positive. */
  lemma {:induction false} OpenCountPositive(cs: seq<seq<int>>, height: nat, width: nat, ns: seq<(int, int)>, k: nat)
    requires Rect(cs, height, width) && AllIn(height, width, ns)
    requires k < |ns| && cs[ns[k].0][ns[k].1] != -1
    ensures OpenCount(cs, height, width, ns) > 0
  {
    if k < |ns| - 1 {
      OpenCountPositive(cs, height, width, ns[..|ns| - 1], k);
    }
  }

  /** Counting the safe-or-open cells of s is counting their set. */
  lemma {:induction false} SafeCountIsCountIn(s: array2<bool>, cs: seq<seq<int>>, ns: seq<(int, int)>, safe: set<(int, int)>)
    requires Rect(cs, s.Length0, s.Length1) && AllIn(s.Length0, s.Length1, ns)
    requires forall k :: 0 <= k < |ns| ==> (ns[k] in safe <==> s[ns[k].0, ns[k].1] || cs[ns[k].0][ns[k].1] != -1)
    ensures SafeOrOpenCount(s, cs, ns) == CountIn(safe, ns)
  {
    if ns != [] {
      SafeCountIsCountIn(s, cs, ns[..|ns| - 1], safe);
    }
  }

  /** A cell outside the list does not change the count. */
  lemma {:induction false} CountInOutside(cells: set<(int, int)>, t: (int, int), ns: seq<(int, int)>)
    requires t !in ns
    ensures CountIn(cells + {t}, ns) == CountIn(cells, ns)
  {
    if ns != [] {
      CountInOutside(cells, t, ns[..|ns| - 1]);
    }
  }

  /** Two sets that split the list between them count up to its length. */
  lemma {:induction false} CountInSplit(a: set<(int, int)>, b: set<(int, int)>, ns: seq<(int, int)>)
    requires forall k :: 0 <= k < |ns| ==> (ns[k] in a) != (ns[k] in b)
    ensures CountIn(a, ns) + CountIn(b, ns) == |ns|
  {
    if ns != [] {
      CountInSplit(a, b, ns[..|ns| - 1]);
    }
  }

  /** Counting a subset gives no more. */
  lemma {:induction false} CountInMono(a: set<(int, int)>, c: set<(int, int)>, ns: seq<(int, int)>)
    requires a <= c
    ensures CountIn(a, ns) <= CountIn(c, ns)
  {
    if ns != [] {
      CountInMono(a, c, ns[..|ns| - 1]);
    }
  }

  /** Two sets that share no listed cell count up to at most its length. */
  lemma {:induction false} CountInApart(a: set<(int, int)>, c: set<(int, int)>, ns: seq<(int, int)>)
    requires forall k :: 0 <= k < |ns| ==> !(ns[k] in a && ns[k] in c)
    ensures CountIn(a, ns) + CountIn(c, ns) <= |ns|
  {
    if ns != [] {
      CountInApart(a, c, ns[..|ns| - 1]);
    }
  }

  lemma SubsetSize(a: set<(int, int)>, b: set<(int, int)>)
    requires a <= b
    ensures |a| <= |b|
  {
    assert b == a + (b - a);
  }

  /** Some leaf from index n on has exactly these bombs. */
  ghost predicate Reached(ls: seq<Leaf>, n: nat, bombs: set<(int, int)>)
  {
    exists i :: n <= i < |ls| && ls[i].bombs == bombs
  }

  class MineSweeperSolver {
    const cellStates: seq<seq<int>>
    const nTotalBombs: int
    const height: nat
    const width: nat
    const neighborList: seq<seq<seq<(int, int)>>>
    const nHardCells: nat
    const nInitialBombs: nat
    const combinationMemo: array2<nat>
    const targets: seq<(int, int)>

    /** Search state, set and restored by the depth-first search. */
    const bombCells: array2<bool>
    const safeCells: array2<bool>

    /** One tally per target, then one for the hard cells; and their total. */
    const probs: array<real>
    var probSum: real

    /** The leaves the search has reached, in order. */
    ghost var leaves: seq<Leaf>

    /** The bombs found by pre-deduction. */
    ghost const deduced: set<(int, int)>

    /** The fixed data: sizes, the neighbour table, targets in row-major order. */
    predicate Shape()
    {
      height > 0 && Board(cellStates, height, width, neighborList) &&
      bombCells.Length0 == height && bombCells.Length1 == width &&
      safeCells.Length0 == height && safeCells.Length1 == width && bombCells != safeCells &&
      AllIn(height, width, targets) && RowMajor(targets) && probs.Length == |targets| + 1 &&
      nHardCells <= height * width &&
      combinationMemo.Length0 == height * width + 1 && combinationMemo.Length1 == height * width + 1
    }

    /** The binomial table is exact. */
    predicate MemoExact()
      reads combinationMemo
    {
      forall i, j :: 0 <= i < combinationMemo.Length0 && 0 <= j < combinationMemo.Length1 ==>
        combinationMemo[i, j] == Choose(i, j)
    }

    /** Every tally lies between zero and the total. */
    predicate Bounded()
      reads this, probs
    {
      forall i :: 0 <= i < probs.Length ==> 0.0 <= probs[i] <= probSum
    }

    /** The targets from index ti on are neither bomb- nor safe-marked. */
    predicate Unmarked(ti: nat)
      reads bombCells, safeCells
      requires Shape()
    {
      forall k :: ti <= k < |targets| ==> !bombCells[targets[k].0, targets[k].1] && !safeCells[targets[k].0, targets[k].1]
    }

    /** The open cell (y, x) can still meet its clue: no more marked bombs
        around it than the clue, and enough cells not known safe. A closed
        cell imposes nothing. */
    predicate ClueFeasible(y: int, x: int)
      reads bombCells, safeCells
      requires Shape() && InField(height, width, (y, x))
    {
      cellStates[y][x] == -1 ||
      (MarkCount(bombCells, neighborList[y][x]) <= cellStates[y][x] &&
       |neighborList[y][x]| - SafeOrOpenCount(safeCells, cellStates, neighborList[y][x]) >= cellStates[y][x])
    }

    /** Every neighbour of (h, w) can still meet its clue. */
    predicate AssumptionValid(h: int, w: int)
      reads bombCells, safeCells
      requires Shape() && InField(height, width, (h, w))
    {
      forall k :: 0 <= k < |neighborList[h][w]| ==> ClueFeasible(neighborList[h][w][k].0, neighborList[h][w][k].1)
    }

    /** No leaf may look up the binomial table out of range. */
    predicate RootInRange()
    {
      |targets| > 0 || 0 <= nTotalBombs - nInitialBombs <= height * width
    }

    /** The cells marked bomb. */
    ghost function BombSet(): set<(int, int)>
      reads bombCells
      requires Shape()
    {
      set y, x | 0 <= y < height && 0 <= x < width && bombCells[y, x] :: (y, x)
    }

    /** The cells marked safe. */
    ghost function SafeMarks(): set<(int, int)>
      reads safeCells
      requires Shape()
    {
      set y, x | 0 <= y < height && 0 <= x < width && safeCells[y, x] :: (y, x)
    }

    /** The open cells. */
    ghost function OpenCells(): set<(int, int)>
      requires Shape()
    {
      set y, x | 0 <= y < height && 0 <= x < width && cellStates[y][x] != -1 :: (y, x)
    }

    /** The cells marked safe or open. */
    ghost function SafeSet(): set<(int, int)>
      reads safeCells
      requires Shape()
    {
      SafeMarks() + OpenCells()
    }

    lemma MarkSets()
      requires Shape()
      ensures forall p :: p in BombSet() <==> InField(height, width, p) && bombCells[p.0, p.1]
      ensures forall p :: p in SafeSet() <==> InField(height, width, p) && (safeCells[p.0, p.1] || cellStates[p.0][p.1] != -1)
      ensures forall p :: p in SafeMarks() <==> InField(height, width, p) && safeCells[p.0, p.1]
    {
      forall p | InField(height, width, p)
        ensures bombCells[p.0, p.1] ==> p in BombSet()
        ensures safeCells[p.0, p.1] ==> p in SafeMarks()
        ensures cellStates[p.0][p.1] != -1 ==> p in OpenCells()
      {
        var (y, x) := p;
        assert 0 <= y < height && 0 <= x < width;
      }
    }

    lemma SafeMarksAre()
      requires Shape()
      ensures forall p :: p in SafeMarks() <==> InField(height, width, p) && safeCells[p.0, p.1]
    {
      forall p | InField(height, width, p) && safeCells[p.0, p.1] ensures p in SafeMarks() {
        var (y, x) := p;
        assert 0 <= y < height && 0 <= x < width;
      }
    }

    /** The marks are the bomb set and the safe marks. */
    lemma MarksAre()
      requires Shape()
      ensures forall y, x :: 0 <= y < height && 0 <= x < width ==>
                (bombCells[y, x] <==> (y, x) in BombSet()) && (safeCells[y, x] <==> (y, x) in SafeMarks())
    {
    }

    /** Some target before index ti is a neighbour of (y, x). */
    ghost predicate TouchedBefore(y: int, x: int, ti: nat)
      requires Shape() && InField(height, width, (y, x)) && ti <= |targets|
    {
      exists k :: 0 <= k < ti && targets[k] in neighborList[y][x]
    }

    /** No target from index ti on is a neighbour of (y, x). */
    ghost predicate CoveredFrom(y: int, x: int, ti: nat)
      requires Shape() && InField(height, width, (y, x)) && ti <= |targets|
    {
      forall k :: ti <= k < |targets| ==> targets[k] !in neighborList[y][x]
    }

    /** Every open cell next to a target sees exactly its clue in bombs. */
    ghost predicate Consistent(bombs: set<(int, int)>)
      requires Shape()
    {
      forall y, x :: 0 <= y < height && 0 <= x < width && cellStates[y][x] != -1 && TouchedBefore(y, x, |targets|) ==>
        CountIn(bombs, neighborList[y][x]) == cellStates[y][x]
    }

    /** Every leaf reached so far is consistent with the clues, and leaves
        for the hard cells the mines its bombs do not take. */
    ghost predicate LeavesOk()
      reads this
      requires Shape()
    {
      forall i :: 0 <= i < |leaves| ==> LeafOk(leaves[i])
    }

    /** A leaf is consistent with the clues, leaves the mines its bombs do
        not take for the hard cells, and holds the deduced bombs and some
        targets. */
    ghost predicate LeafOk(l: Leaf)
      requires Shape()
    {
      Consistent(l.bombs) && l.remaining == nTotalBombs - |l.bombs| && deduced <= l.bombs <= deduced + TargetsFrom(0)
    }

    /** The bomb marks are the deduced bombs and some targets. */
    ghost predicate Anchored()
      reads bombCells
      requires Shape()
    {
      deduced <= BombSet() <= deduced + TargetsFrom(0)
    }

    /** The targets from index ti on. */
    ghost function TargetsFrom(ti: nat): set<(int, int)>
      requires ti <= |targets|
    {
      set k | ti <= k < |targets| :: targets[k]
    }

    /** B, a set of targets from index ti on, completes the bombs to a
        placement the clues allow, leaving between none and all of the hard
        cells to the remaining mines; nDefined bombs are placed so far. */
    ghost predicate Completion(B: set<(int, int)>, ti: nat, nDefined: int, bombs: set<(int, int)>)
      requires Shape() && ti <= |targets|
    {
      B <= TargetsFrom(ti) && Consistent(bombs + B) && 0 <= nTotalBombs - (nDefined + |B|) <= nHardCells
    }

    /** A placement the clues allow, as bombs plus a set B of targets. */
    ghost predicate Admissible(bombs: set<(int, int)>, B: set<(int, int)>)
      requires Shape()
    {
      B <= TargetsFrom(0) && Consistent(bombs + B) && 0 <= nTotalBombs - |bombs + B| <= nHardCells
    }

    /** The bound of the bomb branch: the mines left after this one fit on
        the hard cells and the targets after ti. */
    predicate BombGuard(ti: nat, nDefined: int)
      requires ti < |targets|
    {
      nTotalBombs - nDefined - 1 <= nHardCells + (|targets| - ti - 1) && nDefined + 1 <= nTotalBombs
    }

    /** The bound of the safe branch: the mines left fit on the hard cells
        and the targets after ti. */
    predicate SafeGuard(ti: nat, nDefined: int)
      requires ti < |targets|
    {
      nTotalBombs - nDefined <= nHardCells + (|targets| - ti - 1) && nDefined <= nTotalBombs
    }

    /** The leaf's bombs agree with the decided set on the targets before ti. */
    ghost predicate Extends(bombs: set<(int, int)>, ti: nat, decided: set<(int, int)>)
      requires Shape() && ti <= |targets|
    {
      forall k :: 0 <= k < ti ==> (targets[k] in bombs <==> targets[k] in decided)
    }

    /** The leaves from index n on agree with the decided set before ti and
        are pairwise different. */
    ghost predicate NewLeaves(n: nat, ti: nat, decided: set<(int, int)>)
      reads this
      requires Shape() && ti <= |targets|
    {
      n <= |leaves| &&
      (forall i :: n <= i < |leaves| ==> Extends(leaves[i].bombs, ti, decided)) &&
      (forall i, j :: n <= i < j < |leaves| ==> leaves[i].bombs != leaves[j].bombs)
    }

    /** The placements a leaf stands for: C(hard cells, remaining mines). */
    function Weight(remaining: int): real
    {
      Choose(nHardCells, remaining) as real
    }

    /** The placements of a leaf that put a mine on one given hard cell. */
    function HardWeight(remaining: int): real
    {
      if nHardCells >= 1 && remaining > 0 then Choose(nHardCells - 1, remaining - 1) as real else 0.0
    }

    /** The placements of all the leaves. */
    function TotalWeight(ls: seq<Leaf>): real
    {
      if ls == [] then 0.0 else TotalWeight(ls[..|ls| - 1]) + Weight(ls[|ls| - 1].remaining)
    }

    /** The placements of the leaves that make p a bomb. */
    function BombWeight(ls: seq<Leaf>, p: (int, int)): real
    {
      if ls == [] then 0.0
      else BombWeight(ls[..|ls| - 1], p) + (if p in ls[|ls| - 1].bombs then Weight(ls[|ls| - 1].remaining) else 0.0)
    }

    /** The placements of the leaves that put a mine on one given hard cell. */
    function HardTotal(ls: seq<Leaf>): real
    {
      if ls == [] then 0.0 else HardTotal(ls[..|ls| - 1]) + HardWeight(ls[|ls| - 1].remaining)
    }

    lemma WeightsAppend(ls: seq<Leaf>, l: Leaf)
      ensures TotalWeight(ls + [l]) == TotalWeight(ls) + Weight(l.remaining)
      ensures HardTotal(ls + [l]) == HardTotal(ls) + HardWeight(l.remaining)
      ensures forall p :: BombWeight(ls + [l], p) == BombWeight(ls, p) + (if p in l.bombs then Weight(l.remaining) else 0.0)
    {
      assert (ls + [l])[..|ls|] == ls;
    }

    /** The tallies are the placements summed over the leaves. */
    ghost predicate Tally()
      reads this, probs
      requires Shape()
    {
      probSum == TotalWeight(leaves) && probs[|targets|] == HardTotal(leaves) &&
      forall i :: 0 <= i < |targets| ==> probs[i] == BombWeight(leaves, targets[i])
    }

    /** Outside the targets the marks are those of pre-deduction: a bomb
        is a closed cell, and a closed cell next to an open one is in
        exactly one of the bomb set and the safe-or-open set. The targets
        are closed. */
    ghost predicate SettledOn(bombs: set<(int, int)>, safe: set<(int, int)>)
      requires Shape()
    {
      (forall k :: 0 <= k < |targets| ==> cellStates[targets[k].0][targets[k].1] == -1) &&
      forall y, x :: 0 <= y < height && 0 <= x < width && (y, x) !in targets ==>
        ((y, x) in bombs ==> cellStates[y][x] == -1) &&
        (cellStates[y][x] == -1 && OpenCount(cellStates, height, width, neighborList[y][x]) != 0 ==>
           ((y, x) in bombs) != ((y, x) in safe))
    }

    /** The targets from index ti on are in neither set. */
    ghost predicate UnmarkedOn(bombs: set<(int, int)>, safe: set<(int, int)>, ti: nat)
      requires Shape() && ti <= |targets|
    {
      forall k :: ti <= k < |targets| ==> targets[k] !in bombs && targets[k] !in safe
    }

    /** The targets before index ti are in exactly one of the sets. */
    ghost predicate DecidedOn(bombs: set<(int, int)>, safe: set<(int, int)>, ti: nat)
      requires Shape() && ti <= |targets|
    {
      forall k :: 0 <= k < ti ==> (targets[k] in bombs) != (targets[k] in safe)
    }

    /** ClueFeasible, read on a set of bombs and a set of safe-or-open cells. */
    ghost predicate FeasibleOn(bombs: set<(int, int)>, safe: set<(int, int)>, y: int, x: int)
      requires Shape() && InField(height, width, (y, x))
    {
      cellStates[y][x] == -1 ||
      (CountIn(bombs, neighborList[y][x]) <= cellStates[y][x] &&
       |neighborList[y][x]| - CountIn(safe, neighborList[y][x]) >= cellStates[y][x])
    }

    /** An open cell next to a decided target and to no undecided one can
        still meet its clue. */
    ghost predicate CluesHoldOn(bombs: set<(int, int)>, safe: set<(int, int)>, ti: nat)
      requires Shape() && ti <= |targets|
    {
      forall y, x ::
        (0 <= y < height && 0 <= x < width && cellStates[y][x] != -1 &&
         TouchedBefore(y, x, ti) && CoveredFrom(y, x, ti)) ==> FeasibleOn(bombs, safe, y, x)
    }

    /** The state of the search before target ti. */
    ghost predicate SearchOn(bombs: set<(int, int)>, safe: set<(int, int)>, ti: nat)
      requires Shape() && ti <= |targets|
    {
      SettledOn(bombs, safe) && UnmarkedOn(bombs, safe, ti) && DecidedOn(bombs, safe, ti) && CluesHoldOn(bombs, safe, ti)
    }

    lemma FeasibleBySets(y: int, x: int)
      requires Shape() && InField(height, width, (y, x))
      ensures ClueFeasible(y, x) <==> FeasibleOn(BombSet(), SafeSet(), y, x)
    {
      MarkSets();
      MarkCountIsCountIn(bombCells, neighborList[y][x], BombSet());
      SafeCountIsCountIn(safeCells, cellStates, neighborList[y][x], SafeSet());
    }

    /** Pre-deduced marks and unmarked targets: the search can start. */
    lemma SearchStarts()
      requires Shape() && SettledOn(BombSet(), SafeSet()) && Unmarked(0)
      ensures SearchOn(BombSet(), SafeSet(), 0)
    {
      MarkSets();
    }

    /** Target ti just put in one of the sets, and every open neighbour of
        it passed the clue check: the search may go on from ti + 1. */
    lemma SearchAdvances(ti: nat, bombs: set<(int, int)>, safe: set<(int, int)>)
      requires Shape() && ti < |targets| && SearchOn(bombs, safe, ti)
      requires AssumptionValid(targets[ti].0, targets[ti].1)
      requires (BombSet() == bombs + {targets[ti]} && SafeSet() == safe) ||
               (BombSet() == bombs && SafeSet() == safe + {targets[ti]})
      ensures SearchOn(BombSet(), SafeSet(), ti + 1)
    {
      var t := targets[ti];
      assert forall k :: 0 <= k < |targets| && k != ti ==> targets[k] != t by {
        forall k | 0 <= k < |targets| && k != ti ensures targets[k] != t {
          if k < ti { assert Before(targets[k].0, targets[k].1, t.0, t.1); }
          else { assert Before(t.0, t.1, targets[k].0, targets[k].1); }
        }
      }
      forall y, x | 0 <= y < height && 0 <= x < width && cellStates[y][x] != -1 &&
                    TouchedBefore(y, x, ti + 1) && CoveredFrom(y, x, ti + 1)
        ensures FeasibleOn(BombSet(), SafeSet(), y, x)
      {
        if t in neighborList[y][x] {
          NextToChecked(ti, y, x);
          FeasibleBySets(y, x);
        } else {
          var j :| 0 <= j < ti + 1 && targets[j] in neighborList[y][x];
          assert TouchedBefore(y, x, ti) && CoveredFrom(y, x, ti);
          assert FeasibleOn(bombs, safe, y, x);
          CountInOutside(bombs, t, neighborList[y][x]);
          CountInOutside(safe, t, neighborList[y][x]);
        }
      }
    }

    /** An open neighbour of target ti passed the clue check made for ti. */
    lemma NextToChecked(ti: nat, y: int, x: int)
      requires Shape() && ti < |targets| && AssumptionValid(targets[ti].0, targets[ti].1)
      requires 0 <= y < height && 0 <= x < width && targets[ti] in neighborList[y][x]
      ensures ClueFeasible(y, x)
    {
      var t := targets[ti];
      Grid.NeighborLocsSymmetric(height, width, (y, x), t);
      var k :| 0 <= k < |neighborList[t.0][t.1]| && neighborList[t.0][t.1][k] == (y, x);
    }

    /** A neighbour of an open cell is, at a leaf, in exactly one of the sets. */
    lemma LeafNeighbor(bombs: set<(int, int)>, safe: set<(int, int)>, y: int, x: int, k: nat)
      requires Shape() && SettledOn(bombs, safe) && DecidedOn(bombs, safe, |targets|)
      requires forall p :: InField(height, width, p) && cellStates[p.0][p.1] != -1 ==> p in safe
      requires 0 <= y < height && 0 <= x < width && cellStates[y][x] != -1 && k < |neighborList[y][x]|
      ensures (neighborList[y][x][k] in bombs) != (neighborList[y][x][k] in safe)
    {
      var p := neighborList[y][x][k];
      if p in targets {
        var j :| 0 <= j < |targets| && targets[j] == p;
      } else if cellStates[p.0][p.1] == -1 {
        Grid.NeighborLocsSymmetric(height, width, (y, x), p);
        var j :| 0 <= j < |neighborList[p.0][p.1]| && neighborList[p.0][p.1][j] == (y, x);
        OpenCountPositive(cellStates, height, width, neighborList[p.0][p.1], j);
      }
    }

    /** At a leaf every open cell next to a target sees exactly its clue. */
    lemma LeafConsistent()
      requires Shape() && SearchOn(BombSet(), SafeSet(), |targets|)
      ensures Consistent(BombSet())
    {
      MarkSets();
      forall y, x | 0 <= y < height && 0 <= x < width && cellStates[y][x] != -1 && TouchedBefore(y, x, |targets|)
        ensures CountIn(BombSet(), neighborList[y][x]) == cellStates[y][x]
      {
        LeafCell(BombSet(), SafeSet(), y, x);
      }
    }

    lemma LeafCell(bombs: set<(int, int)>, safe: set<(int, int)>, y: int, x: int)
      requires Shape() && SearchOn(bombs, safe, |targets|)
      requires forall p :: InField(height, width, p) && cellStates[p.0][p.1] != -1 ==> p in safe
      requires 0 <= y < height && 0 <= x < width && cellStates[y][x] != -1 && TouchedBefore(y, x, |targets|)
      ensures CountIn(bombs, neighborList[y][x]) == cellStates[y][x]
    {
      var ns := neighborList[y][x];
      assert CoveredFrom(y, x, |targets|);
      assert FeasibleOn(bombs, safe, y, x);
      forall k | 0 <= k < |ns| ensures (ns[k] in bombs) != (ns[k] in safe) {
        LeafNeighbor(bombs, safe, y, x, k);
      }
      CountInSplit(bombs, safe, ns);
    }

    /** Targets are pairwise different, being in row-major order. */
    lemma TargetsDistinct(i: nat, j: nat)
      requires Shape() && i < j < |targets|
      ensures targets[i] != targets[j]
    {
      assert Before(targets[i].0, targets[i].1, targets[j].0, targets[j].1);
    }

    lemma TargetsFromStep(ti: nat)
      requires ti < |targets|
      ensures TargetsFrom(ti) == TargetsFrom(ti + 1) + {targets[ti]}
    {
    }

    lemma {:induction false} TargetsFromSize(ti: nat)
      requires ti <= |targets|
      ensures |TargetsFrom(ti)| <= |targets| - ti
      decreases |targets| - ti
    {
      if ti < |targets| {
        TargetsFromSize(ti + 1);
        TargetsFromStep(ti);
      } else {
        assert TargetsFrom(ti) == {};
      }
    }

    /** The bomb marks, counted row by row, are as many as the bomb set. */
    lemma BombCount()
      requires Shape()
      ensures Marks(bombCells, height) == BombSet() && Marked(bombCells, height) == |BombSet()|
    {
      MarkedCounts(bombCells, height);
      assert Marks(bombCells, height) == BombSet();
    }

    /** A placement that holds the marked bombs, is consistent, and takes
        none of the safe-or-open neighbours of open cells passes the clue
        check of target ti. */
    lemma ValidUnder(ti: nat, full: set<(int, int)>)
      requires Shape() && ti < |targets| && Consistent(full) && BombSet() <= full
      requires forall y, x, k ::
                 (0 <= y < height && 0 <= x < width && cellStates[y][x] != -1 &&
                  0 <= k < |neighborList[y][x]| && neighborList[y][x][k] in SafeSet()) ==> neighborList[y][x][k] !in full
      ensures AssumptionValid(targets[ti].0, targets[ti].1)
    {
      var t := targets[ti];
      var ns := neighborList[t.0][t.1];
      forall k | 0 <= k < |ns| ensures ClueFeasible(ns[k].0, ns[k].1) {
        var (y, x) := ns[k];
        FeasibleBySets(y, x);
        if cellStates[y][x] != -1 {
          Grid.NeighborLocsSymmetric(height, width, (y, x), t);
          assert TouchedBefore(y, x, |targets|);
          CountInMono(BombSet(), full, neighborList[y][x]);
          CountInApart(SafeSet(), full, neighborList[y][x]);
        }
      }
    }

    /** In the search state before ti, a safe-or-open neighbour of an open
        cell is neither a bomb nor in B, a set of targets from ti on that
        leaves ti out if ti was just marked safe. */
    lemma SafeApart(ti: nat, bombs: set<(int, int)>, safe: set<(int, int)>, B: set<(int, int)>, y: int, x: int, k: nat)
      requires Shape() && ti < |targets| && SearchOn(bombs, safe, ti) && B <= TargetsFrom(ti)
      requires SafeSet() == safe || (SafeSet() == safe + {targets[ti]} && targets[ti] !in B)
      requires 0 <= y < height && 0 <= x < width && cellStates[y][x] != -1 && k < |neighborList[y][x]|
      requires neighborList[y][x][k] in SafeSet()
      ensures neighborList[y][x][k] !in bombs + B
    {
      var p := neighborList[y][x][k];
      if p != targets[ti] {
        if p in targets {
          var j :| 0 <= j < |targets| && targets[j] == p;
          if j < ti {
            forall k' | ti <= k' < |targets| ensures targets[k'] != p {
              TargetsDistinct(j, k');
            }
          }
        } else if cellStates[p.0][p.1] == -1 {
          Grid.NeighborLocsSymmetric(height, width, (y, x), p);
          var j :| 0 <= j < |neighborList[p.0][p.1]| && neighborList[p.0][p.1][j] == (y, x);
          OpenCountPositive(cellStates, height, width, neighborList[p.0][p.1], j);
        }
      }
    }

    lemma SafeApartAll(ti: nat, bombs: set<(int, int)>, safe: set<(int, int)>, B: set<(int, int)>)
      requires Shape() && ti < |targets| && SearchOn(bombs, safe, ti) && B <= TargetsFrom(ti)
      requires SafeSet() == safe || (SafeSet() == safe + {targets[ti]} && targets[ti] !in B)
      ensures forall y, x, k ::
                (0 <= y < height && 0 <= x < width && cellStates[y][x] != -1 &&
                 0 <= k < |neighborList[y][x]| && neighborList[y][x][k] in SafeSet()) ==> neighborList[y][x][k] !in bombs + B
    {
      forall y, x, k | 0 <= y < height && 0 <= x < width && cellStates[y][x] != -1 &&
                       0 <= k < |neighborList[y][x]| && neighborList[y][x][k] in SafeSet()
        ensures neighborList[y][x][k] !in bombs + B
      {
        SafeApart(ti, bombs, safe, B, y, x, k);
      }
    }

    /** A completion that makes target ti a bomb is, without ti, a
        completion from ti + 1 of the bombs with ti. */
    lemma CompletionAfterBomb(B: set<(int, int)>, ti: nat, nDefined: int, bombs: set<(int, int)>)
      requires Shape() && ti < |targets| && Completion(B, ti, nDefined, bombs) && targets[ti] in B
      ensures Completion(B - {targets[ti]}, ti + 1, nDefined + 1, bombs + {targets[ti]})
      ensures (bombs + {targets[ti]}) + (B - {targets[ti]}) == bombs + B
    {
      var t := targets[ti];
      TargetsFromStep(ti);
      assert B == (B - {t}) + {t};
      forall p | p in B - {t} ensures p in TargetsFrom(ti + 1) {
        assert p in TargetsFrom(ti);
      }
      assert (bombs + {t}) + (B - {t}) == bombs + B;
    }

    /** A completion that leaves target ti safe is one from ti + 1. */
    lemma CompletionAfterSafe(B: set<(int, int)>, ti: nat, nDefined: int, bombs: set<(int, int)>)
      requires Shape() && ti < |targets| && Completion(B, ti, nDefined, bombs) && targets[ti] !in B
      ensures Completion(B, ti + 1, nDefined, bombs)
    {
      TargetsFromStep(ti);
      forall p | p in B ensures p in TargetsFrom(ti + 1) {
        assert p in TargetsFrom(ti);
      }
    }

    /** The completions from ti + 1 of the bombs with ti reach every
        completion from ti that makes ti a bomb. */
    lemma BombReached(ls: seq<Leaf>, n: nat, ti: nat, nDefined: int, bombs: set<(int, int)>)
      requires Shape() && ti < |targets|
      requires forall B :: Completion(B, ti + 1, nDefined + 1, bombs + {targets[ti]}) ==>
                 Reached(ls, n, bombs + {targets[ti]} + B)
      ensures forall B :: Completion(B, ti, nDefined, bombs) && targets[ti] in B ==> Reached(ls, n, bombs + B)
    {
      forall B | Completion(B, ti, nDefined, bombs) && targets[ti] in B ensures Reached(ls, n, bombs + B) {
        CompletionAfterBomb(B, ti, nDefined, bombs);
      }
    }

    /** Leaves that agree with the bombs and ti on the targets up to ti
        agree with the bombs before ti and make ti a bomb. */
    lemma BombLeaves(n: nat, ti: nat, bombs: set<(int, int)>)
      requires Shape() && ti < |targets| && NewLeaves(n, ti + 1, bombs + {targets[ti]})
      ensures NewLeaves(n, ti, bombs)
      ensures forall i :: n <= i < |leaves| ==> targets[ti] in leaves[i].bombs
    {
      forall k | 0 <= k < ti ensures targets[k] != targets[ti] {
        TargetsDistinct(k, ti);
      }
    }

    /** With target ti marked a bomb, every completion that makes it one
        passes the bound and the clue check of the bomb branch. */
    lemma BombCompletions(ti: nat, nDefined: int, bombs: set<(int, int)>, safe: set<(int, int)>)
      requires Shape() && ti < |targets| && SearchOn(bombs, safe, ti)
      requires BombSet() == bombs + {targets[ti]} && SafeSet() == safe
      ensures forall B :: Completion(B, ti, nDefined, bombs) && targets[ti] in B ==>
                BombGuard(ti, nDefined) && AssumptionValid(targets[ti].0, targets[ti].1)
    {
      forall B | Completion(B, ti, nDefined, bombs) && targets[ti] in B
        ensures BombGuard(ti, nDefined) && AssumptionValid(targets[ti].0, targets[ti].1)
      {
        BombCompletion(B, ti, nDefined, bombs, safe);
      }
    }

    lemma BombCompletion(B: set<(int, int)>, ti: nat, nDefined: int, bombs: set<(int, int)>, safe: set<(int, int)>)
      requires Shape() && ti < |targets| && SearchOn(bombs, safe, ti)
      requires BombSet() == bombs + {targets[ti]} && SafeSet() == safe
      requires Completion(B, ti, nDefined, bombs) && targets[ti] in B
      ensures BombGuard(ti, nDefined) && AssumptionValid(targets[ti].0, targets[ti].1)
    {
      TargetsFromSize(ti);
      SubsetSize(B, TargetsFrom(ti));
      assert B != {};
      SafeApartAll(ti, bombs, safe, B);
      ValidUnder(ti, bombs + B);
    }

    /** With target ti marked safe, every completion that leaves it safe
        passes the bound and the clue check of the safe branch. */
    lemma SafeCompletions(ti: nat, nDefined: int, bombs: set<(int, int)>, safe: set<(int, int)>)
      requires Shape() && ti < |targets| && SearchOn(bombs, safe, ti)
      requires BombSet() == bombs && SafeSet() == safe + {targets[ti]}
      ensures forall B :: Completion(B, ti, nDefined, bombs) && targets[ti] !in B ==>
                SafeGuard(ti, nDefined) && AssumptionValid(targets[ti].0, targets[ti].1) &&
                Completion(B, ti + 1, nDefined, bombs)
    {
      forall B | Completion(B, ti, nDefined, bombs) && targets[ti] !in B
        ensures SafeGuard(ti, nDefined) && AssumptionValid(targets[ti].0, targets[ti].1)
        ensures Completion(B, ti + 1, nDefined, bombs)
      {
        SafeCompletion(B, ti, nDefined, bombs, safe);
      }
    }

    lemma SafeCompletion(B: set<(int, int)>, ti: nat, nDefined: int, bombs: set<(int, int)>, safe: set<(int, int)>)
      requires Shape() && ti < |targets| && SearchOn(bombs, safe, ti)
      requires BombSet() == bombs && SafeSet() == safe + {targets[ti]}
      requires Completion(B, ti, nDefined, bombs) && targets[ti] !in B
      ensures SafeGuard(ti, nDefined) && AssumptionValid(targets[ti].0, targets[ti].1)
      ensures Completion(B, ti + 1, nDefined, bombs)
    {
      CompletionAfterSafe(B, ti, nDefined, bombs);
      TargetsFromSize(ti + 1);
      SubsetSize(B, TargetsFrom(ti + 1));
      SafeApartAll(ti, bombs, safe, B);
      ValidUnder(ti, bombs + B);
    }

    /** An admissible placement is a completion of the pre-deduced bombs
        from the first target, and it keeps the root lookup in range. */
    lemma RootCompletion(bombs: set<(int, int)>, B: set<(int, int)>)
      requires Shape() && |bombs| == nInitialBombs && Admissible(bombs, B)
      requires forall k :: 0 <= k < |targets| ==> targets[k] !in bombs
      ensures Completion(B, 0, nInitialBombs, bombs) && RootInRange()
    {
      forall p | p in B ensures p !in bombs {
        assert p in TargetsFrom(0);
      }
      assert bombs * B == {};
      if |targets| == 0 {
        assert TargetsFrom(0) == {};
      }
    }

    lemma RootCompletions(bombs: set<(int, int)>)
      requires Shape() && bombs == BombSet() && |bombs| == nInitialBombs && Unmarked(0)
      ensures forall B :: Admissible(bombs, B) ==> Completion(B, 0, nInitialBombs, bombs) && RootInRange()
    {
      MarkSets();
      forall B | Admissible(bombs, B) ensures Completion(B, 0, nInitialBombs, bombs) && RootInRange() {
        RootCompletion(bombs, B);
      }
    }

    /** Every leaf is the deduced bombs plus some targets; one that weighs
        is an admissible placement. */
    lemma LeavesAdmissible()
      requires Shape() && LeavesOk()
      ensures forall i :: 0 <= i < |leaves| ==>
                deduced <= leaves[i].bombs &&
                (Weight(leaves[i].remaining) > 0.0 ==> Admissible(deduced, leaves[i].bombs - deduced))
    {
      forall i | 0 <= i < |leaves| && Weight(leaves[i].remaining) > 0.0
        ensures Admissible(deduced, leaves[i].bombs - deduced)
      {
        var l := leaves[i];
        assert deduced + (l.bombs - deduced) == l.bombs;
      }
    }

    lemma {:induction false} TotalNonNegative(ls: seq<Leaf>)
      ensures TotalWeight(ls) >= 0.0
    {
      if ls != [] {
        TotalNonNegative(ls[..|ls| - 1]);
      }
    }

    /** One leaf whose remaining mines fit on the hard cells makes the
        total at least 1. */
    lemma {:induction false} TotalPositive(ls: seq<Leaf>, i: nat)
      requires i < |ls| && 0 <= ls[i].remaining <= nHardCells
      ensures TotalWeight(ls) >= 1.0
      decreases |ls|
    {
      var last := |ls| - 1;
      if i == last {
        ChoosePositive(nHardCells, ls[i].remaining);
        TotalNonNegative(ls[..last]);
      } else {
        TotalPositive(ls[..last], i);
      }
    }

    /** When some admissible placement is reached as a leaf, the total is positive. */
    lemma SolvablePositive(bombs: set<(int, int)>, n: nat)
      requires Shape() && LeavesOk()
      requires forall B :: Admissible(bombs, B) ==> Reached(leaves, n, bombs + B)
      ensures (exists B :: Admissible(bombs, B)) ==> TotalWeight(leaves) >= 1.0
    {
      if B :| Admissible(bombs, B) {
        var i :| n <= i < |leaves| && leaves[i].bombs == bombs + B;
        TotalPositive(leaves, i);
      }
    }

    constructor (cellStates: seq<seq<int>>, nTotalBombs: int)
      requires |cellStates| > 0 && Rect(cellStates, |cellStates|, |cellStates[0]|)
      ensures this.cellStates == cellStates && this.nTotalBombs == nTotalBombs
      ensures height == |cellStates| && width == |cellStates[0]|
      ensures Shape() && MemoExact() && Unmarked(0) && Bounded()
      ensures probSum == 0.0 && forall i :: 0 <= i < probs.Length ==> probs[i] == 0.0
      ensures leaves == [] && Tally() && SettledOn(BombSet(), SafeSet())
      ensures forall y, x :: 0 <= y < height && 0 <= x < width ==>
                (bombCells[y, x] <==> ForcedBomb(cellStates, height, width, neighborList, y, x)) &&
                (safeCells[y, x] <==> ForcedSafe(cellStates, height, width, neighborList, bombCells, y, x))
      ensures forall k :: 0 <= k < |targets| ==>
                IsTarget(cellStates, height, width, neighborList, bombCells, safeCells, targets[k].0, targets[k].1)
      ensures forall y, x ::
                (0 <= y < height && 0 <= x < width &&
                 IsTarget(cellStates, height, width, neighborList, bombCells, safeCells, y, x)) ==> (y, x) in targets
      ensures nHardCells == HardCount(cellStates, height, width, neighborList, height)
      ensures nInitialBombs == Marked(bombCells, height) == |BombSet()| && BombSet() == deduced
      ensures fresh(bombCells) && fresh(safeCells) && fresh(probs)
    {
      var h := |cellStates|;
      var w := |cellStates[0]|;
      var nl := GetNeighborList(h, w);
      var bomb := DetermineBombCells(cellStates, h, w, nl);
      var safe := DetermineSafeCells(cellStates, h, w, nl, bomb);
      var ts := CollectTargets(cellStates, h, w, nl, bomb, safe);
      var memo := ComputeCombination(h * w + 1);
      var ps := new real[|ts| + 1]((_) => 0.0);
      var nHard := CountHardCells(cellStates, h, w, nl);
      var nBombs := CountBombs(bomb);
      deduced := Marks(bomb, h);
      this.cellStates := cellStates;
      this.nTotalBombs := nTotalBombs;
      height := h;
      width := w;
      neighborList := nl;
      bombCells := bomb;
      safeCells := safe;
      targets := ts;
      combinationMemo := memo;
      probs := ps;
      nHardCells := nHard;
      nInitialBombs := nBombs;
      probSum := 0.0;
      leaves := [];
      new;
      SettledByDeduction();
      BombCount();
    }

    /** Pre-deduction leaves the marks SettledOn describes. */
    lemma SettledByDeduction()
      requires Shape()
      requires forall y, x :: 0 <= y < height && 0 <= x < width ==>
                 (bombCells[y, x] <==> ForcedBomb(cellStates, height, width, neighborList, y, x)) &&
                 (safeCells[y, x] <==> ForcedSafe(cellStates, height, width, neighborList, bombCells, y, x))
      requires forall k :: 0 <= k < |targets| ==>
                 IsTarget(cellStates, height, width, neighborList, bombCells, safeCells, targets[k].0, targets[k].1)
      requires forall y, x ::
                 (0 <= y < height && 0 <= x < width &&
                  IsTarget(cellStates, height, width, neighborList, bombCells, safeCells, y, x)) ==> (y, x) in targets
      ensures SettledOn(BombSet(), SafeSet())
    {
      forall k | 0 <= k < |targets| ensures cellStates[targets[k].0][targets[k].1] == -1 {
        assert IsTarget(cellStates, height, width, neighborList, bombCells, safeCells, targets[k].0, targets[k].1);
      }
      forall y, x | 0 <= y < height && 0 <= x < width && (y, x) !in targets
        ensures bombCells[y, x] ==> cellStates[y][x] == -1
        ensures cellStates[y][x] == -1 && OpenCount(cellStates, height, width, neighborList[y][x]) != 0 ==>
                  bombCells[y, x] != safeCells[y, x]
      {
        SettledCell(y, x);
      }
      MarkSets();
    }

    /** One cell outside the targets after pre-deduction. */
    lemma SettledCell(y: int, x: int)
      requires Shape() && 0 <= y < height && 0 <= x < width
      requires bombCells[y, x] <==> ForcedBomb(cellStates, height, width, neighborList, y, x)
      requires safeCells[y, x] <==> ForcedSafe(cellStates, height, width, neighborList, bombCells, y, x)
      requires !IsTarget(cellStates, height, width, neighborList, bombCells, safeCells, y, x)
      ensures bombCells[y, x] ==> cellStates[y][x] == -1
      ensures cellStates[y][x] == -1 && OpenCount(cellStates, height, width, neighborList[y][x]) != 0 ==>
                bombCells[y, x] != safeCells[y, x]
    {
      if bombCells[y, x] {
        var h', w' :| 0 <= h' < height && 0 <= w' < width && BombBy(cellStates, height, width, neighborList, h', w', y, x);
      }
      if safeCells[y, x] && cellStates[y][x] == -1 {
        var h', w' :| 0 <= h' < height && 0 <= w' < width &&
                      SafeBy(cellStates, height, width, neighborList, bombCells, h', w', y, x);
      }
    }

    /** is_assumption_valid(h, w): the clue of every open neighbour can still be met. */
    method IsAssumptionValid(h: int, w: int) returns (valid: bool)
      requires Shape() && InField(height, width, (h, w))
      ensures valid <==> AssumptionValid(h, w)
    {
      var ns := neighborList[h][w];
      for k := 0 to |ns|
        invariant forall k' :: 0 <= k' < k ==> ClueFeasible(ns[k'].0, ns[k'].1)
      {
        var (y, x) := ns[k];
        if cellStates[y][x] == -1 {
          continue;
        }
        var nbs := neighborList[y][x];
        var nBombs := CountBombAround(bombCells, nbs);
        var nSafe := CountSafeAround(safeCells, cellStates, nbs);
        if nBombs > cellStates[y][x] || |nbs| - nSafe < cellStates[y][x] {
          return false;
        }
      }
      return true;
    }

    /** compute_prob: one leaf. The C(hard, remaining) placements of the
        remaining mines on hard cells count for the total and for every
        bomb-marked target; C(hard - 1, remaining - 1) of them put a mine
        on one given hard cell. */
    method ComputeProb(nDefined: int)
      requires Shape() && MemoExact() && Bounded()
      requires 0 <= nTotalBombs - nDefined <= height * width
      modifies probs, this`probSum
      ensures probSum == old(probSum) + Choose(nHardCells, nTotalBombs - nDefined) as real
      ensures forall i :: 0 <= i < |targets| ==>
                probs[i] == old(probs[i]) +
                            (if bombCells[targets[i].0, targets[i].1] then Choose(nHardCells, nTotalBombs - nDefined) as real else 0.0)
      ensures probs[|targets|] == old(probs[|targets|]) +
                (if nHardCells >= 1 && nTotalBombs - nDefined > 0
                 then Choose(nHardCells - 1, nTotalBombs - nDefined - 1) as real else 0.0)
      ensures Bounded()
    {
      var rem := nTotalBombs - nDefined;
      var prob := combinationMemo[nHardCells, rem] as real;
      var nTargets := |targets|;
      for i := 0 to nTargets
        invariant forall i' :: 0 <= i' < i ==>
                    probs[i'] == old(probs[i']) + (if bombCells[targets[i'].0, targets[i'].1] then prob else 0.0)
        invariant forall i' :: i <= i' < probs.Length ==> probs[i'] == old(probs[i'])
        invariant probSum == old(probSum)
      {
        var (h, w) := targets[i];
        if bombCells[h, w] {
          probs[i] := probs[i] + prob;
        }
      }
      if nHardCells >= 1 && rem > 0 {
        probs[nTargets] := probs[nTargets] + combinationMemo[nHardCells - 1, rem - 1] as real;
        ShiftedBelow(nHardCells, rem);
      }
      probSum := probSum + prob;
    }

    /** compute_prob at a leaf, with the leaf appended to the log. */
    method RecordLeaf(nDefined: int)
      requires Shape() && MemoExact() && Bounded() && Tally() && LeavesOk() && Consistent(BombSet())
      requires 0 <= nTotalBombs - nDefined <= height * width && nDefined == |BombSet()| && Anchored()
      modifies probs, this`probSum, this`leaves
      ensures leaves == old(leaves) + [Leaf(BombSet(), nTotalBombs - nDefined)]
      ensures Tally() && LeavesOk() && Bounded() && probSum >= old(probSum)
      ensures forall i :: 0 <= i < probs.Length ==> probs[i] >= old(probs[i])
      ensures NewLeaves(|old(leaves)|, |targets|, BombSet())
      ensures forall B :: Completion(B, |targets|, nDefined, BombSet()) ==> Reached(leaves, |old(leaves)|, BombSet() + B)
    {
      ghost var leaves0, sum0, probs0 := leaves, probSum, probs[..];
      ghost var l := Leaf(BombSet(), nTotalBombs - nDefined);
      ComputeProb(nDefined);
      assert probSum >= sum0 by {
        assert Weight(l.remaining) >= 0.0;
      }
      leaves := leaves + [l];
      LeafTallied(leaves0, l, sum0, probs0);
      LeafAppended(leaves0, l);
      LeafReaches(leaves, |leaves0|, nDefined, BombSet());
    }

    /** One more good leaf, different from none before it in the search,
        keeps the leaves good. */
    lemma LeafAppended(leaves0: seq<Leaf>, l: Leaf)
      requires Shape() && leaves == leaves0 + [l] && LeafOk(l)
      requires forall i :: 0 <= i < |leaves0| ==> LeafOk(leaves0[i])
      ensures LeavesOk() && NewLeaves(|leaves0|, |targets|, l.bombs)
    {
    }

    /** Tallies that grew by the placements of one more leaf. */
    lemma LeafTallied(leaves0: seq<Leaf>, l: Leaf, sum0: real, probs0: seq<real>)
      requires Shape() && l.bombs == BombSet() && leaves == leaves0 + [l] && |probs0| == probs.Length
      requires sum0 == TotalWeight(leaves0) && probs0[|targets|] == HardTotal(leaves0)
      requires forall i :: 0 <= i < |targets| ==> probs0[i] == BombWeight(leaves0, targets[i])
      requires probSum == sum0 + Choose(nHardCells, l.remaining) as real
      requires probs[|targets|] == probs0[|targets|] + HardWeight(l.remaining)
      requires forall i :: 0 <= i < |targets| ==>
                 probs[i] == probs0[i] + (if bombCells[targets[i].0, targets[i].1] then Choose(nHardCells, l.remaining) as real else 0.0)
      ensures Tally()
    {
      WeightsAppend(leaves0, l);
      MarkSets();
    }

    /** The leaves of the bomb branch, then those of the safe branch. */
    lemma BranchesJoin(ti: nat, leaves0: seq<Leaf>, leaves1: seq<Leaf>, decided: set<(int, int)>)
      requires Shape() && ti < |targets|
      requires leaves0 <= leaves1 <= leaves
      requires forall i :: |leaves0| <= i < |leaves1| ==> Extends(leaves1[i].bombs, ti, decided) && targets[ti] in leaves1[i].bombs
      requires forall i, j :: |leaves0| <= i < j < |leaves1| ==> leaves1[i].bombs != leaves1[j].bombs
      requires NewLeaves(|leaves1|, ti, decided)
      requires forall i :: |leaves1| <= i < |leaves| ==> targets[ti] !in leaves[i].bombs
      ensures NewLeaves(|leaves0|, ti, decided)
    {
      assert forall i :: |leaves0| <= i < |leaves1| ==> leaves[i] == leaves1[i];
    }

    /** The bomb mark of target ti set to v. */
    method SetBombMark(ti: nat, v: bool)
      requires Shape() && ti < |targets|
      modifies bombCells
      ensures forall y, x :: 0 <= y < height && 0 <= x < width ==>
                bombCells[y, x] == (if (y, x) == targets[ti] then v else old(bombCells[y, x]))
      ensures BombSet() == if v then old(BombSet()) + {targets[ti]} else old(BombSet()) - {targets[ti]}
      ensures old(bombCells[targets[ti].0, targets[ti].1]) == (targets[ti] in old(BombSet()))
    {
      MarkSets();
      var (h, w) := targets[ti];
      bombCells[h, w] := v;
      MarkSets();
    }

    /** The safe mark of the closed target ti set to v. */
    method SetSafeMark(ti: nat, v: bool)
      requires Shape() && ti < |targets| && cellStates[targets[ti].0][targets[ti].1] == -1
      modifies safeCells
      ensures forall y, x :: 0 <= y < height && 0 <= x < width ==>
                safeCells[y, x] == (if (y, x) == targets[ti] then v else old(safeCells[y, x]))
      ensures SafeSet() == if v then old(SafeSet()) + {targets[ti]} else old(SafeSet()) - {targets[ti]}
      ensures SafeMarks() == if v then old(SafeMarks()) + {targets[ti]} else old(SafeMarks()) - {targets[ti]}
      ensures old(safeCells[targets[ti].0, targets[ti].1]) == (targets[ti] in old(SafeSet()))
    {
      SafeMarksAre();
      var (h, w) := targets[ti];
      assert (h, w) !in OpenCells();
      safeCells[h, w] := v;
      SafeMarksAre();
    }

    /** depth_first_search(ti, nDefined): tries "bomb" and then "safe" for
        target ti and searches on when the clues around it and the mine
        counts allow; it leaves the marks exactly as it found them. Every
        leaf it reaches is consistent with the clues and tallied. */
    method DepthFirstSearch(ti: nat, nDefined: int)
      requires Shape() && MemoExact() && Bounded() && ti <= |targets|
      requires SearchOn(BombSet(), SafeSet(), ti) && Tally() && LeavesOk()
      requires ti == |targets| ==> 0 <= nTotalBombs - nDefined <= height * width
      requires 0 < ti == |targets| ==> nTotalBombs - nDefined <= nHardCells
      requires nDefined == |BombSet()| && Anchored()
      modifies bombCells, safeCells, probs, this`probSum, this`leaves
      ensures Tally() && LeavesOk()
      ensures Bounded() && probSum >= old(probSum)
      ensures forall i :: 0 <= i < probs.Length ==> probs[i] >= old(probs[i])
      ensures BombSet() == old(BombSet()) && SafeMarks() == old(SafeMarks()) && SafeSet() == old(SafeSet())
      ensures old(leaves) <= leaves && NewLeaves(|old(leaves)|, ti, old(BombSet()))
      ensures forall B :: Completion(B, ti, nDefined, old(BombSet())) ==> Reached(leaves, |old(leaves)|, old(BombSet()) + B)
      decreases |targets| - ti, 2
    {
      ghost var bombs0 := BombSet();
      if |targets| == ti {
        LeafConsistent();
        RecordLeaf(nDefined);
        return;
      }
      ghost var leaves0 := leaves;
      BombBranch(ti, nDefined);
      ghost var leaves1 := leaves;
      SafeBranch(ti, nDefined);
      BranchesJoin(ti, leaves0, leaves1, bombs0);
      BranchesReach(ti, nDefined, bombs0, |leaves0|, leaves1, leaves);
    }

    /** At a leaf the only completion is the empty one, and the leaf just
        recorded has the bombs. */
    lemma LeafReaches(ls: seq<Leaf>, n: nat, nDefined: int, bombs: set<(int, int)>)
      requires Shape() && n < |ls| && ls[n].bombs == bombs
      ensures forall B :: Completion(B, |targets|, nDefined, bombs) ==> Reached(ls, n, bombs + B)
    {
      forall B | Completion(B, |targets|, nDefined, bombs) ensures Reached(ls, n, bombs + B) {
        assert B == {};
        assert ls[n].bombs == bombs + B;
      }
    }

    /** The completions that make ti a bomb are reached in the bomb branch,
        the others in the safe branch after it. */
    lemma BranchesReach(ti: nat, nDefined: int, bombs: set<(int, int)>, n: nat, ls1: seq<Leaf>, ls: seq<Leaf>)
      requires Shape() && ti < |targets| && n <= |ls1| && ls1 <= ls
      requires forall B :: Completion(B, ti, nDefined, bombs) && targets[ti] in B ==> Reached(ls1, n, bombs + B)
      requires forall B :: Completion(B, ti, nDefined, bombs) && targets[ti] !in B ==> Reached(ls, |ls1|, bombs + B)
      ensures forall B :: Completion(B, ti, nDefined, bombs) ==> Reached(ls, n, bombs + B)
    {
      forall B | Completion(B, ti, nDefined, bombs) ensures Reached(ls, n, bombs + B) {
        if targets[ti] in B {
          var i :| n <= i < |ls1| && ls1[i].bombs == bombs + B;
          assert ls[i] == ls1[i];
        }
      }
    }

    /** The first half of depth_first_search: target ti marked a bomb. */
    method BombBranch(ti: nat, nDefined: int)
      requires Shape() && MemoExact() && Bounded() && ti < |targets|
      requires SearchOn(BombSet(), SafeSet(), ti) && Tally() && LeavesOk() && nDefined == |BombSet()| && Anchored()
      modifies bombCells, safeCells, probs, this`probSum, this`leaves
      ensures Tally() && LeavesOk()
      ensures Bounded() && probSum >= old(probSum)
      ensures forall i :: 0 <= i < probs.Length ==> probs[i] >= old(probs[i])
      ensures BombSet() == old(BombSet()) && SafeMarks() == old(SafeMarks()) && SafeSet() == old(SafeSet())
      ensures old(leaves) <= leaves && NewLeaves(|old(leaves)|, ti, old(BombSet()))
      ensures forall i :: |old(leaves)| <= i < |leaves| ==> targets[ti] in leaves[i].bombs
      ensures forall B :: Completion(B, ti, nDefined, old(BombSet())) && targets[ti] in B ==>
                Reached(leaves, |old(leaves)|, old(BombSet()) + B)
      decreases |targets| - ti, 1
    {
      ghost var bombs0, safe0 := BombSet(), SafeSet();
      SetBombMark(ti, true);
      assert targets[ti] in TargetsFrom(0);
      BombSearch(ti, nDefined, bombs0, safe0);
      SetBombMark(ti, false);
      assert BombSet() == bombs0;
    }

    /** The bomb branch past the mark: the bounds, the clue check and the
        search from ti + 1. */
    method BombSearch(ti: nat, nDefined: int, ghost bombs0: set<(int, int)>, ghost safe0: set<(int, int)>)
      requires Shape() && MemoExact() && Bounded() && ti < |targets|
      requires SearchOn(bombs0, safe0, ti) && Tally() && LeavesOk() && nDefined == |bombs0|
      requires BombSet() == bombs0 + {targets[ti]} && SafeSet() == safe0 && Anchored()
      modifies bombCells, safeCells, probs, this`probSum, this`leaves
      ensures Tally() && LeavesOk()
      ensures BombSet() == old(BombSet()) && SafeMarks() == old(SafeMarks()) && SafeSet() == old(SafeSet())
      ensures Bounded() && probSum >= old(probSum)
      ensures forall i :: 0 <= i < probs.Length ==> probs[i] >= old(probs[i])
      ensures old(leaves) <= leaves && NewLeaves(|old(leaves)|, ti, bombs0)
      ensures forall i :: |old(leaves)| <= i < |leaves| ==> targets[ti] in leaves[i].bombs
      ensures forall B :: Completion(B, ti, nDefined, bombs0) && targets[ti] in B ==>
                Reached(leaves, |old(leaves)|, bombs0 + B)
      decreases |targets| - ti, 0
    {
      var (h, w) := targets[ti];
      BombCompletions(ti, nDefined, bombs0, safe0);
      if BombGuard(ti, nDefined) {
        var valid := IsAssumptionValid(h, w);
        if valid {
          BombDescend(ti, nDefined, bombs0, safe0);
        }
      }
    }

    /** The bomb branch once the bounds and the clue check passed: the
        search from ti + 1 with one bomb more. */
    method BombDescend(ti: nat, nDefined: int, ghost bombs0: set<(int, int)>, ghost safe0: set<(int, int)>)
      requires Shape() && MemoExact() && Bounded() && ti < |targets|
      requires SearchOn(bombs0, safe0, ti) && Tally() && LeavesOk() && nDefined == |bombs0|
      requires BombSet() == bombs0 + {targets[ti]} && SafeSet() == safe0 && Anchored()
      requires BombGuard(ti, nDefined) && AssumptionValid(targets[ti].0, targets[ti].1)
      modifies bombCells, safeCells, probs, this`probSum, this`leaves
      ensures Tally() && LeavesOk()
      ensures BombSet() == old(BombSet()) && SafeMarks() == old(SafeMarks()) && SafeSet() == old(SafeSet())
      ensures Bounded() && probSum >= old(probSum)
      ensures forall i :: 0 <= i < probs.Length ==> probs[i] >= old(probs[i])
      ensures old(leaves) <= leaves && NewLeaves(|old(leaves)|, ti, bombs0)
      ensures forall i :: |old(leaves)| <= i < |leaves| ==> targets[ti] in leaves[i].bombs
      ensures forall B :: Completion(B, ti, nDefined, bombs0) && targets[ti] in B ==>
                Reached(leaves, |old(leaves)|, bombs0 + B)
      decreases |targets| - ti - 1, 3
    {
      SearchAdvances(ti, bombs0, safe0);
      DepthFirstSearch(ti + 1, nDefined + 1);
      BombReached(leaves, |old(leaves)|, ti, nDefined, bombs0);
      BombLeaves(|old(leaves)|, ti, bombs0);
    }

    /** The second half of depth_first_search: target ti marked safe. */
    method SafeBranch(ti: nat, nDefined: int)
      requires Shape() && MemoExact() && Bounded() && ti < |targets|
      requires SearchOn(BombSet(), SafeSet(), ti) && Tally() && LeavesOk() && nDefined == |BombSet()| && Anchored()
      modifies bombCells, safeCells, probs, this`probSum, this`leaves
      ensures Tally() && LeavesOk()
      ensures Bounded() && probSum >= old(probSum)
      ensures forall i :: 0 <= i < probs.Length ==> probs[i] >= old(probs[i])
      ensures BombSet() == old(BombSet()) && SafeMarks() == old(SafeMarks()) && SafeSet() == old(SafeSet())
      ensures old(leaves) <= leaves && NewLeaves(|old(leaves)|, ti, old(BombSet()))
      ensures forall i :: |old(leaves)| <= i < |leaves| ==> targets[ti] !in leaves[i].bombs
      ensures forall B :: Completion(B, ti, nDefined, old(BombSet())) && targets[ti] !in B ==>
                Reached(leaves, |old(leaves)|, old(BombSet()) + B)
      decreases |targets| - ti, 1
    {
      ghost var bombs0, safe0 := BombSet(), SafeSet();
      SetSafeMark(ti, true);
      SafeSearch(ti, nDefined, bombs0, safe0);
      SetSafeMark(ti, false);
      assert SafeSet() == safe0;
    }

    /** The safe branch past the mark: the bounds, the clue check and the
        search from ti + 1. */
    method SafeSearch(ti: nat, nDefined: int, ghost bombs0: set<(int, int)>, ghost safe0: set<(int, int)>)
      requires Shape() && MemoExact() && Bounded() && ti < |targets|
      requires SearchOn(bombs0, safe0, ti) && Tally() && LeavesOk() && nDefined == |bombs0|
      requires BombSet() == bombs0 && SafeSet() == safe0 + {targets[ti]} && Anchored()
      modifies bombCells, safeCells, probs, this`probSum, this`leaves
      ensures Tally() && LeavesOk()
      ensures BombSet() == old(BombSet()) && SafeMarks() == old(SafeMarks()) && SafeSet() == old(SafeSet())
      ensures Bounded() && probSum >= old(probSum)
      ensures forall i :: 0 <= i < probs.Length ==> probs[i] >= old(probs[i])
      ensures old(leaves) <= leaves && NewLeaves(|old(leaves)|, ti + 1, bombs0)
      ensures forall B :: Completion(B, ti, nDefined, bombs0) && targets[ti] !in B ==>
                Reached(leaves, |old(leaves)|, bombs0 + B)
      decreases |targets| - ti, 0
    {
      var (h, w) := targets[ti];
      SafeCompletions(ti, nDefined, bombs0, safe0);
      if SafeGuard(ti, nDefined) {
        var valid := IsAssumptionValid(h, w);
        if valid {
          SafeDescend(ti, nDefined, bombs0, safe0);
        }
      }
    }

    /** The safe branch past the bounds and the clue check: the search
        from ti + 1 with the same number of bombs. */
    method SafeDescend(ti: nat, nDefined: int, ghost bombs0: set<(int, int)>, ghost safe0: set<(int, int)>)
      requires Shape() && MemoExact() && Bounded() && ti < |targets|
      requires SearchOn(bombs0, safe0, ti) && Tally() && LeavesOk() && nDefined == |bombs0|
      requires BombSet() == bombs0 && SafeSet() == safe0 + {targets[ti]} && Anchored()
      requires SafeGuard(ti, nDefined) && AssumptionValid(targets[ti].0, targets[ti].1)
      modifies bombCells, safeCells, probs, this`probSum, this`leaves
      ensures Tally() && LeavesOk()
      ensures BombSet() == old(BombSet()) && SafeMarks() == old(SafeMarks()) && SafeSet() == old(SafeSet())
      ensures Bounded() && probSum >= old(probSum)
      ensures forall i :: 0 <= i < probs.Length ==> probs[i] >= old(probs[i])
      ensures old(leaves) <= leaves && NewLeaves(|old(leaves)|, ti + 1, bombs0)
      ensures forall B :: Completion(B, ti + 1, nDefined, bombs0) ==> Reached(leaves, |old(leaves)|, bombs0 + B)
      decreases |targets| - ti - 1, 3
    {
      SearchAdvances(ti, bombs0, safe0);
      DepthFirstSearch(ti + 1, nDefined);
    }

    /** The value get_probs gives a cell that is not a target. */
    function OtherCell(y: int, x: int, landProb: real): real
      reads bombCells, safeCells
      requires Shape() && InField(height, width, (y, x))
    {
      if safeCells[y, x] || cellStates[y][x] != -1 then 0.0
      else if bombCells[y, x] then 1.0
      else landProb
    }

    /** get_probs: normalises the tallies, then gives every target its
        tally and every other cell 0, 1 or the hard-cell tally. */
    method GetProbs() returns (grid: array2<real>)
      requires Shape() && Bounded() && probSum > 0.0
      modifies probs
      ensures fresh(grid) && grid.Length0 == height && grid.Length1 == width
      ensures forall i :: 0 <= i < probs.Length ==> probs[i] == old(probs[i]) / probSum && 0.0 <= probs[i] <= 1.0
      ensures forall k :: 0 <= k < |targets| ==> grid[targets[k].0, targets[k].1] == probs[k]
      ensures forall y, x :: 0 <= y < height && 0 <= x < width && (y, x) !in targets ==>
                grid[y, x] == OtherCell(y, x, probs[|targets|])
      ensures forall y, x :: 0 <= y < height && 0 <= x < width ==> 0.0 <= grid[y, x] <= 1.0
    {
      NormalizeProbs(probs, probSum);
      forall i | 0 <= i < probs.Length
        ensures 0.0 <= probs[i] <= 1.0
      {
        RatioInUnit(old(probs[i]), probSum);
      }
      grid := new real[height, width]((_, _) => -1.0);
      PlaceTargets(grid);
      ghost var ps := probs[..];
      for h := 0 to height
        invariant probs[..] == ps
        invariant forall k :: 0 <= k < |targets| ==> grid[targets[k].0, targets[k].1] == probs[k]
        invariant forall y, x :: 0 <= y < height && 0 <= x < width && (y, x) !in targets ==>
                    grid[y, x] == (if y < h then OtherCell(y, x, probs[|targets|]) else -1.0)
      {
        FillOtherRow(grid, h);
      }
    }

    /** The first loop of get_probs: every target gets its tally. */
    method PlaceTargets(grid: array2<real>)
      requires Shape() && grid.Length0 == height && grid.Length1 == width
      requires forall y, x :: 0 <= y < height && 0 <= x < width ==> grid[y, x] == -1.0
      modifies grid
      ensures forall k :: 0 <= k < |targets| ==> grid[targets[k].0, targets[k].1] == probs[k]
      ensures forall y, x :: 0 <= y < height && 0 <= x < width && (y, x) !in targets ==> grid[y, x] == -1.0
    {
      for i := 0 to |targets|
        invariant forall k :: 0 <= k < i ==> grid[targets[k].0, targets[k].1] == probs[k]
        invariant forall y, x :: 0 <= y < height && 0 <= x < width && (y, x) !in targets[..i] ==> grid[y, x] == -1.0
      {
        var (y, x) := targets[i];
        assert forall k :: 0 <= k < i ==> Before(targets[k].0, targets[k].1, y, x);
        assert targets[..i + 1] == targets[..i] + [(y, x)];
        grid[y, x] := probs[i];
      }
      assert targets[..|targets|] == targets;
    }

    /** The second loop of get_probs on row h: cells still at -1 get their value. */
    method FillOtherRow(grid: array2<real>, h: int)
      requires Shape() && 0 <= h < height && grid.Length0 == height && grid.Length1 == width
      requires forall k :: 0 <= k < probs.Length ==> 0.0 <= probs[k]
      requires forall k :: 0 <= k < |targets| ==> grid[targets[k].0, targets[k].1] == probs[k]
      requires forall x :: 0 <= x < width && (h, x) !in targets ==> grid[h, x] == -1.0
      modifies grid
      ensures forall k :: 0 <= k < |targets| ==> grid[targets[k].0, targets[k].1] == probs[k]
      ensures forall x :: 0 <= x < width && (h, x) !in targets ==> grid[h, x] == OtherCell(h, x, probs[|targets|])
      ensures forall y, x :: 0 <= y < height && y != h && 0 <= x < width ==> grid[y, x] == old(grid[y, x])
    {
      for w := 0 to width
        invariant forall k :: 0 <= k < |targets| ==> grid[targets[k].0, targets[k].1] == probs[k]
        invariant forall x :: 0 <= x < width && (h, x) !in targets ==>
                    grid[h, x] == (if x < w then OtherCell(h, x, probs[|targets|]) else -1.0)
        invariant forall y, x :: 0 <= y < height && y != h && 0 <= x < width ==> grid[y, x] == old(grid[y, x])
      {
        if grid[h, w] >= 0.0 {
          continue;
        }
        if safeCells[h, w] || cellStates[h][w] != -1 {
          grid[h, w] := 0.0;
        } else if bombCells[h, w] {
          grid[h, w] := 1.0;
        } else {
          grid[h, w] := probs[|targets|];
        }
      }
    }

    /** solve: the search from the first target with the pre-deduced bombs,
        then the probabilities. There is no result where the source's
        table lookup would leave the table, or where the total is 0 and
        every normalised value would be NaN. */
    /** The first step of solve: the search from the root, with what it
        finds. */
    method SearchAll()
      requires Shape() && MemoExact() && Bounded() && Unmarked(0) && SettledOn(BombSet(), SafeSet())
      requires Tally() && LeavesOk() && nInitialBombs == |BombSet()| && BombSet() == deduced && RootInRange()
      modifies bombCells, safeCells, probs, this`probSum, this`leaves
      ensures forall B :: Admissible(old(BombSet()), B) ==> Reached(leaves, |old(leaves)|, old(BombSet()) + B)
      ensures (exists B :: Admissible(old(BombSet()), B)) ==> probSum > 0.0
      ensures forall i :: |old(leaves)| <= i < |leaves| ==>
                old(BombSet()) <= leaves[i].bombs &&
                (Weight(leaves[i].remaining) > 0.0 ==> Admissible(old(BombSet()), leaves[i].bombs - old(BombSet())))
      ensures Tally() && LeavesOk() && Bounded() && old(leaves) <= leaves
      ensures forall i, j :: |old(leaves)| <= i < j < |leaves| ==> leaves[i].bombs != leaves[j].bombs
      ensures forall y, x :: 0 <= y < height && 0 <= x < width ==>
                bombCells[y, x] == old(bombCells[y, x]) && safeCells[y, x] == old(safeCells[y, x])
    {
      ghost var bombs0 := BombSet();
      MarksAre();
      RootCompletions(bombs0);
      SearchStarts();
      DepthFirstSearch(0, nInitialBombs);
      MarksAre();
      SolvablePositive(bombs0, |old(leaves)|);
      LeavesAdmissible();
    }

    method Solve() returns (r: Option<array2<real>>)
      requires Shape() && MemoExact() && Bounded() && Unmarked(0) && SettledOn(BombSet(), SafeSet())
      requires Tally() && LeavesOk() && nInitialBombs == |BombSet()| && BombSet() == deduced
      modifies bombCells, safeCells, probs, this`probSum, this`leaves
      ensures r.None? <==> !RootInRange() || probSum == 0.0
      ensures forall B :: Admissible(old(BombSet()), B) ==> Reached(leaves, |old(leaves)|, old(BombSet()) + B)
      ensures (exists B :: Admissible(old(BombSet()), B)) ==> r.Some?
      ensures forall i :: |old(leaves)| <= i < |leaves| ==>
                old(BombSet()) <= leaves[i].bombs &&
                (Weight(leaves[i].remaining) > 0.0 ==> Admissible(old(BombSet()), leaves[i].bombs - old(BombSet())))
      ensures LeavesOk() && probSum == TotalWeight(leaves) && old(leaves) <= leaves
      ensures forall i, j :: |old(leaves)| <= i < j < |leaves| ==> leaves[i].bombs != leaves[j].bombs
      ensures r.Some? ==> forall k :: 0 <= k < |targets| ==> probs[k] == BombWeight(leaves, targets[k]) / probSum
      ensures r.Some? ==> probs[|targets|] == HardTotal(leaves) / probSum
      ensures r.Some? ==> fresh(r.value) && r.value.Length0 == height && r.value.Length1 == width
      ensures r.Some? ==> forall y, x :: 0 <= y < height && 0 <= x < width ==> 0.0 <= r.value[y, x] <= 1.0
      ensures r.Some? ==> forall k :: 0 <= k < |targets| ==> r.value[targets[k].0, targets[k].1] == probs[k]
      ensures r.Some? ==> forall y, x :: 0 <= y < height && 0 <= x < width && (y, x) !in targets ==>
                            r.value[y, x] == OtherCell(y, x, probs[|targets|])
      ensures forall y, x :: 0 <= y < height && 0 <= x < width ==>
                bombCells[y, x] == old(bombCells[y, x]) && safeCells[y, x] == old(safeCells[y, x])
    {
      RootCompletions(BombSet());
      if !RootInRange() {
        return None;
      }
      SearchAll();
      if probSum == 0.0 {
        return None;
      }
      assert 0.0 <= probs[0] <= probSum;
      var grid := GetProbs();
      return Some(grid);
    }
  }
}
