/** The Python probability engine (src/probability.py): it enumerates every
    assignment of mine / safe to the target cells that no clue rules out,
    weights each by the number of ways to place the remaining mines on the
    land cells, and turns the tallies into probabilities. */
module Probability {
  import opened Binomial
  import opened Wrappers
  import opened ProbabilitySpec
  import opened SearchRegion
  import Constants

  /** Cells with a positive clue, as a mask. */
  function OpenedMask(cs: seq<int>): (r: seq<bool>)
    ensures |r| == |cs| && forall i :: 0 <= i < |cs| ==> (r[i] <==> cs[i] > 0)
  {
    seq(|cs|, i requires 0 <= i < |cs| => cs[i] > 0)
  }

  /** A tally over a total, as a fraction, lies in [0, 1]. */
  lemma FractionInUnit(x: nat, y: nat)
    requires 0 < y && x <= y
    ensures 0.0 <= x as real / y as real <= 1.0
  {
    assert x as real / y as real * y as real == x as real;
  }

  /** count / total: every tally as a fraction of the total, each in [0, 1]. */
  function Normalize(counts: seq<nat>, total: nat): (r: seq<real>)
    requires 0 < total && forall i :: 0 <= i < |counts| ==> counts[i] <= total
    ensures |r| == |counts|
    ensures forall i :: 0 <= i < |counts| ==> r[i] == counts[i] as real / total as real
    ensures forall i :: 0 <= i < |counts| ==> 0.0 <= r[i] <= 1.0
  {
    var r := seq(|counts|, i requires 0 <= i < |counts| => counts[i] as real / total as real);
    assert forall i :: 0 <= i < |counts| ==> 0.0 <= r[i] <= 1.0 by {
      forall i | 0 <= i < |counts| ensures 0.0 <= r[i] <= 1.0 {
        FractionInUnit(counts[i], total);
      }
    }
    r
  }

  /** The target slots around every cell, each list within the n slots. */
  function SlotTable(rev: map<nat, nat>, neighbors: seq<seq<nat>>, n: nat): (t: seq<seq<nat>>)
    requires forall j :: j in rev ==> rev[j] < n
    ensures |t| == |neighbors|
    ensures forall c :: 0 <= c < |neighbors| ==> t[c] == TargetSlots(rev, neighbors[c]) && SlotsIn(n, t[c])
  {
    forall c | 0 <= c < |neighbors| ensures SlotsIn(n, TargetSlots(rev, neighbors[c])) {
      TargetSlotsIn(rev, neighbors[c], n);
    }
    seq(|neighbors|, c requires 0 <= c < |neighbors| => TargetSlots(rev, neighbors[c]))
  }

  /** The flagged cells around every cell, outside the targets. */
  function FlagTable(flags: seq<bool>, rev: map<nat, nat>, neighbors: seq<seq<nat>>): (t: seq<nat>)
    requires WellFormed(|flags|, neighbors)
    ensures |t| == |neighbors|
    ensures forall c :: 0 <= c < |neighbors| ==> t[c] == FlagsAt(flags, NonTarget(rev, neighbors[c])) && t[c] <= |neighbors[c]|
  {
    seq(|neighbors|, c requires 0 <= c < |neighbors| => FlagsAt(flags, NonTarget(rev, neighbors[c])))
  }

  /** The closed cells around every cell, outside the targets. */
  function ClosedTable(cellState: seq<int>, rev: map<nat, nat>, neighbors: seq<seq<nat>>): (t: seq<nat>)
    requires WellFormed(|cellState|, neighbors)
    ensures |t| == |neighbors|
    ensures forall c :: 0 <= c < |neighbors| ==> t[c] == ClosedAt(cellState, NonTarget(rev, neighbors[c])) && t[c] <= |neighbors[c]|
  {
    seq(|neighbors|, c requires 0 <= c < |neighbors| => ClosedAt(cellState, NonTarget(rev, neighbors[c])))
  }

  class ProbabilityCalculator {
    const cellState: seq<int>
    const neighbors: seq<seq<nat>>
    /** The flags are only kept to state what the caches mean. */
    ghost const flags: seq<bool>
    const nFlags: nat
    const nMines: int
    const nCells: nat
    const isLand: seq<bool>
    /** The target cells, ascending, and the slot of each. */
    const targetIndex: seq<nat>
    const rev: map<nat, nat>
    const targetNeighbors: seq<seq<nat>>
    const nFlagsInNeighbors: seq<nat>
    const nClosedInNeighbors: seq<nat>
    const nLandCells: nat
    const openedIndices: seq<nat>
    const state: array<SlotState>
    const count: array<nat>
    var proba: seq<real>
    var count4land: nat
    var totalCount: nat
    var nChecked: nat
    /** Every assignment _add_count has tallied so far, in order. */
    ghost var counted: seq<seq<SlotState>>

    /** The sizes and index ranges the passes rely on. */
    ghost predicate Shape()
    {
      |cellState| == nCells && |targetNeighbors| == nCells &&
      |nFlagsInNeighbors| == nCells && |nClosedInNeighbors| == nCells &&
      (forall c :: 0 <= c < nCells ==> SlotsIn(|targetIndex|, targetNeighbors[c])) &&
      (forall k :: 0 <= k < |openedIndices| ==> openedIndices[k] < nCells)
    }

    /** The cached views of the board are what their names say. */
    ghost predicate Caches()
    {
      Shape() &&
      |cellState| == nCells && |flags| == nCells && WellFormed(nCells, neighbors) &&
      isLand == LandMask(cellState, neighbors) &&
      targetIndex == Select(TargetMask(cellState, flags, isLand)) &&
      rev == RevMap(targetIndex) &&
      |targetNeighbors| == nCells && |nFlagsInNeighbors| == nCells && |nClosedInNeighbors| == nCells &&
      (forall c :: 0 <= c < nCells ==>
         targetNeighbors[c] == TargetSlots(rev, neighbors[c]) && SlotsIn(|targetIndex|, targetNeighbors[c])) &&
      (forall c :: 0 <= c < nCells ==> nFlagsInNeighbors[c] == FlagsAt(flags, NonTarget(rev, neighbors[c]))) &&
      (forall c :: 0 <= c < nCells ==> nClosedInNeighbors[c] == ClosedAt(cellState, NonTarget(rev, neighbors[c]))) &&
      nFlags == CountTrue(flags) && nLandCells == CountTrue(isLand) &&
      openedIndices == Select(OpenedMask(cellState))
    }

    /** The tallies are sums of weights over the recorded assignments. */
    ghost predicate Tally()
      reads this, count
    {
      totalCount == SumWeight(nLandCells, nMines - nFlags, counted) &&
      count4land == SumLand(nLandCells, nMines - nFlags, counted) &&
      forall i :: 0 <= i < count.Length ==> count[i] == SumMine(nLandCells, nMines - nFlags, counted, i)
    }

    ghost predicate Valid()
      reads this, count
    {
      Shape() && state.Length == |targetIndex| && count.Length == |targetIndex| &&
      |proba| == |targetIndex| && Tally()
    }

    /** The state right after construction. */
    ghost predicate Initial()
      reads this, state, count
    {
      (forall i :: 0 <= i < state.Length ==> state[i] == Undefined) &&
      (forall i :: 0 <= i < count.Length ==> count[i] == 0) &&
      (forall i :: 0 <= i < |proba| ==> proba[i] == 0.0) &&
      count4land == 0 && totalCount == 0 && nChecked == 0 && counted == []
    }

    constructor(cellState: seq<int>, flags: seq<bool>, neighbors: seq<seq<nat>>, nMines: int)
      requires |flags| == |cellState| && WellFormed(|cellState|, neighbors)
      ensures Caches() && Valid() && Initial()
      ensures this.cellState == cellState && this.flags == flags && this.neighbors == neighbors
      ensures this.nMines == nMines
      ensures fresh(state) && fresh(count)
    {
      this.cellState := cellState;
      this.neighbors := neighbors;
      this.flags := flags;
      nFlags := CountTrue(flags);
      this.nMines := nMines;
      nCells := |flags|;
      var land := LandMask(cellState, neighbors);
      isLand := land;
      var idx := Select(TargetMask(cellState, flags, land));
      targetIndex := idx;
      var r := RevMap(idx);
      rev := r;
      targetNeighbors := SlotTable(r, neighbors, |idx|);
      nFlagsInNeighbors := FlagTable(flags, r, neighbors);
      nClosedInNeighbors := ClosedTable(cellState, r, neighbors);
      nLandCells := CountTrue(land);
      openedIndices := Select(OpenedMask(cellState));
      state := new SlotState[|idx|](_ => Undefined);
      count := new nat[|idx|](_ => 0);
      proba := seq(|idx|, _ => 0.0);
      count4land := 0;
      totalCount := 0;
      nChecked := 0;
      counted := [];
    }

    /** The neighbours of cell c that are not known safe: closed non-target
        cells plus target slots that are not safe. */
    function NonSafeAround(c: nat, st: seq<SlotState>): nat
      requires Shape() && c < nCells && |st| == |targetIndex|
    {
      nClosedInNeighbors[c] + NonSafeAt(st, targetNeighbors[c])
    }

    /** The neighbours of cell c known to hold a mine: flagged non-target
        cells plus target slots holding a mine or an assumed mine. */
    function MinesAround(c: nat, st: seq<SlotState>): nat
      requires Shape() && c < nCells && |st| == |targetIndex|
    {
      nFlagsInNeighbors[c] + MineLikeAt(st, targetNeighbors[c])
    }

    /** Some opened cell among the first upto has exactly as many non-safe
        neighbours as its clue, and slot s is one of them. */
    ghost predicate ForcedMine(st: seq<SlotState>, s: nat, upto: nat)
      requires Shape() && |st| == |targetIndex| && upto <= |openedIndices|
    {
      exists k :: 0 <= k < upto && NonSafeAround(openedIndices[k], st) == cellState[openedIndices[k]] &&
                  s in targetNeighbors[openedIndices[k]]
    }

    /** Some opened cell among the first upto already has as many mines
        around it as its clue, and slot s is one of its neighbours. */
    ghost predicate ForcedSafe(st: seq<SlotState>, s: nat, upto: nat)
      requires Shape() && |st| == |targetIndex| && upto <= |openedIndices|
    {
      exists k :: 0 <= k < upto && MinesAround(openedIndices[k], st) == cellState[openedIndices[k]] &&
                  s in targetNeighbors[openedIndices[k]]
    }

    /** _assume_flags: reports a clue with too few non-safe neighbours;
        otherwise marks as mine every none slot around a clue whose non-safe
        neighbours are exactly as many as the clue. */
    method AssumeFlags() returns (contradicted: bool)
      requires Shape() && state.Length == |targetIndex|
      modifies state
      ensures OnlyResolved(old(state[..]), state[..], Mine)
      ensures contradicted <==> FlagConflict(old(state[..]))
      ensures !contradicted ==> state[..] == FlagPass(old(state[..]))
    {
      ghost var st0 := state[..];
      var k := 0;
      while k < |openedIndices|
        invariant 0 <= k <= |openedIndices|
        invariant OnlyResolved(st0, state[..], Mine)
        invariant forall j :: 0 <= j < k ==> NonSafeAround(openedIndices[j], st0) >= cellState[openedIndices[j]]
        invariant forall i :: 0 <= i < state.Length ==>
                    state[i] == (if st0[i] == Undefined && ForcedMine(st0, i, k) then Mine else st0[i])
      {
        var c := openedIndices[k];
        var ts := targetNeighbors[c];
        NonSafeStable(st0, state[..], ts);
        var nClosed := NonSafeAround(c, state[..]);
        if nClosed < cellState[c] {
          return true;
        }
        if cellState[c] == nClosed {
          var _ := MarkAround(ts, Mine);
        }
        ForcedMineStep(st0, k);
        k := k + 1;
      }
      assert state[..] == FlagPass(st0);
      return false;
    }

    /** Sets every none slot among ts to v, and tells whether there was one. */
    method MarkAround(ts: seq<nat>, v: SlotState) returns (changed: bool)
      modifies state
      ensures forall i :: 0 <= i < state.Length ==>
                state[i] == (if old(state[i]) == Undefined && i in ts then v else old(state[i]))
      ensures changed <==> exists s :: 0 <= s < state.Length && s in ts && old(state[s]) == Undefined
    {
      changed := exists s :: 0 <= s < state.Length && s in ts && state[s] == Undefined;
      forall s | 0 <= s < state.Length && s in ts && state[s] == Undefined {
        state[s] := v;
      }
    }

    /** Scanning one more clue adds its slots to the forced mines exactly
        when its non-safe neighbours are as many as the clue. */
    lemma ForcedMineStep(st: seq<SlotState>, k: nat)
      requires Shape() && |st| == |targetIndex| && k < |openedIndices|
      ensures forall i :: 0 <= i < |st| ==>
                (ForcedMine(st, i, k + 1) <==>
                 ForcedMine(st, i, k) ||
                 (NonSafeAround(openedIndices[k], st) == cellState[openedIndices[k]] && i in targetNeighbors[openedIndices[k]]))
    {
      forall i | 0 <= i < |st| && ForcedMine(st, i, k + 1) && !ForcedMine(st, i, k)
        ensures NonSafeAround(openedIndices[k], st) == cellState[openedIndices[k]] && i in targetNeighbors[openedIndices[k]]
      {
        var j :| 0 <= j < k + 1 && NonSafeAround(openedIndices[j], st) == cellState[openedIndices[j]] &&
                 i in targetNeighbors[openedIndices[j]];
        assert j == k;
      }
    }

    /** Scanning one more clue adds its slots to the forced safe slots
        exactly when its mines already meet the clue. */
    lemma ForcedSafeStep(st: seq<SlotState>, k: nat)
      requires Shape() && |st| == |targetIndex| && k < |openedIndices|
      ensures forall i :: 0 <= i < |st| ==>
                (ForcedSafe(st, i, k + 1) <==>
                 ForcedSafe(st, i, k) ||
                 (MinesAround(openedIndices[k], st) == cellState[openedIndices[k]] && i in targetNeighbors[openedIndices[k]]))
    {
      forall i | 0 <= i < |st| && ForcedSafe(st, i, k + 1) && !ForcedSafe(st, i, k)
        ensures MinesAround(openedIndices[k], st) == cellState[openedIndices[k]] && i in targetNeighbors[openedIndices[k]]
      {
        var j :| 0 <= j < k + 1 && MinesAround(openedIndices[j], st) == cellState[openedIndices[j]] &&
                 i in targetNeighbors[openedIndices[j]];
        assert j == k;
      }
    }

    /** _assume_safe_cells: reports a clue with too many mines around it;
        otherwise marks as safe every none slot around a clue already
        satisfied, and tells whether any slot changed. */
    method AssumeSafeCells() returns (contradicted: bool, assumed: bool)
      requires Shape() && state.Length == |targetIndex|
      modifies state
      ensures OnlyResolved(old(state[..]), state[..], Safe)
      ensures contradicted <==> SafeConflict(old(state[..]))
      ensures contradicted ==> !assumed
      ensures !contradicted ==> (assumed <==> state[..] != old(state[..]))
      ensures !contradicted ==> state[..] == SafePass(old(state[..]))
    {
      ghost var st0 := state[..];
      assumed := false;
      var k := 0;
      while k < |openedIndices|
        invariant 0 <= k <= |openedIndices|
        invariant OnlyResolved(st0, state[..], Safe)
        invariant forall j :: 0 <= j < k ==> MinesAround(openedIndices[j], st0) <= cellState[openedIndices[j]]
        invariant forall i :: 0 <= i < state.Length ==>
                    state[i] == (if st0[i] == Undefined && ForcedSafe(st0, i, k) then Safe else st0[i])
        invariant assumed <==> exists i :: 0 <= i < state.Length && state[i] != st0[i]
      {
        var stop, anyNone := SafeStep(st0, k);
        if stop {
          return true, false;
        }
        assumed := assumed || anyNone;
        k := k + 1;
      }
      assert state[..] == SafePass(st0);
      return false, assumed;
    }

    /** One clue of _assume_safe_cells: stop on too many mines around it,
        else mark its none slots safe when it is already satisfied. */
    method SafeStep(ghost st0: seq<SlotState>, k: nat) returns (stop: bool, anyNone: bool)
      requires Shape() && state.Length == |targetIndex| && |st0| == state.Length && k < |openedIndices|
      requires OnlyResolved(st0, state[..], Safe)
      requires forall i :: 0 <= i < state.Length ==>
                 state[i] == (if st0[i] == Undefined && ForcedSafe(st0, i, k) then Safe else st0[i])
      modifies state
      ensures stop <==> MinesAround(openedIndices[k], st0) > cellState[openedIndices[k]]
      ensures stop ==> state[..] == old(state[..])
      ensures !stop ==> OnlyResolved(st0, state[..], Safe)
      ensures !stop ==> forall i :: 0 <= i < state.Length ==>
                state[i] == (if st0[i] == Undefined && ForcedSafe(st0, i, k + 1) then Safe else st0[i])
      ensures !stop ==> (anyNone <==> exists i :: 0 <= i < state.Length && state[i] != old(state[i]))
    {
      var c := openedIndices[k];
      var ts := targetNeighbors[c];
      MineLikeStable(st0, state[..], ts);
      var nFlagsAround := MinesAround(c, state[..]);
      stop, anyNone := nFlagsAround > cellState[c], false;
      if !stop && nFlagsAround == cellState[c] {
        anyNone := MarkAround(ts, Safe);
      }
      ForcedSafeStep(st0, k);
    }
  
    /** Every clue around the assignment can still be met: its non-safe
        neighbours are not too few and its mines not too many. */
    ghost predicate Feasible(p: seq<SlotState>)
      requires Shape() && |p| == |targetIndex|
    {
      forall k :: 0 <= k < |openedIndices| ==>
        NonSafeAround(openedIndices[k], p) >= cellState[openedIndices[k]] &&
        MinesAround(openedIndices[k], p) <= cellState[openedIndices[k]]
    }

    /** Every positive clue counts exactly the flags among its neighbours
        plus the target neighbours the assignment calls mines. */
    ghost predicate Consistent(p: seq<SlotState>)
      requires Caches() && |p| == |targetIndex|
    {
      forall k :: 0 <= k < |openedIndices| ==>
        FlagsAt(flags, neighbors[openedIndices[k]]) + MineLikeAt(p, targetNeighbors[openedIndices[k]])
          == cellState[openedIndices[k]]
    }

    /** The recorded assignments are complete and feasible, come in
        strictly decreasing measure (so are pairwise distinct), and all lie
        above the bound e in that measure. */
    ghost predicate LogOk(log: seq<seq<SlotState>>, e: nat)
      requires Shape()
    {
      LogDecreasing(log) &&
      forall a :: 0 <= a < |log| ==>
        |log[a]| == |targetIndex| && NoUndefined(log[a]) && Feasible(log[a]) && e < Enc(log[a])
    }

    /** The recorded assignments are complete and feasible and come in
        strictly decreasing measure, so are pairwise distinct. */
    ghost predicate LogSound(log: seq<seq<SlotState>>)
      requires Shape()
    {
      LogDecreasing(log) &&
      forall a :: 0 <= a < |log| ==> |log[a]| == |targetIndex| && NoUndefined(log[a]) && Feasible(log[a])
    }

    /** A complete feasible assignment below every logged one may be
        appended to a sound log. */
    lemma LogAppend(log: seq<seq<SlotState>>, p: seq<SlotState>)
      requires Shape() && LogOk(log, Enc(p))
      requires |p| == |targetIndex| && NoUndefined(p) && Feasible(p)
      ensures LogSound(log + [p])
    {
      var log' := log + [p];
      forall a, b | 0 <= a < b < |log'| ensures Enc(log'[b]) < Enc(log'[a]) {
        if b < |log| {
          assert log'[a] == log[a] && log'[b] == log[b];
        }
      }
    }

    /** The log stays valid under a lower bound. */
    lemma LogLower(log: seq<seq<SlotState>>, e: nat, e': nat)
      requires Shape() && LogOk(log, e) && e' <= e
      ensures LogOk(log, e')
    {
    }

    /** Appending a complete feasible assignment that lies below every
        earlier one keeps the log valid for any bound below it. */
    lemma LogExtend(log: seq<seq<SlotState>>, p: seq<SlotState>, e: nat, e': nat)
      requires Shape() && LogOk(log, e)
      requires |p| == |targetIndex| && NoUndefined(p) && Feasible(p) && Enc(p) <= e && e' < Enc(p)
      ensures LogOk(log + [p], e')
    {
      var log' := log + [p];
      forall a, b | 0 <= a < b < |log'| ensures Enc(log'[b]) < Enc(log'[a]) {
        if b < |log| {
          assert log'[a] == log[a] && log'[b] == log[b];
        }
      }
    }

    /** After both passes without contradiction and without change by the
        second, the state is feasible for every clue. */
    lemma FeasibleAfterPasses(st0: seq<SlotState>, st1: seq<SlotState>)
      requires Shape() && |st0| == |targetIndex| && OnlyResolved(st0, st1, Mine)
      requires forall k :: 0 <= k < |openedIndices| ==>
                 NonSafeAround(openedIndices[k], st0) >= cellState[openedIndices[k]]
      requires forall k :: 0 <= k < |openedIndices| ==>
                 MinesAround(openedIndices[k], st1) <= cellState[openedIndices[k]]
      ensures Feasible(st1)
    {
      forall k | 0 <= k < |openedIndices|
        ensures NonSafeAround(openedIndices[k], st1) >= cellState[openedIndices[k]]
      {
        NonSafeStable(st0, st1, targetNeighbors[openedIndices[k]]);
      }
    }

    /** What the engine takes for granted about the board without checking
        it: flags lie on closed cells and the neighbour relation is symmetric. */
    ghost predicate Sane()
    {
      Caches() && (forall j :: 0 <= j < nCells && flags[j] ==> cellState[j] == Constants.CLOSED) &&
      Symmetric(neighbors)
    }

    /** On a sane board the flagged and the closed non-target neighbours of a
        clue are both just its flagged neighbours. */
    lemma ClueFlags(k: nat)
      requires Sane() && k < |openedIndices|
      ensures nFlagsInNeighbors[openedIndices[k]] == FlagsAt(flags, neighbors[openedIndices[k]])
      ensures nClosedInNeighbors[openedIndices[k]] == FlagsAt(flags, neighbors[openedIndices[k]])
    {
      var c := openedIndices[k];
      assert OpenedMask(cellState)[c];
      ClosedNonTargetAreFlagged(cellState, flags, neighbors, rev, c, NonTarget(rev, neighbors[c]));
      FlagsOnNonTargets(flags, rev, neighbors[c]);
    }

    /** A complete feasible assignment meets every positive clue exactly,
        on a sane board. */
    lemma CountedAreConsistent(p: seq<SlotState>)
      requires Sane() && |p| == |targetIndex| && NoUndefined(p) && Feasible(p)
      ensures Consistent(p)
      ensures Consistent(Settle(p))
    {
      forall k | 0 <= k < |openedIndices|
        ensures FlagsAt(flags, neighbors[openedIndices[k]]) + MineLikeAt(p, targetNeighbors[openedIndices[k]])
                  == cellState[openedIndices[k]]
        ensures MineLikeAt(Settle(p), targetNeighbors[openedIndices[k]]) == MineLikeAt(p, targetNeighbors[openedIndices[k]])
      {
        var c := openedIndices[k];
        ClueFlags(k);
        NonSafeIsMineLike(p, targetNeighbors[c]);
        SameMineCount(p, Settle(p), targetNeighbors[c]);
      }
    }

    /** One clue against a consistent assignment p on the branch of st: st
        does not contradict it, and each none slot around it that a pass
        would resolve is resolved the way p has it. */
    lemma ClueSound(p: seq<SlotState>, st: seq<SlotState>, k: nat)
      requires Sane() && Assignment(p, |targetIndex|) && Consistent(p)
      requires |st| == |targetIndex| && InBranch(p, st) && k < |openedIndices|
      ensures NonSafeAround(openedIndices[k], st) >= cellState[openedIndices[k]]
      ensures MinesAround(openedIndices[k], st) <= cellState[openedIndices[k]]
      ensures forall i :: 0 <= i < |st| && st[i] == Undefined && i in targetNeighbors[openedIndices[k]] ==>
                (NonSafeAround(openedIndices[k], st) == cellState[openedIndices[k]] ==> MineLike(p[i])) &&
                (MinesAround(openedIndices[k], st) == cellState[openedIndices[k]] ==> !MineLike(p[i]))
    {
      ClueBounds(p, st, k);
      ClueForces(p, st, k);
    }

    /** The bounds half of ClueSound. */
    lemma ClueBounds(p: seq<SlotState>, st: seq<SlotState>, k: nat)
      requires Sane() && Assignment(p, |targetIndex|) && Consistent(p)
      requires |st| == |targetIndex| && InBranch(p, st) && k < |openedIndices|
      ensures NonSafeAround(openedIndices[k], st) >= cellState[openedIndices[k]]
      ensures MinesAround(openedIndices[k], st) <= cellState[openedIndices[k]]
    {
      var c := openedIndices[k];
      ClueFlags(k);
      SlotsSound(st, p, targetNeighbors[c], FlagsAt(flags, neighbors[c]), cellState[c]);
    }

    /** The resolving half of ClueSound. */
    lemma ClueForces(p: seq<SlotState>, st: seq<SlotState>, k: nat)
      requires Sane() && Assignment(p, |targetIndex|) && Consistent(p)
      requires |st| == |targetIndex| && InBranch(p, st) && k < |openedIndices|
      ensures forall i :: 0 <= i < |st| && st[i] == Undefined && i in targetNeighbors[openedIndices[k]] ==>
                (NonSafeAround(openedIndices[k], st) == cellState[openedIndices[k]] ==> MineLike(p[i])) &&
                (MinesAround(openedIndices[k], st) == cellState[openedIndices[k]] ==> !MineLike(p[i]))
    {
      var c := openedIndices[k];
      ClueFlags(k);
      SlotsSound(st, p, targetNeighbors[c], FlagsAt(flags, neighbors[c]), cellState[c]);
    }

    /** The passes are sound: a consistent assignment on the branch of st
        meets every clue's bounds there, and every none slot a pass would
        resolve is resolved the way the assignment has it. */
    lemma Sound(p: seq<SlotState>, st: seq<SlotState>)
      requires Sane() && Assignment(p, |targetIndex|) && Consistent(p)
      requires |st| == |targetIndex| && InBranch(p, st)
      ensures Feasible(st)
      ensures forall i :: 0 <= i < |st| && st[i] == Undefined && ForcedMine(st, i, |openedIndices|) ==> MineLike(p[i])
      ensures forall i :: 0 <= i < |st| && st[i] == Undefined && ForcedSafe(st, i, |openedIndices|) ==> !MineLike(p[i])
    {
      forall k | 0 <= k < |openedIndices|
        ensures NonSafeAround(openedIndices[k], st) >= cellState[openedIndices[k]]
        ensures MinesAround(openedIndices[k], st) <= cellState[openedIndices[k]]
      {
        ClueSound(p, st, k);
      }
      forall i | 0 <= i < |st| && st[i] == Undefined && ForcedMine(st, i, |openedIndices|)
        ensures MineLike(p[i])
      {
        var k :| 0 <= k < |openedIndices| && NonSafeAround(openedIndices[k], st) == cellState[openedIndices[k]] &&
                 i in targetNeighbors[openedIndices[k]];
        ClueSound(p, st, k);
      }
      forall i | 0 <= i < |st| && st[i] == Undefined && ForcedSafe(st, i, |openedIndices|)
        ensures !MineLike(p[i])
      {
        var k :| 0 <= k < |openedIndices| && MinesAround(openedIndices[k], st) == cellState[openedIndices[k]] &&
                 i in targetNeighbors[openedIndices[k]];
        ClueSound(p, st, k);
      }
    }

    /** Some clue has fewer non-safe neighbours than its value. */
    ghost predicate FlagConflict(st: seq<SlotState>)
      requires Shape() && |st| == |targetIndex|
    {
      exists k :: 0 <= k < |openedIndices| && NonSafeAround(openedIndices[k], st) < cellState[openedIndices[k]]
    }

    /** Some clue has more mines around it than its value. */
    ghost predicate SafeConflict(st: seq<SlotState>)
      requires Shape() && |st| == |targetIndex|
    {
      exists k :: 0 <= k < |openedIndices| && MinesAround(openedIndices[k], st) > cellState[openedIndices[k]]
    }

    /** The state _assume_flags leaves when no clue contradicts st. */
    ghost function FlagPass(st: seq<SlotState>): (r: seq<SlotState>)
      requires Shape() && |st| == |targetIndex|
      ensures OnlyResolved(st, r, Mine)
    {
      seq(|st|, i requires 0 <= i < |st| =>
        if st[i] == Undefined && ForcedMine(st, i, |openedIndices|) then Mine else st[i])
    }

    /** The state _assume_safe_cells leaves when no clue contradicts st. */
    ghost function SafePass(st: seq<SlotState>): (r: seq<SlotState>)
      requires Shape() && |st| == |targetIndex|
      ensures OnlyResolved(st, r, Safe)
    {
      seq(|st|, i requires 0 <= i < |st| =>
        if st[i] == Undefined && ForcedSafe(st, i, |openedIndices|) then Safe else st[i])
    }

    /** No two logged assignments have the same mines. */
    ghost predicate LogSettled(log: seq<seq<SlotState>>)
    {
      forall a, b :: 0 <= a < b < |log| ==> Settle(log[a]) != Settle(log[b])
    }

    /** Every logged assignment is consistent. */
    ghost predicate LogConsistent(log: seq<seq<SlotState>>)
      requires Caches()
    {
      forall a :: 0 <= a < |log| ==> |log[a]| == |targetIndex| && Consistent(Settle(log[a]))
    }

    /** The mines of p are those of a logged assignment. */
    ghost predicate Logged(p: seq<SlotState>, log: seq<seq<SlotState>>)
    {
      exists a :: 0 <= a < |log| && Settle(log[a]) == p
    }

    /** The search invariant of completeness, on a sane board: the log holds
        consistent assignments with distinct mines, none of them still ahead
        of the search; every consistent assignment is logged or still ahead;
        and no consistent assignment that agrees with the slots before the
        first none slot is cut off by the decided slots after it. */
    ghost predicate Explored(st: seq<SlotState>, nChecked: nat, log: seq<seq<SlotState>>)
      requires Shape() && |st| == |targetIndex|
    {
      Sane() ==>
        LogSettled(log) && LogConsistent(log) &&
        (forall a :: 0 <= a < |log| ==> !InRegion(Settle(log[a]), st, nChecked)) &&
        (forall p :: Assignment(p, |targetIndex|) && Consistent(p) && Agrees(p, st, Frontier(st)) ==> InBranch(p, st)) &&
        (forall p :: Assignment(p, |targetIndex|) && Consistent(p) ==> Logged(p, log) || InRegion(p, st, nChecked))
    }

    /** The invariant once the branch is used up, by a contradiction or a
        tally: only the pending safe branches are still ahead. */
    ghost predicate Spent(st: seq<SlotState>, nChecked: nat, log: seq<seq<SlotState>>)
      requires Shape() && |st| == |targetIndex|
    {
      Sane() ==>
        LogSettled(log) && LogConsistent(log) &&
        (forall a :: 0 <= a < |log| ==> !Pending(Settle(log[a]), st, nChecked)) &&
        (forall p :: Assignment(p, |targetIndex|) && Consistent(p) ==> Logged(p, log) || Pending(p, st, nChecked))
    }

    /** The search starts with the whole space ahead of it. */
    lemma ExploredStart(st: seq<SlotState>)
      requires Shape() && |st| == |targetIndex| && |st| > 0
      requires st[0] == AssumedMine && forall i :: 1 <= i < |st| ==> st[i] == Undefined
      ensures Explored(st, 0, [])
    {
      if Sane() {
        forall p | Assignment(p, |targetIndex|) && Consistent(p) ensures InRegion(p, st, 0) {
          StartRegion(st, p);
        }
        forall p | Assignment(p, |targetIndex|) && Consistent(p) && Agrees(p, st, Frontier(st))
          ensures InBranch(p, st)
        {
          StartRegion(st, p);
          TailBranch(p, st);
        }
      }
    }

    /** A pass that resolves none slots the way every consistent assignment
        on the branch has them keeps the invariant. */
    lemma ResolvedExplored(st: seq<SlotState>, st': seq<SlotState>, v: SlotState, nChecked: nat, log: seq<seq<SlotState>>)
      requires Shape() && |st| == |targetIndex| && SearchInv(st, nChecked) && Explored(st, nChecked, log)
      requires OnlyResolved(st, st', v) && (v == Safe || v == Mine)
      requires Sane() ==> forall p :: Assignment(p, |targetIndex|) && Consistent(p) && InBranch(p, st) ==> InBranch(p, st')
      ensures Explored(st', nChecked, log)
    {
      if Sane() {
        forall a | 0 <= a < |log| ensures !InRegion(Settle(log[a]), st', nChecked) {
          ResolveRegion(st, st', v, nChecked, Settle(log[a]));
        }
        forall p | Assignment(p, |targetIndex|) && Consistent(p) && Agrees(p, st', Frontier(st'))
          ensures InBranch(p, st')
        {
          ResolveFrontier(st, st', v, p);
        }
        forall p | Assignment(p, |targetIndex|) && Consistent(p) ensures Logged(p, log) || InRegion(p, st', nChecked) {
          ResolveRegion(st, st', v, nChecked, p);
        }
      }
    }

    /** Both passes, run without contradiction, keep the invariant. */
    lemma PassesExplored(st: seq<SlotState>, nChecked: nat, log: seq<seq<SlotState>>)
      requires Shape() && |st| == |targetIndex| && SearchInv(st, nChecked) && Explored(st, nChecked, log)
      ensures Explored(FlagPass(st), nChecked, log)
      ensures Explored(SafePass(st), nChecked, log)
    {
      if Sane() {
        forall p | Assignment(p, |targetIndex|) && Consistent(p) && InBranch(p, st)
          ensures InBranch(p, FlagPass(st)) && InBranch(p, SafePass(st))
        {
          Sound(p, st);
          ResolveRegion(st, FlagPass(st), Mine, nChecked, p);
          ResolveRegion(st, SafePass(st), Safe, nChecked, p);
        }
      }
      ResolvedExplored(st, FlagPass(st), Mine, nChecked, log);
      ResolvedExplored(st, SafePass(st), Safe, nChecked, log);
    }

    /** A contradiction uses the branch up: no consistent assignment is on it. */
    lemma ConflictSpent(st: seq<SlotState>, st': seq<SlotState>, v: SlotState, nChecked: nat, log: seq<seq<SlotState>>)
      requires Shape() && |st| == |targetIndex| && SearchInv(st, nChecked) && Explored(st, nChecked, log)
      requires OnlyResolved(st, st', v) && (v == Safe || v == Mine)
      requires FlagConflict(st) || SafeConflict(st)
      ensures Spent(st', nChecked, log)
    {
      if Sane() {
        forall a | 0 <= a < |log| ensures !Pending(Settle(log[a]), st', nChecked) {
          ResolveRegion(st, st', v, nChecked, Settle(log[a]));
        }
        forall p | Assignment(p, |targetIndex|) && Consistent(p) ensures Logged(p, log) || Pending(p, st', nChecked) {
          if InBranch(p, st) {
            Sound(p, st);
            assert false;
          }
          ResolveRegion(st, st', v, nChecked, p);
        }
      }
    }

    /** A new assumption on the first none slot keeps the invariant. */
    lemma AssumeExplored(st: seq<SlotState>, nChecked: nat, log: seq<seq<SlotState>>, u: nat)
      requires Shape() && |st| == |targetIndex| && SearchInv(st, nChecked) && Explored(st, nChecked, log)
      requires FirstUndefined(st) == Some(u)
      ensures Explored(st[u := AssumedMine], nChecked, log)
    {
      var st' := st[u := AssumedMine];
      if Sane() {
        forall a | 0 <= a < |log| ensures !InRegion(Settle(log[a]), st', nChecked) {
          AssumeRegion(st, nChecked, u, Settle(log[a]));
        }
        forall p | Assignment(p, |targetIndex|) && Consistent(p) && Agrees(p, st', Frontier(st'))
          ensures InBranch(p, st')
        {
          AssumeRegion(st, nChecked, u, p);
        }
        forall p | Assignment(p, |targetIndex|) && Consistent(p) ensures Logged(p, log) || InRegion(p, st', nChecked) {
          AssumeRegion(st, nChecked, u, p);
        }
      }
    }

    /** Tallying a complete feasible state logs the one assignment on its
        branch and uses the branch up. */
    lemma TallySpent(st: seq<SlotState>, nChecked: nat, log: seq<seq<SlotState>>)
      requires Shape() && |st| == |targetIndex| && Explored(st, nChecked, log)
      requires NoUndefined(st) && Feasible(st)
      ensures Spent(st, nChecked, log + [st])
    {
      var log' := log + [st];
      if Sane() {
        CountedAreConsistent(st);
        CompleteBranch(Settle(st), st);
        forall a | 0 <= a < |log| ensures Settle(log[a]) != Settle(st) {
        }
        LogAppended(log, st);
        TallyNotPending(st, nChecked, log);
        TallyCovers(st, nChecked, log);
      }
    }

    /** Appending an assignment whose mines are new and consistent keeps
        the log distinct and consistent. */
    lemma LogAppended(log: seq<seq<SlotState>>, st: seq<SlotState>)
      requires Caches() && LogSettled(log) && LogConsistent(log)
      requires |st| == |targetIndex| && Consistent(Settle(st))
      requires forall a :: 0 <= a < |log| ==> Settle(log[a]) != Settle(st)
      ensures LogSettled(log + [st]) && LogConsistent(log + [st])
    {
      var log' := log + [st];
      assert forall a :: 0 <= a < |log| ==> log'[a] == log[a];
      assert log'[|log|] == st;
    }

    /** After the tally no logged assignment is pending. */
    lemma TallyNotPending(st: seq<SlotState>, nChecked: nat, log: seq<seq<SlotState>>)
      requires Shape() && |st| == |targetIndex| && Explored(st, nChecked, log)
      requires Sane() && NoUndefined(st)
      ensures forall a :: 0 <= a < |log + [st]| ==> !Pending(Settle((log + [st])[a]), st, nChecked)
    {
      var log' := log + [st];
      forall a | 0 <= a < |log'| ensures !Pending(Settle(log'[a]), st, nChecked) {
        if a < |log| {
          assert log'[a] == log[a];
        } else {
          assert log'[a] == st;
          CompleteBranch(Settle(st), st);
          BranchNotPending(Settle(st), st, nChecked);
        }
      }
    }

    /** After the tally every consistent assignment is logged or pending. */
    lemma TallyCovers(st: seq<SlotState>, nChecked: nat, log: seq<seq<SlotState>>)
      requires Shape() && |st| == |targetIndex| && Explored(st, nChecked, log)
      requires Sane() && NoUndefined(st)
      ensures forall p :: Assignment(p, |targetIndex|) && Consistent(p) ==> Logged(p, log + [st]) || Pending(p, st, nChecked)
    {
      var log' := log + [st];
      forall p | Assignment(p, |targetIndex|) && Consistent(p) ensures Logged(p, log') || Pending(p, st, nChecked) {
        CompleteBranch(p, st);
        if Logged(p, log) {
          var a :| 0 <= a < |log| && Settle(log[a]) == p;
          assert log'[a] == log[a];
        } else if InBranch(p, st) {
          assert log'[|log|] == st;
        }
      }
    }

    /** _update_target after a used-up branch moves on to exactly the
        pending safe branches. */
    lemma BacktrackExplored(st: seq<SlotState>, nChecked: nat, log: seq<seq<SlotState>>)
      requires Shape() && |st| == |targetIndex| && SearchInv(st, nChecked) && HasAssumedFrom(st, nChecked)
      requires Spent(st, nChecked, log)
      ensures Explored(Backtrack(st, nChecked).0, Backtrack(st, nChecked).1, log)
    {
      var st', nc' := Backtrack(st, nChecked).0, Backtrack(st, nChecked).1;
      if Sane() {
        forall a | 0 <= a < |log| ensures !InRegion(Settle(log[a]), st', nc') {
          BacktrackRegion(st, nChecked, Settle(log[a]));
        }
        BacktrackTail(st, nChecked);
        forall p | Assignment(p, |targetIndex|) && Consistent(p) && Agrees(p, st', Frontier(st'))
          ensures InBranch(p, st')
        {
          TailBranch(p, st');
        }
        forall p | Assignment(p, |targetIndex|) && Consistent(p) ensures Logged(p, log) || InRegion(p, st', nc') {
          BacktrackRegion(st, nChecked, p);
        }
      }
    }

    /** When the loop of compute stops, every consistent assignment is
        logged except possibly the one it stops on, which is never logged. */
    lemma ExploredAtEnd(st: seq<SlotState>, nChecked: nat, log: seq<seq<SlotState>>)
      requires Shape() && |st| == |targetIndex| && Explored(st, nChecked, log)
      requires forall i :: 0 <= i < |st| ==> st[i] == Safe || st[i] == Mine
      ensures Sane() ==> forall p :: Assignment(p, |targetIndex|) && Consistent(p) ==> Logged(p, log) || p == st
      ensures Sane() ==> forall a :: 0 <= a < |log| ==> Settle(log[a]) != st
    {
      if Sane() {
        SameMines(Settle(st), st, |st|);
        CompleteBranch(st, st);
        forall p | Assignment(p, |targetIndex|) && Consistent(p) ensures Logged(p, log) || p == st {
          NothingPending(p, st, nChecked);
          CompleteBranch(p, st);
        }
      }
    }

    /** What one call of _assume does to the search state: a contradiction
        in the first pass or the second, leaving a partly resolved state; a
        second pass that resolved something; a new assumption on the first
        none slot; or, with every slot decided, a tally and a backtrack. */
    ghost predicate AssumeOutcome(st0: seq<SlotState>, nc0: nat, log0: seq<seq<SlotState>>, ok: bool,
                                  st: seq<SlotState>, nc: nat, log: seq<seq<SlotState>>)
      requires Shape() && |st0| == |targetIndex|
    {
      if FlagConflict(st0) then
        !ok && OnlyResolved(st0, st, Mine) && nc == nc0 && log == log0
      else if SafeConflict(FlagPass(st0)) then
        !ok && OnlyResolved(FlagPass(st0), st, Safe) && nc == nc0 && log == log0
      else
        var st2 := SafePass(FlagPass(st0));
        ok &&
        if st2 != FlagPass(st0) then st == st2 && nc == nc0 && log == log0
        else match FirstUndefined(st2)
          case Some(u) => st == st2[u := AssumedMine] && nc == nc0 && log == log0
          case None => log == log0 + [st2] && HasAssumedFrom(st2, nc0) && (st, nc) == Backtrack(st2, nc0)
    }

    /** Whatever _assume does keeps the invariant, or uses the branch up
        when it reports a contradiction; with ok it also leaves an
        assumption in place or ends on a safe last slot. */
    lemma OutcomeExplored(st0: seq<SlotState>, nc0: nat, log0: seq<seq<SlotState>>, ok: bool,
                          st: seq<SlotState>, nc: nat, log: seq<seq<SlotState>>)
      requires Shape() && |st0| == |targetIndex| && SearchInv(st0, nc0) && HasAssumedFrom(st0, nc0)
      requires Explored(st0, nc0, log0)
      requires AssumeOutcome(st0, nc0, log0, ok, st, nc, log)
      ensures |st| == |targetIndex|
      ensures ok ==> Explored(st, nc, log) && EndsSafe(st)
      ensures !ok ==> Spent(st, nc, log)
    {
      if FlagConflict(st0) {
        ConflictSpent(st0, st, Mine, nc0, log0);
      } else {
        var st1 := FlagPass(st0);
        PassesExplored(st0, nc0, log0);
        ResolvedKeepsInvariant(st0, st1, Mine, nc0);
        if SafeConflict(st1) {
          ConflictSpent(st1, st, Safe, nc0, log0);
        } else {
          var st2 := SafePass(st1);
          PassesExplored(st1, nc0, log0);
          ResolvedKeepsInvariant(st1, st2, Safe, nc0);
          if st2 == st1 {
            match FirstUndefined(st2)
            case Some(u) =>
              AssumeExplored(st2, nc0, log0, u);
              assert st[u] == AssumedMine;
            case None =>
              FeasibleAfterPasses(st0, st2);
              TallySpent(st2, nc0, log0);
              BacktrackExplored(st2, nc0, log);
              BacktrackEndsSafe(st2, nc0);
          } else {
            var j :| nc0 <= j < |st2| && st2[j] == AssumedMine;
          }
        }
      }
    }

    /** _add_count: tallies the current assignment with the number of ways
        to place the remaining mines on the land cells. */
    method AddCount()
      requires Valid()
      modifies this`totalCount, this`count4land, this`counted, count
      ensures counted == old(counted) + [state[..]]
      ensures totalCount == old(totalCount) + Weight(nLandCells, nMines - nFlags, state[..])
      ensures count4land == old(count4land) + LandWeight(nLandCells, nMines - nFlags, state[..])
      ensures forall i :: 0 <= i < count.Length ==>
                count[i] == old(count[i]) + (if MineLike(state[i]) then Weight(nLandCells, nMines - nFlags, state[..]) else 0)
      ensures Valid()
    {
      ghost var st := state[..];
      ghost var log := counted;
      var mines := MineCount(state[..]);
      var remaining := nMines - nFlags - mines;
      var counts := Choose(nLandCells, remaining);
      assert counts == Weight(nLandCells, nMines - nFlags, st);
      count4land := count4land + ChooseInt(nLandCells - 1, remaining - 1);
      totalCount := totalCount + counts;
      forall i | 0 <= i < count.Length && MineLike(state[i]) {
        count[i] := count[i] + counts;
      }
      assert state[..] == st;
      SumsAppend(nLandCells, nMines - nFlags, log, st);
      counted := log + [st];
    }

    /** _update_target: backtracks over the last assumption at or after nChecked. */
    method UpdateTarget()
      requires Shape() && state.Length == |targetIndex| && HasAssumedFrom(state[..], nChecked)
      modifies this`nChecked, state
      ensures (state[..], nChecked) == Backtrack(old(state[..]), old(nChecked))
    {
      ghost var st := state[..];
      var first := FirstAssumed(state[..], nChecked);
      var last := LastAssumed(state[..], nChecked, state.Length);
      state[last] := Safe;
      forall i | last + 1 <= i < state.Length {
        state[i] := Undefined;
      }
      if first == last {
        nChecked := first + 1;
      }
      if last + 1 < state.Length {
        state[last + 1] := AssumedMine;
      }
      assert state[..] == Backtrack(st, old(nChecked)).0;
    }

    /** The leaf step of _assume: with every slot decided and every clue
        feasible, tally the assignment and backtrack. */
    method CountAndBacktrack(ghost e: nat)
      requires Valid() && LogOk(counted, e) && SearchInv(state[..], nChecked)
      requires NoUndefined(state[..]) && Feasible(state[..]) && Enc(state[..]) <= e
      requires HasAssumedFrom(state[..], nChecked)
      modifies this`totalCount, this`count4land, this`counted, this`nChecked, state, count
      ensures Valid() && LogOk(counted, Enc(state[..])) && SearchInv(state[..], nChecked)
      ensures Enc(state[..]) < Enc(old(state[..]))
      ensures counted == old(counted) + [old(state[..])]
      ensures (state[..], nChecked) == Backtrack(old(state[..]), old(nChecked))
    {
      ghost var st := state[..];
      ghost var log := counted;
      AddCount();
      BacktrackDecreases(st, nChecked);
      BacktrackKeepsInvariant(st, nChecked);
      UpdateTarget();
      LogExtend(log, st, e, Enc(state[..]));
    }

    /** The backtrack after a contradiction: nothing is tallied and the
        search moves on to a smaller encoding. */
    method Retreat()
      requires Valid() && LogOk(counted, Enc(state[..])) && SearchInv(state[..], nChecked)
      requires HasAssumedFrom(state[..], nChecked)
      modifies this`nChecked, state
      ensures Valid() && LogOk(counted, Enc(state[..])) && SearchInv(state[..], nChecked)
      ensures Enc(state[..]) < Enc(old(state[..]))
      ensures (state[..], nChecked) == Backtrack(old(state[..]), old(nChecked))
      ensures counted == old(counted)
    {
      ghost var st := state[..];
      BacktrackDecreases(st, nChecked);
      BacktrackKeepsInvariant(st, nChecked);
      UpdateTarget();
      LogLower(counted, Enc(st), Enc(state[..]));
    }

    /** _assume: one propagation round, then a new assumption or, once
        every slot is decided, a tally and a backtrack. False means a
        contradiction was found. */
    method Assume() returns (ok: bool)
      requires Valid() && LogOk(counted, Enc(state[..])) && SearchInv(state[..], nChecked)
      requires exists i :: 0 <= i < state.Length && (state[i] == Undefined || state[i] == AssumedMine)
      modifies this`totalCount, this`count4land, this`counted, this`nChecked, state, count
      ensures Valid() && LogOk(counted, Enc(state[..])) && SearchInv(state[..], nChecked)
      ensures ok ==> Enc(state[..]) < Enc(old(state[..]))
      ensures !ok ==> Enc(state[..]) <= Enc(old(state[..])) && HasAssumedFrom(state[..], nChecked)
      ensures AssumeOutcome(old(state[..]), old(nChecked), old(counted), ok, state[..], nChecked, counted)
    {
      ghost var st0 := state[..];
      assert HasAssumedFrom(st0, nChecked);
      var contradicted := AssumeFlags();
      ghost var st1 := state[..];
      ResolvedKeepsInvariant(st0, st1, Mine, nChecked);
      ResolvedDecreases(st0, st1, Mine);
      LogLower(counted, Enc(st0), Enc(st1));
      if contradicted {
        return false;
      }
      var assumed;
      contradicted, assumed := AssumeSafeCells();
      ghost var st2 := state[..];
      ResolvedKeepsInvariant(st1, st2, Safe, nChecked);
      ResolvedDecreases(st1, st2, Safe);
      LogLower(counted, Enc(st1), Enc(st2));
      if contradicted {
        return false;
      }
      if assumed {
        return true;
      }
      assert st2 == st1;
      var u := FirstUndefined(state[..]);
      if u.Some? {
        NewAssumption(st2, nChecked, u.value);
        state[u.value] := AssumedMine;
        LogLower(counted, Enc(st2), Enc(state[..]));
      } else {
        FeasibleAfterPasses(st0, st2);
        CountAndBacktrack(Enc(st0));
      }
      return true;
    }

    /** The search loop of compute: starting from one assumed mine on the
        first target, run _assume and backtrack on contradiction until no
        slot is assumed or undecided. On a sane board it logs every
        consistent assignment once, except the one it stops on, which it
        never logs: the loop ends as soon as the last backtrack has turned
        the final assumption safe, before any pass checks that state. */
    method Enumerate()
      requires Valid() && Initial() && state.Length > 0
      modifies this`totalCount, this`count4land, this`counted, this`nChecked, state, count
      ensures Valid() && LogOk(counted, Enc(state[..]))
      ensures forall i :: 0 <= i < state.Length ==> state[i] == Safe || state[i] == Mine
      ensures state[state.Length - 1] == Safe
      ensures Sane() ==> LogSettled(counted) && LogConsistent(counted)
      ensures Sane() ==> forall p :: Assignment(p, |targetIndex|) && Consistent(p) ==> Logged(p, counted) || p == state[..]
      ensures Sane() ==> forall a :: 0 <= a < |counted| ==> Settle(counted[a]) != state[..]
    {
      state[0] := AssumedMine;
      ExploredStart(state[..]);
      while exists i :: 0 <= i < state.Length && (state[i] == AssumedMine || state[i] == Undefined)
        invariant Valid() && LogOk(counted, Enc(state[..])) && SearchInv(state[..], nChecked)
        invariant Explored(state[..], nChecked, counted) && EndsSafe(state[..])
        decreases Enc(state[..])
      {
        SearchStep();
      }
      ExploredAtEnd(state[..], nChecked, counted);
    }

    /** One turn of the loop of compute: _assume, then _update_target when
        it reports a contradiction. */
    method SearchStep()
      requires Valid() && LogOk(counted, Enc(state[..])) && SearchInv(state[..], nChecked)
      requires Explored(state[..], nChecked, counted)
      requires exists i :: 0 <= i < state.Length && (state[i] == AssumedMine || state[i] == Undefined)
      modifies this`totalCount, this`count4land, this`counted, this`nChecked, state, count
      ensures Valid() && LogOk(counted, Enc(state[..])) && SearchInv(state[..], nChecked)
      ensures Explored(state[..], nChecked, counted) && EndsSafe(state[..])
      ensures Enc(state[..]) < Enc(old(state[..]))
    {
      ghost var st, nc, log := state[..], nChecked, counted;
      var ok := Assume();
      OutcomeExplored(st, nc, log, ok, state[..], nChecked, counted);
      if !ok {
        ghost var st', nc' := state[..], nChecked;
        Retreat();
        BacktrackExplored(st', nc', counted);
        BacktrackEndsSafe(st', nc');
      }
    }

    /** The check the loop of compute leaves out: run both passes over the
        complete assignment it stops on and tally it when no clue
        contradicts it. The passes change nothing on a complete state. */
    method TallyLast()
      requires Valid() && LogOk(counted, Enc(state[..]))
      requires forall i :: 0 <= i < state.Length ==> state[i] == Safe || state[i] == Mine
      modifies this`totalCount, this`count4land, this`counted, state, count
      ensures Valid() && state[..] == old(state[..])
      ensures counted == old(counted) + (if Feasible(state[..]) then [state[..]] else [])
      ensures LogSound(counted)
    {
      ghost var st := state[..];
      assert LogSound(counted);
      var contradicted := AssumeFlags();
      assert state[..] == st;
      if !contradicted {
        var assumed;
        contradicted, assumed := AssumeSafeCells();
        assert state[..] == st;
        if !contradicted {
          assert Feasible(st);
          LogAppend(counted, st);
          AddCount();
        }
      }
    }

    /** With the state the loop stops on tallied when feasible, the log
        holds every consistent assignment, each once, on a sane board. */
    lemma LastLogged(fin: seq<SlotState>, log0: seq<seq<SlotState>>, log: seq<seq<SlotState>>)
      requires Shape() && |fin| == |targetIndex|
      requires forall i :: 0 <= i < |fin| ==> fin[i] == Safe || fin[i] == Mine
      requires Sane() ==> LogSettled(log0) && LogConsistent(log0)
      requires Sane() ==> forall p :: Assignment(p, |targetIndex|) && Consistent(p) ==> Logged(p, log0) || p == fin
      requires Sane() ==> forall a :: 0 <= a < |log0| ==> Settle(log0[a]) != fin
      requires log == log0 + (if Feasible(fin) then [fin] else [])
      ensures Sane() ==> LogSettled(log) && LogConsistent(log)
      ensures Sane() ==> forall p :: Assignment(p, |targetIndex|) && Consistent(p) ==> Logged(p, log)
    {
      if Sane() {
        SameMines(Settle(fin), fin, |fin|);
        assert forall a :: 0 <= a < |log0| ==> log[a] == log0[a];
        if Feasible(fin) {
          CountedAreConsistent(fin);
          assert log[|log0|] == fin;
        }
        forall p | Assignment(p, |targetIndex|) && Consistent(p) ensures Logged(p, log) {
          if !Logged(p, log0) {
            CompleteBranch(fin, fin);
            Sound(fin, fin);
            assert log[|log0|] == fin;
          } else {
            var a :| 0 <= a < |log0| && Settle(log0[a]) == p;
            assert log[a] == log0[a];
          }
        }
      }
    }

    /** compute: enumerates the assignments of the targets that no clue
        rules out and returns the mine probability of each target and of a
        land cell. On a sane board the tallies run over every consistent
        assignment exactly once. The corrected search, which also checks
        the state the loop stops on, is used. */
    method Compute() returns (target: Constants.TargetData, pLand: real)
      requires Valid() && Initial()
      modifies this, state, count
      ensures Valid()
      ensures target.index == targetIndex
      ensures |targetIndex| == 0 ==> pLand == 0.0 && target.proba == []
      ensures |targetIndex| > 0 ==> LogSound(counted)
      ensures |targetIndex| > 0 && Sane() ==>
                LogSettled(counted) && LogConsistent(counted) &&
                forall p :: Assignment(p, |targetIndex|) && Consistent(p) ==> Logged(p, counted)
      ensures |targetIndex| > 0 && totalCount > 0 ==>
                |target.proba| == |targetIndex| &&
                (forall i :: 0 <= i < |targetIndex| ==>
                   target.proba[i] == count[i] as real / totalCount as real &&
                   0.0 <= target.proba[i] <= 1.0) &&
                pLand == (if nLandCells != 0 then count4land as real / totalCount as real else 1.0) &&
                0.0 <= pLand <= 1.0
      ensures |targetIndex| > 0 && totalCount == 0 ==>
                target.proba == old(proba) && pLand == 1.0
      ensures |target.proba| == |target.index|
    {
      if state.Length == 0 {
        return Constants.TargetData(targetIndex, proba), 0.0;
      }
      Enumerate();
      ghost var fin, log0 := state[..], counted;
      TallyLast();
      LastLogged(fin, log0, counted);
      pLand := Shares();
      return Constants.TargetData(targetIndex, proba), pLand;
    }

    /** The end of compute: each target's share of the total weight, and
        the land cells' share; with no weight at all, the probabilities
        are left as they were and the land share is 1. */
    method Shares() returns (pLand: real)
      requires Valid()
      modifies this`proba
      ensures Valid()
      ensures totalCount > 0 ==>
                (forall i :: 0 <= i < |targetIndex| ==>
                   proba[i] == count[i] as real / totalCount as real && 0.0 <= proba[i] <= 1.0) &&
                pLand == (if nLandCells != 0 then count4land as real / totalCount as real else 1.0) &&
                0.0 <= pLand <= 1.0
      ensures totalCount == 0 ==> proba == old(proba) && pLand == 1.0
    {
      pLand := 1.0;
      if totalCount != 0 {
        forall i | 0 <= i < count.Length ensures count[i] <= totalCount {
          SumMineBelow(nLandCells, nMines - nFlags, counted, i);
        }
        proba := Normalize(count[..], totalCount);
        if nLandCells != 0 {
          SumLandBelow(nLandCells, nMines - nFlags, counted);
          FractionInUnit(count4land, totalCount);
          pLand := count4land as real / totalCount as real;
        }
      }
    }
  }

  /** What compute returned for the board (cellState, flags, neighbors,
      nMines), with pc the calculator it ran on: the targets in ascending
      index and, over the assignments pc logged, each target's share of
      the total weight and the land cells' share; on a sane board those
      assignments are every consistent one, each once. */
  ghost predicate Computed(pc: ProbabilityCalculator, log: seq<seq<SlotState>>, cellState: seq<int>, flags: seq<bool>,
                           neighbors: seq<seq<nat>>, nMines: int, target: Constants.TargetData, pLand: real)
  {
    pc.cellState == cellState && pc.flags == flags && pc.neighbors == neighbors && pc.nMines == nMines &&
    pc.Caches() && target.index == pc.targetIndex && |target.proba| == |target.index| &&
    (|target.index| == 0 ==> pLand == 0.0) &&
    (|target.index| > 0 ==>
       pc.LogSound(log) &&
       (pc.Sane() ==>
          pc.LogSettled(log) && pc.LogConsistent(log) &&
          forall p :: Assignment(p, |target.index|) && pc.Consistent(p) ==> pc.Logged(p, log)) &&
       var free := nMines - pc.nFlags;
       var total := SumWeight(pc.nLandCells, free, log);
       (total > 0 ==>
          (forall k :: 0 <= k < |target.index| ==>
             target.proba[k] == SumMine(pc.nLandCells, free, log, k) as real / total as real) &&
          pLand == (if pc.nLandCells != 0 then SumLand(pc.nLandCells, free, log) as real / total as real
                    else 1.0)) &&
       (total == 0 ==> (forall k :: 0 <= k < |target.index| ==> target.proba[k] == 0.0) && pLand == 1.0))
  }

  /** ProbabilityCalculator(cell_state, flags, neighbors, n_mines).compute(),
      as a player calls it: the targets in ascending index with one
      probability each, and the probability of a land cell, all in [0, 1];
      calculator is the calculator it ran on, whose log the probabilities are
      shares of. */
  method CalculateProbabilities(cellState: seq<int>, flags: seq<bool>, neighbors: seq<seq<nat>>, nMines: int)
    returns (target: Constants.TargetData, pLand: real, ghost calculator: ProbabilityCalculator)
    requires |flags| == |cellState| && WellFormed(|cellState|, neighbors)
    ensures target.index == Select(TargetMask(cellState, flags, LandMask(cellState, neighbors)))
    ensures |target.proba| == |target.index|
    ensures forall k :: 0 <= k < |target.proba| ==> 0.0 <= target.proba[k] <= 1.0
    ensures 0.0 <= pLand <= 1.0
    ensures Computed(calculator, calculator.counted, cellState, flags, neighbors, nMines, target, pLand)
    ensures (forall j :: 0 <= j < |cellState| && flags[j] ==> cellState[j] == Constants.CLOSED) && Symmetric(neighbors) ==>
              calculator.Sane()
  {
    var pc := new ProbabilityCalculator(cellState, flags, neighbors, nMines);
    ghost var proba0 := pc.proba;
    target, pLand := pc.Compute();
    calculator := pc;
    assert |pc.targetIndex| > 0 && pc.totalCount == 0 ==> target.proba == proba0;
    ComputedBy(pc, target, pLand);
  }

  /** What Compute promises, read back through Tally as shares of the
      logged weights. */
  lemma ComputedBy(pc: ProbabilityCalculator, target: Constants.TargetData, pLand: real)
    requires pc.Caches() && pc.Valid() && target.index == pc.targetIndex && |target.proba| == |target.index|
    requires |pc.targetIndex| == 0 ==> pLand == 0.0
    requires |pc.targetIndex| > 0 ==> pc.LogSound(pc.counted)
    requires |pc.targetIndex| > 0 && pc.Sane() ==>
               pc.LogSettled(pc.counted) && pc.LogConsistent(pc.counted) &&
               forall p :: Assignment(p, |pc.targetIndex|) && pc.Consistent(p) ==> pc.Logged(p, pc.counted)
    requires |pc.targetIndex| > 0 && pc.totalCount > 0 ==>
               (forall i :: 0 <= i < |pc.targetIndex| ==> target.proba[i] == pc.count[i] as real / pc.totalCount as real) &&
               pLand == (if pc.nLandCells != 0 then pc.count4land as real / pc.totalCount as real else 1.0)
    requires |pc.targetIndex| > 0 && pc.totalCount == 0 ==>
               (forall k :: 0 <= k < |target.proba| ==> target.proba[k] == 0.0) && pLand == 1.0
    ensures Computed(pc, pc.counted, pc.cellState, pc.flags, pc.neighbors, pc.nMines, target, pLand)
  {
  }
}
