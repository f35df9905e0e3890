/** The player of src/player.py: flags from closed counts, opens from flag
    counts one cell at a time, and otherwise a decision from the exact
    mine probabilities. */
module Players {
  import opened PlayerRules
  import opened ProbabilitySpec
  import opened Wrappers
  import Probability
  import Constants

  class Player {
    const height: nat
    const width: nat
    const nCells: nat
    const neighbors: seq<seq<nat>>
    /** A flag per cell: the player believes it holds a mine. */
    const flags: array<bool>
    /** What the player has asked of the board, in order. */
    var actions: seq<Action>

    predicate Valid()
    {
      nCells == height * width && flags.Length == nCells && WellFormed(nCells, neighbors)
    }

    constructor (height: nat, width: nat, neighbors: seq<seq<nat>>)
      requires WellFormed(height * width, neighbors)
      ensures Valid() && this.height == height && this.width == width && this.neighbors == neighbors
      ensures fresh(flags) && (forall j :: 0 <= j < flags.Length ==> !flags[j]) && actions == []
    {
      this.height := height;
      this.width := width;
      nCells := height * width;
      this.neighbors := neighbors;
      flags := new bool[height * width]((_) => false);
      actions := [];
    }

    /** The first move of solve: open (H // 2, W // 2). */
    method StartGame()
      requires height > 0 && width > 0
      modifies this`actions
      ensures actions == old(actions) + [Start(StartIndex(height, width))]
    {
      actions := actions + [Start(StartIndex(height, width))];
    }

    /** _build_flags. */
    method BuildFlags(cs: seq<int>)
      requires Valid() && |cs| == nCells
      modifies flags
      ensures flags[..] == BuiltFlags(old(flags[..]), cs, neighbors)
    {
      PlayerRules.BuildFlags(flags, cs, neighbors);
    }

    /** _open_safe_cells: opens, one at a time, the unflagged closed
        neighbours of every positive clue already met by flags; true iff
        something was opened. The scan reads only the snapshot cs and the
        flags, which opening does not change, so scanning first and then
        opening issues the same opens in the same order. */
    method OpenSafeCells(cs: seq<int>) returns (anyOpened: bool)
      requires Valid() && |cs| == nCells
      modifies this`actions
      ensures actions == old(actions) + OpenEach(SafeOpens(cs, flags[..], neighbors, nCells))
      ensures anyOpened <==> SafeOpens(cs, flags[..], neighbors, nCells) != []
    {
      var opens := CollectSafeOpens(cs, flags[..], neighbors);
      OpenAll(opens);
      anyOpened := opens != [];
    }

    /** One open per listed cell, in order. */
    method OpenAll(opens: seq<nat>)
      modifies this`actions
      ensures actions == old(actions) + OpenEach(opens)
    {
      for k := 0 to |opens|
        invariant actions == old(actions) + OpenEach(opens[..k])
      {
        assert opens[..k + 1] == opens[..k] + [opens[k]];
        OpenEachConcat(opens[..k], [opens[k]]);
        actions := actions + [Open(opens[k])];
      }
      assert opens[..|opens|] == opens;
    }

    /** _open_land: opens the lowest closed cell whose neighbours are all closed, if any. */
    method OpenLand(cs: seq<int>)
      requires Valid() && |cs| == nCells
      modifies this`actions
      ensures actions == old(actions) + LandAction(cs, neighbors)
    {
      var land := FindLand(cs, neighbors);
      if land.Some? {
        actions := actions + [Open(land.value)];
      }
    }

    /** The decision of _open_by_proba, given the targets and their
        probabilities: when some target is certainly safe, open every such
        target and flag every certain mine; otherwise open the first
        least likely target if it beats a land cell, else open land. */
    method ApplyProba(cs: seq<int>, index: seq<nat>, proba: seq<real>, pLand: real)
      requires Valid() && |cs| == nCells && |index| == |proba|
      requires forall k :: 0 <= k < |index| ==> index[k] < nCells
      modifies this`actions, flags
      ensures 0.0 in proba ==>
                actions == old(actions) + OpenEach(ZeroOpens(index, proba)) &&
                forall j :: 0 <= j < nCells ==>
                  flags[j] == (old(flags[j]) || exists k :: 0 <= k < |index| && index[k] == j && proba[k] == 1.0)
      ensures 0.0 !in proba ==> flags[..] == old(flags[..])
      ensures 0.0 !in proba && |proba| != 0 && proba[ArgMin(proba)] < pLand ==>
                actions == old(actions) + [Open(index[ArgMin(proba)])]
      ensures 0.0 !in proba && !(|proba| != 0 && proba[ArgMin(proba)] < pLand) ==>
                actions == old(actions) + LandAction(cs, neighbors)
      ensures ProbaDecision(old(actions), old(flags[..]), actions, flags[..], cs, neighbors, index, proba, pLand)
      ensures (forall k :: 0 <= k < |index| ==> cs[index[k]] == PlayerRules.CLOSED) ==>
                OpensClosed(cs, actions[|old(actions)|..]) &&
                forall j :: 0 <= j < nCells && flags[j] && !old(flags[j]) ==> cs[j] == PlayerRules.CLOSED
    {
      ghost var a0 := actions;
      if 0.0 in proba {
        OpenZerosFlagOnes(index, proba);
        if forall k :: 0 <= k < |index| ==> cs[index[k]] == PlayerRules.CLOSED {
          ZeroOpensClosed(cs, index, proba);
        }
        assert actions[|a0|..] == OpenEach(ZeroOpens(index, proba));
      } else if |proba| != 0 && proba[ArgMin(proba)] < pLand {
        actions := actions + [Open(index[ArgMin(proba)])];
        assert actions[|a0|..] == [Open(index[ArgMin(proba)])];
      } else {
        OpenLand(cs);
        assert actions[|a0|..] == LandAction(cs, neighbors);
      }
    }

    /** The zip loop of _open_by_proba: open the probability-0 targets and
        flag the probability-1 targets, in order. */
    method OpenZerosFlagOnes(index: seq<nat>, proba: seq<real>)
      requires Valid() && |index| == |proba|
      requires forall k :: 0 <= k < |index| ==> index[k] < nCells
      modifies this`actions, flags
      ensures actions == old(actions) + OpenEach(ZeroOpens(index, proba))
      ensures forall j :: 0 <= j < nCells ==>
                flags[j] == (old(flags[j]) || exists k :: 0 <= k < |index| && index[k] == j && proba[k] == 1.0)
    {
      for k := 0 to |index|
        invariant actions == old(actions) + OpenEach(ZeroOpens(index[..k], proba[..k]))
        invariant forall j :: 0 <= j < nCells ==>
                    flags[j] == (old(flags[j]) || exists k' :: 0 <= k' < k && index[k'] == j && proba[k'] == 1.0)
      {
        assert index[..k + 1][..k] == index[..k] && proba[..k + 1][..k] == proba[..k];
        if proba[k] == 0.0 {
          OpenEachConcat(ZeroOpens(index[..k], proba[..k]), [index[k]]);
          actions := actions + [Open(index[k])];
        } else if proba[k] == 1.0 {
          flags[index[k]] := true;
        }
      }
      assert index[..|index|] == index && proba[..|proba|] == proba;
    }

    /** _open_by_proba: the exact probabilities of the current board, then
        the decision; target, pLand and calculator are what the
        probability engine computed from the flags on entry, and log the
        assignments it weighed. */
    method OpenByProba(cs: seq<int>, nMines: int)
      returns (ghost target: Constants.TargetData, ghost pLand: real, ghost calculator: Probability.ProbabilityCalculator,
               ghost log: seq<seq<SlotState>>)
      requires Valid() && |cs| == nCells
      modifies this`actions, flags
      ensures Probability.Computed(calculator, log, cs, old(flags[..]), neighbors, nMines, target, pLand)
      ensures |target.index| == |target.proba|
      ensures ProbaDecision(old(actions), old(flags[..]), actions, flags[..], cs, neighbors,
                            target.index, target.proba, pLand)
      ensures forall j :: 0 <= j < nCells && old(flags[j]) ==> flags[j]
      ensures forall j :: 0 <= j < nCells && flags[j] && !old(flags[j]) ==> cs[j] == PlayerRules.CLOSED
      ensures |old(actions)| <= |actions| && actions[..|old(actions)|] == old(actions)
      ensures OpensClosed(cs, actions[|old(actions)|..])
    {
      var f0 := flags[..];
      ghost var a0 := actions;
      var t, pl, pc := Probability.CalculateProbabilities(cs, f0, neighbors, nMines);
      target, pLand, calculator, log := t, pl, pc, pc.counted;
      assert flags[..] == f0 && actions == a0;
      TargetsClosed(cs, f0, neighbors, t.index);
      ApplyProba(cs, t.index, t.proba, pl);
    }

    /** One round of solve's loop: flags, then safe opens, and the
        probabilities only when no safe cell was opened. */
    method Round(cs: seq<int>, nMines: int)
      returns (ghost target: Constants.TargetData, ghost pLand: real, ghost calculator: Probability.ProbabilityCalculator?,
               ghost log: seq<seq<SlotState>>)
      requires Valid() && |cs| == nCells
      modifies this`actions, flags
      ensures var built := BuiltFlags(old(flags[..]), cs, neighbors);
              SafeOpens(cs, built, neighbors, nCells) != [] ==>
                flags[..] == built && actions == old(actions) + OpenEach(SafeOpens(cs, built, neighbors, nCells))
      ensures var built := BuiltFlags(old(flags[..]), cs, neighbors);
              SafeOpens(cs, built, neighbors, nCells) == [] ==>
                calculator != null && |target.index| == |target.proba| &&
                Probability.Computed(calculator, log, cs, built, neighbors, nMines, target, pLand) &&
                ProbaDecision(old(actions), built, actions, flags[..], cs, neighbors, target.index, target.proba, pLand)
      ensures var built := BuiltFlags(old(flags[..]), cs, neighbors);
              forall j :: 0 <= j < nCells && built[j] ==> flags[j]
      ensures forall j :: 0 <= j < nCells && old(flags[j]) ==> flags[j]
      ensures |old(actions)| <= |actions| && actions[..|old(actions)|] == old(actions)
      ensures OpensClosed(cs, actions[|old(actions)|..])
    {
      ghost var a0 := actions;
      ghost var built := BuiltFlags(flags[..], cs, neighbors);
      BuildFlags(cs);
      var anyOpened := OpenSafeCells(cs);
      assert flags[..] == built;
      if !anyOpened {
        assert actions == a0;
        target, pLand, calculator, log := OpenByProba(cs, nMines);
      } else {
        target, pLand, calculator, log := Constants.TargetData([], []), 0.0, null, [];
        SafeOpensClosed(cs, flags[..], neighbors);
        assert actions[|a0|..] == OpenEach(SafeOpens(cs, flags[..], neighbors, nCells));
      }
    }
  }
}
