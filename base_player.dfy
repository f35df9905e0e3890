/** The player base of src/base_player.py: the same flag rule, but the
    safe cells of a round are opened as one batch, sorted and without
    repeats. Its probability step is abstract, so a round reports
    whether that step is due. */
module BasePlayers {
  import opened PlayerRules
  import opened ProbabilitySpec

  class BasePlayer {
    const height: nat
    const width: nat
    const nCells: nat
    const neighbors: seq<seq<nat>>
    const flags: array<bool>
    var actions: seq<Action>

    predicate Valid()
    {
      nCells == height * width && flags.Length == nCells && WellFormed(nCells, neighbors)
    }

    constructor (height: nat, width: nat, neighbors: seq<seq<nat>>)
      requires WellFormed(height * width, neighbors)
      ensures Valid() && this.height == height && this.width == width && this.neighbors == neighbors
      ensures fresh(flags) && (forall j :: 0 <= j < flags.Length ==> !flags[j]) && actions == []
    {
      this.height := height;
      this.width := width;
      nCells := height * width;
      this.neighbors := neighbors;
      flags := new bool[height * width]((_) => false);
      actions := [];
    }

    /** The first move of solve: open (H // 2, W // 2). */
    method StartGame()
      requires height > 0 && width > 0
      modifies this`actions
      ensures actions == old(actions) + [Start(StartIndex(height, width))]
    {
      actions := actions + [Start(StartIndex(height, width))];
    }

    /** _build_flags. */
    method BuildFlags(cs: seq<int>)
      requires Valid() && |cs| == nCells
      modifies flags
      ensures flags[..] == BuiltFlags(old(flags[..]), cs, neighbors)
    {
      PlayerRules.BuildFlags(flags, cs, neighbors);
    }

    /** _open_safe_cells: gathers the unflagged closed neighbours of every
        positive clue already met by flags and, when there are any, opens
        them in one batch, ascending and without repeats. */
    method OpenSafeCells(cs: seq<int>) returns (anyOpened: bool)
      requires Valid() && |cs| == nCells
      modifies this`actions
      ensures anyOpened <==> SafeOpens(cs, flags[..], neighbors, nCells) != []
      ensures actions == old(actions) +
                (if anyOpened then [OpenBatch(Unique(SafeOpens(cs, flags[..], neighbors, nCells), nCells))] else [])
    {
      var openIndices := CollectSafeOpens(cs, flags[..], neighbors);
      if |openIndices| > 0 {
        actions := actions + [OpenBatch(Unique(openIndices, nCells))];
      }
      return |openIndices| > 0;
    }

    /** _open_land: opens the lowest closed cell whose neighbours are all closed, if any. */
    method OpenLand(cs: seq<int>)
      requires Valid() && |cs| == nCells
      modifies this`actions
      ensures actions == old(actions) + LandAction(cs, neighbors)
    {
      var land := FindLand(cs, neighbors);
      if land.Some? {
        actions := actions + [Open(land.value)];
      }
    }

    /** One round of solve's loop: flags, then the batch of safe cells;
        the result says whether _open_by_proba is due, which is exactly
        when the batch was empty. */
    method Round(cs: seq<int>) returns (probaDue: bool)
      requires Valid() && |cs| == nCells
      modifies this`actions, flags
      ensures flags[..] == BuiltFlags(old(flags[..]), cs, neighbors)
      ensures probaDue <==> SafeOpens(cs, flags[..], neighbors, nCells) == []
      ensures actions == old(actions) +
                (if probaDue then [] else [OpenBatch(Unique(SafeOpens(cs, flags[..], neighbors, nCells), nCells))])
    {
      BuildFlags(cs);
      var anyOpened := OpenSafeCells(cs);
      probaDue := !anyOpened;
    }
  }
}
