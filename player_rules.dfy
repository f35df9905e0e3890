/** The deduction and decision rules shared by the two players
    (src/player.py and src/base_player.py). A player sees the board only
    through a snapshot of its cell states (the clue of an open cell, -1
    for a closed one) and the neighbour lists; what it does to the board
    is recorded as a list of actions. */
module PlayerRules {
  import opened Wrappers
  import opened ProbabilitySpec
  import Constants
  import Grid

  const CLOSED := Constants.CLOSED

  /** What a player asks of the board. */
  datatype Action = Start(idx: nat) | Open(idx: nat) | OpenBatch(indices: seq<nat>)

  /** One Open per index, in order. */
  function OpenEach(s: seq<nat>): (r: seq<Action>)
    ensures |r| == |s| && forall k :: 0 <= k < |s| ==> r[k] == Open(s[k])
  {
    if s == [] then [] else OpenEach(s[..|s| - 1]) + [Open(s[|s| - 1])]
  }

  lemma OpenEachConcat(a: seq<nat>, b: seq<nat>)
    ensures OpenEach(a + b) == OpenEach(a) + OpenEach(b)
  {
    assert forall k :: 0 <= k < |a + b| ==> OpenEach(a + b)[k] == (OpenEach(a) + OpenEach(b))[k];
  }

  // ---------------------------------------------------------------------
  // _build_flags

  /** The positive clue of cell i equals its number of closed neighbours. */
  predicate ClosedSatisfied(cs: seq<int>, nbs: seq<seq<nat>>, i: nat)
    requires WellFormed(|cs|, nbs) && i < |cs|
  {
    cs[i] > 0 && ClosedAt(cs, nbs[i]) == cs[i]
  }

  /** Cell j is a closed neighbour of a satisfied clue among cells 0..n-1. */
  ghost predicate FlagForcedBefore(cs: seq<int>, nbs: seq<seq<nat>>, n: nat, j: nat)
    requires WellFormed(|cs|, nbs) && n <= |cs| && j < |cs|
  {
    exists i: nat :: i < n && ClosedSatisfied(cs, nbs, i) && j in nbs[i] && cs[j] == CLOSED
  }

  ghost predicate FlagForced(cs: seq<int>, nbs: seq<seq<nat>>, j: nat)
    requires WellFormed(|cs|, nbs) && j < |cs|
  {
    FlagForcedBefore(cs, nbs, |cs|, j)
  }

  lemma FlagForcedStep(cs: seq<int>, nbs: seq<seq<nat>>, n: nat, j: nat)
    requires WellFormed(|cs|, nbs) && n < |cs| && j < |cs|
    ensures FlagForcedBefore(cs, nbs, n + 1, j) <==>
            FlagForcedBefore(cs, nbs, n, j) || (ClosedSatisfied(cs, nbs, n) && j in nbs[n] && cs[j] == CLOSED)
  {
    if FlagForcedBefore(cs, nbs, n + 1, j) && !FlagForcedBefore(cs, nbs, n, j) {
      var i: nat :| i < n + 1 && ClosedSatisfied(cs, nbs, i) && j in nbs[i] && cs[j] == CLOSED;
      assert i == n;
    }
  }

  /** The flags after _build_flags: the old ones, and every closed neighbour of a satisfied clue. */
  ghost function BuiltFlags(flags: seq<bool>, cs: seq<int>, nbs: seq<seq<nat>>): (r: seq<bool>)
    requires |flags| == |cs| && WellFormed(|cs|, nbs)
    ensures |r| == |cs| && forall j :: 0 <= j < |cs| ==> r[j] == (flags[j] || FlagForced(cs, nbs, j))
  {
    seq(|cs|, j requires 0 <= j < |cs| => flags[j] || FlagForced(cs, nbs, j))
  }

  /** Flags every closed neighbour of cell i. */
  method FlagClosedAround(flags: array<bool>, cs: seq<int>, nbs: seq<seq<nat>>, i: nat)
    requires flags.Length == |cs| && WellFormed(|cs|, nbs) && i < |cs|
    modifies flags
    ensures forall j :: 0 <= j < |cs| ==> flags[j] == (old(flags[j]) || (j in nbs[i] && cs[j] == CLOSED))
  {
    var nb := nbs[i];
    for k := 0 to |nb|
      invariant forall j :: 0 <= j < |cs| ==> flags[j] == (old(flags[j]) || (j in nb[..k] && cs[j] == CLOSED))
    {
      assert nb[..k + 1] == nb[..k] + [nb[k]];
      if cs[nb[k]] == CLOSED {
        flags[nb[k]] := true;
      }
    }
    assert nb[..|nb|] == nb;
  }

  /** _build_flags: when a positive clue equals its number of closed
      neighbours, all of them are flagged. No flag is ever cleared. */
  method BuildFlags(flags: array<bool>, cs: seq<int>, nbs: seq<seq<nat>>)
    requires flags.Length == |cs| && WellFormed(|cs|, nbs)
    modifies flags
    ensures flags[..] == BuiltFlags(old(flags[..]), cs, nbs)
  {
    ghost var f0 := flags[..];
    for idx := 0 to |cs|
      invariant forall j :: 0 <= j < |cs| ==> flags[j] == (f0[j] || FlagForcedBefore(cs, nbs, idx, j))
    {
      if cs[idx] > 0 && cs[idx] == ClosedAt(cs, nbs[idx]) {
        FlagClosedAround(flags, cs, nbs, idx);
      }
      forall j | 0 <= j < |cs| {
        FlagForcedStep(cs, nbs, idx, j);
      }
    }
  }

  // ---------------------------------------------------------------------
  // _open_safe_cells

  /** The positive clue of cell i equals its number of flagged neighbours. */
  predicate FlagSatisfied(cs: seq<int>, flags: seq<bool>, nbs: seq<seq<nat>>, i: nat)
    requires |flags| == |cs| && WellFormed(|cs|, nbs) && i < |cs|
  {
    cs[i] > 0 && FlagsAt(flags, nbs[i]) == cs[i]
  }

  /** The unflagged closed cells of a neighbour list, in list order. */
  function OpensOf(cs: seq<int>, flags: seq<bool>, nb: seq<nat>): (r: seq<nat>)
    requires |flags| == |cs| && forall k :: 0 <= k < |nb| ==> nb[k] < |cs|
    ensures forall x :: x in r <==> x in nb && !flags[x] && cs[x] == CLOSED
    ensures forall k :: 0 <= k < |r| ==> r[k] < |cs|
  {
    if nb == [] then []
    else
      var last := nb[|nb| - 1];
      assert forall x :: x in nb <==> x in nb[..|nb| - 1] || x == last;
      OpensOf(cs, flags, nb[..|nb| - 1]) + (if !flags[last] && cs[last] == CLOSED then [last] else [])
  }

  /** The cells _open_safe_cells opens, clue by clue among cells 0..n-1. */
  function SafeOpens(cs: seq<int>, flags: seq<bool>, nbs: seq<seq<nat>>, n: nat): (r: seq<nat>)
    requires |flags| == |cs| && WellFormed(|cs|, nbs) && n <= |cs|
    ensures forall k :: 0 <= k < |r| ==> r[k] < |cs|
  {
    if n == 0 then []
    else SafeOpens(cs, flags, nbs, n - 1) + (if FlagSatisfied(cs, flags, nbs, n - 1) then OpensOf(cs, flags, nbs[n - 1]) else [])
  }

  /** A cell is opened exactly when it is an unflagged closed neighbour of
      a positive clue already met by flags. */
  lemma {:induction false} SafeOpensMembers(cs: seq<int>, flags: seq<bool>, nbs: seq<seq<nat>>, n: nat, x: nat)
    requires |flags| == |cs| && WellFormed(|cs|, nbs) && n <= |cs| && x < |cs|
    ensures x in SafeOpens(cs, flags, nbs, n) <==>
            !flags[x] && cs[x] == CLOSED && exists i: nat :: i < n && FlagSatisfied(cs, flags, nbs, i) && x in nbs[i]
  {
    if n > 0 {
      SafeOpensMembers(cs, flags, nbs, n - 1, x);
      if x in SafeOpens(cs, flags, nbs, n) && x !in SafeOpens(cs, flags, nbs, n - 1) {
        assert FlagSatisfied(cs, flags, nbs, n - 1) && x in nbs[n - 1];
      }
      if !flags[x] && cs[x] == CLOSED && exists i: nat :: i < n && FlagSatisfied(cs, flags, nbs, i) && x in nbs[i] {
        var i: nat :| i < n && FlagSatisfied(cs, flags, nbs, i) && x in nbs[i];
        if i == n - 1 {
          assert x in OpensOf(cs, flags, nbs[n - 1]);
        }
      }
    }
  }

  /** The gathering loop of the batched _open_safe_cells. */
  method CollectSafeOpens(cs: seq<int>, flags: seq<bool>, nbs: seq<seq<nat>>) returns (openIndices: seq<nat>)
    requires |flags| == |cs| && WellFormed(|cs|, nbs)
    ensures openIndices == SafeOpens(cs, flags, nbs, |cs|)
  {
    openIndices := [];
    for idx := 0 to |cs|
      invariant openIndices == SafeOpens(cs, flags, nbs, idx)
    {
      if cs[idx] <= 0 {
        continue;
      }
      var nFlags := FlagsAt(flags, nbs[idx]);
      if cs[idx] != nFlags {
        continue;
      }
      openIndices := openIndices + OpensOf(cs, flags, nbs[idx]);
    }
  }

  /** np.unique over indices below n: ascending, without repeats, the same cells. */
  function Unique(s: seq<nat>, n: nat): (r: seq<nat>)
    requires forall k :: 0 <= k < |s| ==> s[k] < n
    ensures StrictlyIncreasing(r)
    ensures forall x: nat :: x in r <==> x in s
  {
    Select(seq(n, j => j in s))
  }

  // ---------------------------------------------------------------------
  // _open_land

  /** The first true entry at or after lo. */
  function FirstTrue(mask: seq<bool>, lo: nat): (r: Option<nat>)
    requires lo <= |mask|
    ensures r.Some? ==> lo <= r.value < |mask| && mask[r.value] && forall j :: lo <= j < r.value ==> !mask[j]
    ensures r.None? ==> forall j :: lo <= j < |mask| ==> !mask[j]
    decreases |mask| - lo
  {
    if lo == |mask| then None
    else if mask[lo] then Some(lo)
    else FirstTrue(mask, lo + 1)
  }

  /** The scan of _open_land: the lowest closed cell whose neighbours are all closed. */
  method FindLand(cs: seq<int>, nbs: seq<seq<nat>>) returns (land: Option<nat>)
    requires WellFormed(|cs|, nbs)
    ensures land == FirstTrue(LandMask(cs, nbs), 0)
  {
    ghost var mask := LandMask(cs, nbs);
    for idx := 0 to |cs|
      invariant FirstTrue(mask, 0) == FirstTrue(mask, idx)
    {
      if cs[idx] != CLOSED {
        continue;
      }
      var nClosed := ClosedAt(cs, nbs[idx]);
      if nClosed == |nbs[idx]| {
        ClosedAtAll(cs, nbs[idx]);
        return Some(idx);
      }
      ClosedAtAll(cs, nbs[idx]);
    }
    return None;
  }

  /** What _open_land asks of the board: one Open of the first land cell, if any. */
  function LandAction(cs: seq<int>, nbs: seq<seq<nat>>): (r: seq<Action>)
    requires WellFormed(|cs|, nbs)
    ensures |r| <= 1
    ensures forall k :: 0 <= k < |r| ==> r[k].Open? && r[k].idx < |cs| && LandMask(cs, nbs)[r[k].idx]
  {
    match FirstTrue(LandMask(cs, nbs), 0)
    case Some(i) => [Open(i)]
    case None => []
  }

  // ---------------------------------------------------------------------
  // _open_by_proba

  /** np.argmin: the first index of a minimum. */
  function ArgMin(s: seq<real>): (r: nat)
    requires |s| > 0
    ensures r < |s| && (forall j :: 0 <= j < |s| ==> s[r] <= s[j]) && (forall j :: 0 <= j < r ==> s[r] < s[j])
  {
    if |s| == 1 then 0
    else
      var m := ArgMin(s[..|s| - 1]);
      assert forall j :: 0 <= j < |s| - 1 ==> s[..|s| - 1][j] == s[j];
      if s[|s| - 1] < s[m] then |s| - 1 else m
  }

  /** The targets with probability 0, in order. */
  function ZeroOpens(index: seq<nat>, proba: seq<real>): (r: seq<nat>)
    requires |index| == |proba|
    ensures forall x :: x in r <==> exists k :: 0 <= k < |index| && index[k] == x && proba[k] == 0.0
  {
    if index == [] then []
    else
      var n := |index| - 1;
      var rest := ZeroOpens(index[..n], proba[..n]);
      assert forall k :: 0 <= k < n ==> index[..n][k] == index[k] && proba[..n][k] == proba[k];
      rest + (if proba[n] == 0.0 then [index[n]] else [])
  }

  /** The decision _open_by_proba takes from the targets index, their
      probabilities proba and the land probability pLand, as a change of
      the action log a0 to a1 and of the flags f0 to f1: when some target
      is certainly safe, open those targets in order and flag exactly the
      certain mines besides the old flags; otherwise keep the flags and
      open the first least likely target if it beats a land cell, else
      open land. */
  ghost predicate ProbaDecision(a0: seq<Action>, f0: seq<bool>, a1: seq<Action>, f1: seq<bool>,
                                cs: seq<int>, nbs: seq<seq<nat>>, index: seq<nat>, proba: seq<real>, pLand: real)
    requires WellFormed(|cs|, nbs) && |index| == |proba|
  {
    |f1| == |f0| &&
    if 0.0 in proba then
      a1 == a0 + OpenEach(ZeroOpens(index, proba)) &&
      forall j :: 0 <= j < |f0| ==> f1[j] == (f0[j] || exists k :: 0 <= k < |index| && index[k] == j && proba[k] == 1.0)
    else
      f1 == f0 &&
      a1 == a0 + if |proba| != 0 && proba[ArgMin(proba)] < pLand then [Open(index[ArgMin(proba)])]
                 else LandAction(cs, nbs)
  }

  /** Every action is an Open of a cell that is closed in the snapshot cs. */
  predicate OpensClosed(cs: seq<int>, acts: seq<Action>)
  {
    forall k :: 0 <= k < |acts| ==> acts[k].Open? && acts[k].idx < |cs| && cs[acts[k].idx] == CLOSED
  }

  /** The probability engine's targets are closed cells of the board. */
  lemma TargetsClosed(cs: seq<int>, flags: seq<bool>, nbs: seq<seq<nat>>, index: seq<nat>)
    requires |flags| == |cs| && WellFormed(|cs|, nbs)
    requires index == Select(TargetMask(cs, flags, LandMask(cs, nbs)))
    ensures forall k :: 0 <= k < |index| ==> index[k] < |cs| && cs[index[k]] == CLOSED
  {
    var mask := TargetMask(cs, flags, LandMask(cs, nbs));
    forall k | 0 <= k < |index| ensures index[k] < |cs| && cs[index[k]] == CLOSED {
      assert index[k] in index;
      assert mask[index[k]];
    }
  }

  /** Opening the probability-0 targets opens closed cells only. */
  lemma ZeroOpensClosed(cs: seq<int>, index: seq<nat>, proba: seq<real>)
    requires |index| == |proba|
    requires forall k :: 0 <= k < |index| ==> index[k] < |cs| && cs[index[k]] == CLOSED
    ensures OpensClosed(cs, OpenEach(ZeroOpens(index, proba)))
  {
    var z := ZeroOpens(index, proba);
    forall k | 0 <= k < |z| ensures z[k] < |cs| && cs[z[k]] == CLOSED {
      assert z[k] in z;
    }
  }

  /** The safe opens are closed cells. */
  lemma SafeOpensClosed(cs: seq<int>, flags: seq<bool>, nbs: seq<seq<nat>>)
    requires |flags| == |cs| && WellFormed(|cs|, nbs)
    ensures OpensClosed(cs, OpenEach(SafeOpens(cs, flags, nbs, |cs|)))
  {
    var z := SafeOpens(cs, flags, nbs, |cs|);
    forall k | 0 <= k < |z| ensures cs[z[k]] == CLOSED {
      SafeOpensMembers(cs, flags, nbs, |cs|, z[k]);
    }
  }

  /** (H // 2, W // 2) as a cell index: where the game starts. */
  function StartIndex(height: nat, width: nat): (r: nat)
    requires height > 0 && width > 0
    ensures Grid.LocToIdx(height, width, height / 2, width / 2) == Success(r)
    ensures r < height * width
  {
    Grid.LocToIdx(height, width, height / 2, width / 2).value
  }
}
