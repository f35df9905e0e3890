/** Definitions behind the Python probability engine: the land / target
    split, the per-cell caches, counting over slot states, the backtracking
    step, and the measure that makes the search terminate. */
module ProbabilitySpec {
  import opened Wrappers
  import opened Binomial
  import Constants
  const CLOSED := Constants.CLOSED

  /** The state of one target slot: safe = 0, mine = 1, assumed_mine = 2,
      none = 3 (this enumeration is not the player's three-valued one). */
  datatype SlotState = Safe | Mine | AssumedMine | Undefined
  {
    function Code(): nat
    {
      match this
      case Safe => 0
      case Mine => 1
      case AssumedMine => 2
      case Undefined => 3
    }
  }

  predicate MineLike(s: SlotState)
  {
    s == Mine || s == AssumedMine
  }

  // ---------------------------------------------------------------------
  // Selecting and counting over masks

  /** Number of true entries. */
  function CountTrue(s: seq<bool>): (r: nat)
    ensures r <= |s|
  {
    if s == [] then 0 else (if s[0] then 1 else 0) + CountTrue(s[1..])
  }

  predicate StrictlyIncreasing(s: seq<nat>)
  {
    forall i, j :: 0 <= i < j < |s| ==> s[i] < s[j]
  }

  /** The indices lo.. of the true entries of mask, ascending. */
  function SelectFrom(mask: seq<bool>, lo: nat): (r: seq<nat>)
    requires lo <= |mask|
    ensures StrictlyIncreasing(r)
    ensures forall k :: 0 <= k < |r| ==> lo <= r[k] < |mask|
    ensures forall x :: x in r <==> lo <= x < |mask| && mask[x]
    decreases |mask| - lo
  {
    if lo == |mask| then []
    else if mask[lo] then [lo] + SelectFrom(mask, lo + 1)
    else SelectFrom(mask, lo + 1)
  }

  /** np.arange(n)[mask]: the indices of the true entries, ascending. */
  function Select(mask: seq<bool>): (r: seq<nat>)
    ensures StrictlyIncreasing(r)
    ensures forall k :: 0 <= k < |r| ==> r[k] < |mask|
    ensures forall x: nat :: x in r <==> x < |mask| && mask[x]
  {
    SelectFrom(mask, 0)
  }

  /** Every neighbour list indexes into a board of n cells. */
  predicate WellFormed(n: nat, nbs: seq<seq<nat>>)
  {
    |nbs| == n && forall i, k :: 0 <= i < n && 0 <= k < |nbs[i]| ==> nbs[i][k] < n
  }

  /** The neighbour relation is symmetric. */
  predicate Symmetric(nbs: seq<seq<nat>>)
  {
    forall i, j :: 0 <= i < |nbs| && 0 <= j < |nbs| ==> (j in nbs[i] <==> i in nbs[j])
  }

  /** How many of the listed cells are closed. */
  function ClosedAt(cs: seq<int>, s: seq<nat>): (r: nat)
    requires forall k :: 0 <= k < |s| ==> s[k] < |cs|
    ensures r <= |s|
  {
    if s == [] then 0 else (if cs[s[0]] == CLOSED then 1 else 0) + ClosedAt(cs, s[1..])
  }

  /** How many of the listed cells are flagged. */
  function FlagsAt(flags: seq<bool>, s: seq<nat>): (r: nat)
    requires forall k :: 0 <= k < |s| ==> s[k] < |flags|
    ensures r <= |s|
  {
    if s == [] then 0 else (if flags[s[0]] then 1 else 0) + FlagsAt(flags, s[1..])
  }

  /** All listed cells are closed exactly when the closed count is the list length. */
  lemma {:induction false} ClosedAtAll(cs: seq<int>, s: seq<nat>)
    requires forall k :: 0 <= k < |s| ==> s[k] < |cs|
    ensures ClosedAt(cs, s) == |s| <==> forall k :: 0 <= k < |s| ==> cs[s[k]] == CLOSED
  {
    if s != [] {
      ClosedAtAll(cs, s[1..]);
      if forall k :: 0 <= k < |s| ==> cs[s[k]] == CLOSED {
        assert forall k :: 0 <= k < |s[1..]| ==> cs[s[1..][k]] == CLOSED by {
          forall k | 0 <= k < |s[1..]| ensures cs[s[1..][k]] == CLOSED {
            assert s[1..][k] == s[k + 1];
          }
        }
      }
      if ClosedAt(cs, s) == |s| {
        forall k | 0 <= k < |s| ensures cs[s[k]] == CLOSED {
          if k > 0 { assert s[k] == s[1..][k - 1]; }
        }
      }
    }
  }

  /** A cell is land iff it is closed and all its neighbours are closed
      (counted, as the source does, by comparing the closed count with the
      neighbour count). */
  function LandMask(cs: seq<int>, nbs: seq<seq<nat>>): (r: seq<bool>)
    requires WellFormed(|cs|, nbs)
    ensures |r| == |cs|
    ensures forall i :: 0 <= i < |cs| ==>
              (r[i] <==> cs[i] == CLOSED && forall k :: 0 <= k < |nbs[i]| ==> cs[nbs[i][k]] == CLOSED)
  {
    var r := seq(|cs|, i requires 0 <= i < |cs| => cs[i] == CLOSED && ClosedAt(cs, nbs[i]) == |nbs[i]|);
    assert forall i :: 0 <= i < |cs| ==>
             (r[i] <==> cs[i] == CLOSED && forall k :: 0 <= k < |nbs[i]| ==> cs[nbs[i][k]] == CLOSED) by {
      forall i | 0 <= i < |cs| { ClosedAtAll(cs, nbs[i]); }
    }
    r
  }

  /** Closed, unflagged and not land. */
  function TargetMask(cs: seq<int>, flags: seq<bool>, land: seq<bool>): (r: seq<bool>)
    requires |flags| == |cs| == |land|
    ensures |r| == |cs|
  {
    seq(|cs|, i requires 0 <= i < |cs| => cs[i] == CLOSED && !flags[i] && !land[i])
  }

  /** The map from a target's cell index to its slot. */
  function RevMap(idx: seq<nat>): (m: map<nat, nat>)
    requires StrictlyIncreasing(idx)
    ensures forall k :: 0 <= k < |idx| ==> idx[k] in m && m[idx[k]] == k
    ensures forall j :: j in m ==> m[j] < |idx| && idx[m[j]] == j
    ensures forall j :: j in m <==> j in idx
  {
    map k | 0 <= k < |idx| :: idx[k] := k
  }

  /** The slots of the target cells in a neighbour list, in list order. */
  function TargetSlots(rev: map<nat, nat>, nb: seq<nat>): (r: seq<nat>)
    ensures |r| <= |nb|
    ensures forall s :: s in r <==> exists k :: 0 <= k < |nb| && nb[k] in rev && rev[nb[k]] == s
  {
    if nb == [] then []
    else
      var rest := TargetSlots(rev, nb[1..]);
      assert forall s :: s in rest <==> exists k :: 1 <= k < |nb| && nb[k] in rev && rev[nb[k]] == s by {
        forall s ensures s in rest <==> exists k :: 1 <= k < |nb| && nb[k] in rev && rev[nb[k]] == s {
          if s in rest {
            var k :| 0 <= k < |nb[1..]| && nb[1..][k] in rev && rev[nb[1..][k]] == s;
            assert nb[k + 1] == nb[1..][k];
          }
          if exists k :: 1 <= k < |nb| && nb[k] in rev && rev[nb[k]] == s {
            var k :| 1 <= k < |nb| && nb[k] in rev && rev[nb[k]] == s;
            assert nb[1..][k - 1] == nb[k];
          }
        }
      }
      if nb[0] in rev then [rev[nb[0]]] + rest else rest
  }

  /** Every target slot of a neighbour list is a slot of the state. */
  lemma {:induction false} TargetSlotsIn(rev: map<nat, nat>, nb: seq<nat>, n: nat)
    requires forall j :: j in rev ==> rev[j] < n
    ensures forall k :: 0 <= k < |TargetSlots(rev, nb)| ==> TargetSlots(rev, nb)[k] < n
  {
    if nb != [] {
      TargetSlotsIn(rev, nb[1..], n);
    }
  }

  /** The non-target cells of a neighbour list, in list order. */
  function NonTarget(rev: map<nat, nat>, nb: seq<nat>): (r: seq<nat>)
    ensures |r| <= |nb|
    ensures forall k :: 0 <= k < |r| ==> r[k] in nb && r[k] !in rev
    ensures forall j :: j in nb && j !in rev ==> j in r
  {
    if nb == [] then []
    else if nb[0] !in rev then [nb[0]] + NonTarget(rev, nb[1..])
    else NonTarget(rev, nb[1..])
  }

  // ---------------------------------------------------------------------
  // Counting over slot states

  predicate SlotsIn(n: nat, slots: seq<nat>)
  {
    forall k :: 0 <= k < |slots| ==> slots[k] < n
  }

  /** How many listed slots are not known safe (mine, assumed_mine or none). */
  function NonSafeAt(st: seq<SlotState>, slots: seq<nat>): (r: nat)
    requires SlotsIn(|st|, slots)
    ensures r <= |slots|
  {
    if slots == [] then 0 else (if st[slots[0]] != Safe then 1 else 0) + NonSafeAt(st, slots[1..])
  }

  /** How many listed slots hold a mine or an assumed mine. */
  function MineLikeAt(st: seq<SlotState>, slots: seq<nat>): (r: nat)
    requires SlotsIn(|st|, slots)
    ensures r <= |slots|
  {
    if slots == [] then 0 else (if MineLike(st[slots[0]]) then 1 else 0) + MineLikeAt(st, slots[1..])
  }

  /** How many slots of the whole state hold a mine or an assumed mine. */
  function MineCount(st: seq<SlotState>): (r: nat)
    ensures r <= |st|
  {
    if st == [] then 0 else MineCount(st[..|st| - 1]) + (if MineLike(st[|st| - 1]) then 1 else 0)
  }

  predicate NoUndefined(st: seq<SlotState>)
  {
    forall i :: 0 <= i < |st| ==> st[i] != Undefined
  }

  /** st' is st with some none slots turned into v and nothing else changed. */
  predicate OnlyResolved(st: seq<SlotState>, st': seq<SlotState>, v: SlotState)
  {
    |st'| == |st| && forall i :: 0 <= i < |st| ==> st'[i] == st[i] || (st[i] == Undefined && st'[i] == v)
  }

  /** Turning none slots into mines does not change the non-safe count. */
  lemma {:induction false} NonSafeStable(st: seq<SlotState>, st': seq<SlotState>, slots: seq<nat>)
    requires OnlyResolved(st, st', Mine) && SlotsIn(|st|, slots)
    ensures NonSafeAt(st', slots) == NonSafeAt(st, slots)
  {
    if slots != [] {
      NonSafeStable(st, st', slots[1..]);
    }
  }

  /** Turning none slots into safe slots does not change the mine count. */
  lemma {:induction false} MineLikeStable(st: seq<SlotState>, st': seq<SlotState>, slots: seq<nat>)
    requires OnlyResolved(st, st', Safe) && SlotsIn(|st|, slots)
    ensures MineLikeAt(st', slots) == MineLikeAt(st, slots)
  {
    if slots != [] {
      MineLikeStable(st, st', slots[1..]);
    }
  }

  /** With no none slot left, the non-safe slots are exactly the mine-like ones. */
  lemma {:induction false} NonSafeIsMineLike(st: seq<SlotState>, slots: seq<nat>)
    requires NoUndefined(st) && SlotsIn(|st|, slots)
    ensures NonSafeAt(st, slots) == MineLikeAt(st, slots)
  {
    if slots != [] {
      NonSafeIsMineLike(st, slots[1..]);
    }
  }

  /** A neighbour list of an opened cell has as many closed non-target cells
      as flagged non-target cells, when flags lie on closed cells, targets are
      the closed unflagged non-land cells and the neighbour relation is symmetric. */
  lemma {:induction false} ClosedNonTargetAreFlagged(cs: seq<int>, flags: seq<bool>, nbs: seq<seq<nat>>,
                                                    rev: map<nat, nat>, c: nat, s: seq<nat>)
    requires WellFormed(|cs|, nbs) && Symmetric(nbs) && |flags| == |cs|
    requires forall j :: 0 <= j < |cs| && flags[j] ==> cs[j] == CLOSED
    requires forall j :: 0 <= j < |cs| ==> (j in rev <==> TargetMask(cs, flags, LandMask(cs, nbs))[j])
    requires c < |cs| && cs[c] != CLOSED
    requires forall k :: 0 <= k < |s| ==> s[k] in nbs[c] && s[k] !in rev
    ensures ClosedAt(cs, s) == FlagsAt(flags, s)
  {
    if s != [] {
      var j := s[0];
      assert j < |cs|;
      ClosedNonTargetAreFlagged(cs, flags, nbs, rev, c, s[1..]);
      if cs[j] == CLOSED && !flags[j] {
        assert false;
      }
    }
  }

  /** Targets carry no flag, so the flags among all neighbours are the flags
      among the non-target neighbours. */
  lemma {:induction false} FlagsOnNonTargets(flags: seq<bool>, rev: map<nat, nat>, nb: seq<nat>)
    requires forall k :: 0 <= k < |nb| ==> nb[k] < |flags|
    requires forall j :: j in rev && j < |flags| ==> !flags[j]
    ensures FlagsAt(flags, NonTarget(rev, nb)) == FlagsAt(flags, nb)
  {
    if nb != [] {
      FlagsOnNonTargets(flags, rev, nb[1..]);
    }
  }

  // ---------------------------------------------------------------------
  // The backtracking step and the search invariant

  /** The first assumed_mine slot at or after lo. */
  function FirstAssumed(st: seq<SlotState>, lo: nat): (r: nat)
    requires exists j :: lo <= j < |st| && st[j] == AssumedMine
    ensures lo <= r < |st| && st[r] == AssumedMine
    ensures forall j :: lo <= j < r ==> st[j] != AssumedMine
    decreases |st| - lo
  {
    if st[lo] == AssumedMine then lo else FirstAssumed(st, lo + 1)
  }

  /** The last assumed_mine slot in [lo, hi). */
  function LastAssumed(st: seq<SlotState>, lo: nat, hi: nat): (r: nat)
    requires hi <= |st|
    requires exists j :: lo <= j < hi && st[j] == AssumedMine
    ensures lo <= r < hi && st[r] == AssumedMine
    ensures forall j :: r < j < hi ==> st[j] != AssumedMine
    decreases hi
  {
    if st[hi - 1] == AssumedMine then hi - 1 else LastAssumed(st, lo, hi - 1)
  }

  /** The lowest none slot, if any. */
  function FirstUndefined(st: seq<SlotState>): (r: Option<nat>)
    ensures r.Some? ==> r.value < |st| && st[r.value] == Undefined && forall j :: 0 <= j < r.value ==> st[j] != Undefined
    ensures r.None? ==> NoUndefined(st)
  {
    if st == [] then None
    else if st[0] == Undefined then Some(0)
    else match FirstUndefined(st[1..])
      case None => None
      case Some(j) => assert st[1..][j] == st[j + 1]; Some(j + 1)
  }

  predicate HasAssumedFrom(st: seq<SlotState>, lo: nat)
  {
    exists j :: lo <= j < |st| && st[j] == AssumedMine
  }

  /** _update_target: the last assumed_mine at or after nChecked becomes safe,
      the slot after it becomes assumed_mine, the later slots none; nChecked
      moves past the assumption when it was the only one. */
  function Backtrack(st: seq<SlotState>, nChecked: nat): (r: (seq<SlotState>, nat))
    requires HasAssumedFrom(st, nChecked)
    ensures |r.0| == |st|
  {
    var first := FirstAssumed(st, nChecked);
    var last := LastAssumed(st, nChecked, |st|);
    var st' := seq(|st|, i requires 0 <= i < |st| =>
                 if i < last then st[i]
                 else if i == last then Safe
                 else if i == last + 1 then AssumedMine
                 else Undefined);
    (st', if first == last then first + 1 else nChecked)
  }

  /** The search invariant: slots before nChecked are decided, no none slot
      precedes an assumed_mine, and while anything is open an assumed_mine
      lies at or after nChecked. */
  predicate SearchInv(st: seq<SlotState>, nChecked: nat)
  {
    nChecked <= |st| &&
    (forall i :: 0 <= i < nChecked ==> st[i] == Safe || st[i] == Mine) &&
    (forall i, j :: 0 <= i < j < |st| && st[j] == AssumedMine ==> st[i] != Undefined) &&
    ((exists i :: 0 <= i < |st| && (st[i] == Undefined || st[i] == AssumedMine)) ==> HasAssumedFrom(st, nChecked))
  }

  /** What _update_target changes: earlier slots keep their state, the last
      assumption turns safe, the next slot is assumed, the rest are reset,
      and nChecked never decreases. */
  lemma BacktrackShape(st: seq<SlotState>, nChecked: nat)
    requires HasAssumedFrom(st, nChecked)
    ensures var last := LastAssumed(st, nChecked, |st|);
            var r := Backtrack(st, nChecked);
            (forall i :: 0 <= i < last ==> r.0[i] == st[i]) &&
            r.0[last] == Safe &&
            (last + 1 < |st| ==> r.0[last + 1] == AssumedMine) &&
            (forall i :: last + 1 < i < |st| ==> r.0[i] == Undefined) &&
            r.1 >= nChecked && r.1 <= last + 1
  {
  }

  /** _update_target keeps the search invariant. */
  lemma BacktrackKeepsInvariant(st: seq<SlotState>, nChecked: nat)
    requires SearchInv(st, nChecked) && HasAssumedFrom(st, nChecked)
    ensures SearchInv(Backtrack(st, nChecked).0, Backtrack(st, nChecked).1)
  {
    var first := FirstAssumed(st, nChecked);
    var last := LastAssumed(st, nChecked, |st|);
    var r := Backtrack(st, nChecked);
    var st', nc := r.0, r.1;
    forall i | 0 <= i < nc ensures st'[i] == Safe || st'[i] == Mine {
      if i < last {
        assert st[i] != Undefined;
        if i >= nChecked {
          assert first == last;
          assert st[i] != AssumedMine;
        }
      }
    }
    if exists i :: 0 <= i < |st'| && (st'[i] == Undefined || st'[i] == AssumedMine) {
      if last + 1 < |st'| {
        assert st'[last + 1] == AssumedMine;
      } else if first != last {
        assert st'[first] == AssumedMine;
      }
    }
  }

  // ---------------------------------------------------------------------
  // Termination: a base-3 reading of the slot states

  function Rank(s: SlotState): nat
  {
    match s
    case Safe => 0
    case Mine => 0
    case AssumedMine => 1
    case Undefined => 2
  }

  function Pow3(n: nat): (r: nat)
    ensures r >= 1
  {
    if n == 0 then 1 else 3 * Pow3(n - 1)
  }

  /** The slot states read as a base-3 numeral, first slot most significant. */
  function Enc(st: seq<SlotState>): nat
  {
    if st == [] then 0 else Rank(st[0]) * Pow3(|st| - 1) + Enc(st[1..])
  }

  lemma {:induction false} EncBelow(st: seq<SlotState>)
    ensures Enc(st) < Pow3(|st|)
  {
    if st != [] {
      EncBelow(st[1..]);
      var p := Pow3(|st| - 1);
      assert Rank(st[0]) * p <= 2 * p;
    }
  }

  /** Lowering the rank of one slot while keeping all earlier slots lowers
      the measure, whatever happens to the later slots. */
  lemma {:induction false} EncLex(st: seq<SlotState>, st': seq<SlotState>, k: nat)
    requires |st'| == |st| && k < |st|
    requires forall i :: 0 <= i < k ==> st'[i] == st[i]
    requires Rank(st'[k]) < Rank(st[k])
    ensures Enc(st') < Enc(st)
  {
    if k == 0 {
      EncBelow(st'[1..]);
      var p := Pow3(|st| - 1);
      assert Rank(st'[0]) * p + p <= Rank(st[0]) * p;
    } else {
      EncLex(st[1..], st'[1..], k - 1);
    }
  }

  /** Lowering ranks pointwise never raises the measure, and lowers it when
      some rank drops. */
  lemma {:induction false} EncPointwise(st: seq<SlotState>, st': seq<SlotState>)
    requires |st'| == |st|
    requires forall i :: 0 <= i < |st| ==> Rank(st'[i]) <= Rank(st[i])
    ensures Enc(st') <= Enc(st)
    ensures (exists i :: 0 <= i < |st| && Rank(st'[i]) < Rank(st[i])) ==> Enc(st') < Enc(st)
  {
    if st != [] {
      EncPointwise(st[1..], st'[1..]);
      var p := Pow3(|st| - 1);
      assert Rank(st'[0]) * p <= Rank(st[0]) * p;
      if exists i :: 0 <= i < |st| && Rank(st'[i]) < Rank(st[i]) {
        var i :| 0 <= i < |st| && Rank(st'[i]) < Rank(st[i]);
        if i == 0 {
          EncLex(st, st', 0);
        } else {
          assert Rank(st'[1..][i - 1]) < Rank(st[1..][i - 1]);
        }
      }
    }
  }

  /** Each _update_target strictly lowers the measure. */
  lemma BacktrackDecreases(st: seq<SlotState>, nChecked: nat)
    requires HasAssumedFrom(st, nChecked)
    ensures Enc(Backtrack(st, nChecked).0) < Enc(st)
  {
    var last := LastAssumed(st, nChecked, |st|);
    EncLex(st, Backtrack(st, nChecked).0, last);
  }

  /** Resolving none slots never raises the measure, and lowers it when a slot changes. */
  lemma ResolvedDecreases(st: seq<SlotState>, st': seq<SlotState>, v: SlotState)
    requires OnlyResolved(st, st', v) && v != Undefined && v != AssumedMine
    ensures Enc(st') <= Enc(st)
    ensures st' != st ==> Enc(st') < Enc(st)
  {
    if st' != st {
      var i :| 0 <= i < |st| && st'[i] != st[i];
      assert Rank(st'[i]) < Rank(st[i]);
    }
    EncPointwise(st, st');
  }

  /** Recording a new assumption on the lowest none slot keeps the search
      invariant and lowers the measure. */
  lemma NewAssumption(st: seq<SlotState>, nChecked: nat, u: nat)
    requires SearchInv(st, nChecked) && FirstUndefined(st) == Some(u)
    ensures SearchInv(st[u := AssumedMine], nChecked)
    ensures Enc(st[u := AssumedMine]) < Enc(st)
  {
    EncLex(st, st[u := AssumedMine], u);
    assert u >= nChecked;
  }

  /** Resolving none slots keeps the search invariant. */
  lemma ResolvedKeepsInvariant(st: seq<SlotState>, st': seq<SlotState>, v: SlotState, nChecked: nat)
    requires SearchInv(st, nChecked) && OnlyResolved(st, st', v) && (v == Safe || v == Mine)
    ensures SearchInv(st', nChecked)
    ensures HasAssumedFrom(st, nChecked) ==> HasAssumedFrom(st', nChecked)
  {
    if exists i :: 0 <= i < |st'| && (st'[i] == Undefined || st'[i] == AssumedMine) {
      var i :| 0 <= i < |st'| && (st'[i] == Undefined || st'[i] == AssumedMine);
      assert st[i] == Undefined || st[i] == AssumedMine;
    }
    if HasAssumedFrom(st, nChecked) {
      var j :| nChecked <= j < |st| && st[j] == AssumedMine;
      assert st'[j] == AssumedMine;
    }
  }

  // ---------------------------------------------------------------------
  // Weights of a complete assignment of the target slots

  /** Ways to place the mines not yet accounted for on the land cells
      (no way when more mines are assigned than remain). */
  function Weight(nLand: nat, free: int, p: seq<SlotState>): nat
  {
    Choose(nLand, free - MineCount(p))
  }

  /** Ways to do so with one given land cell holding a mine. */
  function LandWeight(nLand: nat, free: int, p: seq<SlotState>): nat
  {
    ChooseInt(nLand - 1, free - MineCount(p) - 1)
  }

  /** Total weight of the recorded assignments. */
  function SumWeight(nLand: nat, free: int, log: seq<seq<SlotState>>): nat
  {
    if log == [] then 0 else SumWeight(nLand, free, log[..|log| - 1]) + Weight(nLand, free, log[|log| - 1])
  }

  /** Total land weight of the recorded assignments. */
  function SumLand(nLand: nat, free: int, log: seq<seq<SlotState>>): nat
  {
    if log == [] then 0 else SumLand(nLand, free, log[..|log| - 1]) + LandWeight(nLand, free, log[|log| - 1])
  }

  /** Total weight of the recorded assignments that put a mine on slot i. */
  function SumMine(nLand: nat, free: int, log: seq<seq<SlotState>>, i: nat): nat
  {
    if log == [] then 0
    else
      var p := log[|log| - 1];
      SumMine(nLand, free, log[..|log| - 1], i) + (if i < |p| && MineLike(p[i]) then Weight(nLand, free, p) else 0)
  }

  /** Appending an assignment to the log adds its weights to every sum. */
  lemma SumsAppend(nLand: nat, free: int, log: seq<seq<SlotState>>, p: seq<SlotState>)
    ensures SumWeight(nLand, free, log + [p]) == SumWeight(nLand, free, log) + Weight(nLand, free, p)
    ensures SumLand(nLand, free, log + [p]) == SumLand(nLand, free, log) + LandWeight(nLand, free, p)
    ensures forall i: nat :: SumMine(nLand, free, log + [p], i) ==
              SumMine(nLand, free, log, i) + (if i < |p| && MineLike(p[i]) then Weight(nLand, free, p) else 0)
  {
    assert (log + [p])[..|log|] == log;
  }

  /** A given land cell holds a mine in no more placements than there are. */
  lemma LandWeightBelow(nLand: nat, free: int, p: seq<SlotState>)
    ensures LandWeight(nLand, free, p) <= Weight(nLand, free, p)
  {
    if nLand >= 1 {
      ShiftedBelow(nLand, free - MineCount(p));
    }
  }

  /** The mine tally of a slot never exceeds the total tally. */
  lemma {:induction false} SumMineBelow(nLand: nat, free: int, log: seq<seq<SlotState>>, i: nat)
    ensures SumMine(nLand, free, log, i) <= SumWeight(nLand, free, log)
  {
    if log != [] {
      SumMineBelow(nLand, free, log[..|log| - 1], i);
    }
  }

  /** The land tally never exceeds the total tally. */
  lemma {:induction false} SumLandBelow(nLand: nat, free: int, log: seq<seq<SlotState>>)
    ensures SumLand(nLand, free, log) <= SumWeight(nLand, free, log)
  {
    if log != [] {
      SumLandBelow(nLand, free, log[..|log| - 1]);
      LandWeightBelow(nLand, free, log[|log| - 1]);
    }
  }

  /** The recorded assignments come in strictly decreasing measure. */
  predicate LogDecreasing(log: seq<seq<SlotState>>)
  {
    forall a, b :: 0 <= a < b < |log| ==> Enc(log[b]) < Enc(log[a])
  }
}
