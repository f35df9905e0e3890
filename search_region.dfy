/** The part of the assignment space a state of the Python search still
    covers: the branch it is on (assignments that agree with every decided
    slot) and the safe branches still pending at its assumptions. These are
    the facts behind the completeness of compute's enumeration. */
module SearchRegion {
  import opened Wrappers
  import opened ProbabilitySpec

  /** A complete assignment of n slots: each one is safe or a mine. */
  predicate Assignment(p: seq<SlotState>, n: nat)
  {
    |p| == n && forall i :: 0 <= i < n ==> p[i] == Safe || p[i] == Mine
  }

  /** The assignment a decided state stands for: assumed mines are mines. */
  function Settle(st: seq<SlotState>): (p: seq<SlotState>)
    ensures Assignment(p, |st|)
    ensures forall i :: 0 <= i < |st| ==> (MineLike(p[i]) <==> MineLike(st[i]))
  {
    seq(|st|, i requires 0 <= i < |st| => if MineLike(st[i]) then Mine else Safe)
  }

  /** Two complete assignments with the same mines are equal. */
  lemma SameMines(p: seq<SlotState>, q: seq<SlotState>, n: nat)
    requires Assignment(p, n) && Assignment(q, n)
    requires forall i :: 0 <= i < n ==> (MineLike(p[i]) <==> MineLike(q[i]))
    ensures p == q
  {
  }

  /** p agrees with every decided slot of st below hi. */
  predicate Agrees(p: seq<SlotState>, st: seq<SlotState>, hi: nat)
  {
    forall i :: 0 <= i < hi && i < |st| && i < |p| && st[i] != Undefined ==> (MineLike(p[i]) <==> MineLike(st[i]))
  }

  /** p is on the branch the search is in: it agrees with every decided slot. */
  predicate InBranch(p: seq<SlotState>, st: seq<SlotState>)
  {
    |p| == |st| && Agrees(p, st, |st|)
  }

  /** p is in the safe branch still pending at the assumption on slot a. */
  predicate PendingAt(p: seq<SlotState>, st: seq<SlotState>, a: nat)
  {
    |p| == |st| && a < |st| && st[a] == AssumedMine && !MineLike(p[a]) && Agrees(p, st, a)
  }

  /** p is in a pending safe branch at an assumption at or after nChecked. */
  predicate Pending(p: seq<SlotState>, st: seq<SlotState>, nChecked: nat)
  {
    exists a :: nChecked <= a < |st| && PendingAt(p, st, a)
  }

  /** Everything the search has still to visit from state st. */
  predicate InRegion(p: seq<SlotState>, st: seq<SlotState>, nChecked: nat)
  {
    InBranch(p, st) || Pending(p, st, nChecked)
  }

  /** The first none slot, or the length when there is none. */
  function Frontier(st: seq<SlotState>): (r: nat)
    ensures r <= |st|
    ensures forall i :: 0 <= i < r ==> st[i] != Undefined
    ensures r < |st| ==> st[r] == Undefined
  {
    match FirstUndefined(st)
    case None => |st|
    case Some(u) => u
  }

  /** An assignment on the branch is in no pending safe branch, since it
      takes every assumption as a mine. */
  lemma BranchNotPending(p: seq<SlotState>, st: seq<SlotState>, nChecked: nat)
    requires InBranch(p, st)
    ensures !Pending(p, st, nChecked)
  {
  }

  /** On a complete state the branch holds exactly the assignment it stands for. */
  lemma CompleteBranch(p: seq<SlotState>, st: seq<SlotState>)
    requires NoUndefined(st) && Assignment(p, |st|)
    ensures InBranch(p, st) <==> p == Settle(st)
  {
    if InBranch(p, st) {
      SameMines(p, Settle(st), |st|);
    }
  }

  /** With no assumption left, nothing is pending. */
  lemma NothingPending(p: seq<SlotState>, st: seq<SlotState>, nChecked: nat)
    requires forall i :: 0 <= i < |st| ==> st[i] != AssumedMine
    ensures !Pending(p, st, nChecked)
  {
  }

  /** After _update_target the search covers exactly the safe branches that
      were pending before it. */
  lemma BacktrackRegion(st: seq<SlotState>, nChecked: nat, p: seq<SlotState>)
    requires SearchInv(st, nChecked) && HasAssumedFrom(st, nChecked) && |p| == |st|
    ensures InRegion(p, Backtrack(st, nChecked).0, Backtrack(st, nChecked).1) <==> Pending(p, st, nChecked)
  {
    BacktrackKeeps(st, nChecked, p);
    BacktrackAdds(st, nChecked, p);
  }

  /** What was pending before the backtrack is in the region after it. */
  lemma BacktrackKeeps(st: seq<SlotState>, nChecked: nat, p: seq<SlotState>)
    requires SearchInv(st, nChecked) && HasAssumedFrom(st, nChecked) && |p| == |st|
    ensures Pending(p, st, nChecked) ==> InRegion(p, Backtrack(st, nChecked).0, Backtrack(st, nChecked).1)
  {
    var first := FirstAssumed(st, nChecked);
    var last := LastAssumed(st, nChecked, |st|);
    var st' := Backtrack(st, nChecked).0;
    BacktrackShape(st, nChecked);
    if Pending(p, st, nChecked) {
      var a :| nChecked <= a < |st| && PendingAt(p, st, a);
      if a == last {
        if last + 1 < |st| && !MineLike(p[last + 1]) {
          assert PendingAt(p, st', last + 1);
        } else {
          assert InBranch(p, st');
        }
      } else {
        assert first <= a < last;
        assert PendingAt(p, st', a);
      }
    }
  }

  /** What is in the region after the backtrack was pending before it. */
  lemma BacktrackAdds(st: seq<SlotState>, nChecked: nat, p: seq<SlotState>)
    requires SearchInv(st, nChecked) && HasAssumedFrom(st, nChecked) && |p| == |st|
    ensures InRegion(p, Backtrack(st, nChecked).0, Backtrack(st, nChecked).1) ==> Pending(p, st, nChecked)
  {
    var last := LastAssumed(st, nChecked, |st|);
    var st', nc' := Backtrack(st, nChecked).0, Backtrack(st, nChecked).1;
    BacktrackShape(st, nChecked);
    if InBranch(p, st') {
      assert PendingAt(p, st, last);
    }
    if Pending(p, st', nc') {
      var a :| nc' <= a < |st'| && PendingAt(p, st', a);
      if a == last + 1 {
        assert PendingAt(p, st, last);
      } else {
        assert a < last;
        assert PendingAt(p, st, a);
      }
    }
  }

  /** After _update_target every decided slot lies before the first none slot. */
  lemma BacktrackTail(st: seq<SlotState>, nChecked: nat)
    requires SearchInv(st, nChecked) && HasAssumedFrom(st, nChecked)
    ensures var r := Backtrack(st, nChecked).0;
            forall i :: Frontier(r) <= i < |r| ==> r[i] == Undefined
  {
    var last := LastAssumed(st, nChecked, |st|);
    var r := Backtrack(st, nChecked).0;
    BacktrackShape(st, nChecked);
    assert forall i :: 0 <= i < last ==> r[i] != Undefined;
    assert Frontier(r) >= last + 1;
    if last + 1 < |r| {
      assert Frontier(r) >= last + 2;
    }
  }

  /** When every slot from the frontier on is none, agreeing before the
      frontier is being on the branch. */
  lemma TailBranch(p: seq<SlotState>, st: seq<SlotState>)
    requires |p| == |st| && forall i :: Frontier(st) <= i < |st| ==> st[i] == Undefined
    ensures Agrees(p, st, Frontier(st)) ==> InBranch(p, st)
  {
  }

  /** A state whose assumption is only the first slot: the mine half is the
      branch and the safe half is pending. */
  lemma StartRegion(st: seq<SlotState>, p: seq<SlotState>)
    requires |st| > 0 && st[0] == AssumedMine && forall i :: 1 <= i < |st| ==> st[i] == Undefined
    requires |p| == |st|
    ensures InRegion(p, st, 0)
    ensures forall i :: Frontier(st) <= i < |st| ==> st[i] == Undefined
  {
    if !MineLike(p[0]) {
      assert PendingAt(p, st, 0);
    }
  }

  /** Resolving none slots narrows what the search covers, keeps every
      pending branch, and keeps on the branch an assignment that agrees with
      each newly resolved slot. */
  lemma ResolveRegion(st: seq<SlotState>, st': seq<SlotState>, v: SlotState, nChecked: nat, p: seq<SlotState>)
    requires SearchInv(st, nChecked) && OnlyResolved(st, st', v) && (v == Safe || v == Mine) && |p| == |st|
    ensures InRegion(p, st', nChecked) ==> InRegion(p, st, nChecked)
    ensures Pending(p, st, nChecked) ==> Pending(p, st', nChecked)
    ensures InBranch(p, st) &&
            (forall i :: 0 <= i < |st| && st[i] == Undefined && st'[i] != Undefined ==> (MineLike(p[i]) <==> MineLike(v))) ==>
            InBranch(p, st')
  {
    if Pending(p, st', nChecked) {
      var a :| nChecked <= a < |st'| && PendingAt(p, st', a);
      assert PendingAt(p, st, a);
    }
    if Pending(p, st, nChecked) {
      var a :| nChecked <= a < |st| && PendingAt(p, st, a);
      assert PendingAt(p, st', a);
    }
  }

  /** Resolving none slots does not move the frontier back, and agreeing
      before the new frontier implies agreeing before the old one. */
  lemma ResolveFrontier(st: seq<SlotState>, st': seq<SlotState>, v: SlotState, p: seq<SlotState>)
    requires OnlyResolved(st, st', v)
    ensures Frontier(st) <= Frontier(st')
    ensures Agrees(p, st', Frontier(st')) ==> Agrees(p, st, Frontier(st))
  {
  }

  /** A new assumption on the first none slot splits the branch into its
      mine half, the new branch, and its safe half, newly pending. */
  lemma AssumeRegion(st: seq<SlotState>, nChecked: nat, u: nat, p: seq<SlotState>)
    requires SearchInv(st, nChecked) && FirstUndefined(st) == Some(u) && |p| == |st|
    ensures InRegion(p, st, nChecked) ==> InRegion(p, st[u := AssumedMine], nChecked)
    ensures InRegion(p, st[u := AssumedMine], nChecked) ==>
              InRegion(p, st, nChecked) || (Agrees(p, st, u) && !MineLike(p[u]))
    ensures Agrees(p, st[u := AssumedMine], Frontier(st[u := AssumedMine])) ==> Agrees(p, st, u) && MineLike(p[u])
    ensures InBranch(p, st) && MineLike(p[u]) ==> InBranch(p, st[u := AssumedMine])
  {
    var st' := st[u := AssumedMine];
    assert u >= nChecked;
    if InBranch(p, st) && !MineLike(p[u]) {
      assert PendingAt(p, st', u);
    }
    if Pending(p, st, nChecked) {
      var a :| nChecked <= a < |st| && PendingAt(p, st, a);
      assert a < u;
      assert PendingAt(p, st', a);
    }
    if Pending(p, st', nChecked) {
      var a :| nChecked <= a < |st'| && PendingAt(p, st', a);
      if a != u {
        assert a < u;
        assert PendingAt(p, st, a);
      }
    }
    assert Frontier(st') > u;
  }

  /** A state whose mine-like slots the assignment also calls mines counts
      no more mines over any slot list, and strictly fewer when it leaves
      out one of the assignment's mines. */
  lemma {:induction false} MinesBelow(st: seq<SlotState>, p: seq<SlotState>, slots: seq<nat>)
    requires |p| == |st| && SlotsIn(|st|, slots)
    requires forall k :: 0 <= k < |slots| ==> MineLike(st[slots[k]]) ==> MineLike(p[slots[k]])
    ensures MineLikeAt(st, slots) <= MineLikeAt(p, slots)
    ensures (exists k :: 0 <= k < |slots| && !MineLike(st[slots[k]]) && MineLike(p[slots[k]])) ==>
            MineLikeAt(st, slots) < MineLikeAt(p, slots)
  {
    if slots != [] {
      MinesBelow(st, p, slots[1..]);
      if exists k :: 0 <= k < |slots| && !MineLike(st[slots[k]]) && MineLike(p[slots[k]]) {
        var k :| 0 <= k < |slots| && !MineLike(st[slots[k]]) && MineLike(p[slots[k]]);
        if k > 0 {
          assert slots[1..][k - 1] == slots[k];
        }
      }
    }
  }

  /** A state that leaves every mine of the assignment not safe has at
      least as many non-safe slots over any slot list, and strictly more
      when one of them is not a mine of the assignment. */
  lemma {:induction false} NonSafeAbove(st: seq<SlotState>, p: seq<SlotState>, slots: seq<nat>)
    requires |p| == |st| && SlotsIn(|st|, slots)
    requires forall k :: 0 <= k < |slots| ==> MineLike(p[slots[k]]) ==> st[slots[k]] != Safe
    ensures MineLikeAt(p, slots) <= NonSafeAt(st, slots)
    ensures (exists k :: 0 <= k < |slots| && st[slots[k]] != Safe && !MineLike(p[slots[k]])) ==>
            MineLikeAt(p, slots) < NonSafeAt(st, slots)
  {
    if slots != [] {
      NonSafeAbove(st, p, slots[1..]);
      if exists k :: 0 <= k < |slots| && st[slots[k]] != Safe && !MineLike(p[slots[k]]) {
        var k :| 0 <= k < |slots| && st[slots[k]] != Safe && !MineLike(p[slots[k]]);
        if k > 0 {
          assert slots[1..][k - 1] == slots[k];
        }
      }
    }
  }

  /** Slot lists count the same mines for assignments that agree on which
      slots are mine-like. */
  lemma {:induction false} SameMineCount(st: seq<SlotState>, p: seq<SlotState>, slots: seq<nat>)
    requires |p| == |st| && SlotsIn(|st|, slots)
    requires forall i :: 0 <= i < |st| ==> (MineLike(p[i]) <==> MineLike(st[i]))
    ensures MineLikeAt(st, slots) == MineLikeAt(p, slots)
  {
    if slots != [] {
      SameMineCount(st, p, slots[1..]);
    }
  }

  /** With no assumption left, the last slot is safe. */
  predicate EndsSafe(st: seq<SlotState>)
  {
    (forall i :: 0 <= i < |st| ==> st[i] != AssumedMine) ==> |st| > 0 && st[|st| - 1] == Safe
  }

  /** _update_target leaves an assumption behind unless it turned the last
      slot safe. */
  lemma BacktrackEndsSafe(st: seq<SlotState>, nChecked: nat)
    requires HasAssumedFrom(st, nChecked)
    ensures EndsSafe(Backtrack(st, nChecked).0)
  {
    BacktrackShape(st, nChecked);
  }

  /** One clue seen through a slot list: if an assignment on the branch of st
      meets it exactly (with f mines outside the slots), st does not
      contradict it, and each none slot of the list that a pass would
      resolve is resolved the way the assignment has it. */
  lemma SlotsSound(st: seq<SlotState>, p: seq<SlotState>, ts: seq<nat>, f: nat, clue: int)
    requires SlotsIn(|st|, ts) && InBranch(p, st)
    requires f + MineLikeAt(p, ts) == clue
    ensures f + NonSafeAt(st, ts) >= clue && f + MineLikeAt(st, ts) <= clue
    ensures forall i :: 0 <= i < |st| && st[i] == Undefined && i in ts ==>
              (f + NonSafeAt(st, ts) == clue ==> MineLike(p[i])) &&
              (f + MineLikeAt(st, ts) == clue ==> !MineLike(p[i]))
  {
    MinesBelow(st, p, ts);
    NonSafeAbove(st, p, ts);
    forall i | 0 <= i < |st| && st[i] == Undefined && i in ts
      ensures f + NonSafeAt(st, ts) == clue ==> MineLike(p[i])
      ensures f + MineLikeAt(st, ts) == clue ==> !MineLike(p[i])
    {
      var j :| 0 <= j < |ts| && ts[j] == i;
      if MineLike(p[i]) {
        assert !MineLike(st[ts[j]]) && MineLike(p[ts[j]]);
      } else {
        assert st[ts[j]] != Safe && !MineLike(p[ts[j]]);
      }
    }
  }
}
