/** The Minesweeper field of the Python player: ground truth, the revealed
    cell states, opening cells with the breadth-first zero flood fill, and
    the game-over / game-clear bookkeeping. */
module Board {
  import opened Constants
  import opened Grid

  /** Ground-truth value of a mine. */
  const MINE: int := -2

  const OVER_BANNER: string := "*******************\n***  game over  ***\n*******************\n"
  const CLEAR_BANNER: string := "*******************\n*** game clear! ***\n*******************\n"

  /** Number of closed cells in a cell-state sequence. */
  function CountClosed(s: seq<int>): (r: nat)
    ensures r <= |s|
  {
    if s == [] then 0 else (if s[0] == CLOSED then 1 else 0) + CountClosed(s[1..])
  }

  /** Opening one closed cell lowers the closed count by exactly one. */
  lemma {:induction false} CountClosedOpen(s: seq<int>, i: nat, v: int)
    requires i < |s| && s[i] == CLOSED && v != CLOSED
    ensures CountClosed(s[i := v]) == CountClosed(s) - 1
  {
    if i > 0 {
      assert s[i := v][1..] == s[1..][i - 1 := v];
      CountClosedOpen(s[1..], i - 1, v);
    } else {
      assert s[i := v][1..] == s[1..];
    }
  }

  /** Board dimensions, mine count per difficulty (easy, medium, hard). */
  function Width(difficulty: nat): nat requires difficulty < 3 { [9, 16, 30][difficulty] }
  function Height(difficulty: nat): nat requires difficulty < 3 { [9, 16, 16][difficulty] }
  function Mines(difficulty: nat): nat requires difficulty < 3 { [10, 40, 100][difficulty] }

  /** Each difficulty's field is at least 9 x 9 and holds fewer mines than
      cells, so the mines fit with room for a first opening. */
  lemma DifficultyFits(difficulty: nat)
    requires difficulty < 3
    ensures Width(difficulty) >= 9 && Height(difficulty) >= 9
    ensures 0 < Mines(difficulty) < Width(difficulty) * Height(difficulty)
  {
  }

  class MineSweeper {
    const height: nat
    const width: nat
    const nMines: nat
    /** Ground truth per cell: MINE, or the number of mines around it. */
    const field: seq<int>
    const neighbors: seq<seq<nat>>
    /** CLOSED, or the revealed ground truth. */
    const cellState: array<int>
    var over: bool
    var clear: bool
    var terminated: bool

    ghost predicate Valid()
      reads this, cellState
    {
      |field| == height * width == cellState.Length &&
      neighbors == NeighborTable(height, width) &&
      (forall i :: 0 <= i < |field| ==> field[i] != CLOSED) &&
      (forall i, k :: 0 <= i < |neighbors| && 0 <= k < |neighbors[i]| ==> neighbors[i][k] < |field|) &&
      forall i :: 0 <= i < cellState.Length ==> cellState[i] == CLOSED || cellState[i] == field[i]
    }

    /** Every neighbour of cell z shows its ground truth. */
    ghost predicate AllRevealed(z: nat)
      reads this, cellState
      requires Valid() && z < |neighbors|
    {
      forall k :: 0 <= k < |neighbors[z]| ==> cellState[neighbors[z][k]] == field[neighbors[z][k]]
    }

    /** The given cells whose ground truth is 0: where a flood fill starts. */
    ghost function ZeroSet(indices: seq<nat>): set<nat>
    {
      set z | z in indices && z < |field| && field[z] == 0
    }

    /** Some cell listed in `visited` has z among its neighbours. */
    ghost predicate Touched(visited: seq<nat>, z: nat)
    {
      exists k :: 0 <= k < |visited| && visited[k] < |neighbors| && z in neighbors[visited[k]]
    }

    /** Every cell dequeued in `visited` is a start, or was closed in
        `before`, is a zero, and neighbours a cell dequeued earlier. */
    ghost predicate OrderFrom(starts: set<nat>, before: seq<int>, visited: seq<nat>)
    {
      forall j :: 0 <= j < |visited| ==> (visited[j] in starts ||
        (visited[j] < |before| && visited[j] < |field| && before[visited[j]] == CLOSED && field[visited[j]] == 0 &&
         Touched(visited[..j], visited[j])))
    }

    /** `visited` is a dequeue order of the flood fill from `starts` over the
        cell states `before`: every start is dequeued, and every other
        dequeued cell was reached from an earlier one. */
    ghost predicate FloodOrder(starts: set<nat>, before: seq<int>, visited: seq<nat>)
    {
      (forall z :: z in starts ==> z in visited) && OrderFrom(starts, before, visited)
    }

    /** A flood order over states with fewer closed cells is one over states
        with more. */
    lemma FloodOrderWider(starts: set<nat>, b1: seq<int>, b2: seq<int>, visited: seq<nat>)
      requires |b1| == |b2| && forall z :: 0 <= z < |b1| && b1[z] == CLOSED ==> b2[z] == CLOSED
      requires FloodOrder(starts, b1, visited)
      ensures FloodOrder(starts, b2, visited)
    {
    }

    /** A fresh game of the given difficulty whose mines are already laid out
        as `truth` (the random placement is not modelled); every cell is closed. */
    constructor (difficulty: nat, truth: seq<int>)
      requires difficulty < 3
      requires |truth| == Height(difficulty) * Width(difficulty)
      requires forall i :: 0 <= i < |truth| ==> truth[i] != CLOSED
      ensures Valid() && fresh(cellState)
      ensures height == Height(difficulty) && width == Width(difficulty) && nMines == Mines(difficulty)
      ensures field == truth
      ensures forall i :: 0 <= i < cellState.Length ==> cellState[i] == CLOSED
      ensures !over && !clear && !terminated
    {
      height, width, nMines := Height(difficulty), Width(difficulty), Mines(difficulty);
      field := truth;
      neighbors := NeighborTable(Height(difficulty), Width(difficulty));
      cellState := new int[|truth|](_ => CLOSED);
      over, clear, terminated := false, false, false;
      new;
      forall i, k | 0 <= i < |neighbors| && 0 <= k < |neighbors[i]|
        ensures neighbors[i][k] < |field|
      {
        NeighborIndicesInRange(height, width, i, k);
      }
    }

    /** Opens one cell. */
    method Open(idx: nat) returns (ghost visited: seq<nat>)
      requires Valid() && idx < cellState.Length
      modifies this, cellState
      ensures Valid()
      ensures cellState[idx] == field[idx]
      ensures FloodOrder(ZeroSet([idx]), old(cellState[..]), visited)
      ensures forall j :: 0 <= j < |visited| ==> visited[j] < cellState.Length && AllRevealed(visited[j])
      ensures forall i :: 0 <= i < cellState.Length && cellState[i] != old(cellState[i]) ==>
                i == idx || (old(cellState[i]) == CLOSED && Touched(visited, i))
      ensures over == (old(over) || field[idx] == MINE)
      ensures clear == (old(clear) || (CountClosed(cellState[..]) == nMines && !over))
      ensures terminated == (old(terminated) || over || clear)
    {
      visited := OpenMultiple([idx]);
      assert [idx][0] == idx;
    }

    /** Reveals the ground truth of every given cell, sets `over` when one of
        them is a mine, floods outwards from the revealed zero cells, and sets
        `clear` when exactly nMines cells remain closed and the game is not over. */
    method OpenMultiple(indices: seq<nat>) returns (ghost visited: seq<nat>)
      requires Valid()
      requires forall j :: 0 <= j < |indices| ==> indices[j] < cellState.Length
      modifies this, cellState
      ensures Valid()
      ensures forall j :: 0 <= j < |indices| ==> cellState[indices[j]] == field[indices[j]]
      ensures forall z :: 0 <= z < cellState.Length && cellState[z] == 0 && (z in indices || old(cellState[z]) == CLOSED) ==> AllRevealed(z)
      ensures FloodOrder(ZeroSet(indices), old(cellState[..]), visited)
      ensures forall j :: 0 <= j < |visited| ==> visited[j] < cellState.Length && AllRevealed(visited[j])
      ensures forall i :: 0 <= i < cellState.Length && cellState[i] != old(cellState[i]) ==>
                i in indices || (old(cellState[i]) == CLOSED && Touched(visited, i))
      ensures over == (old(over) || exists j :: 0 <= j < |indices| && field[indices[j]] == MINE)
      ensures clear == (old(clear) || (CountClosed(cellState[..]) == nMines && !over))
      ensures terminated == (old(terminated) || over || clear)
    {
      ghost var before := cellState[..];
      RevealCells(indices);
      if exists j :: 0 <= j < |indices| && cellState[indices[j]] == MINE {
        over := true;
      }
      var zeros := ZeroCells(indices);
      ghost var revealed := cellState[..];
      assert (set z | z in zeros) == ZeroSet(indices);
      visited := OpenAroundZero(zeros);
      FloodOrderWider(ZeroSet(indices), revealed, before, visited);
      forall z | 0 <= z < cellState.Length && cellState[z] == 0 && (z in indices || before[z] == CLOSED)
        ensures AllRevealed(z)
      {
        if revealed[z] != CLOSED {
          assert z in zeros;
        }
      }
      var nClose := CountClosedOf();
      if nClose == nMines && !over {
        clear := true;
      }
      if !terminated {
        var _ := JudgeStatement();
      }
    }

    /** Copies the ground truth into the cell state at the given indices. */
    method RevealCells(indices: seq<nat>)
      requires Valid()
      requires forall j :: 0 <= j < |indices| ==> indices[j] < cellState.Length
      modifies cellState
      ensures Valid()
      ensures forall j :: 0 <= j < |indices| ==> cellState[indices[j]] == field[indices[j]]
      ensures forall i :: 0 <= i < cellState.Length && cellState[i] != old(cellState[i]) ==> i in indices
    {
      for j := 0 to |indices|
        invariant Valid()
        invariant forall j' :: 0 <= j' < j ==> cellState[indices[j']] == field[indices[j']]
        invariant forall i :: 0 <= i < cellState.Length && cellState[i] != old(cellState[i]) ==> i in indices[..j]
      {
        cellState[indices[j]] := field[indices[j]];
      }
    }

    /** The given indices, in order, whose cell shows 0. */
    method ZeroCells(indices: seq<nat>) returns (zeros: seq<nat>)
      requires forall j :: 0 <= j < |indices| ==> indices[j] < cellState.Length
      ensures forall j :: 0 <= j < |zeros| ==> zeros[j] < cellState.Length && cellState[zeros[j]] == 0
      ensures forall z :: z in zeros <==> z in indices && cellState[z] == 0
    {
      zeros := [];
      for j := 0 to |indices|
        invariant forall j' :: 0 <= j' < |zeros| ==> zeros[j'] < cellState.Length && cellState[zeros[j']] == 0
        invariant forall z :: z in zeros <==> z in indices[..j] && cellState[z] == 0
      {
        assert indices[..j + 1] == indices[..j] + [indices[j]];
        if cellState[indices[j]] == 0 {
          zeros := zeros + [indices[j]];
        }
      }
      assert indices[..|indices|] == indices;
    }

    /** The number of closed cells, counted by a scan. */
    method CountClosedOf() returns (n: nat)
      requires Valid()
      ensures n == CountClosed(cellState[..])
    {
      n := 0;
      var i := cellState.Length;
      while i > 0
        invariant 0 <= i <= cellState.Length
        invariant n == CountClosed(cellState[i..])
      {
        i := i - 1;
        assert cellState[i..][1..] == cellState[i + 1..];
        if cellState[i] == CLOSED {
          n := n + 1;
        }
      }
    }

    /** Breadth-first flood fill: each dequeued zero cell reveals all its
        neighbours, and the neighbours that were closed and turn out to be
        zero are enqueued in turn. */
    method OpenAroundZero(q0: seq<nat>) returns (ghost visited: seq<nat>)
      requires Valid()
      requires forall j :: 0 <= j < |q0| ==> q0[j] < cellState.Length && cellState[q0[j]] == 0
      modifies cellState
      ensures Valid()
      ensures forall j :: 0 <= j < |q0| ==> AllRevealed(q0[j])
      ensures forall z :: 0 <= z < cellState.Length && old(cellState[z]) == CLOSED && cellState[z] == 0 ==> AllRevealed(z)
      ensures FloodOrder(set z | z in q0, old(cellState[..]), visited)
      ensures forall j :: 0 <= j < |visited| ==> visited[j] < cellState.Length && AllRevealed(visited[j])
      ensures forall i :: 0 <= i < cellState.Length && cellState[i] != old(cellState[i]) ==>
                old(cellState[i]) == CLOSED && Touched(visited, i)
    {
      ghost var before := cellState[..];
      ghost var starts := set z | z in q0;
      var q: seq<nat> := q0;
      visited := [];
      RevealedNow();
      while |q| > 0
        invariant Valid() && |before| == cellState.Length
        invariant FloodState(starts, before, cellState[..], q, visited)
        decreases CountClosed(cellState[..]), |q|
      {
        q, visited := FloodStep(starts, before, q, visited);
      }
      RevealedNow();
      forall j | 0 <= j < |q0|
        ensures AllRevealed(q0[j])
      {
        assert q0[j] in starts;
        var k :| 0 <= k < |visited| && visited[k] == q0[j];
      }
    }

    /** The neighbour table points into the field. */
    ghost predicate Wired()
    {
      |neighbors| == |field| &&
      forall i, k :: 0 <= i < |neighbors| && 0 <= k < |neighbors[i]| ==> neighbors[i][k] < |field|
    }

    /** Each cell of s is closed or shows its ground truth, which is never CLOSED. */
    ghost predicate Truthful(s: seq<int>)
    {
      |s| == |field| &&
      (forall i :: 0 <= i < |field| ==> field[i] != CLOSED) &&
      forall i :: 0 <= i < |s| ==> s[i] == CLOSED || s[i] == field[i]
    }

    /** The neighbours of z show their truth in s. */
    ghost predicate RevealedIn(s: seq<int>, z: nat)
      requires Wired() && |s| == |field| && z < |field|
    {
      forall k :: 0 <= k < |neighbors[z]| ==> s[neighbors[z][k]] == field[neighbors[z][k]]
    }

    /** AllRevealed is RevealedIn on the current cell states. */
    lemma RevealedNow()
      requires Valid()
      ensures Wired() && Truthful(cellState[..])
      ensures forall z :: 0 <= z < cellState.Length ==> (AllRevealed(z) <==> RevealedIn(cellState[..], z))
    {
    }

    /** The state of the flood fill between two dequeues, over the cell
        states `cur`: the queue holds zeros, each a start or reached from a
        dequeued cell; each start is queued or dequeued; every dequeued cell
        has its neighbours revealed; a zero revealed by the fill is queued or
        has its neighbours revealed; and only closed cells next to a dequeued
        one have changed since `before`. */
    ghost predicate FloodState(starts: set<nat>, before: seq<int>, cur: seq<int>, q: seq<nat>, visited: seq<nat>)
      requires Wired() && |before| == |field| && |cur| == |field|
    {
      (forall j :: 0 <= j < |q| ==> q[j] < |cur| && cur[q[j]] == 0) &&
      (forall j :: 0 <= j < |q| ==> (q[j] in starts || (before[q[j]] == CLOSED && field[q[j]] == 0 && Touched(visited, q[j])))) &&
      (forall z :: z in starts ==> z in q || z in visited) &&
      OrderFrom(starts, before, visited) &&
      (forall j :: 0 <= j < |visited| ==> visited[j] < |cur| && RevealedIn(cur, visited[j])) &&
      (forall z :: 0 <= z < |cur| && before[z] == CLOSED && cur[z] == 0 ==> z in q || RevealedIn(cur, z)) &&
      (forall i :: 0 <= i < |cur| && cur[i] != before[i] ==> before[i] == CLOSED && Touched(visited, i))
    }

    /** What one call of RevealAround(idx) did to the cell states mid,
        leaving cur and returning added. */
    ghost predicate RevealStep(mid: seq<int>, cur: seq<int>, idx: nat, added: seq<nat>)
      requires Wired() && |mid| == |field| && |cur| == |field| && idx < |field|
    {
      RevealedIn(cur, idx) &&
      (forall j :: 0 <= j < |added| ==> added[j] < |cur| && mid[added[j]] == CLOSED && cur[added[j]] == 0) &&
      (forall z :: 0 <= z < |cur| && mid[z] == CLOSED && cur[z] == 0 ==> z in added) &&
      (forall z :: 0 <= z < |cur| && cur[z] != mid[z] ==> mid[z] == CLOSED && z in neighbors[idx])
    }

    /** One iteration of the flood fill: dequeue, reveal around, enqueue the
        new zeros. */
    method FloodStep(ghost starts: set<nat>, ghost before: seq<int>, q: seq<nat>, ghost visited: seq<nat>)
      returns (q': seq<nat>, ghost visited': seq<nat>)
      requires Valid() && |before| == cellState.Length && |q| > 0
      requires FloodState(starts, before, cellState[..], q, visited)
      modifies cellState
      ensures Valid() && FloodState(starts, before, cellState[..], q', visited')
      ensures visited' == visited + [q[0]]
      ensures CountClosed(cellState[..]) < old(CountClosed(cellState[..])) ||
              (CountClosed(cellState[..]) == old(CountClosed(cellState[..])) && |q'| < |q|)
    {
      var idx: nat := q[0];
      ghost var mid := cellState[..];
      RevealedNow();
      var added := RevealAround(idx);
      RevealedNow();
      assert RevealStep(mid, cellState[..], idx, added);
      StepKeepsQueue(starts, before, mid, cellState[..], q, visited, added);
      StepKeepsOrder(starts, before, mid, cellState[..], q, visited, added);
      StepKeepsRevealed(starts, before, mid, cellState[..], q, visited, added);
      visited' := visited + [idx];
      q' := q[1..] + added;
    }

    /** The queue part of FloodState survives a step. */
    lemma StepKeepsQueue(starts: set<nat>, before: seq<int>, mid: seq<int>, cur: seq<int>, q: seq<nat>, visited: seq<nat>, added: seq<nat>)
      requires Wired() && |before| == |field| && Truthful(mid) && Truthful(cur) && |q| > 0 && q[0] < |field|
      requires FloodState(starts, before, mid, q, visited) && RevealStep(mid, cur, q[0], added)
      ensures forall j :: 0 <= j < |q[1..] + added| ==> (q[1..] + added)[j] < |cur| && cur[(q[1..] + added)[j]] == 0
      ensures forall j :: 0 <= j < |q[1..] + added| ==> ((q[1..] + added)[j] in starts ||
                (before[(q[1..] + added)[j]] == CLOSED && field[(q[1..] + added)[j]] == 0 && Touched(visited + [q[0]], (q[1..] + added)[j])))
      ensures forall z :: z in starts ==> z in q[1..] + added || z in visited + [q[0]]
    {
      TouchedMore(visited, q[0]);
      var q' := q[1..] + added;
      forall j | 0 <= j < |q'|
        ensures q'[j] < |cur| && cur[q'[j]] == 0
        ensures q'[j] in starts || (before[q'[j]] == CLOSED && field[q'[j]] == 0 && Touched(visited + [q[0]], q'[j]))
      {
        if j < |q| - 1 {
          assert q'[j] == q[j + 1];
        } else {
          var z := added[j - (|q| - 1)];
          assert q'[j] == z;
          assert mid[z] != cur[z];
        }
      }
      forall z | z in starts
        ensures z in q' || z in visited + [q[0]]
      {
        if z in q && z != q[0] {
          var j :| 0 <= j < |q| && q[j] == z;
          assert q'[j - 1] == z;
        }
      }
    }

    /** The dequeue order part of FloodState survives a step. */
    lemma StepKeepsOrder(starts: set<nat>, before: seq<int>, mid: seq<int>, cur: seq<int>, q: seq<nat>, visited: seq<nat>, added: seq<nat>)
      requires Wired() && |before| == |field| && Truthful(mid) && Truthful(cur) && |q| > 0 && q[0] < |field|
      requires FloodState(starts, before, mid, q, visited) && RevealStep(mid, cur, q[0], added)
      ensures OrderFrom(starts, before, visited + [q[0]])
      ensures forall i :: 0 <= i < |cur| && cur[i] != before[i] ==> before[i] == CLOSED && Touched(visited + [q[0]], i)
    {
      TouchedMore(visited, q[0]);
      var v' := visited + [q[0]];
      forall j | 0 <= j < |v'|
        ensures v'[..j] == if j < |visited| then visited[..j] else visited
      {
      }
      forall i | 0 <= i < |cur| && cur[i] != before[i]
        ensures before[i] == CLOSED && Touched(v', i)
      {
        if cur[i] != mid[i] {
          assert mid[i] == CLOSED;
        }
      }
    }

    /** The revealed part of FloodState survives a step. */
    lemma StepKeepsRevealed(starts: set<nat>, before: seq<int>, mid: seq<int>, cur: seq<int>, q: seq<nat>, visited: seq<nat>, added: seq<nat>)
      requires Wired() && |before| == |field| && Truthful(mid) && Truthful(cur) && |q| > 0 && q[0] < |field|
      requires FloodState(starts, before, mid, q, visited) && RevealStep(mid, cur, q[0], added)
      ensures forall j :: 0 <= j < |visited + [q[0]]| ==> (visited + [q[0]])[j] < |cur| && RevealedIn(cur, (visited + [q[0]])[j])
      ensures forall z :: 0 <= z < |cur| && before[z] == CLOSED && cur[z] == 0 ==> z in q[1..] + added || RevealedIn(cur, z)
    {
      forall z | 0 <= z < |field| && RevealedIn(mid, z)
        ensures RevealedIn(cur, z)
      {
        forall k | 0 <= k < |neighbors[z]|
          ensures cur[neighbors[z][k]] == field[neighbors[z][k]]
        {
          var n := neighbors[z][k];
          assert mid[n] == field[n] && mid[n] != CLOSED;
        }
      }
      forall z | 0 <= z < |cur| && before[z] == CLOSED && cur[z] == 0
        ensures z in q[1..] + added || RevealedIn(cur, z)
      {
        if mid[z] == CLOSED {
          assert z in added;
        } else {
          assert cur[z] == mid[z];
          if z in q && z != q[0] {
            var j :| 0 <= j < |q| && q[j] == z;
            assert (q[1..] + added)[j - 1] == z;
          }
        }
      }
    }

    /** Touched grows with the visit list. */
    lemma TouchedMore(visited: seq<nat>, idx: nat)
      ensures forall z :: Touched(visited, z) ==> Touched(visited + [idx], z)
      ensures forall z :: idx < |neighbors| && z in neighbors[idx] ==> Touched(visited + [idx], z)
    {
      forall z | Touched(visited, z)
        ensures Touched(visited + [idx], z)
      {
        var k :| 0 <= k < |visited| && visited[k] < |neighbors| && z in neighbors[visited[k]];
        assert (visited + [idx])[k] == visited[k];
      }
      forall z | idx < |neighbors| && z in neighbors[idx]
        ensures Touched(visited + [idx], z)
      {
        assert (visited + [idx])[|visited|] == idx;
      }
    }

    /** One step of the flood fill: reveals every neighbour of the zero cell
        idx and returns, in neighbour order, those that were closed and are zero. */
    method RevealAround(idx: nat) returns (added: seq<nat>)
      requires Valid() && idx < cellState.Length && cellState[idx] == 0
      modifies cellState
      ensures Valid() && AllRevealed(idx)
      ensures forall j :: 0 <= j < |added| ==> added[j] < cellState.Length && old(cellState[added[j]]) == CLOSED && cellState[added[j]] == 0
      ensures forall z :: 0 <= z < cellState.Length && old(cellState[z]) == CLOSED && cellState[z] == 0 ==> z in added
      ensures forall z :: 0 <= z < cellState.Length && cellState[z] != old(cellState[z]) ==> old(cellState[z]) == CLOSED && z in neighbors[idx]
      ensures forall z :: 0 <= z < cellState.Length && old(cellState[z]) != CLOSED ==> cellState[z] == old(cellState[z])
      ensures CountClosed(cellState[..]) + |added| <= CountClosed(old(cellState[..]))
    {
      var nb: seq<nat> := neighbors[idx];
      added := [];
      for k := 0 to |nb|
        invariant Valid()
        invariant cellState[idx] == 0
        invariant forall k' :: 0 <= k' < k ==> cellState[nb[k']] == field[nb[k']]
        invariant forall j :: 0 <= j < |added| ==> added[j] < cellState.Length && old(cellState[added[j]]) == CLOSED && cellState[added[j]] == 0
        invariant forall z :: 0 <= z < cellState.Length && old(cellState[z]) == CLOSED && cellState[z] == 0 ==> z in added
        invariant forall z :: 0 <= z < cellState.Length && cellState[z] != old(cellState[z]) ==> old(cellState[z]) == CLOSED && z in nb
        invariant forall z :: 0 <= z < cellState.Length && old(cellState[z]) != CLOSED ==> cellState[z] == old(cellState[z])
        invariant CountClosed(cellState[..]) + |added| <= CountClosed(old(cellState[..]))
      {
        var n: nat := nb[k];
        var wasClosed := cellState[n] == CLOSED;
        if wasClosed {
          CountClosedOpen(cellState[..], n, field[n]);
        } else {
          assert cellState[..][n := field[n]] == cellState[..];
        }
        cellState[n] := field[n];
        if wasClosed && cellState[n] == 0 {
          added := added + [n];
        }
      }
    }

    /** The end-of-game banner: empty while the game goes on; game over takes
        precedence over game clear; either ends the game. */
    method JudgeStatement() returns (s: string)
      modifies this`terminated
      ensures s == "" <==> !over && !clear
      ensures over ==> s == OVER_BANNER
      ensures !over && clear ==> s == CLEAR_BANNER
      ensures terminated == (old(terminated) || over || clear)
    {
      s := "";
      if over {
        terminated := true;
        s := OVER_BANNER;
      } else if clear {
        terminated := true;
        s := CLEAR_BANNER;
      }
    }
  }
}
