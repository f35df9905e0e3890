/** The grid-level pieces of the native solver (cpp/solver.cpp): the binomial
    table, the neighbour lists, the neighbour counts, the pre-deduction of
    certain bombs and safe cells, and the collection of target cells. The
    board is a rectangular grid of clues, -1 for a closed cell. */
module SolverGrid {
  import opened Binomial
  import Grid

  /** compute_combination(n): an n x n table whose row i holds C(i, j) for
      j <= i, by the recurrence [i][j] = [i][j - 1] * (i + 1 - j) / j,
      and 0 beyond the diagonal. */
  method ComputeCombination(n: nat) returns (memo: array2<nat>)
    ensures fresh(memo) && memo.Length0 == n && memo.Length1 == n
    ensures forall i, j :: 0 <= i < n && 0 <= j < n ==> memo[i, j] == Choose(i, j)
  {
    memo := new nat[n, n]((_, _) => 0);
    for i := 0 to n
      invariant forall r, c :: 0 <= r < i && 0 <= c < n ==> memo[r, c] == Choose(r, c)
      invariant forall r, c :: i <= r < n && 0 <= c < n ==> memo[r, c] == 0
    {
      FillRow(memo, i);
    }
  }

  /** The body of compute_combination's outer loop: row i, from a row of zeros. */
  method FillRow(memo: array2<nat>, i: nat)
    requires i < memo.Length0 == memo.Length1
    requires forall c :: 0 <= c < memo.Length1 ==> memo[i, c] == 0
    modifies memo
    ensures forall c :: 0 <= c < memo.Length1 ==> memo[i, c] == Choose(i, c)
    ensures forall r, c :: 0 <= r < memo.Length0 && r != i && 0 <= c < memo.Length1 ==> memo[r, c] == old(memo[r, c])
  {
    memo[i, 0] := 1;
    for j := 1 to i + 1
      invariant forall c :: 0 <= c < j ==> memo[i, c] == Choose(i, c)
      invariant forall c :: j <= c < memo.Length1 ==> memo[i, c] == 0
      invariant forall r, c :: 0 <= r < memo.Length0 && r != i && 0 <= c < memo.Length1 ==> memo[r, c] == old(memo[r, c])
    {
      memo[i, j] := NextEntry(memo[i, j - 1], i, j);
    }
  }

  /** One step of the row recurrence: from C(i, j - 1) to C(i, j), exactly. */
  function NextEntry(prev: nat, i: nat, j: nat): (r: nat)
    requires 1 <= j <= i && prev == Choose(i, j - 1)
    ensures r == Choose(i, j)
  {
    RowStepExact(i, j);
    prev * (i + 1 - j) / j
  }

  // ---------------------------------------------------------------------
  // The neighbour lists

  lemma {:induction false} AroundSplit(h: nat, w: nat, y: int, x: int, a: seq<(int, int)>, b: seq<(int, int)>)
    ensures Grid.Around(h, w, y, x, a + b) == Grid.Around(h, w, y, x, a) + Grid.Around(h, w, y, x, b)
  {
    if a != [] {
      assert (a + b)[0] == a[0];
      assert (a + b)[1..] == a[1..] + b;
      AroundSplit(h, w, y, x, a[1..], b);
      var d := a[0];
      var head := if !Grid.OutOfField(h, w, y + d.0, x + d.1) && d != (0, 0) then [(y + d.0, x + d.1)] else [];
      assert Grid.Around(h, w, y, x, a) == head + Grid.Around(h, w, y, x, a[1..]);
      assert Grid.Around(h, w, y, x, a + b) == head + Grid.Around(h, w, y, x, a[1..] + b);
    } else {
      assert a + b == b;
    }
  }

  /** The k-th of the nine offsets visited by the nested dy / dx loops. */
  function Offset(k: nat): (int, int)
  {
    (k / 3 - 1, k % 3 - 1)
  }

  /** The cells the nested dy / dx loops have collected after k of the
      nine offsets: in-field cells other than the centre, in visiting order. */
  function Walk(height: nat, width: nat, y: int, x: int, k: nat): seq<(int, int)>
  {
    if k == 0 then []
    else
      var d := Offset(k - 1);
      Walk(height, width, y, x, k - 1) +
      (if !Grid.OutOfField(height, width, y + d.0, x + d.1) && d != (0, 0) then [(y + d.0, x + d.1)] else [])
  }

  /** The walk over the back offsets k..9 as a neighbour list over those offsets. */
  lemma {:induction false} WalkIsAround(height: nat, width: nat, y: int, x: int, k: nat, ds: seq<(int, int)>)
    requires k <= 9 && |ds| == k && forall j :: 0 <= j < k ==> ds[j] == Offset(j)
    ensures Walk(height, width, y, x, k) == Grid.Around(height, width, y, x, ds)
  {
    if k > 0 {
      assert ds == ds[..k - 1] + [ds[k - 1]];
      WalkIsAround(height, width, y, x, k - 1, ds[..k - 1]);
      AroundSplit(height, width, y, x, ds[..k - 1], [ds[k - 1]]);
    }
  }

  /** The full walk is the neighbour list: the centre offset contributes nothing. */
  lemma WalkGivesNeighbors(height: nat, width: nat, y: int, x: int)
    ensures Walk(height, width, y, x, 9) == Grid.NeighborLocs(height, width, y, x)
  {
    var nine := [(-1, -1), (-1, 0), (-1, 1), (0, -1), (0, 0), (0, 1), (1, -1), (1, 0), (1, 1)];
    WalkIsAround(height, width, y, x, 9, nine);
    var dirs := [(-1, -1), (-1, 0), (-1, 1), (0, -1), (0, 1), (1, -1), (1, 0), (1, 1)];
    assert nine == dirs[..4] + [(0, 0)] + dirs[4..];
    assert dirs == dirs[..4] + dirs[4..];
    AroundSplit(height, width, y, x, dirs[..4] + [(0, 0)], dirs[4..]);
    AroundSplit(height, width, y, x, dirs[..4], [(0, 0)]);
    AroundSplit(height, width, y, x, dirs[..4], dirs[4..]);
  }

  /** Visiting offset (dy, dx) appends the cell it reaches when that cell
      is in the field and is not the centre. */
  lemma WalkStep(height: nat, width: nat, y: int, x: int, dy: int, dx: int)
    requires -1 <= dy <= 1 && -1 <= dx <= 1
    ensures Walk(height, width, y, x, 3 * (dy + 1) + (dx + 1) + 1) ==
            Walk(height, width, y, x, 3 * (dy + 1) + (dx + 1)) +
            (if !Grid.OutOfField(height, width, y + dy, x + dx) && (dy, dx) != (0, 0) then [(y + dy, x + dx)] else [])
  {
    assert Offset(3 * (dy + 1) + (dx + 1)) == (dy, dx);
  }

  /** A row of offsets outside the field adds nothing. */
  lemma WalkSkipsRow(height: nat, width: nat, y: int, x: int, dy: int)
    requires -1 <= dy <= 1 && (y + dy < 0 || y + dy >= height)
    ensures Walk(height, width, y, x, 3 * (dy + 1) + 3) == Walk(height, width, y, x, 3 * (dy + 1))
  {
    WalkStep(height, width, y, x, dy, -1);
    WalkStep(height, width, y, x, dy, 0);
    WalkStep(height, width, y, x, dy, 1);
  }

  /** The neighbour list of one cell (the body of get_neighbor_list's two inner loops). */
  method CellNeighbors(height: nat, width: nat, h: nat, w: nat) returns (ns: seq<(int, int)>)
    ensures ns == Grid.NeighborLocs(height, width, h, w)
  {
    ns := [];
    for dy := -1 to 2
      invariant ns == Walk(height, width, h, w, 3 * (dy + 1))
    {
      var ny := h + dy;
      if ny < 0 || ny >= height {
        WalkSkipsRow(height, width, h, w, dy);
      } else {
        ns := RowNeighbors(height, width, h, w, dy, ns);
      }
    }
    WalkGivesNeighbors(height, width, h, w);
  }

  /** The dx loop of get_neighbor_list for one in-field row dy. */
  method RowNeighbors(height: nat, width: nat, h: nat, w: nat, dy: int, ns0: seq<(int, int)>) returns (ns: seq<(int, int)>)
    requires -1 <= dy <= 1 && 0 <= h + dy < height
    requires ns0 == Walk(height, width, h, w, 3 * (dy + 1))
    ensures ns == Walk(height, width, h, w, 3 * (dy + 1) + 3)
  {
    ns := ns0;
    var ny := h + dy;
    for dx := -1 to 2
      invariant ns == Walk(height, width, h, w, 3 * (dy + 1) + (dx + 1))
    {
      var nx := w + dx;
      WalkStep(height, width, h, w, dy, dx);
      if !(nx < 0 || nx >= width || (ny == h && nx == w)) {
        ns := ns + [(ny, nx)];
      }
    }
  }

  predicate InField(height: nat, width: nat, p: (int, int))
  {
    0 <= p.0 < height && 0 <= p.1 < width
  }

  predicate AllIn(height: nat, width: nat, ns: seq<(int, int)>)
  {
    forall k :: 0 <= k < |ns| ==> InField(height, width, ns[k])
  }

  /** The table of neighbour lists, one per cell, each inside the field. */
  predicate IsNeighborTable(nl: seq<seq<seq<(int, int)>>>, height: nat, width: nat)
  {
    |nl| == height &&
    forall h :: 0 <= h < height ==>
      |nl[h]| == width &&
      forall w :: 0 <= w < width ==> nl[h][w] == Grid.NeighborLocs(height, width, h, w) && AllIn(height, width, nl[h][w])
  }

  lemma NeighborsInField(height: nat, width: nat, y: int, x: int)
    ensures AllIn(height, width, Grid.NeighborLocs(height, width, y, x))
  {
    forall k | 0 <= k < |Grid.NeighborLocs(height, width, y, x)|
      ensures InField(height, width, Grid.NeighborLocs(height, width, y, x)[k])
    {
      Grid.NeighborLocsInField(height, width, y, x, k);
    }
  }

  /** get_neighbor_list: the neighbour list of every cell, row by row. */
  method GetNeighborList(height: nat, width: nat) returns (nl: seq<seq<seq<(int, int)>>>)
    ensures IsNeighborTable(nl, height, width)
  {
    nl := [];
    for h := 0 to height
      invariant |nl| == h
      invariant forall h' :: 0 <= h' < h ==>
                  |nl[h']| == width &&
                  forall w :: 0 <= w < width ==>
                    nl[h'][w] == Grid.NeighborLocs(height, width, h', w) && AllIn(height, width, nl[h'][w])
    {
      var row := [];
      for w := 0 to width
        invariant |row| == w
        invariant forall w' :: 0 <= w' < w ==>
                    row[w'] == Grid.NeighborLocs(height, width, h, w') && AllIn(height, width, row[w'])
      {
        var ns := CellNeighbors(height, width, h, w);
        NeighborsInField(height, width, h, w);
        row := row + [ns];
      }
      nl := nl + [row];
    }
  }

  // ---------------------------------------------------------------------
  // Counting over a list of cells

  /** A rectangular grid of clues, -1 for closed. */
  predicate Rect(cs: seq<seq<int>>, height: nat, width: nat)
  {
    |cs| == height && forall y :: 0 <= y < height ==> |cs[y]| == width
  }

  /** How many listed cells are closed. */
  function CloseCount(cs: seq<seq<int>>, height: nat, width: nat, ns: seq<(int, int)>): (r: nat)
    requires Rect(cs, height, width) && AllIn(height, width, ns)
    ensures r <= |ns|
  {
    if ns == [] then 0
    else CloseCount(cs, height, width, ns[..|ns| - 1]) + (if cs[ns[|ns| - 1].0][ns[|ns| - 1].1] == -1 then 1 else 0)
  }

  /** How many listed cells are open. */
  function OpenCount(cs: seq<seq<int>>, height: nat, width: nat, ns: seq<(int, int)>): (r: nat)
    requires Rect(cs, height, width) && AllIn(height, width, ns)
    ensures r <= |ns|
  {
    if ns == [] then 0
    else OpenCount(cs, height, width, ns[..|ns| - 1]) + (if cs[ns[|ns| - 1].0][ns[|ns| - 1].1] != -1 then 1 else 0)
  }

  /** How many listed cells are marked in b. */
  function MarkCount(b: array2<bool>, ns: seq<(int, int)>): (r: nat)
    reads b
    requires AllIn(b.Length0, b.Length1, ns)
    ensures r <= |ns|
  {
    if ns == [] then 0
    else MarkCount(b, ns[..|ns| - 1]) + (if b[ns[|ns| - 1].0, ns[|ns| - 1].1] then 1 else 0)
  }

  /** How many listed cells are marked safe in s or are open. */
  function SafeOrOpenCount(s: array2<bool>, cs: seq<seq<int>>, ns: seq<(int, int)>): (r: nat)
    reads s
    requires Rect(cs, s.Length0, s.Length1) && AllIn(s.Length0, s.Length1, ns)
    ensures r <= |ns|
  {
    if ns == [] then 0
    else
      var p := ns[|ns| - 1];
      SafeOrOpenCount(s, cs, ns[..|ns| - 1]) + (if s[p.0, p.1] || cs[p.0][p.1] != -1 then 1 else 0)
  }

  /** Every listed cell is either closed or open. */
  lemma {:induction false} CloseOpenSplit(cs: seq<seq<int>>, height: nat, width: nat, ns: seq<(int, int)>)
    requires Rect(cs, height, width) && AllIn(height, width, ns)
    ensures CloseCount(cs, height, width, ns) + OpenCount(cs, height, width, ns) == |ns|
  {
    if ns != [] {
      CloseOpenSplit(cs, height, width, ns[..|ns| - 1]);
    }
  }

  /** All listed cells are closed exactly when the closed count is the list length. */
  lemma {:induction false} CloseCountAll(cs: seq<seq<int>>, height: nat, width: nat, ns: seq<(int, int)>)
    requires Rect(cs, height, width) && AllIn(height, width, ns)
    ensures CloseCount(cs, height, width, ns) == |ns| <==> forall k :: 0 <= k < |ns| ==> cs[ns[k].0][ns[k].1] == -1
  {
    if ns != [] {
      var init := ns[..|ns| - 1];
      CloseCountAll(cs, height, width, init);
      assert forall k :: 0 <= k < |init| ==> init[k] == ns[k];
    }
  }

  method CountCloseAround(cs: seq<seq<int>>, height: nat, width: nat, ns: seq<(int, int)>) returns (count: nat)
    requires Rect(cs, height, width) && AllIn(height, width, ns)
    ensures count == CloseCount(cs, height, width, ns)
  {
    count := 0;
    for k := 0 to |ns|
      invariant count == CloseCount(cs, height, width, ns[..k])
    {
      assert ns[..k + 1][..k] == ns[..k];
      var p := ns[k];
      if cs[p.0][p.1] == -1 {
        count := count + 1;
      }
    }
    assert ns[..|ns|] == ns;
  }

  method CountOpenAround(cs: seq<seq<int>>, height: nat, width: nat, ns: seq<(int, int)>) returns (count: nat)
    requires Rect(cs, height, width) && AllIn(height, width, ns)
    ensures count == OpenCount(cs, height, width, ns)
  {
    count := 0;
    for k := 0 to |ns|
      invariant count == OpenCount(cs, height, width, ns[..k])
    {
      assert ns[..k + 1][..k] == ns[..k];
      var p := ns[k];
      if cs[p.0][p.1] != -1 {
        count := count + 1;
      }
    }
    assert ns[..|ns|] == ns;
  }

  method CountBombAround(b: array2<bool>, ns: seq<(int, int)>) returns (count: nat)
    requires AllIn(b.Length0, b.Length1, ns)
    ensures count == MarkCount(b, ns)
  {
    count := 0;
    for k := 0 to |ns|
      invariant count == MarkCount(b, ns[..k])
    {
      assert ns[..k + 1][..k] == ns[..k];
      var p := ns[k];
      if b[p.0, p.1] {
        count := count + 1;
      }
    }
    assert ns[..|ns|] == ns;
  }

  method CountSafeAround(s: array2<bool>, cs: seq<seq<int>>, ns: seq<(int, int)>) returns (count: nat)
    requires Rect(cs, s.Length0, s.Length1) && AllIn(s.Length0, s.Length1, ns)
    ensures count == SafeOrOpenCount(s, cs, ns)
  {
    count := 0;
    for k := 0 to |ns|
      invariant count == SafeOrOpenCount(s, cs, ns[..k])
    {
      assert ns[..k + 1][..k] == ns[..k];
      var p := ns[k];
      if s[p.0, p.1] || cs[p.0][p.1] != -1 {
        count := count + 1;
      }
    }
    assert ns[..|ns|] == ns;
  }

  // ---------------------------------------------------------------------
  // Pre-deduction of certain bombs

  /** Every cell of the field, with its clue or -1, and the neighbour table. */
  predicate Board(cs: seq<seq<int>>, height: nat, width: nat, nl: seq<seq<seq<(int, int)>>>)
  {
    Rect(cs, height, width) && IsNeighborTable(nl, height, width)
  }

  /** Row-major order of cells: (h', w') is visited before (h, w). */
  predicate Before(h': int, w': int, h: int, w: int)
  {
    h' < h || (h' == h && w' < w)
  }

  /** The positive clue at (h, w) equals its number of closed neighbours, and (y, x) is one of those. */
  ghost predicate BombBy(cs: seq<seq<int>>, height: nat, width: nat, nl: seq<seq<seq<(int, int)>>>, h: int, w: int, y: int, x: int)
    requires Board(cs, height, width, nl) && InField(height, width, (h, w)) && InField(height, width, (y, x))
  {
    cs[h][w] > 0 && CloseCount(cs, height, width, nl[h][w]) == cs[h][w] && (y, x) in nl[h][w] && cs[y][x] == -1
  }

  ghost predicate BombBefore(cs: seq<seq<int>>, height: nat, width: nat, nl: seq<seq<seq<(int, int)>>>, h: int, w: int, y: int, x: int)
    requires Board(cs, height, width, nl) && InField(height, width, (y, x))
  {
    exists h', w' :: 0 <= h' < height && 0 <= w' < width && Before(h', w', h, w) && BombBy(cs, height, width, nl, h', w', y, x)
  }

  /** Some cell of the field forces (y, x) to be a bomb. */
  ghost predicate ForcedBomb(cs: seq<seq<int>>, height: nat, width: nat, nl: seq<seq<seq<(int, int)>>>, y: int, x: int)
    requires Board(cs, height, width, nl) && InField(height, width, (y, x))
  {
    exists h', w' :: 0 <= h' < height && 0 <= w' < width && BombBy(cs, height, width, nl, h', w', y, x)
  }

  lemma BombBeforeStep(cs: seq<seq<int>>, height: nat, width: nat, nl: seq<seq<seq<(int, int)>>>, h: int, w: int, y: int, x: int)
    requires Board(cs, height, width, nl) && InField(height, width, (h, w)) && InField(height, width, (y, x))
    ensures BombBefore(cs, height, width, nl, h, w + 1, y, x) <==>
            BombBefore(cs, height, width, nl, h, w, y, x) || BombBy(cs, height, width, nl, h, w, y, x)
  {
    if BombBefore(cs, height, width, nl, h, w + 1, y, x) {
      var h', w' :| 0 <= h' < height && 0 <= w' < width && Before(h', w', h, w + 1) && BombBy(cs, height, width, nl, h', w', y, x);
      if (h', w') != (h, w) {
        assert Before(h', w', h, w);
      }
    }
    if BombBy(cs, height, width, nl, h, w, y, x) {
      assert Before(h, w, h, w + 1);
    }
    if BombBefore(cs, height, width, nl, h, w, y, x) {
      var h', w' :| 0 <= h' < height && 0 <= w' < width && Before(h', w', h, w) && BombBy(cs, height, width, nl, h', w', y, x);
      assert Before(h', w', h, w + 1);
    }
  }

  lemma BombBeforeRow(cs: seq<seq<int>>, height: nat, width: nat, nl: seq<seq<seq<(int, int)>>>, h: int, y: int, x: int)
    requires Board(cs, height, width, nl) && InField(height, width, (y, x))
    ensures BombBefore(cs, height, width, nl, h, width, y, x) <==> BombBefore(cs, height, width, nl, h + 1, 0, y, x)
  {
    if BombBefore(cs, height, width, nl, h, width, y, x) {
      var h', w' :| 0 <= h' < height && 0 <= w' < width && Before(h', w', h, width) && BombBy(cs, height, width, nl, h', w', y, x);
      assert Before(h', w', h + 1, 0);
    }
    if BombBefore(cs, height, width, nl, h + 1, 0, y, x) {
      var h', w' :| 0 <= h' < height && 0 <= w' < width && Before(h', w', h + 1, 0) && BombBy(cs, height, width, nl, h', w', y, x);
      assert Before(h', w', h, width);
    }
  }

  lemma BombBeforeAll(cs: seq<seq<int>>, height: nat, width: nat, nl: seq<seq<seq<(int, int)>>>, y: int, x: int)
    requires Board(cs, height, width, nl) && InField(height, width, (y, x))
    ensures BombBefore(cs, height, width, nl, height, 0, y, x) <==> ForcedBomb(cs, height, width, nl, y, x)
  {
    if ForcedBomb(cs, height, width, nl, y, x) {
      var h', w' :| 0 <= h' < height && 0 <= w' < width && BombBy(cs, height, width, nl, h', w', y, x);
      assert Before(h', w', height, 0);
    }
  }

  /** Marks the closed neighbours of (h, w) when its positive clue equals their number. */
  method MarkBombsAround(b: array2<bool>, cs: seq<seq<int>>, height: nat, width: nat, nl: seq<seq<seq<(int, int)>>>, h: int, w: int)
    requires Board(cs, height, width, nl) && InField(height, width, (h, w))
    requires b.Length0 == height && b.Length1 == width
    modifies b
    ensures forall y, x :: 0 <= y < height && 0 <= x < width ==>
              b[y, x] == (old(b[y, x]) || BombBy(cs, height, width, nl, h, w, y, x))
  {
    if cs[h][w] <= 0 {
      return;
    }
    var ns := nl[h][w];
    var closeCount := CountCloseAround(cs, height, width, ns);
    if closeCount != cs[h][w] {
      return;
    }
    for k := 0 to |ns|
      invariant forall y, x :: 0 <= y < height && 0 <= x < width ==>
                  b[y, x] == (old(b[y, x]) || ((y, x) in ns[..k] && cs[y][x] == -1))
    {
      assert ns[..k + 1] == ns[..k] + [ns[k]];
      var p := ns[k];
      if cs[p.0][p.1] == -1 {
        b[p.0, p.1] := true;
      }
    }
    assert ns[..|ns|] == ns;
  }

  /** The bomb grid: exactly the cells some satisfied clue forces to be bombs. */
  method DetermineBombCells(cs: seq<seq<int>>, height: nat, width: nat, nl: seq<seq<seq<(int, int)>>>) returns (b: array2<bool>)
    requires Board(cs, height, width, nl)
    ensures fresh(b) && b.Length0 == height && b.Length1 == width
    ensures forall y, x :: 0 <= y < height && 0 <= x < width ==> (b[y, x] <==> ForcedBomb(cs, height, width, nl, y, x))
  {
    b := new bool[height, width]((_, _) => false);
    for h := 0 to height
      invariant forall y, x :: 0 <= y < height && 0 <= x < width ==> (b[y, x] <==> BombBefore(cs, height, width, nl, h, 0, y, x))
    {
      for w := 0 to width
        invariant forall y, x :: 0 <= y < height && 0 <= x < width ==> (b[y, x] <==> BombBefore(cs, height, width, nl, h, w, y, x))
      {
        MarkBombsAround(b, cs, height, width, nl, h, w);
        forall y, x | 0 <= y < height && 0 <= x < width {
          BombBeforeStep(cs, height, width, nl, h, w, y, x);
        }
      }
      forall y, x | 0 <= y < height && 0 <= x < width {
        BombBeforeRow(cs, height, width, nl, h, y, x);
      }
    }
    forall y, x | 0 <= y < height && 0 <= x < width {
      BombBeforeAll(cs, height, width, nl, y, x);
    }
  }

  // ---------------------------------------------------------------------
  // Pre-deduction of certain safe cells

  /**
   * (h, w) is open, and (y, x) is either (h, w) itself or a neighbour that is not
   * marked a bomb while the bombs marked around (h, w) already match its clue.
   */
  ghost predicate SafeBy(cs: seq<seq<int>>, height: nat, width: nat, nl: seq<seq<seq<(int, int)>>>, bomb: array2<bool>,
                         h: int, w: int, y: int, x: int)
    reads bomb
    requires Board(cs, height, width, nl) && bomb.Length0 == height && bomb.Length1 == width
    requires InField(height, width, (h, w)) && InField(height, width, (y, x))
  {
    cs[h][w] >= 0 &&
    ((y, x) == (h, w) || (MarkCount(bomb, nl[h][w]) == cs[h][w] && (y, x) in nl[h][w] && !bomb[y, x]))
  }

  ghost predicate SafeBefore(cs: seq<seq<int>>, height: nat, width: nat, nl: seq<seq<seq<(int, int)>>>, bomb: array2<bool>,
                             h: int, w: int, y: int, x: int)
    reads bomb
    requires Board(cs, height, width, nl) && bomb.Length0 == height && bomb.Length1 == width
    requires InField(height, width, (y, x))
  {
    exists h', w' :: 0 <= h' < height && 0 <= w' < width && Before(h', w', h, w) && SafeBy(cs, height, width, nl, bomb, h', w', y, x)
  }

  /** Some open cell of the field makes (y, x) certainly safe. */
  ghost predicate ForcedSafe(cs: seq<seq<int>>, height: nat, width: nat, nl: seq<seq<seq<(int, int)>>>, bomb: array2<bool>,
                             y: int, x: int)
    reads bomb
    requires Board(cs, height, width, nl) && bomb.Length0 == height && bomb.Length1 == width
    requires InField(height, width, (y, x))
  {
    exists h', w' :: 0 <= h' < height && 0 <= w' < width && SafeBy(cs, height, width, nl, bomb, h', w', y, x)
  }

  lemma SafeBeforeStep(cs: seq<seq<int>>, height: nat, width: nat, nl: seq<seq<seq<(int, int)>>>, bomb: array2<bool>,
                       h: int, w: int, y: int, x: int)
    requires Board(cs, height, width, nl) && bomb.Length0 == height && bomb.Length1 == width
    requires InField(height, width, (h, w)) && InField(height, width, (y, x))
    ensures SafeBefore(cs, height, width, nl, bomb, h, w + 1, y, x) <==>
            SafeBefore(cs, height, width, nl, bomb, h, w, y, x) || SafeBy(cs, height, width, nl, bomb, h, w, y, x)
  {
    if SafeBefore(cs, height, width, nl, bomb, h, w + 1, y, x) {
      var h', w' :| 0 <= h' < height && 0 <= w' < width && Before(h', w', h, w + 1) && SafeBy(cs, height, width, nl, bomb, h', w', y, x);
      if (h', w') != (h, w) {
        assert Before(h', w', h, w);
      }
    }
    if SafeBy(cs, height, width, nl, bomb, h, w, y, x) {
      assert Before(h, w, h, w + 1);
    }
    if SafeBefore(cs, height, width, nl, bomb, h, w, y, x) {
      var h', w' :| 0 <= h' < height && 0 <= w' < width && Before(h', w', h, w) && SafeBy(cs, height, width, nl, bomb, h', w', y, x);
      assert Before(h', w', h, w + 1);
    }
  }

  lemma SafeBeforeRow(cs: seq<seq<int>>, height: nat, width: nat, nl: seq<seq<seq<(int, int)>>>, bomb: array2<bool>,
                      h: int, y: int, x: int)
    requires Board(cs, height, width, nl) && bomb.Length0 == height && bomb.Length1 == width
    requires InField(height, width, (y, x))
    ensures SafeBefore(cs, height, width, nl, bomb, h, width, y, x) <==> SafeBefore(cs, height, width, nl, bomb, h + 1, 0, y, x)
  {
    if SafeBefore(cs, height, width, nl, bomb, h, width, y, x) {
      var h', w' :| 0 <= h' < height && 0 <= w' < width && Before(h', w', h, width) && SafeBy(cs, height, width, nl, bomb, h', w', y, x);
      assert Before(h', w', h + 1, 0);
    }
    if SafeBefore(cs, height, width, nl, bomb, h + 1, 0, y, x) {
      var h', w' :| 0 <= h' < height && 0 <= w' < width && Before(h', w', h + 1, 0) && SafeBy(cs, height, width, nl, bomb, h', w', y, x);
      assert Before(h', w', h, width);
    }
  }

  lemma SafeBeforeAll(cs: seq<seq<int>>, height: nat, width: nat, nl: seq<seq<seq<(int, int)>>>, bomb: array2<bool>, y: int, x: int)
    requires Board(cs, height, width, nl) && bomb.Length0 == height && bomb.Length1 == width
    requires InField(height, width, (y, x))
    ensures SafeBefore(cs, height, width, nl, bomb, height, 0, y, x) <==> ForcedSafe(cs, height, width, nl, bomb, y, x)
  {
    if ForcedSafe(cs, height, width, nl, bomb, y, x) {
      var h', w' :| 0 <= h' < height && 0 <= w' < width && SafeBy(cs, height, width, nl, bomb, h', w', y, x);
      assert Before(h', w', height, 0);
    }
  }

  /** Marks the open cell (h, w), and its non-bomb neighbours when its clue is met by marked bombs. */
  method MarkSafeAround(s: array2<bool>, bomb: array2<bool>, cs: seq<seq<int>>, height: nat, width: nat,
                        nl: seq<seq<seq<(int, int)>>>, h: int, w: int)
    requires Board(cs, height, width, nl) && InField(height, width, (h, w))
    requires s.Length0 == height && s.Length1 == width && bomb.Length0 == height && bomb.Length1 == width && s != bomb
    modifies s
    ensures forall y, x :: 0 <= y < height && 0 <= x < width ==>
              s[y, x] == (old(s[y, x]) || SafeBy(cs, height, width, nl, bomb, h, w, y, x))
  {
    if cs[h][w] < 0 {
      return;
    }
    var ns := nl[h][w];
    s[h, w] := true;
    var nBombs := CountBombAround(bomb, ns);
    if cs[h][w] != nBombs {
      return;
    }
    for k := 0 to |ns|
      invariant forall y, x :: 0 <= y < height && 0 <= x < width ==>
                  s[y, x] == (old(s[y, x]) || (y, x) == (h, w) || ((y, x) in ns[..k] && !bomb[y, x]))
    {
      assert ns[..k + 1] == ns[..k] + [ns[k]];
      var p := ns[k];
      if !bomb[p.0, p.1] {
        s[p.0, p.1] := true;
      }
    }
    assert ns[..|ns|] == ns;
  }

  /** The safe grid: exactly the open cells and the cells some open cell's clue proves safe. */
  method DetermineSafeCells(cs: seq<seq<int>>, height: nat, width: nat, nl: seq<seq<seq<(int, int)>>>, bomb: array2<bool>)
    returns (s: array2<bool>)
    requires Board(cs, height, width, nl) && bomb.Length0 == height && bomb.Length1 == width
    ensures fresh(s) && s.Length0 == height && s.Length1 == width
    ensures forall y, x :: 0 <= y < height && 0 <= x < width ==> (s[y, x] <==> ForcedSafe(cs, height, width, nl, bomb, y, x))
  {
    s := new bool[height, width]((_, _) => false);
    for h := 0 to height
      invariant forall y, x :: 0 <= y < height && 0 <= x < width ==> (s[y, x] <==> SafeBefore(cs, height, width, nl, bomb, h, 0, y, x))
    {
      for w := 0 to width
        invariant forall y, x :: 0 <= y < height && 0 <= x < width ==> (s[y, x] <==> SafeBefore(cs, height, width, nl, bomb, h, w, y, x))
      {
        MarkSafeAround(s, bomb, cs, height, width, nl, h, w);
        forall y, x | 0 <= y < height && 0 <= x < width {
          SafeBeforeStep(cs, height, width, nl, bomb, h, w, y, x);
        }
      }
      forall y, x | 0 <= y < height && 0 <= x < width {
        SafeBeforeRow(cs, height, width, nl, bomb, h, y, x);
      }
    }
    forall y, x | 0 <= y < height && 0 <= x < width {
      SafeBeforeAll(cs, height, width, nl, bomb, y, x);
    }
  }

  /** Every open cell is marked safe. */
  lemma OpenIsForcedSafe(cs: seq<seq<int>>, height: nat, width: nat, nl: seq<seq<seq<(int, int)>>>, bomb: array2<bool>, y: int, x: int)
    requires Board(cs, height, width, nl) && bomb.Length0 == height && bomb.Length1 == width
    requires InField(height, width, (y, x)) && cs[y][x] >= 0
    ensures ForcedSafe(cs, height, width, nl, bomb, y, x)
  {
    assert SafeBy(cs, height, width, nl, bomb, y, x, y, x);
  }

  // ---------------------------------------------------------------------
  // Targets, hard cells and marked bombs

  /** A closed cell not decided by pre-deduction that touches an open cell. */
  predicate IsTarget(cs: seq<seq<int>>, height: nat, width: nat, nl: seq<seq<seq<(int, int)>>>,
                     bomb: array2<bool>, safe: array2<bool>, y: int, x: int)
    reads bomb, safe
    requires Board(cs, height, width, nl) && InField(height, width, (y, x))
    requires bomb.Length0 == height && bomb.Length1 == width && safe.Length0 == height && safe.Length1 == width
  {
    cs[y][x] == -1 && !bomb[y, x] && !safe[y, x] && OpenCount(cs, height, width, nl[y][x]) != 0
  }

  /** Cells listed in strictly increasing row-major order. */
  predicate RowMajor(ts: seq<(int, int)>)
  {
    forall i, j :: 0 <= i < j < |ts| ==> Before(ts[i].0, ts[i].1, ts[j].0, ts[j].1)
  }

  /** A cell after every listed one extends a row-major list. */
  lemma RowMajorAppend(ts: seq<(int, int)>, p: (int, int))
    requires RowMajor(ts) && forall k :: 0 <= k < |ts| ==> Before(ts[k].0, ts[k].1, p.0, p.1)
    ensures RowMajor(ts + [p])
  {
  }

  method CollectTargets(cs: seq<seq<int>>, height: nat, width: nat, nl: seq<seq<seq<(int, int)>>>,
                        bomb: array2<bool>, safe: array2<bool>) returns (ts: seq<(int, int)>)
    requires Board(cs, height, width, nl)
    requires bomb.Length0 == height && bomb.Length1 == width && safe.Length0 == height && safe.Length1 == width
    ensures AllIn(height, width, ts) && RowMajor(ts)
    ensures forall k :: 0 <= k < |ts| ==> IsTarget(cs, height, width, nl, bomb, safe, ts[k].0, ts[k].1)
    ensures forall y, x :: 0 <= y < height && 0 <= x < width && IsTarget(cs, height, width, nl, bomb, safe, y, x) ==> (y, x) in ts
  {
    ts := [];
    for h := 0 to height
      invariant AllIn(height, width, ts) && RowMajor(ts)
      invariant forall k :: 0 <= k < |ts| ==> ts[k].0 < h && IsTarget(cs, height, width, nl, bomb, safe, ts[k].0, ts[k].1)
      invariant forall y, x :: 0 <= y < h && 0 <= x < width && IsTarget(cs, height, width, nl, bomb, safe, y, x) ==> (y, x) in ts
    {
      ts := CollectRow(cs, height, width, nl, bomb, safe, h, ts);
    }
  }

  /** Appends the targets of row h, left to right, to the targets of the rows above. */
  method CollectRow(cs: seq<seq<int>>, height: nat, width: nat, nl: seq<seq<seq<(int, int)>>>,
                    bomb: array2<bool>, safe: array2<bool>, h: nat, ts0: seq<(int, int)>) returns (ts: seq<(int, int)>)
    requires Board(cs, height, width, nl) && h < height
    requires bomb.Length0 == height && bomb.Length1 == width && safe.Length0 == height && safe.Length1 == width
    requires AllIn(height, width, ts0) && RowMajor(ts0)
    requires forall k :: 0 <= k < |ts0| ==> ts0[k].0 < h && IsTarget(cs, height, width, nl, bomb, safe, ts0[k].0, ts0[k].1)
    ensures AllIn(height, width, ts) && RowMajor(ts) && |ts0| <= |ts| && ts[..|ts0|] == ts0
    ensures forall k :: 0 <= k < |ts| ==> ts[k].0 <= h && IsTarget(cs, height, width, nl, bomb, safe, ts[k].0, ts[k].1)
    ensures forall x :: 0 <= x < width && IsTarget(cs, height, width, nl, bomb, safe, h, x) ==> (h, x) in ts
  {
    ts := ts0;
    for w := 0 to width
      invariant AllIn(height, width, ts) && RowMajor(ts) && |ts0| <= |ts| && ts[..|ts0|] == ts0
      invariant forall k :: 0 <= k < |ts| ==>
                  Before(ts[k].0, ts[k].1, h, w) && IsTarget(cs, height, width, nl, bomb, safe, ts[k].0, ts[k].1)
      invariant forall x :: 0 <= x < w && IsTarget(cs, height, width, nl, bomb, safe, h, x) ==> (h, x) in ts
    {
      var nOpen := CountOpenAround(cs, height, width, nl[h][w]);
      if cs[h][w] != -1 || bomb[h, w] || safe[h, w] || nOpen == 0 {
        continue;
      }
      assert (ts + [(h, w)])[..|ts0|] == ts[..|ts0|];
      RowMajorAppend(ts, (h, w));
      ts := ts + [(h, w)];
    }
  }

  /** A closed cell whose neighbours are all closed (a land cell). */
  predicate IsHard(cs: seq<seq<int>>, height: nat, width: nat, nl: seq<seq<seq<(int, int)>>>, y: int, x: int)
    requires Board(cs, height, width, nl) && InField(height, width, (y, x))
  {
    cs[y][x] == -1 && CloseCount(cs, height, width, nl[y][x]) == |nl[y][x]|
  }

  lemma HardIsAllClosed(cs: seq<seq<int>>, height: nat, width: nat, nl: seq<seq<seq<(int, int)>>>, y: int, x: int)
    requires Board(cs, height, width, nl) && InField(height, width, (y, x))
    ensures IsHard(cs, height, width, nl, y, x) <==>
            cs[y][x] == -1 && forall k :: 0 <= k < |nl[y][x]| ==> cs[nl[y][x][k].0][nl[y][x][k].1] == -1
  {
    CloseCountAll(cs, height, width, nl[y][x]);
  }

  /** Hard cells among the first n cells of row y. */
  function HardInRow(cs: seq<seq<int>>, height: nat, width: nat, nl: seq<seq<seq<(int, int)>>>, y: nat, n: nat): (r: nat)
    requires Board(cs, height, width, nl) && y < height && n <= width
    ensures r <= n
  {
    if n == 0 then 0
    else HardInRow(cs, height, width, nl, y, n - 1) + (if IsHard(cs, height, width, nl, y, n - 1) then 1 else 0)
  }

  /** Hard cells in the first m rows. */
  function HardCount(cs: seq<seq<int>>, height: nat, width: nat, nl: seq<seq<seq<(int, int)>>>, m: nat): nat
    requires Board(cs, height, width, nl) && m <= height
  {
    if m == 0 then 0 else HardCount(cs, height, width, nl, m - 1) + HardInRow(cs, height, width, nl, m - 1, width)
  }

  lemma {:induction false} HardCountBound(cs: seq<seq<int>>, height: nat, width: nat, nl: seq<seq<seq<(int, int)>>>, m: nat)
    requires Board(cs, height, width, nl) && m <= height
    ensures HardCount(cs, height, width, nl, m) <= m * width
  {
    if m > 0 {
      HardCountBound(cs, height, width, nl, m - 1);
      Binomial.MulSucc(m - 1, width);
    }
  }

  method CountHardCells(cs: seq<seq<int>>, height: nat, width: nat, nl: seq<seq<seq<(int, int)>>>) returns (count: nat)
    requires Board(cs, height, width, nl)
    ensures count == HardCount(cs, height, width, nl, height) && count <= height * width
  {
    count := 0;
    for h := 0 to height
      invariant count == HardCount(cs, height, width, nl, h)
    {
      for w := 0 to width
        invariant count == HardCount(cs, height, width, nl, h) + HardInRow(cs, height, width, nl, h, w)
      {
        if cs[h][w] != -1 {
          continue;
        }
        var ns := nl[h][w];
        var nClosed := CountCloseAround(cs, height, width, ns);
        if nClosed == |ns| {
          count := count + 1;
        }
      }
    }
    HardCountBound(cs, height, width, nl, height);
  }

  /** Marked cells among the first n cells of row y. */
  function MarkedInRow(b: array2<bool>, y: nat, n: nat): (r: nat)
    reads b
    requires y < b.Length0 && n <= b.Length1
    ensures r <= n
  {
    if n == 0 then 0 else MarkedInRow(b, y, n - 1) + (if b[y, n - 1] then 1 else 0)
  }

  /** Marked cells in the first m rows. */
  function Marked(b: array2<bool>, m: nat): nat
    reads b
    requires m <= b.Length0
  {
    if m == 0 then 0 else Marked(b, m - 1) + MarkedInRow(b, m - 1, b.Length1)
  }

  /** The marked cells among the first n cells of row y. */
  ghost function RowMarks(b: array2<bool>, y: nat, n: nat): set<(int, int)>
    reads b
    requires y < b.Length0 && n <= b.Length1
  {
    set x | 0 <= x < n && b[y, x] :: (y, x)
  }

  /** The marked cells in the first m rows. */
  ghost function Marks(b: array2<bool>, m: nat): set<(int, int)>
    reads b
    requires m <= b.Length0
  {
    set y, x | 0 <= y < m && 0 <= x < b.Length1 && b[y, x] :: (y, x)
  }

  lemma {:induction false} MarkedInRowCounts(b: array2<bool>, y: nat, n: nat)
    requires y < b.Length0 && n <= b.Length1
    ensures MarkedInRow(b, y, n) == |RowMarks(b, y, n)|
  {
    if n > 0 {
      MarkedInRowCounts(b, y, n - 1);
      var prev := RowMarks(b, y, n - 1);
      if b[y, n - 1] {
        assert RowMarks(b, y, n) == prev + {(y, n - 1)};
        assert (y, n - 1) !in prev;
      } else {
        assert RowMarks(b, y, n) == prev;
      }
    }
  }

  /** The count of marks is the number of marked cells. */
  lemma {:induction false} MarkedCounts(b: array2<bool>, m: nat)
    requires m <= b.Length0
    ensures Marked(b, m) == |Marks(b, m)|
  {
    if m > 0 {
      MarkedCounts(b, m - 1);
      MarkedInRowCounts(b, m - 1, b.Length1);
      var prev, row := Marks(b, m - 1), RowMarks(b, m - 1, b.Length1);
      assert Marks(b, m) == prev + row;
      assert prev * row == {};
    }
  }

  lemma {:induction false} MarkedBound(b: array2<bool>, m: nat)
    requires m <= b.Length0
    ensures Marked(b, m) <= m * b.Length1
  {
    if m > 0 {
      MarkedBound(b, m - 1);
      Binomial.MulSucc(m - 1, b.Length1);
    }
  }

  method CountBombs(b: array2<bool>) returns (count: nat)
    ensures count == Marked(b, b.Length0) && count <= b.Length0 * b.Length1
  {
    count := 0;
    for h := 0 to b.Length0
      invariant count == Marked(b, h)
    {
      for w := 0 to b.Length1
        invariant count == Marked(b, h) + MarkedInRow(b, h, w)
      {
        if b[h, w] {
          count := count + 1;
        }
      }
    }
    MarkedBound(b, b.Length0);
  }
}
