/** Board geometry shared by the Python board and the native solver:
    index/location conversion and the eight-cell neighbourhood. */
module Grid {
  import opened Wrappers
  import opened Constants
  import opened Binomial

  /** True when (y, x) lies outside the h x w field. */
  predicate OutOfField(h: nat, w: nat, y: int, x: int)
  {
    !(0 <= x < w && 0 <= y < h)
  }

  /** A location is in the field iff it is the location of some cell index. */
  lemma InFieldIsLocation(h: nat, w: nat, y: int, x: int)
    ensures !OutOfField(h, w, y, x) <==> exists i: nat :: i < h * w && i / w == y && i % w == x
  {
    if !OutOfField(h, w, y, x) {
      InFieldHasIndex(h, w, y, x);
    } else if exists i: nat :: i < h * w && i / w == y && i % w == x {
      var i: nat :| i < h * w && i / w == y && i % w == x;
      LocOfIndex(h, w, i);
    }
  }

  lemma InFieldHasIndex(h: nat, w: nat, y: nat, x: nat)
    requires y < h && x < w
    ensures w * y + x < h * w && (w * y + x) / w == y && (w * y + x) % w == x
  {
    IndexBelow(h, w, y, x);
    DivMod(w, y, x);
  }

  /** Row-major index of (y, x); an error when (y, x) is outside the field. */
  function LocToIdx(h: nat, w: nat, y: int, x: int): (r: Result<nat>)
    ensures r.Success? ==> r.value < h * w
  {
    if OutOfField(h, w, y, x) then Failure("(y, x) must be in the field")
    else
      assert 0 <= y < h && 0 <= x < w;
      IndexBelow(h, w, y, x);
      Success(w * y + x)
  }

  /** (row, column) of a row-major index; an error when idx is outside [0, h * w). */
  function IdxToLoc(h: nat, w: nat, idx: int): (r: Result<(int, int)>)
    ensures r.Success? ==> !OutOfField(h, w, r.value.0, r.value.1)
  {
    if idx < 0 || idx >= w * h then Failure("idx must be in [0, HW)")
    else
      LocOfIndex(h, w, idx);
      Success((idx / w, idx % w))
  }

  lemma IndexBelow(h: nat, w: nat, y: nat, x: nat)
    requires y < h && x < w
    ensures w * y + x < h * w
  {
    assert w * y + x < w * y + w;
    assert w * y + w == w * (y + 1);
    assert w * (y + 1) <= w * h;
  }

  lemma LocOfIndex(h: nat, w: nat, idx: nat)
    requires idx < w * h
    ensures w > 0 && idx / w < h && idx % w < w
  {
    assert w != 0;
    if idx / w >= h {
      MulMono(w, h, idx / w);
    }
  }

  lemma MulMono(w: nat, a: nat, b: nat)
    requires a <= b
    ensures w * a <= w * b
  {
  }

  /** Division by the width recovers the row and column of a row-major index. */
  lemma DivMod(w: nat, y: nat, x: nat)
    requires x < w
    ensures (w * y + x) / w == y && (w * y + x) % w == x
  {
    var i := w * y + x;
    var q, r := i / w, i % w;
    assert w * q + r == w * y + x;
    MulSub(w, q, y);
    assert w * (q - y) == x - r;
    if q > y {
      MulAtLeast(w, q - y);
    } else if q < y {
      MulSub(w, y, q);
      MulAtLeast(w, y - q);
    }
  }

  /** loc2idx then idx2loc is the identity on the field. */
  lemma LocIdxRoundTrip(h: nat, w: nat, y: int, x: int)
    requires !OutOfField(h, w, y, x)
    ensures LocToIdx(h, w, y, x).Success?
    ensures IdxToLoc(h, w, LocToIdx(h, w, y, x).value) == Success((y, x))
  {
    DivMod(w, y, x);
  }

  /** idx2loc then loc2idx is the identity on [0, h * w). */
  lemma IdxLocRoundTrip(h: nat, w: nat, idx: int)
    requires 0 <= idx < h * w
    ensures IdxToLoc(h, w, idx).Success?
    ensures LocToIdx(h, w, IdxToLoc(h, w, idx).value.0, IdxToLoc(h, w, idx).value.1) == Success(idx)
  {
  }

  /** Both conversions fail exactly outside the field. */
  lemma ConversionErrors(h: nat, w: nat, y: int, x: int, idx: int)
    ensures LocToIdx(h, w, y, x).Failure? <==> OutOfField(h, w, y, x)
    ensures IdxToLoc(h, w, idx).Failure? <==> (idx < 0 || idx >= h * w)
  {
  }

  /** The cells (y + dy, x + dx) for the offsets in ds, in that order,
      keeping only those inside the field and skipping the centre offset. */
  function Around(h: nat, w: nat, y: int, x: int, ds: seq<(int, int)>): (r: seq<(int, int)>)
    ensures |r| <= |ds|
  {
    if ds == [] then []
    else
      var d := ds[0];
      var rest := Around(h, w, y, x, ds[1..]);
      if !OutOfField(h, w, y + d.0, x + d.1) && d != (0, 0) then [(y + d.0, x + d.1)] + rest else rest
  }

  /** Chebyshev adjacency: p is another cell of the field at distance one from (y, x). */
  predicate Adjacent(h: nat, w: nat, y: int, x: int, p: (int, int))
  {
    !OutOfField(h, w, p.0, p.1) && p != (y, x) &&
    -1 <= p.0 - y <= 1 && -1 <= p.1 - x <= 1
  }

  /** Offset d from (y, x) lands on p, a field cell other than the centre. */
  predicate HitAt(h: nat, w: nat, y: int, x: int, d: (int, int), p: (int, int))
  {
    d != (0, 0) && p == (y + d.0, x + d.1) && !OutOfField(h, w, p.0, p.1)
  }

  lemma {:induction false} AroundMember(h: nat, w: nat, y: int, x: int, ds: seq<(int, int)>, p: (int, int))
    ensures p in Around(h, w, y, x, ds) <==> exists k :: 0 <= k < |ds| && HitAt(h, w, y, x, ds[k], p)
  {
    if ds != [] {
      var tail := ds[1..];
      AroundMember(h, w, y, x, tail, p);
      assert p in Around(h, w, y, x, ds) <==> HitAt(h, w, y, x, ds[0], p) || p in Around(h, w, y, x, tail);
      if p in Around(h, w, y, x, tail) {
        var k :| 0 <= k < |tail| && HitAt(h, w, y, x, tail[k], p);
        assert ds[k + 1] == tail[k];
      }
      if exists k :: 0 <= k < |ds| && HitAt(h, w, y, x, ds[k], p) {
        var k :| 0 <= k < |ds| && HitAt(h, w, y, x, ds[k], p);
        if k > 0 {
          assert tail[k - 1] == ds[k];
        }
      }
    }
  }

  /** The neighbour list of (y, x): the in-field cells at the offsets DIRS. */
  function NeighborLocs(h: nat, w: nat, y: int, x: int): seq<(int, int)>
  {
    Around(h, w, y, x, DIRS)
  }

  /** A neighbour list holds exactly the adjacent cells, and at most eight of them. */
  lemma NeighborLocsExact(h: nat, w: nat, y: int, x: int, p: (int, int))
    ensures p in NeighborLocs(h, w, y, x) <==> Adjacent(h, w, y, x, p)
    ensures |NeighborLocs(h, w, y, x)| <= 8
  {
    AroundMember(h, w, y, x, DIRS, p);
    if Adjacent(h, w, y, x, p) {
      var dy, dx := p.0 - y, p.1 - x;
      var k := if dy == -1 then 1 + dx else if dy == 0 then (if dx == -1 then 3 else 4) else 6 + dx;
      assert DIRS[k] == (dy, dx);
      assert HitAt(h, w, y, x, DIRS[k], p);
    }
  }

  /** Adjacency, and so membership in the neighbour lists, is symmetric. */
  lemma NeighborLocsSymmetric(h: nat, w: nat, p: (int, int), q: (int, int))
    requires !OutOfField(h, w, p.0, p.1) && !OutOfField(h, w, q.0, q.1)
    ensures q in NeighborLocs(h, w, p.0, p.1) <==> p in NeighborLocs(h, w, q.0, q.1)
  {
    NeighborLocsExact(h, w, p.0, p.1, q);
    NeighborLocsExact(h, w, q.0, q.1, p);
  }

  /** The neighbour indices of cell i: the row-major indices of its neighbour list. */
  function NeighborIndices(h: nat, w: nat, i: nat): (r: seq<nat>)
    requires i < h * w
  {
    LocOfIndex(h, w, i);
    var locs := NeighborLocs(h, w, i / w, i % w);
    seq<nat>(|locs|, k requires 0 <= k < |locs| => NeighborLocsInField(h, w, i / w, i % w, k); (w * locs[k].0 + locs[k].1) as nat)
  }

  lemma NeighborLocsInField(h: nat, w: nat, y: int, x: int, k: nat)
    requires k < |NeighborLocs(h, w, y, x)|
    ensures 0 <= NeighborLocs(h, w, y, x)[k].0 < h && 0 <= NeighborLocs(h, w, y, x)[k].1 < w
  {
    NeighborLocsExact(h, w, y, x, NeighborLocs(h, w, y, x)[k]);
  }

  /** The per-cell neighbour table of an h x w board. */
  function NeighborTable(h: nat, w: nat): (t: seq<seq<nat>>)
    ensures |t| == h * w
  {
    seq(h * w, i requires 0 <= i < h * w => NeighborIndices(h, w, i))
  }

  /** Cell j is in the neighbour list of cell i exactly when j is another
      in-field cell whose row and column differ from i's by at most one. */
  lemma NeighborIndicesExact(h: nat, w: nat, i: nat, j: nat)
    requires i < h * w && j < h * w
    ensures j in NeighborIndices(h, w, i) <==> Adjacent(h, w, i / w, i % w, (j / w, j % w))
  {
    LocOfIndex(h, w, i);
    LocOfIndex(h, w, j);
    NeighborLocsExact(h, w, i / w, i % w, (j / w, j % w));
    if j in NeighborIndices(h, w, i) {
      var k :| 0 <= k < |NeighborIndices(h, w, i)| && NeighborIndices(h, w, i)[k] == j;
      EntryLoc(h, w, i, k);
    }
    if Adjacent(h, w, i / w, i % w, (j / w, j % w)) {
      var locs := NeighborLocs(h, w, i / w, i % w);
      var k :| 0 <= k < |locs| && locs[k] == (j / w, j % w);
      EntryIndex(h, w, i, k, j);
    }
  }

  lemma EntryLoc(h: nat, w: nat, i: nat, k: nat)
    requires i < h * w && k < |NeighborIndices(h, w, i)|
    ensures w > 0
    ensures NeighborLocs(h, w, i / w, i % w)[k] == (NeighborIndices(h, w, i)[k] / w, NeighborIndices(h, w, i)[k] % w)
  {
    LocOfIndex(h, w, i);
    var locs := NeighborLocs(h, w, i / w, i % w);
    NeighborLocsInField(h, w, i / w, i % w, k);
    DivMod(w, locs[k].0, locs[k].1);
  }

  lemma EntryIndex(h: nat, w: nat, i: nat, k: nat, j: nat)
    requires i < h * w && j < h * w
    requires w > 0
    requires k < |NeighborLocs(h, w, i / w, i % w)|
    requires NeighborLocs(h, w, i / w, i % w)[k] == (j / w, j % w)
    ensures k < |NeighborIndices(h, w, i)| && NeighborIndices(h, w, i)[k] == j
  {
    var locs := NeighborLocs(h, w, i / w, i % w);
    assert NeighborIndices(h, w, i)[k] == (w * locs[k].0 + locs[k].1) as nat;
    Reassemble(w, j);
  }

  lemma Reassemble(w: nat, j: nat)
    requires w > 0
    ensures w * (j / w) + j % w == j
  {
  }

  /** Every entry of a neighbour list is a valid index other than the cell itself. */
  lemma NeighborIndicesInRange(h: nat, w: nat, i: nat, k: nat)
    requires i < h * w && k < |NeighborIndices(h, w, i)|
    ensures NeighborIndices(h, w, i)[k] < h * w && NeighborIndices(h, w, i)[k] != i
  {
    LocOfIndex(h, w, i);
    var locs := NeighborLocs(h, w, i / w, i % w);
    NeighborLocsInField(h, w, i / w, i % w, k);
    IndexBelow(h, w, locs[k].0, locs[k].1);
    NeighborLocsExact(h, w, i / w, i % w, locs[k]);
    DivMod(w, locs[k].0, locs[k].1);
  }

  /** The neighbour relation on indices is symmetric. */
  lemma NeighborIndicesSymmetric(h: nat, w: nat, i: nat, j: nat)
    requires i < h * w && j < h * w
    ensures j in NeighborIndices(h, w, i) <==> i in NeighborIndices(h, w, j)
  {
    NeighborIndicesExact(h, w, i, j);
    NeighborIndicesExact(h, w, j, i);
  }
}
