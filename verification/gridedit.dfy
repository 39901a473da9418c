/**
  Editing a tilemap with the mouse: replacing every cell of the clicked
  state, swapping two states across the map, and flood-filling the region
  of the clicked state around the clicked cell.

  A tilemap is its cells in row-major order on a grid `w` cells wide and
  `h` rows high; after the width is changed the last row may be partial,
  so the map can hold fewer than `w * h` cells, and the fill skips queued
  indices past its end. A cell's column and row are its index modulo and
  divided by `w`, which is how the tilemap numbers its cells (the tilemap
  class is not part of this model). The target state is the tile selected
  in the tileset together with the flip and colour controls; it enters as
  `ts`.
 */
module GridEdit {
  import Tiles

  /** Everything a cell shows; states are compared field by field. */
  datatype TileState = TileState(id: nat, xFlip: bool, yFlip: bool, sgbColor: int)

  /** The map with every cell in state `fs` changed to `ts`. */
  function Substituted(grid: seq<TileState>, fs: TileState, ts: TileState): (r: seq<TileState>)
    ensures |r| == |grid|
  {
    seq(|grid|, i requires 0 <= i < |grid| => if grid[i] == fs then ts else grid[i])
  }

  /** Replaces the clicked cell's state everywhere it occurs. */
  method SubstituteTile(grid: seq<TileState>, at: nat, ts: TileState) returns (g: seq<TileState>)
    requires at < |grid|
    ensures g == Substituted(grid, grid[at], ts)
    ensures g[at] == ts
  {
    var fs := grid[at];
    g := grid;
    for i := 0 to |grid|
      invariant |g| == |grid|
      invariant forall k :: 0 <= k < i ==> g[k] == Substituted(grid, fs, ts)[k]
      invariant forall k :: i <= k < |grid| ==> g[k] == grid[k]
    {
      if g[i] == fs {
        g := g[i := ts];
      }
    }
  }

  /** A second substitution of the same states changes nothing. */
  lemma SubstituteIdempotent(grid: seq<TileState>, fs: TileState, ts: TileState)
    ensures Substituted(Substituted(grid, fs, ts), fs, ts) == Substituted(grid, fs, ts)
  {
  }

  /** After a substitution to a different state no cell is left in the
      replaced one, and the cells in the target state are exactly those that
      were in either. */
  lemma SubstituteClears(grid: seq<TileState>, fs: TileState, ts: TileState)
    requires fs != ts
    ensures fs !in Substituted(grid, fs, ts)
    ensures forall i :: 0 <= i < |grid| ==>
      (Substituted(grid, fs, ts)[i] == ts <==> grid[i] == fs || grid[i] == ts)
  {
    var r := Substituted(grid, fs, ts);
    assert forall i :: 0 <= i < |r| ==> r[i] != fs;
  }

  /** The map with the states `s1` and `s2` exchanged. */
  function Swapped(grid: seq<TileState>, s1: TileState, s2: TileState): (r: seq<TileState>)
    ensures |r| == |grid|
  {
    seq(|grid|, i requires 0 <= i < |grid| =>
      if grid[i] == s1 then s2 else if grid[i] == s2 then s1 else grid[i])
  }

  /** Exchanges the clicked cell's state with the target state everywhere;
      nothing happens when they are equal. */
  method SwapTiles(grid: seq<TileState>, at: nat, s2: TileState) returns (g: seq<TileState>)
    requires at < |grid|
    ensures g == Swapped(grid, grid[at], s2)
    ensures grid[at] == s2 ==> g == grid
  {
    var s1 := grid[at];
    if s1 == s2 {
      SwapSame(grid, s1);
      return grid;
    }
    g := grid;
    for i := 0 to |grid|
      invariant |g| == |grid|
      invariant forall k :: 0 <= k < i ==> g[k] == Swapped(grid, s1, s2)[k]
      invariant forall k :: i <= k < |grid| ==> g[k] == grid[k]
    {
      if g[i] == s1 {
        g := g[i := s2];
      } else if g[i] == s2 {
        g := g[i := s1];
      }
    }
  }

  /** Swapping a state with itself is the identity. */
  lemma SwapSame(grid: seq<TileState>, s: TileState)
    ensures Swapped(grid, s, s) == grid
  {
  }

  /** A swap undoes itself, in either argument order. */
  lemma SwapInvolution(grid: seq<TileState>, s1: TileState, s2: TileState)
    ensures Swapped(Swapped(grid, s1, s2), s1, s2) == grid
    ensures Swapped(Swapped(grid, s1, s2), s2, s1) == grid
  {
  }

  /** A swap moves every cell of one state to the other: the two states
      trade their counts and every other count stays. */
  lemma SwapExchangesCounts(grid: seq<TileState>, s1: TileState, s2: TileState, x: TileState)
    requires s1 != s2
    ensures multiset(Swapped(grid, s1, s2))[s1] == multiset(grid)[s2]
    ensures multiset(Swapped(grid, s1, s2))[s2] == multiset(grid)[s1]
    ensures x != s1 && x != s2 ==> multiset(Swapped(grid, s1, s2))[x] == multiset(grid)[x]
    decreases |grid|
  {
    if |grid| > 0 {
      var init := grid[..|grid| - 1];
      SwapExchangesCounts(init, s1, s2, x);
      assert grid == init + [grid[|grid| - 1]];
      assert Swapped(grid, s1, s2) == Swapped(init, s1, s2) + [Swapped(grid, s1, s2)[|grid| - 1]];
    }
  }

  // ----- Flood fill -----

  // The fill's proofs step from cell to neighbouring cell, so the column
  // and row are defined by repeated subtraction of the width, which the
  // verifier unfolds one row at a time; `RowColIsGridCell` shows they are
  // the remainder and quotient of `Tiles.GridCell`.

  /** Column of cell `j` of a map `w` cells wide. */
  function Col(w: nat, j: nat): (c: nat)
    requires w > 0
    ensures c < w
    decreases j
  {
    if j < w then j else Col(w, j - w)
  }

  /** Row of cell `j` of a map `w` cells wide. */
  function Row(w: nat, j: nat): nat
    requires w > 0
    decreases j
  {
    if j < w then 0 else 1 + Row(w, j - w)
  }

  /** Row and column are the quotient and remainder of the index by the
      width: the cell numbering of a row-major map. */
  lemma {:induction false} RowColNumbering(w: nat, j: nat)
    requires w > 0
    ensures Row(w, j) * w + Col(w, j) == j
    decreases j
  {
    if j >= w {
      RowColNumbering(w, j - w);
    }
  }

  /** The recursive numbering is the one `Tiles.GridCell` gives. */
  lemma RowColIsGridCell(w: nat, j: nat)
    requires w > 0
    ensures Tiles.GridCell(j, w) == (Col(w, j), Row(w, j))
  {
    RowColNumbering(w, j);
    Tiles.GridCellOf(Row(w, j), Col(w, j), w);
  }

  /** Stepping to the next index moves one column right, wrapping to the
      next row after the last column. */
  lemma {:induction false} NextCell(w: nat, j: nat)
    requires w > 0
    ensures Col(w, j + 1) == if Col(w, j) == w - 1 then 0 else Col(w, j) + 1
    ensures Row(w, j + 1) == if Col(w, j) == w - 1 then Row(w, j) + 1 else Row(w, j)
    decreases j
  {
    if j >= w {
      NextCell(w, j - w);
      assert j + 1 - w == (j - w) + 1;
    }
  }

  /** The cell of a map `w` cells wide at `j + w` is the one below `j`. */
  lemma CellBelow(w: nat, j: nat)
    requires w > 0
    ensures Col(w, j + w) == Col(w, j) && Row(w, j + w) == Row(w, j) + 1
  {
    assert j + w - w == j;
  }

  /** An index lies in a `w` by `h` map exactly when its row does. */
  lemma {:induction false} RowInGrid(w: nat, h: nat, j: nat)
    requires w > 0
    ensures j < w * h <==> Row(w, j) < h
    decreases j
  {
    if h == 0 {
      assert w * h == 0;
    } else if j < w {
      assert w * h >= w by {
        assert w * h == w * (h - 1) + w;
      }
    } else {
      RowInGrid(w, h - 1, j - w);
      assert w * h == w * (h - 1) + w;
    }
  }

  /** Cells `j` and `k` of a map `w` cells wide are horizontally or
      vertically next to each other: consecutive indices on one row, or
      indices one row apart. */
  predicate Adjacent(w: nat, j: nat, k: nat)
    requires w > 0
  {
    || (k + 1 == j && Col(w, j) != 0)
    || (k == j + 1 && Col(w, k) != 0)
    || k + w == j
    || k == j + w
  }

  /** The cells the fill queues after filling cell `j`: left, right, up and
      down, each only when the map extends that way. */
  function Neighbours(w: nat, h: nat, j: nat): (r: seq<nat>)
    requires w > 0 && j < w * h
    ensures forall k :: k in r ==> k < w * h
  {
    RowInGrid(w, h, j);
    NextCell(w, j);
    RowInGrid(w, h, j + 1);
    CellBelow(w, j);
    RowInGrid(w, h, j + w);
    var r, c := Row(w, j), Col(w, j);
    (if c > 0 then [j - 1] else [])
    + (if c < w - 1 then [j + 1] else [])
    + (if r > 0 then [j - w] else [])
    + (if r < h - 1 then [j + w] else [])
  }

  /** The fill queues exactly the adjacent cells inside the map. */
  lemma NeighboursExact(w: nat, h: nat, j: nat, k: nat)
    requires w > 0 && j < w * h
    ensures k in Neighbours(w, h, j) <==> k < w * h && Adjacent(w, j, k)
  {
    RowInGrid(w, h, j);
    NextCell(w, j);
    RowInGrid(w, h, j + 1);
    CellBelow(w, j);
    RowInGrid(w, h, j + w);
    if k + 1 == j {
      NextCell(w, k);
    }
  }

  /** `p` walks from cell to adjacent cell through cells in state `fs`. */
  ghost predicate IsPath(grid: seq<TileState>, w: nat, fs: TileState, p: seq<nat>)
    requires w > 0
  {
    && |p| > 0
    && (forall k :: 0 <= k < |p| ==> p[k] < |grid| && grid[p[k]] == fs)
    && (forall k :: 0 <= k < |p| - 1 ==> Adjacent(w, p[k], p[k + 1]))
  }

  /** Cell `j` is 4-connected to `at` through cells in the state of `at`. */
  ghost predicate InRegion(grid: seq<TileState>, w: nat, at: nat, j: nat)
    requires w > 0 && at < |grid|
  {
    exists p :: IsPath(grid, w, grid[at], p) && p[0] == at && p[|p| - 1] == j
  }

  lemma RegionStart(grid: seq<TileState>, w: nat, at: nat)
    requires w > 0 && at < |grid|
    ensures InRegion(grid, w, at, at)
  {
    assert IsPath(grid, w, grid[at], [at]);
  }

  /** The region grows by adjacent cells in the region's state. */
  lemma RegionStep(grid: seq<TileState>, w: nat, at: nat, j: nat, k: nat)
    requires w > 0 && at < |grid| && InRegion(grid, w, at, j)
    requires k < |grid| && grid[k] == grid[at] && Adjacent(w, j, k)
    ensures InRegion(grid, w, at, k)
  {
    var p :| IsPath(grid, w, grid[at], p) && p[0] == at && p[|p| - 1] == j;
    var q := p + [k];
    assert IsPath(grid, w, grid[at], q);
  }

  /** Cell `j` has been filled. */
  predicate Filled(grid: seq<TileState>, g: seq<TileState>, j: nat)
    requires |g| == |grid| && j < |grid|
  {
    g[j] != grid[j]
  }

  /** Only region cells have changed, each to the target state. */
  ghost predicate ChangedInRegion(grid: seq<TileState>, w: nat, at: nat, ts: TileState, g: seq<TileState>)
    requires w > 0 && at < |grid| && |g| == |grid|
  {
    forall j :: 0 <= j < |grid| && Filled(grid, g, j) ==> g[j] == ts && InRegion(grid, w, at, j)
  }

  /** A queued cell in the region's state belongs to the region. */
  ghost predicate QueuedInRegion(grid: seq<TileState>, w: nat, at: nat, queue: seq<nat>)
    requires w > 0 && at < |grid|
  {
    forall q :: q in queue && q < |grid| && grid[q] == grid[at] ==> InRegion(grid, w, at, q)
  }

  /** A neighbour of a filled cell that is still in state `fs` waits in the
      queue. */
  ghost predicate FrontierQueued(grid: seq<TileState>, w: nat, h: nat, fs: TileState,
                                 g: seq<TileState>, queue: seq<nat>)
    requires w > 0 && |grid| <= w * h && |g| == |grid|
  {
    forall j, k :: 0 <= j < |grid| && Filled(grid, g, j) && k in Neighbours(w, h, j) && k < |grid| ==>
      g[k] != fs || k in queue
  }

  /** What holds at the top of every round of the fill loop. */
  ghost predicate FillInv(grid: seq<TileState>, w: nat, h: nat, at: nat, ts: TileState,
                          g: seq<TileState>, queue: seq<nat>)
    requires w > 0 && |grid| <= w * h && at < |grid|
  {
    && |g| == |grid|
    && ChangedInRegion(grid, w, at, ts, g)
    && QueuedInRegion(grid, w, at, queue)
    && FrontierQueued(grid, w, h, grid[at], g, queue)
    && (Filled(grid, g, at) || at in queue)
  }

  /** Flood fill from the clicked cell `at` to the target state `ts`. */
  method FloodFill(grid: seq<TileState>, w: nat, h: nat, at: nat, ts: TileState)
    returns (g: seq<TileState>)
    requires w > 0 && |grid| <= w * h && at < |grid|
    ensures |g| == |grid|
    ensures grid[at] == ts ==> g == grid
    ensures grid[at] != ts ==> forall j :: 0 <= j < |grid| ==>
      g[j] == if InRegion(grid, w, at, j) then ts else grid[j]
  {
    var fs := grid[at];
    if fs == ts {
      return grid;
    }
    var n := |grid|;
    g := grid;
    var queue := [at];
    while |queue| > 0
      invariant FillInv(grid, w, h, at, ts, g, queue)
      decreases multiset(g)[fs], |queue|
    {
      var j := queue[0];
      var rest := queue[1..];
      assert queue == [j] + rest;
      queue := rest;
      if j >= n {
        PopKeeps(grid, w, h, at, ts, g, j, rest);
        continue;
      }
      if g[j] != fs {
        PopKeeps(grid, w, h, at, ts, g, j, rest);
        continue;
      }
      FillKeeps(grid, w, h, at, ts, g, j, rest);
      g := g[j := ts];
      queue := queue + Neighbours(w, h, j);
    }
    FillComplete(grid, w, h, at, ts, g);
  }

  /** Dropping a queued cell that is outside the map or no longer in the
      region's state keeps the invariant. */
  lemma PopKeeps(grid: seq<TileState>, w: nat, h: nat, at: nat, ts: TileState,
                 g: seq<TileState>, j: nat, rest: seq<nat>)
    requires w > 0 && |grid| <= w * h && at < |grid| && grid[at] != ts
    requires FillInv(grid, w, h, at, ts, g, [j] + rest)
    requires j >= |grid| || g[j] != grid[at]
    ensures FillInv(grid, w, h, at, ts, g, rest)
  {
    var fs := grid[at];
    forall i, k | 0 <= i < |grid| && Filled(grid, g, i) && k in Neighbours(w, h, i) && k < |grid|
      ensures g[k] != fs || k in rest
    {
      assert g[k] != fs || k in [j] + rest;
    }
    if !Filled(grid, g, at) {
      assert at in [j] + rest;
    }
  }

  /** Filling a queued cell in the region's state and queueing its
      neighbours keeps the invariant. */
  lemma FillKeeps(grid: seq<TileState>, w: nat, h: nat, at: nat, ts: TileState,
                  g: seq<TileState>, j: nat, rest: seq<nat>)
    requires w > 0 && |grid| <= w * h && at < |grid| && grid[at] != ts
    requires FillInv(grid, w, h, at, ts, g, [j] + rest)
    requires j < |grid| && g[j] == grid[at]
    ensures FillInv(grid, w, h, at, ts, g[j := ts], rest + Neighbours(w, h, j))
  {
    var fs := grid[at];
    var g', queue' := g[j := ts], rest + Neighbours(w, h, j);
    assert grid[j] == fs;
    assert j in [j] + rest;
    assert InRegion(grid, w, at, j);
    assert QueuedInRegion(grid, w, at, rest) by {
      forall q | q in rest ensures q in [j] + rest { }
    }
    QueueGrows(grid, w, h, at, j, rest);
    FrontierGrows(grid, w, h, fs, ts, g, j, rest);
    if !Filled(grid, g', at) {
      assert at != j && at in [j] + rest;
    }
  }

  /** Queueing the neighbours of a region cell keeps the queue sound. */
  lemma QueueGrows(grid: seq<TileState>, w: nat, h: nat, at: nat, j: nat, rest: seq<nat>)
    requires w > 0 && |grid| <= w * h && at < |grid| && j < |grid|
    requires InRegion(grid, w, at, j) && QueuedInRegion(grid, w, at, rest)
    ensures QueuedInRegion(grid, w, at, rest + Neighbours(w, h, j))
  {
    forall q | q in rest + Neighbours(w, h, j) && q < |grid| && grid[q] == grid[at]
      ensures InRegion(grid, w, at, q)
    {
      if q !in rest {
        NeighboursExact(w, h, j, q);
        RegionStep(grid, w, at, j, q);
      }
    }
  }

  /** Filling cell `j` and queueing its neighbours keeps every neighbour of
      a filled cell that is still in state `fs` queued. */
  lemma FrontierGrows(grid: seq<TileState>, w: nat, h: nat, fs: TileState, ts: TileState,
                      g: seq<TileState>, j: nat, rest: seq<nat>)
    requires w > 0 && |grid| <= w * h && |g| == |grid| && fs != ts
    requires j < |grid| && g[j] == fs && grid[j] == fs
    requires FrontierQueued(grid, w, h, fs, g, [j] + rest)
    ensures FrontierQueued(grid, w, h, fs, g[j := ts], rest + Neighbours(w, h, j))
  {
    var g', queue' := g[j := ts], rest + Neighbours(w, h, j);
    forall i, k | 0 <= i < |grid| && Filled(grid, g', i) && k in Neighbours(w, h, i) && k < |grid|
      ensures g'[k] != fs || k in queue'
    {
      if i != j && k != j {
        assert Filled(grid, g, i);
        assert g[k] != fs || k in [j] + rest;
      }
    }
  }

  /** When the queue runs dry the filled cells are exactly the region. */
  lemma FillComplete(grid: seq<TileState>, w: nat, h: nat, at: nat, ts: TileState, g: seq<TileState>)
    requires w > 0 && |grid| <= w * h && at < |grid| && grid[at] != ts
    requires FillInv(grid, w, h, at, ts, g, [])
    ensures forall j :: 0 <= j < |grid| ==> g[j] == if InRegion(grid, w, at, j) then ts else grid[j]
  {
    forall j | 0 <= j < |grid|
      ensures g[j] == if InRegion(grid, w, at, j) then ts else grid[j]
    {
      if InRegion(grid, w, at, j) {
        var p :| IsPath(grid, w, grid[at], p) && p[0] == at && p[|p| - 1] == j;
        PathFilled(grid, w, h, at, ts, g, p, |p| - 1);
      }
    }
  }

  /** Along a path from the start, every cell up to position `m` is
      filled. */
  lemma {:induction false} PathFilled(grid: seq<TileState>, w: nat, h: nat, at: nat, ts: TileState,
                                      g: seq<TileState>, p: seq<nat>, m: nat)
    requires w > 0 && |grid| <= w * h && at < |grid| && grid[at] != ts
    requires FillInv(grid, w, h, at, ts, g, [])
    requires IsPath(grid, w, grid[at], p) && p[0] == at && m < |p|
    ensures Filled(grid, g, p[m])
  {
    if m > 0 {
      PathFilled(grid, w, h, at, ts, g, p, m - 1);
      var i, k := p[m - 1], p[m];
      assert Adjacent(w, i, k);
      NeighboursExact(w, h, i, k);
      assert g[k] != grid[at];
    }
  }
}
