/**
  The tileset builder: walks the tiles of a converted image in order, maps
  blank tiles to the space id when asked to, looks every other tile up in the
  tileset built so far (first equivalent entry wins) and appends the tile when
  nothing matches, unless the format's tile-index space is exhausted.

  `are_identical_tiles`, `is_blank_tile` and `format_tileset_size` are not
  part of this model; they enter as the fields of `Params`.
 */
module Builder {
  import opened Tiles

  datatype Flips = Flips(x: bool, y: bool)

  const NoFlips := Flips(false, false)

  /** What one call of the tile comparison reports: whether the tiles are
      equivalent under the format's flips, and the flip flags it leaves in its
      two out-parameters (also when the tiles differ). */
  datatype Comparison = Comparison(identical: bool, flips: Flips)

  /** A tilemap cell as the builder creates it; its position is assigned by
      the tilemap that later reads the file back. */
  datatype Cell = Cell(id: nat, flips: Flips)

  /** Everything a conversion run is parameterised by. */
  datatype Params<!T> = Params(
    compare: (T, T) -> Comparison, // tile comparison for the chosen format
    isBlank: T -> bool,               // blank-tile test
    capacity: nat,                       // tile-index space of the chosen format
    startId: nat,                        // id given to the first tileset entry
    useSpace: bool,                      // map blank tiles to spaceId
    spaceId: nat,
    idWidth: IdWidth)                    // type the cell stores its id in

  /** The builder's state: whether it is still going, and its two outputs. */
  datatype Build = Build(ok: bool, tilemap: seq<Cell>, tileset: seq<nat>)

  datatype ScanResult = ScanResult(index: nat, flips: Flips)

  /** Every tileset entry names one of the first `bound` tiles. */
  ghost predicate ValidTileset(ts: seq<nat>, bound: nat)
  {
    forall k :: 0 <= k < |ts| ==> ts[k] < bound
  }

  ghost predicate StrictlyIncreasing(ts: seq<nat>)
  {
    forall k, l :: 0 <= k < l < |ts| ==> ts[k] < ts[l]
  }

  predicate IsSpace<T>(p: Params<T>, t: T)
  {
    p.useSpace && p.isBlank(t)
  }

  /** Every tileset position, offset by the start id, is within the format's
      tile-index space. */
  predicate Fits<T>(p: Params<T>, ts: seq<nat>)
  {
    |ts| == 0 || |ts| - 1 + p.startId <= p.capacity
  }

  /** No tileset entry at positions lo..hi-1 is equivalent to `tile`. */
  predicate NoMatchBetween<T>(cmp: (T, T) -> Comparison, tile: T, tiles: seq<T>, ts: seq<nat>, lo: nat, hi: nat)
    decreases hi - lo
  {
    lo >= hi ||
      (lo < |ts| && ts[lo] < |tiles| && !cmp(tile, tiles[ts[lo]]).identical
       && NoMatchBetween(cmp, tile, tiles, ts, lo + 1, hi))
  }

  /** The recursive form above says the same as the quantified one. */
  lemma {:induction false} NoMatchBetweenMeans<T>(cmp: (T, T) -> Comparison, tile: T, tiles: seq<T>,
                                                  ts: seq<nat>, lo: nat, hi: nat)
    requires hi <= |ts| && forall k :: 0 <= k < |ts| ==> ts[k] < |tiles|
    ensures NoMatchBetween(cmp, tile, tiles, ts, lo, hi)
        <==> forall q :: lo <= q < hi ==> !cmp(tile, tiles[ts[q]]).identical
    decreases hi - lo
  {
    if lo < hi {
      NoMatchBetweenMeans(cmp, tile, tiles, ts, lo + 1, hi);
    }
  }

  /** The linear scan of the tileset from position `ti` on, threading the
      flip flags the comparisons leave behind. */
  function ScanFrom<T>(cmp: (T, T) -> Comparison, tile: T, tiles: seq<T>,
                    ts: seq<nat>, ti: nat, flips: Flips): (r: ScanResult)
    requires ti <= |ts|
    requires forall k :: 0 <= k < |ts| ==> ts[k] < |tiles|
    ensures ti <= r.index <= |ts|
    ensures NoMatchBetween(cmp, tile, tiles, ts, ti, r.index)
    ensures r.index < |ts| ==> cmp(tile, tiles[ts[r.index]]) == Comparison(true, r.flips)
    ensures r.index == |ts| && ti < |ts| ==> r.flips == cmp(tile, tiles[ts[|ts| - 1]]).flips
    ensures r.index == |ts| && ti == |ts| ==> r.flips == flips
    decreases |ts| - ti
  {
    if ti == |ts| then ScanResult(ti, flips)
    else
      var c := cmp(tile, tiles[ts[ti]]);
      if c.identical then ScanResult(ti, c.flips)
      else ScanFrom(cmp, tile, tiles, ts, ti + 1, c.flips)
  }

  /** The scan as build_tilemap starts it: from position 0 with both flags false. */
  function Scan<T>(cmp: (T, T) -> Comparison, tile: T, tiles: seq<T>, ts: seq<nat>): ScanResult
    requires forall k :: 0 <= k < |ts| ==> ts[k] < |tiles|
  {
    ScanFrom(cmp, tile, tiles, ts, 0, NoFlips)
  }

  /** Processes tile `i` on top of a build that has handled tiles 0..i-1. */
  function Admit<T>(p: Params<T>, tiles: seq<T>, prev: Build, i: nat): (b: Build)
    requires prev.ok && |prev.tilemap| == i < |tiles|
    requires ValidTileset(prev.tileset, i)
    ensures b.ok ==> |b.tilemap| == i + 1 && ValidTileset(b.tileset, i + 1)
    ensures b.ok ==> b.tilemap[..i] == prev.tilemap
    ensures b.ok ==> b.tileset == prev.tileset || b.tileset == prev.tileset + [i]
    ensures !b.ok ==> b.tilemap == prev.tilemap && b.tileset == prev.tileset
    ensures b.ok && |prev.tileset| < |b.tileset| ==> |prev.tileset| + p.startId <= p.capacity
  {
    var tile := tiles[i];
    if IsSpace(p, tile) then
      Build(true, prev.tilemap + [Cell(p.spaceId, NoFlips)], prev.tileset)
    else
      var nt := |prev.tileset|;
      var s := Scan(p.compare, tile, tiles, prev.tileset);
      if s.index == nt && nt + p.startId > p.capacity then
        Build(false, prev.tilemap, prev.tileset)
      else
        var ts := if s.index == nt then prev.tileset + [i] else prev.tileset;
        Build(true, prev.tilemap + [Cell(Narrow(p.startId + s.index, p.idWidth), s.flips)], ts)
  }

  /** The build after the first `k` tiles. */
  function BuildPrefix<T>(p: Params<T>, tiles: seq<T>, k: nat): (b: Build)
    requires k <= |tiles|
    ensures |b.tilemap| <= k
    ensures b.ok <==> |b.tilemap| == k
    ensures ValidTileset(b.tileset, |b.tilemap|)
    ensures Fits(p, b.tileset)
  {
    if k == 0 then Build(true, [], [])
    else
      var prev := BuildPrefix(p, tiles, k - 1);
      if !prev.ok then prev else Admit(p, tiles, prev, k - 1)
  }

  /** Tileset entries are input indices in strictly increasing order. */
  lemma {:induction false} TilesetIncreasing<T>(p: Params<T>, tiles: seq<T>, k: nat)
    requires k <= |tiles|
    ensures var b := BuildPrefix(p, tiles, k);
      StrictlyIncreasing(b.tileset) && ValidTileset(b.tileset, |tiles|)
  {
    if k > 0 {
      TilesetIncreasing(p, tiles, k - 1);
    }
  }

  /** Cell `c` of tile `i` refers to tileset position `pos`, and that is the
      position the builder's rule picks: the first earlier entry the tile is
      equivalent to, or else the entry appended for the tile itself. */
  ghost predicate Explains<T>(p: Params<T>, tiles: seq<T>, ts: seq<nat>, i: nat, pos: nat, c: Cell)
  {
    && i < |tiles|
    && pos < |ts|
    && (forall k :: 0 <= k <= pos ==> ts[k] < |tiles|)
    && ts[pos] <= i
    && c.id == Narrow(p.startId + pos, p.idWidth)
    && p.startId + pos <= p.capacity
    && (ts[pos] == i <==> i in ts)
    && NoMatchBetween(p.compare, tiles[i], tiles, ts, 0, pos)
    && (if ts[pos] == i then
          c.flips == (if pos == 0 then NoFlips else p.compare(tiles[i], tiles[ts[pos - 1]]).flips)
        else
          p.compare(tiles[i], tiles[ts[pos]]) == Comparison(true, c.flips))
  }

  /** Cell `i` of a build is a space cell that stays out of the tileset, or it
      is explained by the rule. */
  ghost predicate CellExplained<T>(p: Params<T>, tiles: seq<T>, b: Build, i: nat)
  {
    i < |b.tilemap| && i < |tiles| &&
    if IsSpace(p, tiles[i]) then
      b.tilemap[i] == Cell(p.spaceId, NoFlips) && i !in b.tileset
    else
      exists pos :: Explains(p, tiles, b.tileset, i, pos, b.tilemap[i])
  }

  ghost predicate CellsExplained<T>(p: Params<T>, tiles: seq<T>, b: Build)
  {
    forall i :: 0 <= i < |b.tilemap| ==> CellExplained(p, tiles, b, i)
  }

  /** Every cell the builder emits is a space cell that stays out of the
      tileset, or carries the id and flips of the tileset position the
      first-match rule picks. */
  lemma {:induction false} BuildExplainsCells<T>(p: Params<T>, tiles: seq<T>, k: nat)
    requires k <= |tiles|
    ensures CellsExplained(p, tiles, BuildPrefix(p, tiles, k))
  {
    if k > 0 {
      var prev := BuildPrefix(p, tiles, k - 1);
      BuildExplainsCells(p, tiles, k - 1);
      if prev.ok {
        AdmitKeepsExplained(p, tiles, prev, k - 1);
      }
    }
  }

  lemma AdmitKeepsExplained<T>(p: Params<T>, tiles: seq<T>, prev: Build, i: nat)
    requires prev.ok && |prev.tilemap| == i < |tiles|
    requires ValidTileset(prev.tileset, i) && Fits(p, prev.tileset)
    requires CellsExplained(p, tiles, prev)
    ensures CellsExplained(p, tiles, Admit(p, tiles, prev, i))
  {
    var b := Admit(p, tiles, prev, i);
    if !b.ok {
      forall j | 0 <= j < |b.tilemap|
        ensures CellExplained(p, tiles, b, j)
      {
        assert CellExplained(p, tiles, prev, j);
      }
    } else {
      forall j | 0 <= j < |b.tilemap|
        ensures CellExplained(p, tiles, b, j)
      {
        if j < i {
          assert CellExplained(p, tiles, prev, j);
          OldCellStillExplained(p, tiles, prev, b, i, j);
        } else {
          NewCellExplained(p, tiles, prev, i);
        }
      }
    }
  }

  /** Appending a cell and possibly a later tileset entry keeps an earlier
      cell explained. */
  lemma OldCellStillExplained<T>(p: Params<T>, tiles: seq<T>, prev: Build, b: Build, i: nat, j: nat)
    requires |prev.tilemap| == i < |tiles| && j < i
    requires ValidTileset(prev.tileset, i)
    requires CellExplained(p, tiles, prev, j)
    requires |b.tilemap| == i + 1 && b.tilemap[..i] == prev.tilemap
    requires b.tileset == prev.tileset || b.tileset == prev.tileset + [i]
    ensures CellExplained(p, tiles, b, j)
  {
    assert b.tilemap[j] == prev.tilemap[j];
    assert j in b.tileset <==> j in prev.tileset;
    if !IsSpace(p, tiles[j]) {
      var pos :| Explains(p, tiles, prev.tileset, j, pos, prev.tilemap[j]);
      ExplainsExtends(p, tiles, prev.tileset, b.tileset, j, pos, prev.tilemap[j]);
    }
  }

  /** An explanation only looks at the tileset up to the chosen position. */
  lemma ExplainsExtends<T>(p: Params<T>, tiles: seq<T>, ts: seq<nat>, ts': seq<nat>, j: nat, pos: nat, c: Cell)
    requires Explains(p, tiles, ts, j, pos, c)
    requires |ts| <= |ts'| && ts'[..|ts|] == ts
    requires j in ts <==> j in ts'
    ensures Explains(p, tiles, ts', j, pos, c)
  {
    assert forall q :: 0 <= q <= pos ==> ts'[q] == ts[q];
    NoMatchBetweenPrefix(p.compare, tiles[j], tiles, ts, ts', 0, pos);
  }

  lemma {:induction false} NoMatchBetweenPrefix<T>(cmp: (T, T) -> Comparison, tile: T, tiles: seq<T>,
                                                   ts: seq<nat>, ts': seq<nat>, lo: nat, hi: nat)
    requires hi <= |ts| <= |ts'| && ts'[..|ts|] == ts
    requires NoMatchBetween(cmp, tile, tiles, ts, lo, hi)
    ensures NoMatchBetween(cmp, tile, tiles, ts', lo, hi)
    decreases hi - lo
  {
    if lo < hi {
      assert ts'[lo] == ts[lo];
      NoMatchBetweenPrefix(cmp, tile, tiles, ts, ts', lo + 1, hi);
    }
  }

  /** The cell `Admit` appends for tile `i` is explained by the rule. */
  lemma NewCellExplained<T>(p: Params<T>, tiles: seq<T>, prev: Build, i: nat)
    requires prev.ok && |prev.tilemap| == i < |tiles|
    requires ValidTileset(prev.tileset, i) && Fits(p, prev.tileset)
    requires Admit(p, tiles, prev, i).ok
    ensures CellExplained(p, tiles, Admit(p, tiles, prev, i), i)
  {
    var b := Admit(p, tiles, prev, i);
    if !IsSpace(p, tiles[i]) {
      var s := Scan(p.compare, tiles[i], tiles, prev.tileset);
      if s.index == |prev.tileset| {
        NoMatchBetweenPrefix(p.compare, tiles[i], tiles, prev.tileset, b.tileset, 0, s.index);
      }
      assert Explains(p, tiles, b.tileset, i, s.index, b.tilemap[i]);
    }
  }

  /** A failed build stops at the first tile that needs a new tileset entry
      while `tileset.size() + start_id` already exceeds the tile-index space:
      the cells emitted are exactly those of the successful build of the
      tiles before it, and no cell is emitted for it or any later tile. */
  lemma {:induction false} BuildFailsAtOverflow<T>(p: Params<T>, tiles: seq<T>, k: nat)
    requires k <= |tiles|
    ensures var b := BuildPrefix(p, tiles, k);
      !b.ok ==>
        var i := |b.tilemap|;
        && i < k
        && BuildPrefix(p, tiles, i) == Build(true, b.tilemap, b.tileset)
        && !IsSpace(p, tiles[i])
        && (forall q :: 0 <= q < |b.tileset| ==> !p.compare(tiles[i], tiles[b.tileset[q]]).identical)
        && |b.tileset| + p.startId > p.capacity
  {
    if k > 0 {
      var prev := BuildPrefix(p, tiles, k - 1);
      BuildFailsAtOverflow(p, tiles, k - 1);
      if prev.ok {
        var b := Admit(p, tiles, prev, k - 1);
        if !b.ok {
          var s := Scan(p.compare, tiles[k - 1], tiles, prev.tileset);
          assert s.index == |prev.tileset|;
          NoMatchBetweenMeans(p.compare, tiles[k - 1], tiles, prev.tileset, 0, s.index);
        }
      }
    }
  }

  /** When none of the first `k` tiles is a space tile and none is equivalent
      to an earlier one, every tile becomes a tileset entry, and the build
      succeeds exactly when the last position still passes the capacity test,
      which admits the id `capacity` itself. */
  lemma {:induction false} DistinctTilesBoundary<T>(p: Params<T>, tiles: seq<T>, k: nat)
    requires k <= |tiles|
    requires forall i :: 0 <= i < k ==> !IsSpace(p, tiles[i])
    requires forall i, j :: 0 <= j < i < k ==> !p.compare(tiles[i], tiles[j]).identical
    ensures BuildPrefix(p, tiles, k).ok <==> k == 0 || k + p.startId <= p.capacity + 1
    ensures BuildPrefix(p, tiles, k).ok ==> BuildPrefix(p, tiles, k).tileset == seq(k, j => j)
  {
    if k > 0 {
      DistinctTilesBoundary(p, tiles, k - 1);
      var prev := BuildPrefix(p, tiles, k - 1);
      if prev.ok {
        var b := Admit(p, tiles, prev, k - 1);
        assert b == BuildPrefix(p, tiles, k);
        var s := Scan(p.compare, tiles[k - 1], tiles, prev.tileset);
        assert s.index == |prev.tileset| == k - 1;
        assert b.ok <==> k - 1 + p.startId <= p.capacity;
        if b.ok {
          assert b.tileset == prev.tileset + [k - 1];
          assert seq(k - 1, j => j) + [k - 1] == seq(k, j => j);
        }
      }
    }
  }

  /** Once the build has failed, later tiles change nothing. */
  lemma {:induction false} FailureSticks<T>(p: Params<T>, tiles: seq<T>, i: nat, k: nat)
    requires i <= k <= |tiles|
    requires !BuildPrefix(p, tiles, i).ok
    ensures BuildPrefix(p, tiles, k) == BuildPrefix(p, tiles, i)
    decreases k - i
  {
    if i < k {
      FailureSticks(p, tiles, i, k - 1);
    }
  }

  /** The inner loop of `build_tilemap`: the first tileset position whose tile
      is equivalent to `tile`, or the tileset size, and the flags the last
      comparison left behind. */
  method ScanTileset<T>(cmp: (T, T) -> Comparison, tile: T, tiles: seq<T>, ts: seq<nat>)
    returns (ti: nat, flips: Flips)
    requires forall k :: 0 <= k < |ts| ==> ts[k] < |tiles|
    ensures ScanResult(ti, flips) == Scan(cmp, tile, tiles, ts)
  {
    ti, flips := 0, NoFlips;
    while ti < |ts|
      invariant ti <= |ts|
      invariant ScanFrom(cmp, tile, tiles, ts, ti, flips) == Scan(cmp, tile, tiles, ts)
    {
      var c := cmp(tile, tiles[ts[ti]]);
      flips := c.flips;
      if c.identical {
        return;
      }
      ti := ti + 1;
    }
  }

  /** `build_tilemap`: the loop of the source over the input tiles. */
  method BuildTilemap<T>(p: Params<T>, tiles: seq<T>) returns (ok: bool, tilemap: seq<Cell>, tileset: seq<nat>)
    ensures Build(ok, tilemap, tileset) == BuildPrefix(p, tiles, |tiles|)
  {
    tilemap, tileset := [], [];
    var i := 0;
    while i < |tiles|
      invariant i <= |tiles|
      invariant BuildPrefix(p, tiles, i) == Build(true, tilemap, tileset)
    {
      ok, tilemap, tileset := BuildStep(p, tiles, tilemap, tileset, i);
      if !ok {
        FailureSticks(p, tiles, i + 1, |tiles|);
        return;
      }
      i := i + 1;
    }
    ok := true;
  }

  /** One iteration of that loop: tile `i` becomes a space cell, a cell
      referring to the first equivalent entry, or a new entry, unless the
      capacity test rejects it. */
  method BuildStep<T>(p: Params<T>, tiles: seq<T>, tilemap: seq<Cell>, tileset: seq<nat>, i: nat)
    returns (ok: bool, tilemap': seq<Cell>, tileset': seq<nat>)
    requires |tilemap| == i < |tiles| && ValidTileset(tileset, i)
    ensures Build(ok, tilemap', tileset') == Admit(p, tiles, Build(true, tilemap, tileset), i)
  {
    var tile := tiles[i];
    if p.useSpace && p.isBlank(tile) {
      return true, tilemap + [Cell(p.spaceId, NoFlips)], tileset;
    }
    var nt := |tileset|;
    var ti, flips := ScanTileset(p.compare, tile, tiles, tileset);
    tileset' := tileset;
    if ti == nt {
      if nt + p.startId > p.capacity {
        return false, tilemap, tileset;
      }
      tileset' := tileset + [i];
    }
    return true, tilemap + [Cell(Narrow(p.startId + ti, p.idWidth), flips)], tileset';
  }

  /** The id the older inline converter gives blank tiles. */
  const SPACE_TILE_ID: nat := 0x7F

  /** Parameters of the older inline converter: byte-wide ids and a hard
      capacity of 0xFF whatever the format. */
  function InlineParams<T>(compare: (T, T) -> Comparison, isBlank: T -> bool,
                        startId: nat, use7f: bool): Params<T>
  {
    Params(compare, isBlank, 0xFF, startId, use7f, SPACE_TILE_ID, U8)
  }

  datatype Conversion = Converted(tilemap: seq<Cell>, tileset: seq<nat>) | TooManyUniqueTiles

  /** Blank tiles (when enabled) carry SPACE_TILE_ID; every other cell's id is
      the start id plus a tileset position whose entry is that tile or an
      earlier one, with no wrap-around, so it is at most 0xFF. */
  ghost predicate ByteIdsExact<T>(isBlank: T -> bool, startId: nat, use7f: bool, tiles: seq<T>,
                                  tilemap: seq<Cell>, tileset: seq<nat>)
  {
    && |tilemap| == |tiles|
    && (forall i :: 0 <= i < |tiles| && use7f && isBlank(tiles[i]) ==> tilemap[i] == Cell(SPACE_TILE_ID, NoFlips))
    && (forall i :: 0 <= i < |tiles| && !(use7f && isBlank(tiles[i])) ==>
          && startId <= tilemap[i].id <= 0xFF
          && tilemap[i].id - startId < |tileset|
          && tileset[tilemap[i].id - startId] <= i)
  }

  /** The older inline copy of the builder loop in `image_to_tiles`. On
      rejection every cell built so far is released, so nothing is returned.
      A new tile is admitted only while `nt + start_id <= 0xFF`, so the byte
      id `start_id + ti` never wraps: every non-space cell's id is exactly the
      start id plus the position of the tileset entry it refers to. */
  function ConvertInline<T>(compare: (T, T) -> Comparison, isBlank: T -> bool,
                            startId: nat, use7f: bool, tiles: seq<T>): (r: Conversion)
    requires startId < 0x100
    ensures r.Converted? ==> |r.tilemap| == |tiles| && ValidTileset(r.tileset, |tiles|)
    ensures r.Converted? ==> |r.tileset| + startId <= 0x100
    ensures r.Converted? ==> ByteIdsExact(isBlank, startId, use7f, tiles, r.tilemap, r.tileset)
  {
    var b := BuildPrefix(InlineParams(compare, isBlank, startId, use7f), tiles, |tiles|);
    if b.ok then
      InlineIdsNeverWrap(compare, isBlank, startId, use7f, tiles);
      Converted(b.tilemap, b.tileset)
    else
      TooManyUniqueTiles
  }

  /** The id arithmetic behind `ConvertInline`'s contract. */
  lemma InlineIdsNeverWrap<T>(compare: (T, T) -> Comparison, isBlank: T -> bool,
                              startId: nat, use7f: bool, tiles: seq<T>)
    requires startId < 0x100
    ensures var b := BuildPrefix(InlineParams(compare, isBlank, startId, use7f), tiles, |tiles|);
      b.ok ==> ByteIdsExact(isBlank, startId, use7f, tiles, b.tilemap, b.tileset)
  {
    var p := InlineParams(compare, isBlank, startId, use7f);
    BuildExplainsCells(p, tiles, |tiles|);
    var b := BuildPrefix(p, tiles, |tiles|);
    if b.ok {
      ExplainedByteIds(p, tiles, b);
    }
  }

  /** Explained cells under a byte-wide id with capacity 0xFF carry exact ids. */
  lemma ExplainedByteIds<T>(p: Params<T>, tiles: seq<T>, b: Build)
    requires p.idWidth == U8 && p.capacity == 0xFF && p.spaceId == SPACE_TILE_ID
    requires |b.tilemap| == |tiles| && CellsExplained(p, tiles, b)
    ensures ByteIdsExact(p.isBlank, p.startId, p.useSpace, tiles, b.tilemap, b.tileset)
  {
    forall i | 0 <= i < |tiles|
      ensures IsSpace(p, tiles[i]) ==> b.tilemap[i] == Cell(p.spaceId, NoFlips)
      ensures !IsSpace(p, tiles[i]) ==>
        && p.startId <= b.tilemap[i].id <= 0xFF
        && b.tilemap[i].id - p.startId < |b.tileset|
        && b.tileset[b.tilemap[i].id - p.startId] <= i
    {
      InlineCell(p, tiles, b, i);
    }
  }

  lemma InlineCell<T>(p: Params<T>, tiles: seq<T>, b: Build, i: nat)
    requires p.idWidth == U8 && p.capacity == 0xFF
    requires |b.tilemap| == |tiles| && CellsExplained(p, tiles, b) && i < |tiles|
    ensures IsSpace(p, tiles[i]) ==> b.tilemap[i] == Cell(p.spaceId, NoFlips)
    ensures !IsSpace(p, tiles[i]) ==>
        && p.startId <= b.tilemap[i].id <= 0xFF
        && b.tilemap[i].id - p.startId < |b.tileset|
        && b.tileset[b.tilemap[i].id - p.startId] <= i
  {
    assert CellExplained(p, tiles, b, i);
    if !IsSpace(p, tiles[i]) {
      var pos :| Explains(p, tiles, b.tileset, i, pos, b.tilemap[i]);
      ByteIdExact(p, tiles, b.tileset, i, pos, b.tilemap[i]);
      assert b.tilemap[i].id - p.startId == pos;
    }
  }

  lemma ByteIdExact<T>(p: Params<T>, tiles: seq<T>, ts: seq<nat>, i: nat, pos: nat, c: Cell)
    requires p.idWidth == U8 && p.capacity == 0xFF
    requires Explains(p, tiles, ts, i, pos, c)
    ensures pos < |ts| && ts[pos] <= i && c.id == p.startId + pos <= 0xFF
  {
  }

}
