/**
  The layout of the written tileset image: the tileset's tiles are laid out
  row-major on a grid at most `TILES_PER_ROW` tiles wide and as many rows
  high as they need, on a white background.

  As written, the row count divides by the grid width, which is zero for an
  empty tileset; `GridHeightAsWritten` keeps that division and
  `EmptyTilesetDividesByZero` shows a successful build that reaches it.
  `GridHeight` and `DrawTileset` treat an empty tileset as an empty image.

  The drawing surface, the image file and FLTK's colour state are not part
  of this model: the image is the grid of colours the surface ends up with.
 */
module Layout {
  import opened Tiles
  import Builder

  /** FLTK's `FL_WHITE`, the background colour. */
  const WHITE: Color := 0xFF

  /** Grid width in tiles: the tile count, capped at `TILES_PER_ROW`. */
  function GridWidth(nt: nat): (tw: nat)
    ensures tw <= TILES_PER_ROW && tw <= nt
    ensures tw == 0 <==> nt == 0
    ensures nt >= TILES_PER_ROW ==> tw == TILES_PER_ROW
  {
    if nt < TILES_PER_ROW then nt else TILES_PER_ROW
  }

  /** The row count as written: a rounded-up division by the grid width,
      defined only when that width is not zero. */
  function GridHeightAsWritten(nt: nat): (th: nat)
    requires GridWidth(nt) > 0
    ensures GridWidth(nt) * th >= nt
  {
    CeilDiv(nt, GridWidth(nt));
    (nt + GridWidth(nt) - 1) / GridWidth(nt)
  }

  /** The row count, with zero rows for an empty tileset. */
  function GridHeight(nt: nat): (th: nat)
    ensures nt == 0 ==> th == 0
    ensures nt > 0 ==> th == GridHeightAsWritten(nt)
    ensures GridWidth(nt) * th >= nt
  {
    if nt == 0 then 0 else GridHeightAsWritten(nt)
  }

  /** A rounded-up quotient has room for the dividend and no spare row. */
  lemma CeilDiv(n: nat, d: nat)
    requires d > 0
    ensures d * ((n + d - 1) / d) >= n
    ensures n > 0 ==> d * ((n + d - 1) / d - 1) < n
  {
    var q, r := (n + d - 1) / d, (n + d - 1) % d;
    assert n + d - 1 == d * q + r && 0 <= r < d;
    assert d * (q - 1) == d * q - d;
  }

  /** The grid has room for every tile, its last row is not empty, and it
      has as many rows as a grid exactly `TILES_PER_ROW` wide would. */
  lemma GridFits(nt: nat)
    ensures GridWidth(nt) * GridHeight(nt) >= nt
    ensures nt > 0 ==> GridWidth(nt) * (GridHeight(nt) - 1) < nt
    ensures GridHeight(nt) == (nt + TILES_PER_ROW - 1) / TILES_PER_ROW
  {
    if nt > 0 {
      CeilDiv(nt, GridWidth(nt));
      if nt < TILES_PER_ROW {
        assert GridHeight(nt) == 1 by {
          assert (nt + nt - 1) / nt == 1 by {
            assert nt + nt - 1 == nt * 1 + (nt - 1);
          }
        }
      }
    }
  }

  /** Every tileset entry lands on a cell of the grid, and no two entries
      share one. */
  lemma CellsInGrid(nt: nat, i: nat, j: nat)
    requires i < nt && j < nt
    ensures GridCell(i, GridWidth(nt)).1 < GridHeight(nt)
    ensures i != j ==> GridCell(i, GridWidth(nt)) != GridCell(j, GridWidth(nt))
  {
    GridFits(nt);
    var tw, c := GridWidth(nt), GridCell(i, GridWidth(nt));
    RowBound(c.1, GridHeight(nt), tw);
  }

  lemma RowBound(r: nat, th: nat, tw: nat)
    requires tw > 0 && r * tw < tw * th
    ensures r < th
  {
    assert (th - r) * tw > 0;
  }

  /** A drawn image: `rows[y][x]` is the pixel at column `x` of row `y`. */
  datatype Image = Image(width: nat, height: nat, rows: seq<seq<Color>>)

  ghost predicate WellFormed(img: Image)
  {
    |img.rows| == img.height && forall y :: 0 <= y < |img.rows| ==> |img.rows[y]| == img.width
  }

  /** Every tileset entry names one of `tiles`. */
  ghost predicate ValidEntries(tiles: seq<Tile>, tileset: seq<nat>)
  {
    forall k :: 0 <= k < |tileset| ==> tileset[k] < |tiles|
  }

  /** The colour at pixel (`px`, `py`) once the background is filled and
      every entry's pixels are plotted at its cell. */
  function PixelAt(tiles: seq<Tile>, tileset: seq<nat>, tw: nat, px: nat, py: nat): (c: Color)
    requires tw > 0 && ValidEntries(tiles, tileset)
    ensures c == WHITE || exists e :: 0 <= e < |tileset| && c in tiles[tileset[e]]
  {
    var i := (py / TILE_SIZE) * tw + px / TILE_SIZE;
    if px / TILE_SIZE < tw && i < |tileset| then
      tiles[tileset[i]][(py % TILE_SIZE) * TILE_SIZE + px % TILE_SIZE]
    else WHITE
  }

  /** The tileset image: `GridWidth` by `GridHeight` tiles of pixels. */
  function DrawTileset(tiles: seq<Tile>, tileset: seq<nat>): (img: Image)
    requires ValidEntries(tiles, tileset)
    ensures WellFormed(img)
    ensures img.width == GridWidth(|tileset|) * TILE_SIZE
    ensures img.height == GridHeight(|tileset|) * TILE_SIZE
  {
    var nt := |tileset|;
    var tw, th := GridWidth(nt), GridHeight(nt);
    if nt == 0 then Image(0, 0, [])
    else
      var w, h := tw * TILE_SIZE, th * TILE_SIZE;
      Image(w, h, seq(h, py requires 0 <= py => seq(w, px requires 0 <= px => PixelAt(tiles, tileset, tw, px, py))))
  }

  /** The tile drawn at the cell of tileset entry `i`, read back from the
      image. */
  function TileAt(img: Image, tw: nat, i: nat): Tile
    requires tw > 0 && WellFormed(img)
    requires (GridCell(i, tw).0 + 1) * TILE_SIZE <= img.width
    requires (GridCell(i, tw).1 + 1) * TILE_SIZE <= img.height
  {
    var c := GridCell(i, tw);
    seq(NUM_TILE_PIXELS, k requires 0 <= k < NUM_TILE_PIXELS =>
      img.rows[c.1 * TILE_SIZE + k / TILE_SIZE][c.0 * TILE_SIZE + k % TILE_SIZE])
  }

  /** Reading back the cell of entry `i` gives the tile the entry names:
      every entry is drawn whole, and no other entry draws over it. */
  lemma DrawThenRead(tiles: seq<Tile>, tileset: seq<nat>, i: nat)
    requires ValidEntries(tiles, tileset) && i < |tileset|
    ensures var img, tw := DrawTileset(tiles, tileset), GridWidth(|tileset|);
      && (GridCell(i, tw).0 + 1) * TILE_SIZE <= img.width
      && (GridCell(i, tw).1 + 1) * TILE_SIZE <= img.height
      && TileAt(img, tw, i) == tiles[tileset[i]]
  {
    var nt := |tileset|;
    var img, tw, th := DrawTileset(tiles, tileset), GridWidth(nt), GridHeight(nt);
    var c := GridCell(i, tw);
    CellsInGrid(nt, i, i);
    var t := TileAt(img, tw, i);
    forall k | 0 <= k < NUM_TILE_PIXELS
      ensures t[k] == tiles[tileset[i]][k]
    {
      var px, py := c.0 * TILE_SIZE + k % TILE_SIZE, c.1 * TILE_SIZE + k / TILE_SIZE;
      assert px / TILE_SIZE == c.0 && px % TILE_SIZE == k % TILE_SIZE;
      assert py / TILE_SIZE == c.1 && py % TILE_SIZE == k / TILE_SIZE;
      assert (k / TILE_SIZE) * TILE_SIZE + k % TILE_SIZE == k;
    }
  }

  /** A pixel outside the cell of every entry keeps the white background. */
  lemma DrawBackground(tiles: seq<Tile>, tileset: seq<nat>, px: nat, py: nat)
    requires ValidEntries(tiles, tileset)
    requires px < DrawTileset(tiles, tileset).width && py < DrawTileset(tiles, tileset).height
    requires forall e :: 0 <= e < |tileset| ==>
      GridCell(e, GridWidth(|tileset|)) != (px / TILE_SIZE, py / TILE_SIZE)
    ensures DrawTileset(tiles, tileset).rows[py][px] == WHITE
  {
    var tw := GridWidth(|tileset|);
    var i := (py / TILE_SIZE) * tw + px / TILE_SIZE;
    assert px / TILE_SIZE < tw;
    if i < |tileset| {
      GridCellOf(py / TILE_SIZE, px / TILE_SIZE, tw);
      assert false;
    }
  }

  /** An empty tileset is drawn as an empty image. */
  lemma DrawEmpty(tiles: seq<Tile>)
    ensures DrawTileset(tiles, []) == Image(0, 0, [])
  {
  }

  /** A build maps every tile to the space id when all tiles are blank and
      blank tiles are replaced, and then succeeds with an empty tileset. */
  lemma {:induction false} AllBlankBuild<T>(p: Builder.Params<T>, tiles: seq<T>, k: nat)
    requires k <= |tiles| && p.useSpace
    requires forall i :: 0 <= i < |tiles| ==> p.isBlank(tiles[i])
    ensures Builder.BuildPrefix(p, tiles, k).ok
    ensures Builder.BuildPrefix(p, tiles, k).tileset == []
  {
    if k > 0 {
      AllBlankBuild(p, tiles, k - 1);
    }
  }

  /** The input the layout as written cannot take: an image made only of
      blank tiles, converted with blank tiles mapped to the space id, builds
      successfully, and its tileset is empty, so the grid width the row count
      divides by is zero. */
  lemma EmptyTilesetDividesByZero<T>(p: Builder.Params<T>, tiles: seq<T>)
    requires p.useSpace
    requires forall i :: 0 <= i < |tiles| ==> p.isBlank(tiles[i])
    ensures var b := Builder.BuildPrefix(p, tiles, |tiles|);
      b.ok && GridWidth(|b.tileset|) == 0
  {
    AllBlankBuild(p, tiles, |tiles|);
  }
}
