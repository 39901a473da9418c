/**
  Shared vocabulary of the tile-conversion core: colours, tiles, tilemap
  formats and the editor-wide constants.

  The constants live in headers (config.h, tile.h) that are not part of this
  model; the values below are the ones the editor is built with. The proofs
  rely on the constants being positive and on a tile holding
  TILE_SIZE * TILE_SIZE pixels.
 */
module Tiles {

  /** Edge length of a tile in pixels. */
  const TILE_SIZE: nat := 8

  /** Number of pixels in one tile. */
  const NUM_TILE_PIXELS: nat := TILE_SIZE * TILE_SIZE

  /** Number of tiles per row of a written tileset image (the older inline
      copy of the layout code writes this literal 16). */
  const TILES_PER_ROW: nat := 16

  /** Dimensions, in tiles, of a Game Boy screen tilemap. */
  const GAME_BOY_WIDTH: nat := 20
  const GAME_BOY_HEIGHT: nat := 18

  /** An FLTK colour: an opaque 32-bit value; only equality matters here. */
  newtype Color = c: int | 0 <= c < 0x1_0000_0000

  /** A tile: its pixels in row-major order. */
  type Tile = t: seq<Color> | |t| == NUM_TILE_PIXELS witness seq(NUM_TILE_PIXELS, _ => 0)

  datatype Option<T> = None | Some(value: T)

  /** The closed set of tilemap encodings. */
  datatype Format = Plain | TileAttr | RleNybbles | FfEnd | XyFlip | RleFfEnd

  /** The unsigned integer types a tile id is stored in. */
  datatype IdWidth = U8 | U16

  /** One more than the largest value of the id type. */
  function IdLimit(w: IdWidth): nat
  {
    match w
    case U8 => 0x100
    case U16 => 0x1_0000
  }

  /** Conversion of an unsigned value to the id type (a C++ narrowing cast). */
  function Narrow(x: nat, w: IdWidth): (r: nat)
    ensures r < IdLimit(w)
    ensures x < IdLimit(w) ==> r == x
  {
    match w
    case U8 => x % 0x100
    case U16 => x % 0x1_0000
  }

  /** Column and row of the cell with row-major index `i` on a grid `w`
      cells wide; the index is recovered as `row * w + column`. */
  function GridCell(i: nat, w: nat): (c: (nat, nat))
    requires w > 0
    ensures c.0 < w && c.1 * w + c.0 == i
  {
    (i % w, i / w)
  }

  /** The cell at column `col` of row `row` is the one numbered
      `row * w + col`: the numbering is one-to-one. */
  lemma GridCellOf(row: nat, col: nat, w: nat)
    requires col < w
    ensures GridCell(row * w + col, w) == (col, row)
  {
    var c := GridCell(row * w + col, w);
    QuotientUnique(c.1, c.0, row, col, w);
  }

  /** Quotient and remainder by `w` are determined by the dividend. */
  lemma QuotientUnique(q1: nat, r1: nat, q2: nat, r2: nat, w: nat)
    requires r1 < w && r2 < w && q1 * w + r1 == q2 * w + r2
    ensures q1 == q2 && r1 == r2
  {
    if q1 > q2 {
      MulMonotone(q2 + 1, q1, w);
    } else if q2 > q1 {
      MulMonotone(q1 + 1, q2, w);
    }
  }

  lemma {:induction false} MulMonotone(a: nat, b: nat, w: nat)
    requires a <= b
    ensures a * w <= b * w
    decreases b - a
  {
    if a < b {
      MulMonotone(a, b - 1, w);
      assert b * w == (b - 1) * w + w;
    }
  }

  /** Position of the first occurrence of `x` in `xs`. */
  function IndexOf<T(==)>(xs: seq<T>, x: T): (k: nat)
    requires x in xs
    ensures k < |xs| && xs[k] == x && x !in xs[..k]
  {
    if xs[0] == x then 0
    else
      assert xs == [xs[0]] + xs[1..];
      1 + IndexOf(xs[1..], x)
  }

  /** The first occurrence is the only one with none before it. */
  lemma IndexUnique<T>(xs: seq<T>, x: T, i: nat)
    requires i < |xs| && xs[i] == x && x !in xs[..i]
    ensures IndexOf(xs, x) == i
  {
  }

  /** A value occurring in a prefix is first found there. */
  lemma IndexInPrefix<T>(xs: seq<T>, x: T, m: nat)
    requires m <= |xs| && x in xs[..m]
    ensures IndexOf(xs, x) == IndexOf(xs[..m], x)
  {
    var k := IndexOf(xs[..m], x);
    assert xs[..m][..k] == xs[..k];
    IndexUnique(xs, x, k);
  }
}
