/**
  The landmark shown in the status bar while the mouse hovers over a cell:
  for a map the size of a Game Boy screen in one of the screen formats, the
  pixel coordinates of the hovered tile's centre.

  The status-bar labels themselves are not part of this model.
 */
module Status {
  import opened Tiles

  /** The cell under the mouse, if any. */
  datatype Hover = Nowhere | Over(col: nat, row: nat)

  /** The formats whose maps are Game Boy screens. */
  predicate ScreenFormat(fmt: Format)
  {
    fmt == FfEnd || fmt == RleNybbles || fmt == XyFlip
  }

  /** The landmark for a `width` by `height` map: none for an empty map or
      when no cell is hovered, and otherwise the centre of the hovered tile
      when the map is a screen in a screen format. */
  function Landmark(width: nat, height: nat, fmt: Format, hover: Hover): (r: Option<(nat, nat)>)
    ensures r.Some? ==> hover.Over? && ScreenFormat(fmt)
    ensures r.Some? ==> hover.col * TILE_SIZE <= r.value.0 < (hover.col + 1) * TILE_SIZE
    ensures r.Some? ==> hover.row * TILE_SIZE <= r.value.1 < (hover.row + 1) * TILE_SIZE
  {
    if width == 0 || height == 0 then None
    else if hover.Nowhere? then None
    else if width == GAME_BOY_WIDTH && height == GAME_BOY_HEIGHT && ScreenFormat(fmt) then
      Some((hover.col * TILE_SIZE + TILE_SIZE / 2, hover.row * TILE_SIZE + TILE_SIZE / 2))
    else None
  }

  /** A landmark is shown exactly for a hovered cell of a screen-sized map
      in a screen format. */
  lemma LandmarkShownWhen(width: nat, height: nat, fmt: Format, hover: Hover)
    ensures Landmark(width, height, fmt, hover).Some?
        <==> hover.Over? && width == GAME_BOY_WIDTH && height == GAME_BOY_HEIGHT && ScreenFormat(fmt)
  {
  }

  /** The landmark lies in the hovered tile, at the middle of its pixels. */
  lemma LandmarkCentred(width: nat, height: nat, fmt: Format, hover: Hover)
    requires Landmark(width, height, fmt, hover).Some?
    ensures var p := Landmark(width, height, fmt, hover).value;
      && p.0 / TILE_SIZE == hover.col && p.0 % TILE_SIZE == TILE_SIZE / 2
      && p.1 / TILE_SIZE == hover.row && p.1 % TILE_SIZE == TILE_SIZE / 2
  {
  }

  /** For a hovered cell inside the map, the landmark is a pixel of the
      screen. */
  lemma LandmarkOnScreen(width: nat, height: nat, fmt: Format, hover: Hover)
    requires Landmark(width, height, fmt, hover).Some?
    requires hover.col < width && hover.row < height
    ensures var p := Landmark(width, height, fmt, hover).value;
      p.0 < GAME_BOY_WIDTH * TILE_SIZE && p.1 < GAME_BOY_HEIGHT * TILE_SIZE
  {
  }
}
