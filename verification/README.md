# Tilemap Studio: image-to-tiles conversion and tilemap edits

This project is a Dafny model of the logic at the centre of Tilemap Studio's
"Image to Tiles" conversion, plus the grid and list operations of its main
window. Every operation is a function or method over immutable values, and
the properties the code relies on are proved about it.

- **Builder** (`builder.dfy`) models `build_tilemap`:
  - Tiles are processed in order.
  - With `use_space` set, a blank tile becomes the space id.
  - Any other tile takes the first equivalent tileset entry. If there is none, it is appended, unless the format's tile-index space is already exhausted.
  - The module also models the older inline copy of this loop, which uses byte-wide ids and a hard `0xFF` cap.
- **Palette** (`palette.dfy`) models the palette partitioner (the algorithm comes from SuperFamiconv):
  1. build each tile's colour set, stopping at the first tile over the colour limit;
  2. remove duplicate sets;
  3. remove sets strictly contained in another set;
  4. sort by size;
  5. merge greedily into the last palette each set fits in;
  6. check the palette limit;
  7. sort again, by descending size.
- **Layout** (`layout.dfy`) models `draw_tileset` as the grid of colours the image surface ends up with.
- **GridEdit** (`gridedit.dfy`) models the `substitute_tile`, `swap_tiles` and `flood_fill` map edits.
- **Recent** (`recent.dfy`) models the most-recent-first update of the recent tilemap and tileset lists.
- **Status** (`status.dfy`) models the landmark coordinates shown in the status bar.
- **Tiles** (`tiles.dfy`) holds the shared constants and types:
  - 8×8 tiles;
  - 16 tiles per row in the tileset image;
  - the 20×18 Game Boy screen;
  - 32-bit colours;
  - the tilemap formats;
  - the narrowing casts to 8-bit and 16-bit ids.

Three callables come from files this model does not contain: `are_identical_tiles`, `is_blank_tile` and `format_tileset_size`. They enter as fields of `Builder.Params`. The comparison is a pure function that returns the match and both flip flags. The palette and colour limits enter as plain numbers.

## Model

| member | source | states |
|---|---|---|
| Tiles.Narrow | src/image-to-tiles.cpp:47 | the cast to the id type always yields a value below the type's limit, and it is the identity on values that already fit |
| Builder.NoMatchBetweenMeans | src/image-to-tiles.cpp:34-39 | the scan's "no match in positions lo..hi-1" is exactly "no tileset entry there is equivalent to the tile" |
| Builder.ScanFrom | src/image-to-tiles.cpp:32-39 | the scan stops at the first equivalent entry, or at the tileset size when none matches. The flags it returns are those of the comparison that matched. Otherwise they are those left by the last failed comparison; the initial `false` flags survive only when the tileset was empty |
| Builder.Admit | src/image-to-tiles.cpp:26-49 | one tile adds exactly one cell and leaves the earlier cells alone. The tileset is unchanged or gains this tile's index. A new entry is admitted only when `size + start_id <= capacity`. A rejection changes nothing |
| Builder.BuildPrefix | src/image-to-tiles.cpp:23-52 | the build succeeds exactly when it emits one cell per tile. Tileset entries are indices of processed tiles, and every position, offset by the start id, passes the capacity test |
| Builder.TilesetIncreasing | src/image-to-tiles.cpp:40-46 | tileset entries are input indices in strictly increasing order |
| Builder.BuildExplainsCells | src/image-to-tiles.cpp:26-49 | each cell is one of two kinds. It is a space cell (id `space_id`, no flips) whose tile never enters the tileset. Or its id is `start_id` plus the position of the first equivalent entry, or of the entry just appended for the tile. Its flips are those of the matching comparison, or those the last failed comparison left |
| Builder.BuildFailsAtOverflow | src/image-to-tiles.cpp:40-44 | a failed build stops at a non-space tile that matches no entry while `size + start_id > capacity`. The cells before it are exactly the successful build of the earlier tiles, and no later cell is emitted |
| Builder.DistinctTilesBoundary | src/image-to-tiles.cpp:40-47 | when none of the tiles is a space tile and none is equivalent to an earlier one (a tile may still match itself), every tile becomes an entry. The build succeeds exactly when `n + start_id <= capacity + 1`, so a tile can receive the id `capacity` itself |
| Builder.FailureSticks | src/image-to-tiles.cpp:42-44 | once the build has failed, later tiles change nothing |
| Builder.ScanTileset | src/image-to-tiles.cpp:32-39 | the inner loop computes the scan's position and flags |
| Builder.BuildStep | src/image-to-tiles.cpp:27-49 | one iteration of the outer loop performs exactly the step `Admit` describes |
| Builder.BuildTilemap | src/image-to-tiles.cpp:23-52 | the loop returns the full build, stopping at the first rejected tile |
| Builder.ConvertInline | src/main-window.cpp:1082-1113 | the older converter either rejects or returns one cell per tile and a tileset of at most `0x100 - start_id` entries. Blank tiles (with `use_7f`) carry id `0x7F`. Every other id is `start_id` plus the position of an entry that is this tile or an earlier one, and is at most `0xFF`, so the byte id never wraps |
| Builder.InlineIdsNeverWrap | src/main-window.cpp:1096-1110 | under the `0xFF` cap, a successful build's byte-wide ids are the exact unwrapped sums `start_id + ti` |
| Palette.ColorsOf | src/image-to-tiles.cpp:135-139 | a tile's colour set holds exactly the colours among its pixels |
| Palette.CollectColorSets | src/image-to-tiles.cpp:132-144 | the colour sets are gathered in tile order, each within the limit. The loop stops at the first tile whose set exceeds the limit, and only there |
| Tiles.GridCellOf | src/image-to-tiles.cpp:66 | the numbering is one-to-one: the cell at column `col < w` of row `row` is the one numbered `row * w + col` |
| Tiles.GridCell | src/image-to-tiles.cpp:147-148 | the reported position `(qi % w, qi / w)` of a tile is a column inside the image and a row that together give back `qi`; the layout places tileset entry `i` the same way, at `(i % tw, i / tw)` |
| Palette.Dedup | src/image-to-tiles.cpp:159-164 | reference duplicate removal: the same sets, with no duplicates |
| Palette.DedupFirstOccurrenceOrder | src/image-to-tiles.cpp:159-164 | the kept sets appear in the order of their first occurrence |
| Palette.UniqAsWritten | src/image-to-tiles.cpp:160-164 | the removal as written, searching the kept sets followed by the vector's remaining empty sets, keeps at most one set per input set and only sets from the input; `UniqAsWrittenIsDedup` ties it to the reference removal |
| Palette.UniqAsWrittenDropsEmpty | src/image-to-tiles.cpp:160-163 | the removal as written, searching a vector pre-filled with empty sets, can never keep an empty set |
| Palette.UniqAsWrittenIsDedup | src/image-to-tiles.cpp:160-164 | when no colour set is empty, the removal as written equals the reference one |
| Palette.NonEmptyColorSets | src/image-to-tiles.cpp:135-139 | a tile's colour set is never empty, so the condition above holds for tiles |
| Palette.Maximal | src/image-to-tiles.cpp:166-176 | every set the subset removal keeps is one of the unique sets and is strictly contained in none of them, and duplicate-free input gives duplicate-free output; `Undominated` gives the converse and `MaximalCovers` shows nothing is lost |
| Palette.Undominated | src/image-to-tiles.cpp:167-176 | the subset removal keeps exactly the sets that no other set strictly contains, and introduces no duplicates |
| Palette.UndominatedKeepsOrder | src/image-to-tiles.cpp:167-176 | the erase loop keeps the surviving sets in their original relative order |
| Palette.MaximalFirstOccurrenceOrder | src/image-to-tiles.cpp:159-176 | before the sort, the sets left by both removals have no duplicates and appear in the order of their first occurrence among the tiles' sets |
| Palette.MaximalCovers | src/image-to-tiles.cpp:166-176 | every removed set is contained in a kept one, so the removal loses no colour |
| Palette.InsertBySize | src/image-to-tiles.cpp:178-181 | insertion into the sorted list adds the element and keeps everything else |
| Palette.InsertKeepsSorted | src/image-to-tiles.cpp:178-181 | insertion keeps a size-sorted list sorted |
| Palette.SortBySize | src/image-to-tiles.cpp:178-181 | the sort by colour count yields a permutation sorted by size, in either direction. It may be any such permutation |
| Palette.FitsWithMeans | src/image-to-tiles.cpp:188-190 | the merge test `c.size() + (s \ c).size() <= max` holds exactly when the merged palette is within the colour limit |
| Palette.LastFit | src/image-to-tiles.cpp:186-194 | the chosen palette is one the set fits in, and it fits in no later one. The result is -1 only when it fits in none |
| Palette.FindLastFit | src/image-to-tiles.cpp:186-194 | the forward scan that remembers the last fit finds that palette |
| Palette.Place | src/image-to-tiles.cpp:185-200 | one merge step adds at most one palette and never removes one; `PlaceOpensOnlyWhenNoneFits` and `PlaceGrows` say which palette changes |
| Palette.PlaceOpensOnlyWhenNoneFits | src/image-to-tiles.cpp:195-200 | a new palette is opened exactly when the set fits in no palette. Otherwise one fitting palette absorbs the set and the others stay as they were |
| Palette.PlaceGrows | src/image-to-tiles.cpp:195-200 | palettes only grow, and the placed set ends up inside one of them |
| Palette.Combine | src/image-to-tiles.cpp:183-201 | the merge yields at most as many palettes as there are sets, and at least one when there is a set |
| Palette.CombineCovers | src/image-to-tiles.cpp:183-201 | every merged set is contained in some palette |
| Palette.CombineWithinLimit | src/image-to-tiles.cpp:186-200 | every palette stays within the colour limit when every set does |
| Palette.CombineWithin | src/image-to-tiles.cpp:195-200 | merging invents no colour |
| Palette.PartitionPalettes | src/image-to-tiles.cpp:124-217 | the colour check fails exactly when some tile is over the limit, and it reports the first such tile's column and row. Otherwise the merge runs on the maximal distinct colour sets, sorted ascending in any order the sort may choose. The palette check fails exactly when that merge needs more than `max_palettes` palettes. On success the palettes are that merge's output sorted by descending size. Each is within the colour limit, each tile's colours fit in one of them, and together they hold exactly the image's colours |
| Palette.PartitionFacts | src/image-to-tiles.cpp:159-201 | from an arrangement of the maximal sets, the merge yields palettes within the limit, made of the image's colours, that cover every tile |
| Palette.CoverIsUnion | src/image-to-tiles.cpp:183-217 | palettes made of the image's colours that cover every tile together hold exactly the image's colours |
| Layout.GridWidth | src/image-to-tiles.cpp:56 | the grid is at most `TILES_PER_ROW` tiles wide and never wider than the tile count. It is zero wide exactly when the tileset is empty |
| Layout.CeilDiv | src/image-to-tiles.cpp:57 | the rounded-up quotient leaves room for every tile and no spare row |
| Layout.GridFits | src/image-to-tiles.cpp:56-57 | the grid holds every tileset entry, and its last row is not empty. It has `ceil(nt / 16)` rows |
| Layout.CellsInGrid | src/image-to-tiles.cpp:63-66 | every entry's cell is inside the grid, and no two entries share a cell |
| Layout.GridHeightAsWritten | src/image-to-tiles.cpp:57 | the row count as written, defined only for a non-zero grid width, leaves room for every tile |
| Layout.GridHeight | src/image-to-tiles.cpp:56-57 | the corrected row count: zero rows for an empty tileset, the as-written count otherwise, and always room for every tile |
| Layout.PixelAt | src/image-to-tiles.cpp:62-72 | every pixel of the drawn image is the white background or a colour of one of the drawn entries' tiles |
| Layout.DrawTileset | src/image-to-tiles.cpp:59-73 | the image is `tw*8` by `th*8` pixels, and every row has the image's width |
| Layout.DrawBackground | src/image-to-tiles.cpp:62 | a pixel of the image outside the cell of every entry keeps the white background |
| Layout.DrawThenRead | src/image-to-tiles.cpp:62-72 | reading back the cell of entry `i` gives the tile the entry names. Each entry is drawn whole, inside the image, and nothing draws over it |
| Layout.DrawEmpty | src/image-to-tiles.cpp:55-59 | with the row count corrected, an empty tileset is drawn as an empty 0×0 image instead of dividing by zero |
| Layout.AllBlankBuild | src/image-to-tiles.cpp:26-31 | when every tile is blank and `use_space` is set, the build succeeds with an empty tileset |
| Layout.EmptyTilesetDividesByZero | src/image-to-tiles.cpp:55-57 | such a build reaches the layout with a grid width of zero, the divisor of the row count |
| GridEdit.SubstituteTile | src/main-window.cpp:864-874 | every cell in the clicked state becomes the target state. Every other cell is unchanged |
| GridEdit.SubstituteIdempotent | src/main-window.cpp:864-874 | substituting a second time changes nothing |
| GridEdit.SubstituteClears | src/main-window.cpp:868-873 | when the two states differ, no cell is left in the clicked state. Cells end in the target state exactly when they were in either state |
| GridEdit.SwapTiles | src/main-window.cpp:876-890 | the two states are exchanged and other cells are unchanged. Nothing changes when the clicked state is the target |
| GridEdit.SwapSame | src/main-window.cpp:879 | swapping a state with itself is the identity |
| GridEdit.SwapInvolution | src/main-window.cpp:881-889 | applying the swap twice restores the map, in either argument order |
| GridEdit.SwapExchangesCounts | src/main-window.cpp:881-889 | the two states trade their cell counts, and the count of every other state is unchanged |
| GridEdit.RowColIsGridCell | src/main-window.cpp:846-847 | the recursive column and row of a cell are its index modulo and divided by the width, as `Tiles.GridCell` numbers cells |
| GridEdit.RowColNumbering | src/main-window.cpp:846-847 | a cell's row and column give back its index as `row * w + col`, with the column below `w` |
| GridEdit.RowInGrid | src/main-window.cpp:845 | an index lies inside the `w × h` map exactly when its row is below `h` |
| GridEdit.Neighbours | src/main-window.cpp:856-860 | every index the fill queues lies inside the `w × h` grid |
| GridEdit.NeighboursExact | src/main-window.cpp:856-860 | the fill queues exactly the left, right, up and down neighbours that lie inside the `w × h` grid; those past the end of a partial last row are skipped when popped (line 852) |
| GridEdit.FloodFill | src/main-window.cpp:840-862 | for a map of any size up to `w × h`, including one whose last row is partial: nothing changes when the clicked state is the target. Otherwise a cell becomes the target state exactly when it is 4-connected to the clicked cell through cells in the clicked state, and every other cell is unchanged. The loop terminates |
| GridEdit.FillComplete | src/main-window.cpp:849-861 | when the queue runs dry, the filled cells are exactly the region |
| GridEdit.PathFilled | src/main-window.cpp:849-861 | every cell along a path from the clicked cell is filled |
| Recent.Promote | src/main-window.cpp:583-591 | the stored list keeps its length and the stored file heads it; `PromoteShape` says which entries remain |
| Recent.PromoteShape | src/main-window.cpp:583-591 | the list keeps its length and the stored file heads it. A listed file's move loses no entry. An unlisted file pushes the oldest entry off |
| Recent.StoreRecent | src/main-window.cpp:583-593 | the swap loop moves the file to the front. Entries before its old slot move down one, and entries after it stay put. If it was not listed, every entry moves down one |
| Recent.PromoteKeepsDistinct | src/main-window.cpp:583-591 | storing keeps the used slots free of duplicates |
| Recent.PromoteIdempotent | src/main-window.cpp:583-591 | storing the same file twice is storing it once |
| Recent.StoreRecentTileset | src/main-window.cpp:613-624 | the same update, keyed on the most recently loaded tileset file |
| Status.Landmark | src/main-window.cpp:675-688 | a landmark exists only for a hovered cell in one of the screen formats, and it lies within the hovered tile's pixels; `LandmarkShownWhen` gives the exact condition |
| Status.LandmarkShownWhen | src/main-window.cpp:675-688 | a landmark is shown exactly for a hovered cell of a 20×18 map in one of the FF_END, RLE_NYBBLES and XY_FLIP formats |
| Status.LandmarkCentred | src/main-window.cpp:678 | the landmark is the centre pixel of the hovered tile |
| Status.LandmarkOnScreen | src/main-window.cpp:678 | for a cell inside the map, the landmark is a pixel of the Game Boy screen |

## Left out

- FLTK widgets, dialogs, menus, status-bar labels and the error and success messages are user interface. The model returns the outcome each message reports (`Partition`, `Conversion`, `Build.ok`).
- Image decoding, `get_image_tiles`, `Image::write_image`, `Tilemap::write_tiles` and the drawing primitives are foreign library or file I/O. The tiles enter as a sequence. The drawn image is the colour grid the surface would hold.
- The bodies of `are_identical_tiles`, `is_blank_tile`, `format_tileset_size`, `format_palette_size` and `format_palettes_size` are not part of this model. They are parameters, and every property holds for every choice of them.
- The comparison is assumed to assign both flip out-parameters on every call. A comparison that left them untouched on some path would be a different function of its inputs.
- The headers that define `TILE_SIZE`, `NUM_TILE_PIXELS`, `TILES_PER_ROW`, the Game Boy screen size, `SPACE_TILE_ID` and `NUM_RECENT` are not part of this model. The values used are 8, 64, 16, 20×18 and `0x7F`. The recent lists may have any positive length.
- `FL_WHITE` is taken as colour `0xFF`. Colours are opaque 32-bit values compared by equality.
- The `Tilemap` and `Tile_Tessera` classes are not part of this model. A map is a row-major sequence of tile states. A cell's column and row are its index modulo and divided by the width, which is assumed to be how the tilemap numbers its cells.
- `new`/`delete`: cells are values, so the release of cells on a rejected conversion becomes "no tilemap is returned".
- Undo and redo, preferences, and the menu updates `update_recent_tilemaps` and `update_recent_tilesets` are user interface or state whose classes are not shown.
- The use of the computed palettes is an unimplemented TODO in the source, so the partition's result is the end of the model.
- The rest of `image_to_tiles` is not modelled: opening the written tilemap and loading the tileset are file I/O. The double release of the tile buffer after a failed tileset write is also on that I/O path.
- Palette.SortBySize: states only what `std::sort` promises (a size-sorted permutation), not the particular order a given standard library produces.
- Status.Landmark: the early return for an empty map (`_tilemap.size() == 0`) is modelled as a zero width or height.
- Builder.BuildTilemap: `start_id` and `space_id` are unbounded naturals, not `uint16_t`. The id cast is modelled by `Narrow`, but values of the dialog's fields above 16 bits are not excluded.

## Findings

| source | as written | input that shows it | evidently intended | confidence | as-written member | corrected member |
|---|---|---|---|---|---|---|
| src/image-to-tiles.cpp:55-57 (the same lines in the older copy at src/main-window.cpp:1136-1138) | `tw = MIN(nt, TILES_PER_ROW)` and `th = (nt + tw - 1) / tw`, so the row count divides by zero when the tileset is empty | an image made only of blank tiles, converted with blank tiles mapped to the space id: the build succeeds with `nt == 0` | an empty tileset gives an empty (0×0) tileset image, with zero rows | high; not executed | Layout.EmptyTilesetDividesByZero | Layout.GridHeight (its properties: Layout.GridFits, Layout.DrawEmpty) |
