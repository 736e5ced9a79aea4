# Tile-grid model of wor-logovo-zima

The repository turns a set of map tiles into two pictures, and back:

- `build-full-map.js` stitches all tiles into one full-resolution map. It also builds a
  minimap from down-scaled tiles.
- `split-to-tiles.js` cuts a full-size map image back into tiles.
- `src/App.jsx` is a viewer. It shows a 5 x 7 window of cells and lets the player step to
  a neighbouring cell.

All three share one geometry. A tile file is named `<id>_l11sd2.jpg`. Cell `id` sits at row
`floor(id / 33)` and column `id % 33` of a 33-column grid. On a canvas whose first row is
`minRow`, its tile is drawn at `(col * tileW, (row - minRow) * tileH)`.

This project models that geometry in Dafny and proves what the scripts rely on:

- The tile inventory is computed correctly: the filter, the id parse, the ascending order
  and the row bounds.
- The tile-size probe finds the first usable tile.
- Every tile rectangle lies inside its canvas.
- Tiles of different cells never overlap.
- For each id, the split cuts out exactly the rectangle the full map draws it at.
- The split accepts an input image exactly when its size is that of the full map.
- A written tile name scans back to the id it was cut for.
- In the viewer, the window and the one-step move rule behave as stated below.

Modules:

- `Wrappers`: `Option` and `Result`.
- `Text`: the JavaScript string and number behaviour the scripts use (`split`, `Number`,
  template literals).
- `Grid`: cell ids, rows, columns and tile rectangles.
- `Inventory`: the filter, the parse, the sort and the row bounds.
- `Probe`: the tile-size loop.
- `MapBuilder`: `build-full-map.js`.
- `Splitter`: `split-to-tiles.js`.
- `Viewer`: `src/App.jsx`, a class `App` with the mutable `currentCell`.

Each image-library call is replaced by the outcome it can have, passed in as a parameter:

- `meta: map<nat, (nat, nat)>` is the `metadata()` of the tile file `${id}_l11sd2.jpg`.
  An absent id means the call threw. A 0 stands for a missing width or height.
- `resizeOk[k]` says whether the minimap resize of the k-th id succeeded.
- `writeOk[k]` says whether extracting and writing the k-th tile succeeded.
- `inputSize` is the size of the input image. `None` means its `metadata()` threw.
- `inputExists` is the outcome of `fs.access`.

The directory listing and the command line are plain parameters. `process.exit(1)` and the
early `return`s become `Failure(...)` and `None` results.

## Model

| member | source | states |
|---|---|---|
| Text.StartsWith | build-full-map.js:18 | Definition of JavaScript's `s.startsWith(prefix)`: `prefix` is the first `|prefix|` characters of `s`. Used by `MapBuilder.TileArg`. |
| Text.EndsWith | build-full-map.js:36 | Definition of JavaScript's `s.endsWith(suffix)`: `suffix` is the last `|suffix|` characters of `s`. Used by `Inventory.IsCandidate`. |
| Text.Contains | build-full-map.js:36 | Definition of JavaScript's `s.includes(t)`: `t` occurs in `s` at some offset. Used by `Inventory.IsCandidate`. |
| Text.BeforeFirst | build-full-map.js:27 | The id text is the longest prefix of the name without "_". It is followed by "_" whenever it is shorter than the name. |
| Text.BeforeFirstAppend | split-to-tiles.js:27 | If the first part has no "_" and the rest starts with "_", the first `split('_')` field is exactly the first part. |
| Text.BeforeFirstAbsent | build-full-map.js:18 | A text without "=" is its own `split('=')` field. |
| Text.DecimalString | split-to-tiles.js:107 | The id written into a file name is a non-empty run of decimal digits. |
| Text.DecimalRoundTrip | split-to-tiles.js:107 | Reading back the decimal text of `n` gives `n`. |
| Text.JsNumber | build-full-map.js:28 | `Number(text)` is NaN iff some character is not a decimal digit. `Number("")` is 0, and a single digit is its own value. |
| Text.NumberOfDecimal | build-full-map.js:28 | `Number` of the text `${n}` is `n`. |
| Text.NumberOfNonDigit | build-full-map.js:28-29 | A text holding a non-digit is NaN, so `parseIdFromName` returns null. |
| Grid.Row | build-full-map.js:64 | Definition of `Math.floor(id / 33)` for a non-negative id. Its meaning is stated by `Grid.PositionRoundTrip` and `Grid.CellAtRoundTrip`. |
| Grid.Col | build-full-map.js:63 | Definition of `id % 33` for a non-negative id. Its meaning is stated by `Grid.PositionRoundTrip` and `Grid.CellAtRoundTrip`. |
| Grid.CellAt | src/App.jsx:16 | Definition of the id `r * 33 + c` of the cell at row `r` and column `c < 33`. Its meaning is stated by `Grid.CellAtRoundTrip`. |
| Grid.TileRect | build-full-map.js:133-139 | Definition of the rectangle `(col * tileW, (row - minRow) * tileH, tileW, tileH)` an id is drawn at. Its properties are stated by `Grid.TileRectWithin` and `Grid.TileRectsDisjoint`. |
| Grid.PositionRoundTrip | build-full-map.js:63-64 | `col < 33`, and `row * 33 + col` gives back the id. |
| Grid.CellAtRoundTrip | src/App.jsx:16 | The id `row * 33 + col` with `col < 33` has that row and that column. |
| Grid.SamePositionSameId | build-full-map.js:134-135 | Two ids with the same row and column are equal. |
| Grid.DisjointNoSharedPixel | build-full-map.js:139 | Disjoint rectangles cover no common pixel. |
| Grid.TileRectWithin | build-full-map.js:127-139 | A tile whose row lies in `[minRow, maxRow]` lies inside the `33*tileW` x `(maxRow-minRow+1)*tileH` canvas. |
| Grid.TileRectsDisjoint | build-full-map.js:133-139 | Distinct ids get rectangles with no common pixel. |
| Inventory.IsCandidate | build-full-map.js:36 | Definition of the filter: the name ends in ".jpg" and contains "_l11sd2". `Inventory.ListSourceFiles` states what it selects. |
| Inventory.ParseIdFromName | build-full-map.js:24-31 | Definition of `parseIdFromName`: `Number` of the text before the first "_". Its behaviour is stated by `Inventory.ParseExample`, `Inventory.ParseSecondUnderscore`, `Inventory.ParseNonNumeric`, `Inventory.ParseEmptyPrefix` and `Inventory.TileFileNameScans`. |
| Inventory.ParsedIds | build-full-map.js:44-46 | There are at most as many parsed ids as files. Which ids they are is stated by `Inventory.ParsedIdsExactly`. |
| Inventory.ListSourceFiles | build-full-map.js:33-38 | The listed files are exactly the entries that end in ".jpg" and contain "_l11sd2". There are no more of them than entries. |
| Inventory.ListSourceFilesCounts | build-full-map.js:33-38 | Every entry that passes the filter occurs in the file list exactly as often as in the listing, and every other entry never occurs. |
| Inventory.CountParsesTo | build-full-map.js:44-46 | Definition of the number of files whose name parses to `id`. It is at most the number of files. |
| Inventory.ParsedIdsCounts | build-full-map.js:44-46 | Each id occurs among the parsed ids once per file whose name parses to it, so duplicate ids are kept. |
| Inventory.ParsedIdsExactly | build-full-map.js:44-46 | The parsed ids are exactly the non-null `parseIdFromName` results of the files. |
| Inventory.Insert | build-full-map.js:47 | Insertion adds exactly `x` to the multiset of the sequence. |
| Inventory.InsertSorted | build-full-map.js:47 | Insertion keeps an ascending sequence ascending and keeps its lower bounds. |
| Inventory.SortAscending | build-full-map.js:47 | The sort is a permutation of its input. |
| Inventory.SortAscendingSorted | build-full-map.js:47 | The sort's result is ascending. |
| Inventory.Ids | build-full-map.js:44-47 | `ids` is an ascending permutation of the parsed ids. |
| Inventory.IdsExactly | build-full-map.js:44-47 | `ids` holds exactly the ids some file name parses to. |
| Inventory.IdsCounts | build-full-map.js:44-47 | `ids` holds each id once per file whose name parses to it. |
| Inventory.MinRow | build-full-map.js:51 | `Math.min(...rows)` is at most every id's row. |
| Inventory.MaxRow | build-full-map.js:52 | `Math.max(...rows)` is at least every id's row. |
| Inventory.MinRowAttained | build-full-map.js:51 | The minimum is the row of some id. |
| Inventory.MaxRowAttained | build-full-map.js:52 | The maximum is the row of some id. |
| Inventory.RowBounds | build-full-map.js:50-53 | `minRow <= maxRow`, `rowCount = maxRow - minRow + 1 >= 1`, and every id's row lies in `[minRow, maxRow]`. |
| Inventory.RowMonotone | build-full-map.js:50 | A larger id never has a smaller row. |
| Inventory.SortedMinRow | build-full-map.js:47-51 | For ascending ids the minimum row is the first id's row. |
| Inventory.SortedMaxRow | build-full-map.js:47-52 | For ascending ids the maximum row is the last id's row. |
| Inventory.SortedBounds | build-full-map.js:47-53 | For ascending ids the bounds are the rows of the first and last ids. |
| Inventory.TileFileName | split-to-tiles.js:107 | Definition of the name `${id}_l11sd2.jpg`. `Inventory.TileFileNameScans` states that it scans back to `id`. |
| Inventory.TileFileNameScans | split-to-tiles.js:107 | `${id}_l11sd2.jpg` passes the filter and parses back to `id`. |
| Inventory.ParseExample | build-full-map.js:24-31 | "504_l11sd2.jpg" parses to 504. |
| Inventory.ParseSecondUnderscore | split-to-tiles.js:27 | Only the text before the first "_" counts: "5_x_l11sd2.jpg" parses to 5. |
| Inventory.ParseNonNumeric | build-full-map.js:28-29 | A non-numeric prefix gives null. |
| Inventory.DuplicateIdsKept | build-full-map.js:44-47 | The files "5_l11sd2.jpg" and "5_x_l11sd2.jpg" give the id list `[5, 5]`. |
| Inventory.ParseEmptyPrefix | build-full-map.js:28 | `Number("")` is 0, so "_l11sd2.jpg" parses to 0. |
| Probe.Usable | build-full-map.js:110 | Definition of `meta.width && meta.height`: the metadata was read and both sides are non-zero. Its role in the probe is stated by `Probe.FirstUsableSpec`. |
| Probe.FirstUsable | build-full-map.js:105-120 | Definition of the probe's result: the size of the first id with non-zero width and height. Its meaning is stated by `Probe.FirstUsableSpec`. |
| Probe.FirstUsableSpec | build-full-map.js:105-120 | The probe finds nothing iff no id has non-zero width and height. Otherwise it returns the size of the first id that has. |
| Probe.FirstUsablePositive | build-full-map.js:117 | A probed size has both sides non-zero. |
| Probe.ProbeTileSize | build-full-map.js:105-120 | The loop with `break` returns the first usable tile's size, or nothing. |
| MapBuilder.TileArg | build-full-map.js:18 | The `find` result starts with "--tile=" and is the FIRST such argument: it sits at an index before which no argument starts with "--tile=". It is absent iff no argument starts so. |
| MapBuilder.TileArgFirst | build-full-map.js:18 | After any arguments that do not start with "--tile=", the first one that does is the one found, whatever follows it. |
| MapBuilder.TileSize | build-full-map.js:18 | `TILE_SIZE` is always positive. |
| MapBuilder.TileSizeAbsent | build-full-map.js:18 | Without `--tile=` the size is 16. |
| MapBuilder.TileSizeGiven | build-full-map.js:18 | When `--tile=n` is the first argument starting with "--tile=", at any position, the size is `n`, except that 0 gives 16. |
| MapBuilder.TileSizeEmpty | build-full-map.js:18 | When the first such argument is a bare `--tile=`, the size is 16. |
| MapBuilder.TileSizeNotANumber | build-full-map.js:18 | When the first such argument is `--tile=<text>` with no "=" in `text` and some non-digit in it, the size is 16. |
| MapBuilder.TileSizeFromCommandLine | build-full-map.js:18 | For a full `process.argv` of the node binary, the script path and `--tile=n`, the size is `n`, or 16 when `n` is 0. |
| MapBuilder.Place | build-full-map.js:139 | Definition of the pushed entry `{left: col * tileW, top: (row - minRow) * tileH}` of an id, the same shape as the minimap's entry at build-full-map.js:69. It is the corner of `Grid.TileRect`. |
| MapBuilder.Placements | build-full-map.js:133-139 | Definition of the `composites` list: the id's tile rectangle, one per id in order. Its geometry is stated by `MapBuilder.PlacementsGeometry`. |
| MapBuilder.PlacementsGeometry | build-full-map.js:127-139 | Every entry lies inside the canvas, and entries of distinct ids do not overlap. |
| MapBuilder.BuildFullMap | build-full-map.js:94-102 | `buildFullMap` returns the full-map plan of its files. |
| MapBuilder.FullMapPlan | build-full-map.js:94-143 | Definition of `buildFullMap(files)`'s result: nothing for no files, otherwise the full map of the sorted ids. Its properties are stated by `MapBuilder.FullMapShape`. |
| MapBuilder.FullMapFromIds | build-full-map.js:102-143 | The probe and push loops produce the plan of the ids. |
| MapBuilder.FullMapOf | build-full-map.js:102-143 | Definition of the full-map plan of an id list. Its properties are stated by `MapBuilder.FullMapOfShape`. |
| MapBuilder.FullMapOfShape | build-full-map.js:102-143 | The full map is built iff ids exist and the probe succeeds. It has the probed tile size, a `33*tileW` x `rowCount*tileH` canvas and one entry per id in id order, each inside the canvas, none overlapping for distinct ids. |
| MapBuilder.FullMapShape | build-full-map.js:94-143 | `buildFullMap(files)` builds iff some file name parses and the probe finds a usable tile. The plan's tile size is the probed size, its canvas is `33*tileW` x `rowCount*tileH`, and entry `k` is for the `k`-th id of the sorted ids, so ids ascend. Each entry lies inside the canvas, and entries of distinct ids do not overlap. |
| MapBuilder.CountTrue | split-to-tiles.js:113 | The success count is at most the number of attempts. |
| MapBuilder.Kept | build-full-map.js:62-73 | One entry is kept per success, and only ids are kept. |
| MapBuilder.KeptExactly | build-full-map.js:62-73 | An id is kept iff it sits at a position whose resize succeeded. |
| MapBuilder.KeptSorted | build-full-map.js:62-73 | Skipping ids keeps the ascending order. |
| MapBuilder.BuildMiniMap | build-full-map.js:40-48 | `buildMiniMap` returns the minimap plan of its files. |
| MapBuilder.MiniMapPlan | build-full-map.js:40-74 | Definition of `buildMiniMap(files)`'s result: nothing for no files, otherwise the minimap of the sorted ids. Its properties are stated by `MapBuilder.MiniMapShape`. |
| MapBuilder.MiniMapFromIds | build-full-map.js:48-74 | The loop that skips failed resizes produces the minimap plan of the ids. |
| MapBuilder.MiniMapOf | build-full-map.js:48-74 | Definition of the minimap plan of an id list. Its properties are stated by `MapBuilder.MiniMapOfEntries` and `MapBuilder.MiniMapOfGeometry`. |
| MapBuilder.MiniMapOfEntries | build-full-map.js:48-74 | The minimap is built iff ids exist. Its canvas is `33*TILE_SIZE` x `rowCount*TILE_SIZE`. It holds one entry per succeeded resize: the entry of every succeeded id, and nothing else. |
| MapBuilder.MiniMapOfGeometry | build-full-map.js:55-69 | Minimap entries keep the id order, lie inside the canvas and do not overlap for distinct ids. |
| MapBuilder.MiniMapShape | build-full-map.js:40-74 | `buildMiniMap(files)` builds iff some file name parses. The canvas is `33*TILE_SIZE` x `rowCount*TILE_SIZE`. It holds one entry per succeeded resize: the entry of every id whose resize succeeded, and nothing else. Entries ascend by id, lie inside the canvas and do not overlap for distinct ids. |
| MapBuilder.GenerateMaps | build-full-map.js:161-173 | `main` fails iff no entry passes the filter. Otherwise it plans the full map and then the minimap, whether or not the full map was planned. The minimap exists iff some id parses. |
| Splitter.SplitPlan | split-to-tiles.js:40-120 | Definition of `main`'s outcome: the access check, then the file check, then the split of the sorted ids. Its properties are stated by `Splitter.SplitPlanOutcome`. |
| Splitter.SplitOf | split-to-tiles.js:61-120 | Definition of the split outcome of an id list. Its properties are stated by `Splitter.SplitOfOutcome`, `Splitter.SplitOfExtractions` and `Splitter.SplitMatchesFullMap`. |
| Splitter.Extractions | split-to-tiles.js:100-120 | Definition of the extraction list: per id in order, its tile rectangle, its output name and whether the write succeeded. Its properties are stated by `Splitter.SplitOfExtractions`. |
| Splitter.SplitToTiles | split-to-tiles.js:40-59 | `main` follows `SplitPlan`: the access check, then the file check, then the rest. |
| Splitter.SplitFromIds | split-to-tiles.js:61-120 | The probe, the size check and the split loop with its `written` counter produce the split outcome of the ids. |
| Splitter.SplitOfOutcome | split-to-tiles.js:61-93 | The run fails on the probe iff no tile is usable. It passes validation iff the input is exactly `33*tileW` x `rowCount*tileH`. Otherwise it reports both sizes and writes nothing. |
| Splitter.SplitOfExtractions | split-to-tiles.js:100-120 | There is one extraction per id, in order, with the probed tile size. Each lies inside the input image and goes to `${id}_l11sd2.jpg`. Distinct ids do not overlap. `written` counts the successful writes and is at most `ids.length`. |
| Splitter.SplitOutputRescans | split-to-tiles.js:107 | Every output name passes the filter and parses back to the id it was cut for. |
| Splitter.SplitMatchesFullMap | split-to-tiles.js:78-105 | The split accepts an image iff it has the size of the full map of the same tiles. It then cuts each id out of exactly the rectangle the full map draws it at. |
| Splitter.SplitPlanOutcome | split-to-tiles.js:40-93 | A missing input and an empty listing are the first two failures, each iff its condition holds. A readable input passes iff its size is the full map's. |
| Viewer.ViewRow | src/App.jsx:9 | `Math.floor(c / 33)`: `row * 33 <= c < row * 33 + 33`. |
| Viewer.ViewCol | src/App.jsx:10 | JavaScript's `c % 33`: the sign of `c`, magnitude below 33, congruent to `c`. |
| Viewer.ViewMatchesGrid | src/App.jsx:28-31 | On non-negative ids the viewer's row and column are the grid's. |
| Viewer.WindowCell | src/App.jsx:16 | Definition of the window entry `(row - 2 + i) * 33 + (col - 3 + j)`. Its properties are stated by `Viewer.WindowCentre` and `Viewer.WindowSteps`. |
| Viewer.GetVisibleCells | src/App.jsx:8-22 | 5 rows of 7 ids, where entry `[i][j]` is `(row-2+i)*33 + (col-3+j)`. |
| Viewer.App.constructor | src/App.jsx:5 | The initial cell is 504. |
| Viewer.App.HandleCellClick | src/App.jsx:26-39 | `currentCell` becomes the target iff it is at most one row and one column away and not the same position. Otherwise it is unchanged. |
| Viewer.App.VisibleCells | src/App.jsx:24 | The rendered window is the window around `currentCell`. |
| Viewer.WindowCentre | src/App.jsx:9-17 | For `center >= 0`, entry `[2][3]` is `center`. |
| Viewer.WindowSteps | src/App.jsx:13-17 | Entries grow by 1 along a row and by 33 down a column. |
| Viewer.IsNeighbour | src/App.jsx:28-36 | Definition of the move test: at most one row and one column apart, and not the same position. Its consequences are stated by `Viewer.NeighbourOffsets`, `Viewer.FarClickRejected` and `Viewer.RowWrapRejected`. |
| Viewer.ClickSelfRejected | src/App.jsx:36 | Clicking the current cell is refused. |
| Viewer.FarClickRejected | src/App.jsx:33-36 | A target two or more rows or columns away is refused. |
| Viewer.RowWrapRejected | src/App.jsx:28-36 | From column 32, `currentCell + 1` (32 columns away) is refused. |
| Viewer.NeighbourOffsets | src/App.jsx:28-36 | On the grid, a neighbour is one of the eight king-move offsets ±1, ±32, ±33, ±34 that does not wrap around a row edge. |
| Viewer.NeighboursVisible | src/App.jsx:13-36 | Every accepted target of a grid cell appears in its window, at the place given by the row and column differences. |
| Viewer.NegativeCellOffCentre | src/App.jsx:9-10 | Left of the grid the two decompositions differ. The click from 0 to -1 is accepted, and the window around -1 has -34 at its centre. |

## Left out

- Image-library calls are left out because the library's code is not part of this model. This covers `sharp(...).metadata`, `resize` with `fit: 'cover'`, `jpeg`, `composite`, `extract` and `toFile`. They are replaced by the oracle parameters described above.
- Pixel content is left out. The model has no pixel-level round trip, since every output is re-encoded as lossy JPEG. The round trip is stated for rectangles only.
- The full map is modelled as a plan, not as a file. If the file `${id}_l11sd2.jpg` of some id is missing or unreadable, the source's `composite`/`toFile` call rejects. That file is built from the parsed id, not the listed name: a listed `0504_l11sd2.jpg` or `5_x_l11sd2.jpg` makes it read `504_l11sd2.jpg` or `5_l11sd2.jpg`. `main` then exits before `buildMiniMap`. That failure is not modelled, so `MapBuilder.GenerateMaps` always goes on to the minimap.
- Filesystem and process plumbing is left out:
  - `readdir`, `mkdir` (`ensureDir`) and `fs.access` are plain inputs or left out.
  - `path.join` and `path.basename` are left out, and file names are the bare directory entries.
  - The `--in=` lookup is left out, including the crash when it is missing (`path.join(ROOT, undefined)`).
  - Console output is left out, including the every-200 progress line of the split.
  - The final `main().catch` is left out.
- The `async`/`await` sequencing is left out. The awaits run one after another, so there is no concurrency to model.
- React rendering is left out: the JSX, `useState` machinery, CSS classes and the background-image URL. Only the state field and the two handlers are modelled.
- Text.JsNumber: only the empty string (0) and runs of decimal digits are numbers. Every other text is treated as NaN. JavaScript's `Number` also accepts surrounding whitespace, signs, fractions, `0x`/`0b`/`0o` literals and exponents, and it overflows to `Infinity` for very long digit runs.
- Inventory.ParseIdFromName: because of the `Number` restriction above, names such as `-5_l11sd2.jpg` or ` 5_l11sd2.jpg` are dropped here. The source accepts them as ids -5 and 5. Negative and fractional tile ids are not modelled.
- MapBuilder.TileSize: the same restriction applies. `--tile=-5`, `--tile=1.5` and `--tile=0x10` give -5, 1.5 and 16 in the source. The model gives 16 for all three.
- Probe.Usable: metadata sizes are natural numbers. An absent width or height is modelled as 0.
- Integers are unbounded. JavaScript numbers are exact only below 2^53, which every realistic id and image size is.
- Full map, where the code disagrees with its own comment: the comment `// skip missing/broken tile` at build-full-map.js:141 says a missing tile is skipped, but the `try` at build-full-map.js:137-142 wraps only `composites.push`, which cannot throw, so the `catch` never runs and every id gets an entry. The model follows the code, and only the minimap skips tiles.
- Duplicate ids are kept as they are, as `Inventory.IdsCounts` and `Inventory.DuplicateIdsKept` state. `5_l11sd2.jpg` and `5_x_l11sd2.jpg` both give id 5, and both get the same rectangle. The non-overlap properties are therefore stated for distinct ids.
