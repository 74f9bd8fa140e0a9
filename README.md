# BoardModel: a verified model of a match-3 board

This project models `BoardModel`, the board of a match-3 game, and proves properties of the model. The board is a width x height tile map. Each cell is empty or holds a tile, and a tile is identified by its value: a palette index drawn from a seeded pseudo-random generator.

The board can do the following:

- `randomize`: fill itself without ready-made matches.
- `getHorizontalMatches` / `getVerticalMatches`: walk outward from a tile to collect its runs of equal tiles.
- `getMatches`: gather every run longer than 2, without duplicates.
- `removeAll`: remove the matched tiles.
- `fill`: spawn new tiles in the top row.
- `gravity`: let tiles fall into the empty cells below them.
- `simulate`: repeat remove / fill / gravity until nothing changes.
- `swapTiles`: swap two tiles and either set off the cascade or swap them back.
- `toString`: render the board as text.

The model is split into modules that follow the board's concerns:

| module | holds |
|---|---|
| `Layout` | row-major indexing (`transform1D`) and the lemmas about products and index order that the other modules call |
| `Grid` | the tile map: cells, bounds-checked `get`, `set`, tile swap |
| `Lcg` | the generator of `random`, with JavaScript's truncating `%` |
| `Runs` | the walks of the two match functions, as functions on a row or column, and the board-wide match set |
| `Dedup` | `unique` |
| `Packing`, `Falling` | `gravity` on one column, and its scan step by step |
| `Spawning` | `fill` |
| `Generation` | why `randomize` leaves no match |
| `Text` | `toString` |
| `Board` | the class `BoardModel`, whose methods change the board's fields in place |

The class keeps these fields:

- the cells, as a row-major `seq`;
- the seed;
- the pending swap, `_swapped`;
- whether an `onTileAdded` hook is set;
- a log of the tiles reported to that hook.

Most methods with a loop are proved against a specification function of the old state. Separate lemmas prove what that function means: the runs are maximal blocks, gravity packs every column, `unique` keeps first occurrences and `getMatches` yields exactly the matched cells. `randomize` is different. Its loops are specified by two predicates: `Committable`, the exit test of its do-while loop, and `Settled`, what that test leaves behind once later cells are written. Lemmas in `Generation` prove that a board settled below an empty top row has no match.

Two details of the code (`src/tetra/tetra/board/model.js`) decide behaviour that is easy to misread:

- `fill` spawns a tile in a column only when the cell just below the top row, `(x, height - 2)`, is empty (line 69). It does not check the top cell itself. `Spawning.FillFullRow` states the consequence: a board whose second row from the top is full gets no new tile.
- The `_swapped` guard is cleared in a `.then` callback (lines 32-34). It is therefore cleared only once the cascade or the swap-back has finished. `Board.BoardModel.OnSwapped` clears it only when the cascade settled within its fuel.

## Model

All source paths are in `src/tetra/tetra/board/model.js`.

| member | source | states |
|---|---|---|
| Board.BoardModel.constructor | src/tetra/tetra/board/model.js:6-9 | the new board has the given width, height and seed; every cell is empty; no swap is pending; no hook is set |
| Board.BoardModel.Size | src/tetra/tetra/board/model.js:233-235 | `size` is width * height, the number of cells |
| Board.BoardModel.Random | src/tetra/tetra/board/model.js:121-127 | the seed advances by one step (seed * 9301 + 49297) % 233280 with JavaScript's remainder; the number drawn is the new seed over 233280, and from a non-negative seed it lies in [0, 233280) |
| Board.BoardModel.RandomTileValue | src/tetra/tetra/board/model.js:133-135 | one draw, floor(rnd * (1 + max - min)) + min; from a non-negative seed with min <= max the value lies in [min, max] |
| Board.BoardModel.CreateRandomTileModel | src/tetra/tetra/board/model.js:129-131 | one draw over the palette; from a non-negative seed the value is a palette index |
| Lcg.JsRem | src/tetra/tetra/board/model.js:124 | JavaScript's `%`: the remainder has the dividend's sign and magnitude below the modulus, and dividend = modulus * quotient + remainder |
| Lcg.NextSeed | src/tetra/tetra/board/model.js:124 | from a non-negative seed the next seed is the Euclidean (seed * 9301 + 49297) mod 233280, in [0, 233280) |
| Lcg.SeedAfterInRange | src/tetra/tetra/board/model.js:121-127 | a non-negative seed stays non-negative forever and lies below 233280 after any draw |
| Lcg.SeedAfterAdd | src/tetra/tetra/board/model.js:121-127 | k draws followed by j draws are k + j draws |
| Lcg.ScaledValue | src/tetra/tetra/board/model.js:133-135 | a seed in [0, 233280) scaled to min..max lands in [min, max] |
| Layout.IndexDecompose | src/tetra/tetra/board/model.js:15 | `transform1D(i)` of an index below width * height is a cell of the board whose row-major index is i |
| Layout.IndexRecover | src/tetra/tetra/board/model.js:87 | `transform1D` of a cell's index gives back that cell; in particular `transform1D(i)` for a column i is (i, 0) |
| Layout.IndexInjective | src/tetra/tetra/board/model.js:15 | different cells of the board have different indices |
| Board.OriginInBounds | src/tetra/tetra/board/model.js:15 | for every index of the board, `transform1D(i)` is a cell of the board |
| Board.SetAtOrigin | src/tetra/tetra/board/model.js:15-17 | `set` at `transform1D(i)` writes index i of the cell list and nothing else |
| Grid.Get | src/tetra/tetra/board/model.js:69 | `get(x, y)`: the tile of a cell of the board, read at its row-major index; no tile outside the board |
| Grid.SetCell | src/tetra/tetra/board/model.js:17 | `set(x, y, tile)` on a cell of the board: a board of the same size, with one cell replaced |
| Grid.Exchange | src/tetra/tetra/board/model.js:24 | `tile1.swap(tile2)`: a board of the same size in which the two cells' tiles are written into each other's place |
| Runs.Origin | src/tetra/tetra/board/model.js:15 | `transform1D(i)`: the cell (i % width, i / width) |
| Grid.GetSetCell | src/tetra/tetra/board/model.js:17 | after `set` the written cell reads back the new tile and every other cell is unchanged |
| Grid.ExchangeAt | src/tetra/tetra/board/model.js:24 | `tile1.swap(tile2)`: the two cells trade tiles and every other cell is unchanged |
| Grid.ExchangeTwice | src/tetra/tetra/board/model.js:29 | swapping the same two tiles again restores the board |
| Grid.SetCellInPalette | src/tetra/tetra/board/model.js:70-71 | writing a palette value keeps every tile of the board in the palette |
| Board.BoardModel.TilesMatch | src/tetra/tetra/board/model.js:212-217 | true exactly when both cells hold tiles and the tiles have the same value |
| Board.BoardModel.MatchLeft | src/tetra/tetra/board/model.js:194-200 | the first walk: the cells (x - 1, y), (x - 2, y), ... of the block of tiles equal to the one at (x, y), outward, as many as Before counts |
| Board.BoardModel.MatchRight | src/tetra/tetra/board/model.js:201-208 | the second walk: the cells (x + 1, y), ... of the block, as many as After counts |
| Board.BoardModel.GetHorizontalMatches | src/tetra/tetra/board/model.js:188-210 | the result is HorizontalRun: the origin, then the left walk, then the right walk; just the origin when the cell is empty |
| Board.BoardModel.MatchDown | src/tetra/tetra/board/model.js:170-176 | the walk downward: the cells (x, y - 1), ... of the block of equal tiles |
| Board.BoardModel.MatchUp | src/tetra/tetra/board/model.js:177-184 | the walk upward: the cells (x, y + 1), ... of the block |
| Board.BoardModel.GetVerticalMatches | src/tetra/tetra/board/model.js:164-186 | the result is VerticalRun: the origin, then the tiles below, then those above; just the origin when the cell is empty |
| Runs.HorizontalRun | src/tetra/tetra/board/model.js:188-210 | what `getHorizontalMatches` returns: the origin; then, if it holds a tile, the cells of the equal tiles to its left, walking outward, and then those to its right |
| Runs.VerticalRun | src/tetra/tetra/board/model.js:164-186 | what `getVerticalMatches` returns: the origin; then, if it holds a tile, the cells of the equal tiles below it, walking outward, and then those above it |
| Runs.BeforeSpec | src/tetra/tetra/board/model.js:194-200 | the walk toward lower positions stops at the first cell that does not hold the value: every counted cell holds it, the next one does not, and the count does not run off the line |
| Runs.AfterSpec | src/tetra/tetra/board/model.js:202-208 | the walk toward higher positions, likewise |
| Runs.ShiftLeft | src/tetra/tetra/board/model.js:194-208 | moving k cells toward lower positions inside a block: k fewer before the cell, k more after it |
| Runs.ShiftRight | src/tetra/tetra/board/model.js:194-208 | moving k cells toward higher positions inside a block: k more before, k fewer after |
| Runs.BlockSameLeft | src/tetra/tetra/board/model.js:194-200 | a cell of the block at or left of i holds the value and sees a block of the same size |
| Runs.BlockSameRight | src/tetra/tetra/board/model.js:202-208 | a cell of the block at or right of i holds the value and sees a block of the same size |
| Runs.BlockSame | src/tetra/tetra/board/model.js:194-208 | every cell of a block of equal tiles holds the value and sees a block of the same size |
| Runs.BeforePrefix | src/tetra/tetra/board/model.js:194-200 | the walk toward lower positions reads only the cells below the start |
| Runs.HorizontalRunMembers | src/tetra/tetra/board/model.js:188-210 | the horizontal run from a tile holds exactly the cells of its row from `left` before it to `right` after it |
| Runs.VerticalRunMembers | src/tetra/tetra/board/model.js:164-186 | the vertical run from a tile holds exactly the cells of its column from `below` under it to `above` over it |
| Runs.RowBlockTiles | src/tetra/tetra/board/model.js:194-208 | every cell of the walked block of a row is a cell of the board holding the value |
| Runs.RowEnds | src/tetra/tetra/board/model.js:194-208 | the cells just beyond both ends of the walked block of a row do not hold the value |
| Runs.ColumnBlockTiles | src/tetra/tetra/board/model.js:170-184 | every cell of the walked block of a column is a cell of the board holding the value |
| Runs.ColumnEnds | src/tetra/tetra/board/model.js:170-184 | the cells just beyond both ends of the walked block of a column do not hold the value |
| Runs.RowCellsHold | src/tetra/tetra/board/model.js:194-208 | a list made of cells lo..hi of a row, all of them holding the value, consists of board cells holding it |
| Runs.ColumnCellsHold | src/tetra/tetra/board/model.js:170-184 | the same for a column |
| Runs.HorizontalRunTiles | src/tetra/tetra/board/model.js:188-210 | every cell of a horizontal run from a tile is a cell of the board holding that tile's value |
| Runs.VerticalRunTiles | src/tetra/tetra/board/model.js:164-186 | every cell of a vertical run from a tile is a cell of the board holding that tile's value |
| Runs.RunLengths | src/tetra/tetra/board/model.js:164-210 | a run is 1 long from an empty cell; otherwise it is 1 + the tiles walked before + the tiles walked after |
| Runs.HorizontalRunShape | src/tetra/tetra/board/model.js:188-210 | the origin comes first; from an empty cell the run is the cell alone; otherwise it is the maximal block of equal tiles around the origin on its row: its length, its cells, their values, and the unequal cells at both ends |
| Runs.VerticalRunShape | src/tetra/tetra/board/model.js:164-186 | the same for the column |
| Runs.HorizontalRunSegment | src/tetra/tetra/board/model.js:188-210 | every cell of a horizontal run starts a horizontal run of the same length |
| Runs.VerticalRunSegment | src/tetra/tetra/board/model.js:164-186 | every cell of a vertical run starts a vertical run of the same length |
| Runs.MatchSet | src/tetra/tetra/board/model.js:149-162 | the cells of the board that lie on a horizontal or a vertical run longer than 2; `getMatches` returns exactly these |
| Runs.ContributedMatched | src/tetra/tetra/board/model.js:152-159 | a cell added by the run of some origin, when that run is longer than 2, is a matched cell |
| Runs.MatchedContributed | src/tetra/tetra/board/model.js:152-159 | a matched cell is added by the runs of its own origin, whose index is on the board |
| Runs.AllContributions | src/tetra/tetra/board/model.js:151-160 | the runs longer than 2 gathered from every origin are exactly the matched cells |
| Board.GatherNext | src/tetra/tetra/board/model.js:152-159 | one pass of `getMatches`' loop appends the horizontal run, then the vertical one, each only if longer than 2 |
| Board.RunsOfNext | src/tetra/tetra/board/model.js:151-152 | the runs of origin n extend the runs seen for origins 0 .. n - 1 |
| Board.GatherPieces | src/tetra/tetra/board/model.js:150-160 | the list gathered holds exactly the cells of the runs longer than 2 |
| Board.OriginPiece | src/tetra/tetra/board/model.js:152-159 | what one pass adds is the contribution of its origin |
| Board.PiecesContributions | src/tetra/tetra/board/model.js:151-160 | what the first n passes add is what origins 0 .. n - 1 contribute |
| Board.GatherContributions | src/tetra/tetra/board/model.js:150-160 | the list gathered holds exactly the cells the origins contributed |
| Board.UniqueMatches | src/tetra/tetra/board/model.js:149-162 | once deduplicated, the gathered list holds each matched cell exactly once and nothing else |
| Board.ElemsAppend | src/tetra/tetra/board/model.js:154 | concatenating two lists unites their cells |
| Board.BoardModel.GetMatches | src/tetra/tetra/board/model.js:149-162 | the result's cells are exactly the matched cells of the board, with no cell twice |
| Dedup.Unique | src/tetra/tetra/board/model.js:137-147 | `unique`: the first cell, then the rest with that cell's copies removed, deduplicated in turn |
| Dedup.Without | src/tetra/tetra/board/model.js:140-144 | removing the copies of a cell keeps exactly the other cells and never makes the list longer |
| Dedup.WithoutAppend | src/tetra/tetra/board/model.js:140-144 | removing a cell from a concatenation removes it from both parts |
| Dedup.WithoutAbsent | src/tetra/tetra/board/model.js:140-144 | removing a cell that is not in the list changes nothing |
| Dedup.WithoutSubsequence | src/tetra/tetra/board/model.js:140-144 | removing a cell keeps the remaining entries in order |
| Dedup.UniqueDistinct | src/tetra/tetra/board/model.js:137-147 | `unique` has no repeated cell and holds exactly the cells of its input |
| Dedup.UniqueOfDistinct | src/tetra/tetra/board/model.js:137-147 | `unique` leaves a list without repetitions as it is |
| Dedup.UniqueSubsequence | src/tetra/tetra/board/model.js:137-147 | `unique` keeps the input's order: its result is a subsequence of the input |
| Dedup.SpliceCopy | src/tetra/tetra/board/model.js:141-142 | splicing out, at j, a later copy of entry i keeps the entries up to i, and the rest loses that copy |
| Dedup.UniqueStep | src/tetra/tetra/board/model.js:139-145 | once the later copies of entry i are gone, the entries up to i followed by the deduplicated rest are the deduplicated list from i on |
| Board.BoardModel.Unique | src/tetra/tetra/board/model.js:137-147 | the in-place splice loop returns Dedup.Unique of its input: first occurrences kept, in order |
| Board.BoardModel.RowText | src/tetra/tetra/board/model.js:222-228 | the inner loop for row y writes LineWritten: the row's cells left to right, then the newline written with the last cell |
| Board.BoardModel.ToString | src/tetra/tetra/board/model.js:219-231 | the result is Render: rows from the top down, cells left to right, a tile as its value in decimal, an empty cell as `X`, a newline after the last cell of each row |
| Text.Render | src/tetra/tetra/board/model.js:219-231 | the text `toString` builds: every row from the top down, each cell by CellText, a newline after each row's last cell |
| Text.IntToString | src/tetra/tetra/board/model.js:224 | JavaScript's text for an integer tile value: '-' and the decimal digits for a negative value, the digits alone otherwise |
| Text.DigitChar | src/tetra/tetra/board/model.js:224 | a digit 0..9 is written as a character '0'..'9'; what the text means is proved in `Text.NatToStringParses` |
| Text.NatToString | src/tetra/tetra/board/model.js:224 | the decimal text of a number is not empty; that it parses back is `Text.NatToStringParses`, and that different values differ is `Text.IntToStringInjective` |
| Text.NatToStringParses | src/tetra/tetra/board/model.js:224 | the decimal text reads back as the number, and has no leading zero |
| Text.NatToStringDigits | src/tetra/tetra/board/model.js:224 | every character of the decimal text is a digit |
| Text.IntToStringSign | src/tetra/tetra/board/model.js:224 | the text of a value starts with '-' exactly when the value is negative |
| Text.IntToStringInjective | src/tetra/tetra/board/model.js:224 | different values are written differently |
| Text.CellText | src/tetra/tetra/board/model.js:224 | every cell is written as at least one character; exactly one for a single-digit value is `Text.SingleDigitChars` |
| Text.LineTextNext | src/tetra/tetra/board/model.js:222-228 | one pass of the inner loop extends the row's text by the cell's text, and the newline after the last cell |
| Text.RowsTextNext | src/tetra/tetra/board/model.js:221-229 | one pass of the outer loop appends the next row down |
| Text.LineTextSingleChars | src/tetra/tetra/board/model.js:222-228 | written one character per cell, row text position i is cell i's character |
| Text.LineWrittenSingleChars | src/tetra/tetra/board/model.js:222-228 | such a row takes width + 1 characters: its cells in order, then the newline |
| Text.RowsTextLength | src/tetra/tetra/board/model.js:221-229 | written one character per cell, the top k rows take k * (width + 1) characters |
| Text.RowsTextPrefix | src/tetra/tetra/board/model.js:221-229 | the text of the top m rows begins the text of the top k >= m rows |
| Text.RowsTextAt | src/tetra/tetra/board/model.js:221-229 | written one character per cell, character (width + 1) * i + x is character x of row height - 1 - i |
| Text.SingleDigitChars | src/tetra/tetra/board/model.js:224 | on a board of single-digit values every cell's text is one character |
| Text.RenderSingleDigits | src/tetra/tetra/board/model.js:219-231 | on a board of single-digit values, line i from the top holds row height - 1 - i, one character per cell, and ends with a newline |
| Text.RenderLength | src/tetra/tetra/board/model.js:219-231 | the text of a board of single-digit values is height lines of width + 1 characters |
| Board.BoardModel.RemoveAll | src/tetra/tetra/board/model.js:55-62 | every listed cell's tile is removed, in order; the result reports whether the list was non-empty |
| Board.ClearAll | src/tetra/tetra/board/model.js:57-59 | `remove` on every listed tile in order, as a function of the board: the result has the board's size; which cells it empties, and that off-board cells are left alone, is `Board.ClearAllAt` |
| Board.ClearAllAt | src/tetra/tetra/board/model.js:57-59 | after removing a list of tiles, exactly the listed cells are empty and every other cell is unchanged |
| Board.ClearMatches | src/tetra/tetra/board/model.js:42 | `removeAll(getMatches())` empties exactly the matched cells and leaves every other cell as it was |
| Board.BoardModel.MoveTile | src/tetra/tetra/board/model.js:108-119 | the tile moves from `from` to `to`, leaving `from` empty; with no tile at `from` the move is refused and the board is unchanged |
| Board.BoardModel.DropColumn | src/tetra/tetra/board/model.js:86-95 | the inner loop of `gravity` for column i leaves the board and the movement flag of ScanUpTo over the whole column, which ColumnPacks proves packed |
| Board.BoardModel.Gravity | src/tetra/tetra/board/model.js:82-106 | the board becomes the scan's result; every column ends packed (its tiles at the bottom, in order, then empty cells); the result is true exactly when some tile had an empty cell beneath it |
| Falling.ScanCell | src/tetra/tetra/board/model.js:88-95 | one iteration of the inner loop keeps the board's shape and keeps `drop` at most the number of cells scanned |
| Falling.ScanUpTo | src/tetra/tetra/board/model.js:86-95 | the inner loop's state after y cells keeps the board's shape and `drop <= y` |
| Falling.SweepUpTo | src/tetra/tetra/board/model.js:85-96 | the outer loop's state after i columns keeps the board's shape |
| Falling.MoveColumns | src/tetra/tetra/board/model.js:92 | a move within one column changes only that column, at the two cells involved |
| Falling.SweepStart | src/tetra/tetra/board/model.js:84-85 | before the first column nothing has been scanned |
| Falling.SweepNext | src/tetra/tetra/board/model.js:85-96 | a fully scanned column counts as swept |
| Falling.ScanLook | src/tetra/tetra/board/model.js:89 | the scan reads the original cell, and `drop` is the number of empty cells below it |
| Falling.ScanStay | src/tetra/tetra/board/model.js:89-91 | an empty cell, or a tile with nothing below to fall into, is left in place |
| Falling.ScanMove | src/tetra/tetra/board/model.js:91-93 | a tile with `drop` empty cells below it lands in the lowest empty cell, and the scanned part stays packed |
| Falling.ScanCellKeeps | src/tetra/tetra/board/model.js:88-95 | each iteration of the inner loop keeps its invariant |
| Falling.ScanUpToPacks | src/tetra/tetra/board/model.js:88-95 | scanning the first y cells of a column packs them, and a tile has moved exactly when one had an empty cell beneath it |
| Falling.SweepUpToPacks | src/tetra/tetra/board/model.js:85-96 | sweeping the first i columns packs them, and a tile has moved exactly when one of them had a gap |
| Falling.ColumnPacks | src/tetra/tetra/board/model.js:86-95 | scanning a whole column packs it, and reports a movement exactly when it had a gap |
| Falling.GravityPacks | src/tetra/tetra/board/model.js:82-106 | after the pass every column is packed; a tile moved exactly when some column had a gap, and exactly when the board changed |
| Packing.Occupied | src/tetra/tetra/board/model.js:88-95 | the tiles of a column, in order, are no more than its cells, and each is a tile |
| Packing.PackedShape | src/tetra/tetra/board/model.js:82-106 | a packed column keeps its height, its tiles and their order, and has its tiles exactly in the bottom cells |
| Packing.PackedChanges | src/tetra/tetra/board/model.js:97-104 | packing changes a column exactly when a tile has an empty cell beneath it |
| Packing.NoGapTail | src/tetra/tetra/board/model.js:88-95 | without a gap, every cell from an empty one up is empty |
| Packing.PackedSplit | src/tetra/tetra/board/model.js:88-95 | tiles below p and empty cells from p up form a packed column |
| Packing.NoGapPacked | src/tetra/tetra/board/model.js:88-95 | a column without a gap is packed already |
| Packing.FirstEmpty | src/tetra/tetra/board/model.js:89-90 | the first empty cell of a column: tiles below it and an empty cell there |
| Packing.PackedBelowFull | src/tetra/tetra/board/model.js:88-95 | in a packed column, every cell below a tile holds a tile |
| Packing.PackAppendNone | src/tetra/tetra/board/model.js:89-90 | an empty cell on top of a column stays on top once packed |
| Packing.PackAppendTile | src/tetra/tetra/board/model.js:91-93 | a tile on top of a column lands in its lowest empty cell once packed |
| Packing.GapAppend | src/tetra/tetra/board/model.js:89-93 | adding a cell on top creates a gap exactly when a tile is put above an empty cell |
| Packing.GappedHasGap | src/tetra/tetra/board/model.js:88-95 | the gap test the scan computes on the way up is HasGap |
| Packing.PackStep | src/tetra/tetra/board/model.js:88-95 | one step of the scan: `drop` counts the empty cells below y, and a tile moved by `drop` lands in the lowest empty cell of the packed part |
| Packing.NoneCounted | src/tetra/tetra/board/model.js:89-90 | a column with an empty cell has fewer tiles than cells |
| Packing.ScanStep | src/tetra/tetra/board/model.js:88-95 | one iteration on the whole column: an empty cell or a tile with nothing to fall into leaves it as it is; any other tile moves down by `drop`; either way the scanned part is the packed prefix one cell longer |
| Packing.GappedColumns | src/tetra/tetra/board/model.js:85-96 | the column-by-column gap test holds exactly when some column has a gap |
| Packing.GravityChanges | src/tetra/tetra/board/model.js:82-106 | packing every column changes the board exactly when some column had a gap |
| Board.BoardModel.Fill | src/tetra/tetra/board/model.js:64-80 | the board and the seed become those of the pass FillUpTo; when a hook is set its log gains the pass's new tiles, in order; the result reports whether a tile was added; from a non-negative seed, palette tiles stay in the palette |
| Spawning.FillUpTo | src/tetra/tetra/board/model.js:68-77 | the state after the first x columns keeps the board's shape |
| Spawning.StarvedKept | src/tetra/tetra/board/model.js:69 | writing top cells never changes which columns are probed as starved |
| Spawning.FillUpToGrid | src/tetra/tetra/board/model.js:68-77 | after x columns, exactly the starved columns among them have a new top tile, holding the value drawn for it; every other cell is unchanged |
| Spawning.FillUpToCount | src/tetra/tetra/board/model.js:68-77 | one new tile per starved column, and one draw of the generator per tile |
| Spawning.FillUpToLog | src/tetra/tetra/board/model.js:72-75 | the k-th reported tile sits on top of the k-th starved column and holds the k-th value drawn |
| Spawning.StarvedBeforePositive | src/tetra/tetra/board/model.js:78 | a tile is added exactly when some column is starved |
| Spawning.FillUpToInPalette | src/tetra/tetra/board/model.js:70 | from a non-negative seed, the new tiles are palette values and the seed stays non-negative |
| Spawning.FillQuiet | src/tetra/tetra/board/model.js:64-80 | the pass adds nothing exactly when no column is starved, and then the board and the seed are unchanged |
| Spawning.FillFullRow | src/tetra/tetra/board/model.js:69 | a board whose row below the top is full gets no new tile, whatever its top row holds |
| Board.BoardModel.TryCell | src/tetra/tetra/board/model.js:15-18 | one pass of the do-while loop: only cell i changes, and it holds the tile `createRandomTileModel` draws: the palette value scaled from the seed after one step of the generator; the result is the loop's exit test, that neither run of the new tile is longer than 2; from a non-negative seed the tile is a palette value and the board stays in the palette |
| Board.BoardModel.SettleCell | src/tetra/tetra/board/model.js:14-18 | only cell i changes; the budget of attempts never grows, and the seed has advanced by one draw per attempt made; after at least one attempt the cell holds the value of the last draw, scaled from the final seed; a success leaves the tile passing the exit test (both runs at most 2 long) and so settled (at most one equal tile directly to its left and one directly below); from a non-negative seed the board stays in the palette |
| Board.BoardModel.Randomize | src/tetra/tetra/board/model.js:11-20 | the top row is kept; the seed has advanced by one draw per attempt, and the attempts stay within the fuel; a run that finishes leaves every cell below the top row settled, and on a board with an empty top row leaves no match; from a non-negative seed and a non-empty palette, a board whose tiles are palette values keeps that property |
| Generation.Committable | src/tetra/tetra/board/model.js:18 | the do-while loop's exit test for index i: neither run of the tile at `transform1D(i)` is longer than 2 |
| Generation.CommitSettles | src/tetra/tetra/board/model.js:18 | a tile that passed the loop's exit test Committable (both runs at most 2 long) is settled |
| Generation.SettledFrame | src/tetra/tetra/board/model.js:12-19 | being settled reads only cells at lower indices, so later writes keep it |
| Generation.SettledPrefixFrame | src/tetra/tetra/board/model.js:12-19 | writing at or above index k keeps every lower index settled |
| Generation.SettledRowRun | src/tetra/tetra/board/model.js:11-20 | on a settled board with an empty top row, no horizontal run is longer than 2 |
| Generation.SettledColumnRun | src/tetra/tetra/board/model.js:11-20 | on a settled board with an empty top row, no vertical run is longer than 2 |
| Generation.SettledBoardHasNoMatches | src/tetra/tetra/board/model.js:11-20 | a settled board with an empty top row has no matched cell |
| Generation.TopRowKept | src/tetra/tetra/board/model.js:12 | a board whose top-row cells equal those of an empty-topped board has an empty top row |
| Board.BoardModel.Simulate | src/tetra/tetra/board/model.js:39-53 | a run that settles within its fuel leaves a stable board: no match, no starved column and no tile above an empty cell, the state in which a round of remove / fill / gravity does nothing |
| Board.StableRowsFull | src/tetra/tetra/board/model.js:39-53 | a stable board is full below its top row |
| Board.StableIffQuiet | src/tetra/tetra/board/model.js:45-51 | a board is stable exactly when one round finds no match, adds no tile and drops no tile |
| Board.BoardModel.SwapTiles | src/tetra/tetra/board/model.js:22-24 | with no swap pending, the two tiles trade places and the swap becomes pending; while one is pending, nothing changes |
| Board.BoardModel.OnSwapped | src/tetra/tetra/board/model.js:25-34 | a swap that made no match is swapped back, and the seed and the hook's log stay as they were; one that did sets off the cascade, which ends on a stable board if it settles; the guard is cleared once that has finished |
| Board.BoardModel.SwapTilesAndWait | src/tetra/tetra/board/model.js:22-37 | a swap that makes no match leaves the board, the seed and the hook's log as they were; one that does ends on a stable board once the cascade settles; the guard is then clear; a call while a swap is pending changes neither the board, the guard, the seed nor the log |
| Board.BoardModel.SetOnTileAdded | src/tetra/tetra/board/model.js:249-252 | the setter installs or removes the hook |

## Left out

- Asynchrony: the promises of `swapTiles`, `simulate`, `removeAll`, `fill`, `gravity` and `moveTile` are not modelled. Each operation completes before its promise would resolve. `swapTiles` is split at the point where it waits for the swap animation: `SwapTiles` starts the swap and `OnSwapped` is the continuation. `SwapTilesAndWait` composes the two.
- Animations: `TileModel.move`, `TileModel.swap` and `TileModel.remove` are modelled as their effect on the tile map. A rejected animation is not modelled, because the tile classes are not part of this model.
- The tile map (`TileMapModel`) is not part of this model. The model assumes that it stores cells row-major, that `transform1D(i)` is (i % width, i / width), that `get` reports an empty cell outside the board, and that iterating the board visits every cell in index order.
- Tiles carry only their value. `TileModel.equals` is not part of this model; the walks compare tiles by value, as `tilesMatch` does.
- The palette size `Object.keys(TileView.IMAGES).length` is the constructor parameter `paletteSize`, because the tile view is not part of this model.
- Floating point: `random()` returns the new seed and `randomTileValue` computes floor(seed * (1 + max - min) / 233280) + min exactly on integers. Rounding of the floating-point product is not modelled.
- The `onTileAdded` hook is modelled as a flag plus a log of the tiles reported to it. What the hook does is not modelled. Its getter is the field itself.
- `randomize` passes a fourth argument `true` to `set`. Its meaning belongs to the tile map, so it is ignored.
- The match functions take the origin's coordinates instead of a tile model, and `positionOf` is not modelled. An empty cell gives the origin alone, as for a missing tile.
- The walks assume that `positionOf` returns a fresh position object each time. `getHorizontalMatches` and `getVerticalMatches` move the returned position in place during the first walk (lines 174 and 198) and ask `positionOf` again to start the second walk (lines 177 and 201). If the tile map handed back a shared object, the second walk would start from the wrong cell. The model starts both walks at the origin.
- `gravity`'s array of movement promises is modelled as a flag that says whether a tile moved.
- Board.BoardModel.Randomize: the do-while loop may never end in the source. The model bounds all its attempts by `fuel` and proves the result only for a run that finishes.
- Board.BoardModel.Simulate: the recursion may never end in the source. The model bounds it by `fuel` rounds and states stability only for a run that settles.
- Board.BoardModel.OnSwapped: the guard is cleared, and a cascade is known to be stable, only when `simulate` settled within its fuel.
- Board.BoardModel.SwapTilesAndWait: the same fuel bound as OnSwapped.
- Board.BoardModel.MoveTile: requires `to` to be on the board. Gravity only moves tiles within the board, and TileModel.move is not part of this model.
- Board.BoardModel.Fill: requires height >= 1. On a board with no rows the source writes to row -1, which the tile map's `set` decides.
- Board.BoardModel.Simulate: requires height >= 1, for the same reason, because it calls `fill`.
- Board.BoardModel.SwapTiles: requires both cells on the board, because the tiles being swapped are tiles of the board.
- Board.BoardModel.Randomize: for the cells it commits, the contract keeps `Settled`, not the exit test itself. A later commit to the right of a tile or above it can lengthen that tile's runs. The exit test holds at the moment of each commit (SettleCell), and `Settled` is what survives the later writes.
- Board.BoardModel.Randomize: each committed tile is the value of its cell's last draw (SettleCell), but the contract does not give the finished board as a function of the starting seed; it states the seed after `attempts` draws.
- Board.BoardModel.Randomize: the guarantee of no match needs an empty top row, as on a fresh board. `randomize` never writes the top row, so on a board whose top row already holds tiles it could end up with a match.
- Board.BoardModel.ToString: on a board with values of several digits or negative values, the contract is Render itself. The character-by-character layout is proved only for single-digit values.
