# Game of Life engine in Dafny

This project models the simulation core of a terminal Game of Life (Rust, `src/game.rs`). The board is `Vec<Vec<Cell>>`, and each `Cell` stores its own column `x`, its row `y` (both `u16`) and whether it is `Alive` or `Dead`. The engine can:

- build an all-Dead board (`new`);
- list every cell with its position (`cells`);
- revive or kill one cell, bounds-checked (`revive_cell_at_pos`, `kill_cell_at_pos`);
- grow the board but never shrink it (`resize_if_larger`);
- count a cell's live neighbours in a clipped, non-wrapping 3x3 window (`get_neighbours_count_at_pos`);
- advance one generation of Conway's B3/S23 rule from the old board (`tick`).

`src/main.rs` holds an older copy of `Cell`, `Game` and the two slice helpers (lines 10-169 and 288-309). Method for method, for the methods it has, its logic is the same as `src/game.rs`. It has no `cells()`, orders its methods differently, and its `Cell` does not derive `PartialEq`. The engine is modelled once. Some rows below cite the `src/main.rs` copy of the code they model.

Modules, one file each:

- `Wrappers` (`wrappers.dfy`): `Option`.
- `LifeCell` (`cell.dfy`): `u16` as a subset type, and `Cell` with `Live`/`Die`. The Rust casts `as u16` are written out as `AsU16`, which keeps the low 16 bits.
- `Slices` (`slices.dfy`): `slice_until`, `slice_len_2d`, the `filter().count()` they use, and `CountRange`. `CountRange` is the declarative count of a clipped index window.
- `GameGrid` (`grid.dfy`): the board as `seq<seq<Cell>>` and its invariant `Wf`. `Wf` means at most 65535 rows and columns, all rows of equal length, and every cell storing its own position. This module also holds `new`, `cells`, `find_cell_at_pos_mut`, `revive`/`kill` and `resize_if_larger`.
- `Engine` (`engine.dfy`): the windowed neighbour count exactly as the code computes it, `LiveNeighbours` (the declarative count of the eight surrounding positions that lie on the board), and `tick`.
- `Scenarios` (`scenarios.dfy`): boards given by their set of live positions, and the block still life.

Mutating methods (`&mut self`) become pure functions that return the new board. `revive`/`kill` return an `Update` that pairs the new board with the `Option<()>` result.

The central result is `Engine.NeighboursCountMatchesSpec`. On any well-formed board, for every `u16` position, the window arithmetic (`until = next_x - prev_x + 1`, clipped by `slice_until`, with saturating `u16` steps) counts exactly the live cells of the clipped 3x3 box minus its centre. That includes boards only one or two cells wide or tall, and positions on every edge. The saturation corner at y = 65535 cannot touch an existing row, because a well-formed board has at most 65535 rows. So the theorem needs no extra precondition. One might suspect the window arithmetic of an off-by-one on boards narrower than three cells. The code has no such error; the theorem covers those boards.

## Model

| member | source | states |
|---|---|---|
| LifeCell.AsU16 | src/game.rs:89-90 | the `as u16` cast keeps the low 16 bits: it differs from n by a multiple of 65536 and is n itself whenever n fits |
| LifeCell.IsAlive | src/game.rs:15-20 | true exactly for an Alive cell, false exactly for a Dead one |
| LifeCell.NewCell | src/game.rs:22-28 | a Dead cell storing the given (x, y) |
| LifeCell.NewAliveCell | src/game.rs:30-36 | an Alive cell storing the given (x, y) |
| LifeCell.Live | src/game.rs:38-40 | the cell becomes Alive and keeps its stored coordinates |
| LifeCell.Die | src/main.rs:51-53 | the cell becomes Dead and keeps its stored coordinates |
| Slices.SliceUntil | src/game.rs:172-177 | None exactly when `from` is past the end; otherwise a window of length min(until, len - from) whose element i is a[from + i] |
| Slices.Count | src/game.rs:192 | a filtered count never exceeds the length of the slice |
| Slices.SliceLen2d | src/main.rs:295-309 | a missing row counts 0, and no row counts more than `until` |
| Slices.SliceLen2dIsCountRange | src/game.rs:179-193 | the helper counts exactly the in-row indices of [from, from + until) whose element passes the filter, and 0 for a missing row |
| Slices.CountSlice | src/main.rs:288-293 | counting the slice a[from..from + len] equals the declarative count over that index range |
| Slices.CountRangeClip | src/game.rs:174-175 | clipping a window at the row's end, as `until.min(a.len())` does, loses no counted element |
| GameGrid.DeadRow | src/game.rs:94-97 | a row of `width` cells whose cell x is the Dead cell storing (x, y) |
| GameGrid.New | src/game.rs:52-64 | `height` rows of `width` cells, all Dead, each storing its own (x, y); the board is well formed |
| GameGrid.EqualsNew | src/main.rs:61-73 | any board of `height` rows of `width` Dead cells, each storing its own position, is the board `new` builds |
| GameGrid.Cells | src/game.rs:66-74 | the listing has one entry per cell of the board |
| GameGrid.CellsListsEveryCell | src/game.rs:68-71 | cell (x, y) is listed at position Size(rows before y) + x, with its row and column index, so each cell appears once and rows appear in order |
| GameGrid.CellsRowMajor | src/game.rs:66-74 | on a rectangular board of width w the listing has h * w entries, and entry y * w + x is cell (x, y) |
| GameGrid.FindCellAtPos | src/game.rs:142-147 | finds a cell exactly when y is a row index and x an index of that row, and then it is the cell at [y][x] |
| GameGrid.ReviveCellAtPos | src/game.rs:76-80 | Some exactly when (x, y) is in bounds; then only that cell changes, to Alive with the same coordinates; on None the board is unchanged; well-formedness is kept |
| GameGrid.KillCellAtPos | src/game.rs:82-86 | Some exactly when (x, y) is in bounds; then only that cell changes, to Dead with the same coordinates; on None the board is unchanged; well-formedness is kept |
| GameGrid.ReviveIdempotent | src/main.rs:108-112 | reviving twice at a position gives the same board and result as reviving once |
| GameGrid.KillIdempotent | src/main.rs:114-118 | killing twice at a position gives the same board and result as killing once |
| GameGrid.KillUndoesRevive | src/game.rs:76-86 | kill after revive at the same position equals kill alone, and restores the board when that cell was Dead |
| GameGrid.ReviveUndoesKill | src/main.rs:108-118 | revive after kill at the same position equals revive alone, and restores the board when that cell was Alive |
| GameGrid.ResizeIfLarger | src/game.rs:88-110 | on any non-empty board: no row is removed, and every old cell stays in place unchanged |
| GameGrid.ResizeGrows | src/main.rs:120-142 | on a well-formed board the result is well formed, with max(old, requested) rows each max(old, requested) long; old cells are kept and all added cells are Dead and store their own position |
| GameGrid.ResizeNoOp | src/game.rs:91-102 | requesting dimensions no larger than the current ones leaves the board unchanged |
| GameGrid.ResizeOfNew | src/game.rs:52-110 | growing a fresh w x h board with h > 0, including w = 0, gives the fresh board of the larger dimensions |
| GameGrid.ResizeThreeByTwo | src/game.rs:199-233 | the 3x2 board grown with (4, 3) is the 4x3 board of Dead cells at their own positions |
| Engine.LiveNeighbours | src/game.rs:149-169 | the declarative neighbour count lies in [0, 8] |
| Engine.SaturatingDec | src/game.rs:150 | `saturating_sub(1)` is y - 1 clamped onto the u16 range |
| Engine.SaturatingInc | src/game.rs:152 | `saturating_add(1)` is y + 1 clamped onto the u16 range |
| Engine.BandSum | src/game.rs:150-166 | on any board the unreduced sum of the three bands is at most 9 |
| Engine.NeighboursCountAtPos | src/main.rs:86-106 | the `as u8` result equals the unreduced band sum (the cast never truncates) and is at most 9 |
| Engine.WindowIsThreeColumns | src/game.rs:153-155 | the window starting at `prev_x`, `until` long, covers exactly the existing columns x - 1, x, x + 1, including at x = 0 and x = 65535 |
| Engine.BandCount | src/game.rs:159-166 | one band counts the three columns around x of row j, or 0 when row j does not exist |
| Engine.RowAboveCount | src/game.rs:150-162 | the band above counts row y - 1, and counts nothing when y = 0 |
| Engine.OwnRowCount | src/game.rs:163-165 | on a positional board, the own-row band counts columns x - 1 and x + 1 and never the centre |
| Engine.RowBelowCount | src/game.rs:152-166 | the band below counts row y + 1; at y = 65535 it saturates onto a row that a well-formed board does not have |
| Engine.NeighboursCountMatchesSpec | src/game.rs:149-169 | on a well-formed board, for every u16 position, the windowed count equals the number of Alive cells among the eight surrounding positions on the board |
| Engine.Tick | src/main.rs:144-168 | the new board has the old board's shape, and each new cell stores its own (cast) index |
| Engine.TickKeepsShape | src/game.rs:112-136 | a tick keeps a well-formed board well formed, with the same number of rows and the same width |
| Engine.NextCell | src/game.rs:121-130 | the new cell stores the cast (x, y) and is Alive exactly when the old cell is Alive with 2 or 3 neighbours or Dead with exactly 3 |
| Engine.TickCell | src/game.rs:117-130 | a cell is Alive after a tick exactly when B3/S23 holds of its old state and its declarative neighbour count on the old board |
| Engine.TickAppliesLifeRule | src/game.rs:112-136 | on a well-formed board a tick keeps well-formedness and dimensions, and applies survive-on-2-or-3, birth-on-3 to every cell using only the pre-tick board |
| Scenarios.PatternStep | src/game.rs:121-130 | if the rule, applied to a board's set of live positions, gives a second set everywhere on the board, one tick gives the board of that second set |
| Scenarios.BlockIsStill | src/game.rs:112-136 | the 2x2 block in the middle of a 4x4 board is unchanged by a tick |

## Left out

- `TuiGame` (`src/main.rs:171-286`) is left out. That is terminal rendering, colours, cursor moves and `stdout` writes, all of it I/O.
- `listen_events` is left out, including the mouse coordinate translation `a - 1`/`b - 1`. It decodes events from a foreign terminal library.
- `main` is left out: raw mode, alternate screen and mouse terminal setup.
- The `Debug` and `PartialEq` derives are not modelled. Dafny datatypes have structural equality.
- `with_cells` is only a struct constructor. `GameGrid.New` returns the board directly.
- `cells()` returns references to the cells. The model lists the cell values.
- `GameGrid.ResizeIfLarger` requires a non-empty board. The source indexes `self.cells[0]` and panics on an empty board, and that panic is not modelled.
- `Engine.NeighboursCountMatchesSpec` requires a well-formed board. On a ragged board, or on one whose cells store positions other than their own, the centre exclusion compares stored coordinates, not indices, and the count can differ.
- `GameGrid.ResizeGrows` and `Engine.TickAppliesLifeRule` are stated for well-formed boards. Their functions are total and model the truncating `as u16` casts, but the properties about dimensions and positions are only proved under the invariant.
- The glider scenario is not proved; only the block still life is. A glider on a 5x5 board needs per-cell case analysis beyond the solver budget.
