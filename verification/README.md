# Minesweeper board state, in Dafny

This project models the game logic inside the `Minesweeper` constructor of
`minesweeper.js`. That logic is a flat, row-major array of `nrows * ncols`
small integers. Each integer packs two bits: bit 0 means "bomb" and bit 1
means "uncovered". The model covers:

- the random set-up loop;
- the `index`, `getField` and `setField` accessors;
- the `isBomb` and `isUncovered` bit tests and the `uncover` mutator;
- the `forEach` traversal;
- the four-neighbour `nearBombs` count;
- the two player actions, `leftClick` and `rightClick`.

Layout:

- `cell.dfy` (module `Cell`): a cell code (0..3), its two bits, packing,
  and setting the uncovered bit.
- `grid.dfy` (module `Grid`): the board datatype, row-major `Index` and its
  inverse `Coords`, `GetField`/`SetField`, and `ForEach`, the sequence of
  coordinates the traversal hands to its callback.
- `minesweeper.dfy` (module `Minesweeper`): `Uncover`, the reveal-all
  traversal (both as a function and as the nested loop `RevealAll`),
  `NearBombs`, `LeftClick`, `RightClick`, `Init`, and `Play` for a whole
  sequence of clicks.

The board is an immutable value. Each action returns the board it leaves
behind instead of updating an array in place.

What the code does, and the model with it:

- `nearBombs` counts only the four orthogonal neighbours;
- `rightClick` changes nothing;
- `leftClick` uncovers only the clicked cell, or the whole board when that
  cell holds a bomb.

## Model

| member | source | states |
|---|---|---|
| Cell.Pack | minesweeper.js:20-26 | packing two flags gives a code whose bomb bit and uncovered bit read back as those flags |
| Cell.UnpackPack | minesweeper.js:20-26 | every code is the packing of its own two bits, so the two bits determine the cell |
| Cell.SetUncovered | minesweeper.js:28-30 | `x \| 2` turns the uncovered bit on and keeps the bomb bit; the result is the packing of (old bomb bit, uncovered) |
| Cell.SetUncoveredIdempotent | minesweeper.js:28-30 | setting the uncovered bit a second time changes nothing |
| Cell.BitwiseAgreement | minesweeper.js:20-30 | the `%2` and `/2%2` tests and the add-2 update agree with the source's `& 1`, `& 2` and `\| 2` on every cell code |
| Grid.Index | minesweeper.js:8-10 | an in-range (row, col) maps into `[0, nrows*ncols)`; dividing the position by `ncols` gives back row and column |
| Grid.Coords | minesweeper.js:8-10 | every position in `[0, nrows*ncols)` belongs to in-range coordinates that `Index` maps back to it |
| Grid.IndexInjective | minesweeper.js:8-10 | distinct in-range coordinates map to distinct positions |
| Grid.CoordsOfIndex | minesweeper.js:8-10 | `Coords` undoes `Index` (the other direction of the round trip) |
| Grid.SetField | minesweeper.js:16-18 | afterwards the addressed cell holds the new code, every other cell keeps its code, and the board keeps its size |
| Grid.SetFieldOfGetField | minesweeper.js:12-18 | writing back the value just read leaves the board unchanged |
| Grid.SetFieldTwice | minesweeper.js:16-18 | of two writes to one cell, only the second one matters |
| Grid.ForEachVisitsEachCellOnce | minesweeper.js:32-38 | the callback is called `nrows*ncols` times, and call `k` receives the coordinates of position `k`: every cell exactly once, in row-major order |
| Minesweeper.Uncover | minesweeper.js:28-30 | the cell becomes uncovered, its bomb bit is kept, no other cell changes, and no bomb bit anywhere changes |
| Minesweeper.UncoverIdempotent | minesweeper.js:28-30 | uncovering a cell twice gives the same board as uncovering it once |
| Minesweeper.UncoverEach | minesweeper.js:32-38 | after calling `uncover` on a list of coordinates, a cell is uncovered exactly when it was already uncovered or is in the list; its bomb bit is kept, and a cell not in the list does not change at all |
| Minesweeper.UncoverAll | minesweeper.js:102-104 | `forEach(uncover)` leaves every cell uncovered, keeps every bomb bit, and changes nothing else |
| Minesweeper.RevealAll | minesweeper.js:32-38 | the nested row and column loops calling `uncover` compute the same board as `UncoverAll` |
| Minesweeper.NearBombs | minesweeper.js:40-55 | the count lies between 0 and 4 |
| Minesweeper.NearBombsCountsAdjacentBombs | minesweeper.js:40-55 | the count equals the number of in-range bomb cells at Manhattan distance 1, i.e. (row±1, col) and (row, col±1) |
| Minesweeper.AdjacentCases | minesweeper.js:42-53 | the cells at Manhattan distance 1 are exactly the four the source probes |
| Minesweeper.NearBombsReadsOnlyNeighbours | minesweeper.js:40-55 | two boards that agree on the bomb bits of the in-range orthogonal neighbours give the same count |
| Minesweeper.NearBombsDependsOnlyOnBombs | minesweeper.js:40-55 | boards with bombs in the same cells give the same count everywhere, whatever is uncovered |
| Minesweeper.NearBombsIgnoresDiagonals | minesweeper.js:40-55 | illustration only, not a general property: with one bomb at (0,0) of a 2x2 board, the diagonal cell (1,1) counts 0 |
| Minesweeper.NearBombsCountsEdges | minesweeper.js:40-55 | illustration only: on that board, (0,1) and (1,0) each count 1 |
| Minesweeper.LeftClick | minesweeper.js:96-105 | on an uncovered cell the board is unchanged; on a covered non-bomb cell only that cell changes and it becomes code 2; on a covered bomb every cell becomes uncovered; in all cases the clicked cell ends uncovered, no bomb bit changes and no uncovered cell is covered again |
| Minesweeper.RightClick | minesweeper.js:109-113 | the board is never modified |
| Minesweeper.Play | minesweeper.js:118-131 | any sequence of in-range left and right clicks keeps the board's size and its bombs, and never covers an uncovered cell again |
| Minesweeper.PlayKeepsNearBombs | minesweeper.js:96-113 | no sequence of clicks changes the count shown for any cell |
| Minesweeper.Init | minesweeper.js:2-6 | the board has `nrows*ncols` cells; every cell is 0 or 1, so all start covered; a cell holds a bomb iff the random draw made for it was at most `BombThreshold`, with draws going to cells from the last one down to the first |
| Minesweeper.ThresholdIsTheDouble | minesweeper.js:5 | the threshold is the double nearest to 0.1, which is 3602879701896397 / 2^55 and slightly above 1/10, so a draw equal to that double is a bomb |

## Left out

- Random bomb placement: `Math.random()` is replaced by the parameter `draws` of `Init`, the sequence of values the generator would return. The draws are exact reals, a superset of the doubles the generator returns. They are compared with `BombThreshold`, the exact value of the double literal `0.1`. Their range is not constrained, since the loop does not rely on it.
- Rendering: `renderInner` and `render` (minesweeper.js:57-94) only build HTML markup.
- The `boardEl.innerHTML` redraw at the end of `leftClick` (minesweeper.js:106): it is display output and does not change the board.
- DOM event registration and the handlers `onMouseDown` and `onContextMenu` (minesweeper.js:115-141), including `closest`, `dataset` and `parseFloat`. They are browser input glue. `Play` keeps only their dispatch, where button 0 is a left click and button 2 a right click.
- Out-of-range coordinates: every board operation requires in-range (row, col), so the model assumes one board per page. Each `Minesweeper` instance registers document-wide listeners (minesweeper.js:115-116), and `onContextMenu` accepts any `div.minesweeper-board` (minesweeper.js:135). With several boards on a page, a click on a larger board reaches a smaller instance's `leftClick` with coordinates outside its grid. There a column outside the grid aliases another cell's position, and a position past the array reads `undefined` and writes 2 beyond its end. These calls are not modelled. The `if (div)` test at minesweeper.js:124 comes after `div.dataset` is read at 122, so it guards nothing.
- Numbers: cell codes and coordinates are unbounded Dafny integers. The source's bit operators are modelled by `%2`, `/2%2` and adding 2, and `Cell.BitwiseAgreement` shows these agree on codes 0..3.
