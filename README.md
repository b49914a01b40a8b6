# Minesweeper game state, modelled in Dafny

This project models the game-state core of a small browser Minesweeper (`script.js`). It
covers the grid of `{mine, revealed, flagged}` cell records and the module-level `gameOver`
flag, together with the operations that change them:

- building the grid and placing mines by rejection sampling (`createGrid`, `placeMines`);
- revealing a cell, with its flood-fill cascade (`revealCell`, `revealAdjacentCells`);
- counting the mines around a cell (`countMinesAround`);
- toggling a flag (`toggleFlag`);
- the bounds check (`isValid`);
- the state change of `showGameOver`.

The model is imperative, like the source. `Minesweeper.Game` is a class holding:

- an `array2<Cell>`, updated in place;
- a `gameOver` field;
- the board size and mine count, which the source fixes at 10, 10 and 15. Here they are constructor parameters.

Three ghost sets give an abstract view of the grid: `mines`, `hidden` (not yet revealed) and
`flags`. `Game.Valid()` ties them to the array cell by cell. The loop methods keep the source's
`while` and nested `for` loops. They are proved against pure specification functions, which have
lemmas of their own:

- `MinesAround`: the number of mines in the 3×3 block, as a set cardinality;
- `Placement` and `Finishes`: where rejection sampling puts the mines, and when its loop ends;
- `Toggled` and `FlagsToggled`: one flag flip, on a cell and on the set of flags;
- `CellsFrom`: the cells a sequence lists from a given index on (the draws placement reads, the
  cells a reveal opens);
- `Lists`, `Chain` and `Closed`: a reveal's ghost result `order` lists exactly the cells it opens,
  in opening order. Every listed cell after the first neighbours an earlier listed zero-count
  cell (so the cascade is connected). Every opened zero-count cell ends with all its neighbours
  revealed or flagged (so the cascade is closed);
- `Swept`: how far the neighbour loops of `revealAdjacentCells` have got.

`sets.dfy` (module `SetFacts`) holds three cardinality lemmas:

- a subset is no larger than its superset (`SubsetCard`);
- a row segment of `n` cells has `n` cells (`LineCard`);
- a `rows × cols` rectangle has `rows * cols` cells (`RectCard`).

Where the code and a plain reading of the game differ, the model follows the code:

- `countMinesAround` also visits offset (0, 0), so the count includes the cell itself. A mine
  therefore never has a count of zero, and a safe cell has a count of at most 8.
- There is no win detection anywhere. The only end state is `gameOver` after a mine is revealed.
- `revealMines` only adds a style class to mine cells. It does not set `revealed`, so after a
  loss only the clicked mine is revealed in the state.
- The board configuration is not validated. Placement simply never ends when the random draws
  do not supply enough distinct free cells. The model makes that termination a precondition and
  proves that it implies `minesCount <= rows * cols`.

`Math.random` is replaced by a parameter `draws`, the sequence of in-range coordinates the two
random picks of each loop turn would produce. The draws are read in order, and the loop's result
is `Placement({}, draws, 0, minesCount)`.

## Model

| member | source | states |
|---|---|---|
| Minesweeper.Game.IsValid | script.js:154-156 | holds exactly for the cells of the `rows × cols` board, and on a valid game exactly for the in-range indices of the grid array |
| Minesweeper.Game.constructor | script.js:11-15 | page load: starts from an empty grid with `gameOver` false and runs the first createGrid (the call at script.js:164), so the game is valid, nothing is revealed or flagged, and exactly `minesCount` cells are mines |
| Minesweeper.Game.CreateGrid | script.js:18-44 | builds a fresh `rows × cols` grid in which every cell is unrevealed and unflagged, clears `gameOver`, places exactly `minesCount` distinct mines (the ones `Placement` picks from the draws), and shows that this needs `minesCount <= rows * cols` |
| Minesweeper.Game.PlaceMines | script.js:47-57 | the rejection-sampling loop leaves the mines `Placement` predicts from the draws, keeps every earlier mine and adds exactly `minesCount` new ones; `hidden` and `flags` lie outside its frame, so with `Valid()` only `mine` bits change |
| Minesweeper.FinishesIff | script.js:49-56 | the placement loop ends within the draws exactly when they contain at least `n` distinct cells that are not mines yet |
| Minesweeper.PlacementAdds | script.js:52-55 | when the loop ends, the old mines are kept, only drawn cells are added, and the mine set grows by exactly `n`, because a draw that hits a mine is not counted |
| Minesweeper.RoomForMines | script.js:47-57 | placement can only end when `n <= rows * cols`, since `n` distinct in-range cells must be drawn |
| Minesweeper.Game.CountMinesAround | script.js:96-108 | the nested loops return the number of mines in the 3×3 block around the cell (the centre included); it is at most 9, and at most 8 for a cell that is not a mine |
| Minesweeper.TallyIsCounted | script.js:98-106 | the loops' running count at each offset equals the number of block mines visited so far in row-major order |
| Minesweeper.BlockMinesIsCount | script.js:96-108 | the count after all nine offsets equals the number of mines in the block |
| Minesweeper.MinesAroundBounds | script.js:96-108 | a count is at most 9, and at most 8 when the centre is not a mine |
| Minesweeper.MinesAroundZero | script.js:74-79 | a count of zero holds exactly when no cell of the 3×3 block is a mine, which is the only case in which the cascade starts |
| Minesweeper.Game.RevealCell | script.js:60-80 | no-op when the game is over or the cell is flagged or revealed: nothing changes and `order` is empty. Otherwise the cell is revealed and is `order[0]`. A mine sets `gameOver` and opens only that cell; a positive count opens only that cell; a zero count leaves all the cell's neighbours revealed or flagged. `gameOver` becomes true exactly when the revealed cell is a mine. No cell's `mine` or `flagged` changes and no cell is hidden again. `order` lists exactly the cells opened, every later entry is safe and neighbours an earlier zero-count entry, and every opened zero-count cell ends settled. Each call past the guard shrinks the hidden set, so the recursion ends |
| Minesweeper.Game.RevealAdjacentCells | script.js:83-93 | called on a revealed zero-count cell while the game is on: it leaves every in-bounds neighbour revealed or flagged and the game still on; `order` lists exactly the cells it opens, the first neighbours the centre and each later one neighbours the centre or an earlier zero-count entry; every opened zero-count cell ends settled |
| Minesweeper.SweptStep | script.js:85-90 | one turn of the inner loop: once the cell at the current offset is revealed or flagged, the swept part of the block grows by that cell, and revealing more cells keeps it swept |
| Minesweeper.SweptRows | script.js:84-92 | a finished row of offsets is the start of the next, and a block swept to its end leaves the centre with every neighbour revealed or flagged |
| Minesweeper.ListsStep | script.js:88-90 | the cells opened by two reveals in turn are listed by the concatenation of their two lists |
| Minesweeper.CellsFromAppend | script.js:84-92 | the cells listed by a concatenation are those of its two parts |
| Minesweeper.ChainStep | script.js:88-90 | appending the cells one neighbour's reveal opens (a chain starting at that neighbour) to the cascade of a zero-count centre keeps every entry next to an earlier zero-count cell |
| Minesweeper.LinkedSafe | script.js:74-79 | a cell next to a zero-count cell is not a mine, so the cascade never opens a mine |
| Minesweeper.ChainSafe | script.js:74-79 | every cell of a cascade chain is safe |
| Minesweeper.ClosedStep | script.js:84-92 | two reveals in turn, each closed, make a closed reveal: zero-count cells settled by the first stay settled, since cells are only ever revealed |
| Minesweeper.Game.ToggleFlag | script.js:111-117 | no-op when the game is over or the cell is revealed; otherwise flips only that cell's flag; every other cell is unchanged, and the flag set becomes `FlagsToggled` of the old one |
| Minesweeper.FlagsToggled | script.js:111-117 | the new flag set differs from the old one at most in the toggled cell, which is flipped exactly when the game is on and the cell is hidden |
| Minesweeper.ToggledTwice | script.js:111-117 | toggling twice restores the cell, and a toggle never changes `mine` or `revealed` |
| Minesweeper.FlagsToggledTwice | script.js:111-117 | toggling the same cell twice restores the flag set. A toggle changes neither `hidden`, `mines` nor `gameOver`, and `Valid()` fixes the grid from the three sets, so two `Game.ToggleFlag` calls on the same cell restore the whole grid |
| Minesweeper.Game.ShowGameOver | script.js:131-134 | the game is over afterwards |

## Left out

- Page work is not modelled, because it has no effect on the game state:
  - element lookups and creation;
  - style classes and the count text written into a cell;
  - `revealMines`, which only styles mine cells;
  - the game-over modal.
- Event wiring is not modelled, because it is browser plumbing:
  - click and context-menu handlers;
  - the restart and close buttons;
  - the theme toggle.
- `smoothRestart`'s 500 ms timer is left out. A restart is a call to `Game.CreateGrid`.
- `Math.random` is replaced by the `draws` parameter. The distribution of the draws is not modelled.
- Minesweeper.Game.RevealCell: coordinates outside the board are excluded by its precondition.
  The source returns on them when the game is over, because the `gameOver` test at script.js:61
  comes first; while the game is on it fails on them with a runtime error. Every call in the
  source passes in-range coordinates.
- Minesweeper.Game.ToggleFlag: coordinates outside the board are excluded by its precondition.
  As with revealCell, the source returns on them when the game is over (script.js:112) and fails
  on them while the game is on. The only caller passes the coordinates of a clicked cell.
- Minesweeper.Game.RevealAdjacentCells: specified only for its one call site. That is right
  after its cell has been revealed with a zero count, while the game is on.
- Minesweeper.Game.CreateGrid: requires draws that let placement finish. On other draws the
  source's loop never returns, and that non-termination is not modelled.
