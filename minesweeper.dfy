/**
 * The game state of the browser Minesweeper in script.js: a `rows × cols` grid of
 * `{mine, revealed, flagged}` cells and a `gameOver` flag, with mine placement,
 * cascading reveal and flagging. Page elements, styling and event wiring are not modelled.
 */
module Minesweeper {
  import SetFacts

  /** One grid cell, as stored in `grid[row][col]` (its page element is not modelled). */
  datatype Cell = Cell(mine: bool, revealed: bool, flagged: bool)

  /** The record every cell starts as when the grid is built. */
  const Blank := Cell(false, false, false)

  /** (k, l) is one of the eight Moore neighbours of (i, j). */
  predicate Adjacent(i: int, j: int, k: int, l: int)
  {
    i - 1 <= k <= i + 1 && j - 1 <= l <= j + 1 && (k != i || l != j)
  }

  // ---------------------------------------------------------------------------
  // Counting mines around a cell
  // ---------------------------------------------------------------------------

  /** The mines of `mines` inside the 3×3 block centred on (row, col), the centre included:
      the offsets visited by countMinesAround's two loops. */
  function MinesNear(mines: set<(int, int)>, row: int, col: int): set<(int, int)>
  {
    set p | p in mines && row - 1 <= p.0 <= row + 1 && col - 1 <= p.1 <= col + 1
  }

  /** The number countMinesAround computes for (row, col) on a board whose mines are `mines`. */
  function MinesAround(mines: set<(int, int)>, row: int, col: int): nat
  {
    |MinesNear(mines, row, col)|
  }

  /** The part of MinesNear that the loops have visited before offset (r - row, c - col). */
  function Counted(mines: set<(int, int)>, row: int, col: int, r: int, c: int): set<(int, int)>
  {
    set p | p in MinesNear(mines, row, col) && (p.0 < r || (p.0 == r && p.1 < c))
  }

  /** Visiting one more offset adds one to the count exactly when that cell holds a mine. */
  lemma CountedStep(mines: set<(int, int)>, row: int, col: int, r: int, c: int)
    requires row - 1 <= r <= row + 1 && col - 1 <= c <= col + 1
    ensures |Counted(mines, row, col, r, c + 1)|
         == |Counted(mines, row, col, r, c)| + (if (r, c) in mines then 1 else 0)
  {
    if (r, c) in mines {
      assert (r, c) !in Counted(mines, row, col, r, c);
      assert Counted(mines, row, col, r, c + 1) == Counted(mines, row, col, r, c) + {(r, c)};
    } else {
      assert Counted(mines, row, col, r, c + 1) == Counted(mines, row, col, r, c);
    }
  }

  /** Finishing one offset row of the block is the same as starting the next one. */
  lemma CountedNextRow(mines: set<(int, int)>, row: int, col: int, r: int)
    ensures |Counted(mines, row, col, r, col + 2)| == |Counted(mines, row, col, r + 1, col - 1)|
  {
    assert Counted(mines, row, col, r, col + 2) == Counted(mines, row, col, r + 1, col - 1);
  }

  /** Nothing is counted before the first offset, and everything after the last. */
  lemma CountedEnds(mines: set<(int, int)>, row: int, col: int)
    ensures |Counted(mines, row, col, row - 1, col - 1)| == 0
    ensures |Counted(mines, row, col, row + 2, col - 1)| == MinesAround(mines, row, col)
  {
    assert Counted(mines, row, col, row - 1, col - 1) == {};
    assert Counted(mines, row, col, row + 2, col - 1) == MinesNear(mines, row, col);
  }

  /** The mines at (r, col - 1) .. (r, c - 1): one offset row of the block, scanned up to
      column `c`. */
  function LineMines(mines: set<(int, int)>, r: int, col: int, c: int): nat
    decreases c - col + 1
  {
    if c <= col - 1 then 0 else LineMines(mines, r, col, c - 1) + (if (r, c - 1) in mines then 1 else 0)
  }

  /** The mines in the offset rows row - 1 .. r - 1 of the block around (row, col): the
      tally countMinesAround's loops keep. */
  function BlockMines(mines: set<(int, int)>, row: int, col: int, r: int): nat
    decreases r - row + 1
  {
    if r <= row - 1 then 0 else BlockMines(mines, row, col, r - 1) + LineMines(mines, r - 1, col, col + 2)
  }

  /** The loops' running tally at offset (r - row, c - col) counts exactly the mines visited
      so far. */
  lemma {:induction false} TallyIsCounted(mines: set<(int, int)>, row: int, col: int, r: int, c: int)
    requires row - 1 <= r <= row + 1 && col - 1 <= c <= col + 2
    ensures BlockMines(mines, row, col, r) + LineMines(mines, r, col, c) == |Counted(mines, row, col, r, c)|
    decreases 4 * (r - row + 1) + (c - col + 1)
  {
    if c > col - 1 {
      TallyIsCounted(mines, row, col, r, c - 1);
      CountedStep(mines, row, col, r, c - 1);
    } else if r == row - 1 {
      CountedEnds(mines, row, col);
    } else {
      TallyIsCounted(mines, row, col, r - 1, col + 2);
      CountedNextRow(mines, row, col, r - 1);
    }
  }

  /** The full tally over the 3×3 block is the number of mines in it. */
  lemma BlockMinesIsCount(mines: set<(int, int)>, row: int, col: int)
    ensures BlockMines(mines, row, col, row + 2) == MinesAround(mines, row, col)
  {
    TallyIsCounted(mines, row, col, row + 1, col + 2);
    CountedNextRow(mines, row, col, row + 1);
    CountedEnds(mines, row, col);
  }

  /** A count is at most 9, and at most 8 when the centre cell is not a mine. */
  lemma MinesAroundBounds(mines: set<(int, int)>, row: int, col: int)
    ensures MinesAround(mines, row, col) <= 9
    ensures (row, col) !in mines ==> MinesAround(mines, row, col) <= 8
  {
    var near := MinesNear(mines, row, col);
    var ring := {(row - 1, col - 1), (row - 1, col), (row - 1, col + 1),
                 (row, col - 1), (row, col + 1),
                 (row + 1, col - 1), (row + 1, col), (row + 1, col + 1)};
    assert near <= ring + {(row, col)};
    SetFacts.SubsetCard(near, ring + {(row, col)});
    if (row, col) !in mines {
      assert near <= ring;
      SetFacts.SubsetCard(near, ring);
    }
  }

  /** A count of zero means exactly that no cell of the 3×3 block is a mine. */
  lemma MinesAroundZero(mines: set<(int, int)>, row: int, col: int)
    ensures MinesAround(mines, row, col) == 0
        <==> forall k, l :: row - 1 <= k <= row + 1 && col - 1 <= l <= col + 1 ==> (k, l) !in mines
  {
    if MinesAround(mines, row, col) != 0 {
      var p :| p in MinesNear(mines, row, col);
      assert p == (p.0, p.1);
    } else {
      forall k, l | row - 1 <= k <= row + 1 && col - 1 <= l <= col + 1
        ensures (k, l) !in mines
      {
        assert (k, l) in mines ==> (k, l) in MinesNear(mines, row, col);
      }
    }
  }

  // ---------------------------------------------------------------------------
  // Placing mines
  // ---------------------------------------------------------------------------

  /** The cells of `s` from index `k` on: the cells a run of draws hits, or the cells a
      reveal lists. */
  function CellsFrom(s: seq<(int, int)>, k: nat): set<(int, int)>
    decreases |s| - k
  {
    if k >= |s| then {} else {s[k]} + CellsFrom(s, k + 1)
  }

  /** CellsFrom holds exactly the cells of `s` from index `k` on. */
  lemma {:induction false} CellsFromMembers(s: seq<(int, int)>, k: nat)
    ensures forall p :: p in CellsFrom(s, k) <==> exists m :: k <= m < |s| && s[m] == p
    decreases |s| - k
  {
    if k < |s| {
      CellsFromMembers(s, k + 1);
    }
  }

  /** The mine set placeMines leaves when it starts from `mines`, must place `n` more, and
      Math.random yields the coordinates `draws[k..]` in turn: a draw that hits a mine is
      rejected, any other draw becomes a mine and counts towards `n`. */
  function Placement(mines: set<(int, int)>, draws: seq<(int, int)>, k: nat, n: nat): set<(int, int)>
    decreases |draws| - k
  {
    if n == 0 || k >= |draws| then mines
    else if draws[k] in mines then Placement(mines, draws, k + 1, n)
    else Placement(mines + {draws[k]}, draws, k + 1, n - 1)
  }

  /** placeMines' loop ends within `draws[k..]`: they hold `n` draws that hit no mine placed
      so far. */
  predicate Finishes(mines: set<(int, int)>, draws: seq<(int, int)>, k: nat, n: nat)
    decreases |draws| - k
  {
    n == 0 ||
    (k < |draws| &&
     if draws[k] in mines then Finishes(mines, draws, k + 1, n)
     else Finishes(mines + {draws[k]}, draws, k + 1, n - 1))
  }

  /** How the number of fresh drawn cells changes when draw `k` is taken off. */
  lemma CellsFromStep(mines: set<(int, int)>, draws: seq<(int, int)>, k: nat)
    requires k < |draws|
    ensures draws[k] in mines ==> |CellsFrom(draws, k) - mines| == |CellsFrom(draws, k + 1) - mines|
    ensures draws[k] !in mines ==>
      |CellsFrom(draws, k) - mines| == |CellsFrom(draws, k + 1) - (mines + {draws[k]})| + 1
  {
    var d := draws[k];
    if d in mines {
      assert CellsFrom(draws, k) - mines == CellsFrom(draws, k + 1) - mines;
    } else {
      var left := CellsFrom(draws, k + 1) - (mines + {d});
      assert CellsFrom(draws, k) - mines == left + {d} && d !in left;
    }
  }

  /** The loop ends exactly when the draws hold at least `n` distinct cells that are not
      mines yet. */
  lemma {:induction false} FinishesIff(mines: set<(int, int)>, draws: seq<(int, int)>, k: nat, n: nat)
    ensures Finishes(mines, draws, k, n) <==> |CellsFrom(draws, k) - mines| >= n
    decreases |draws| - k
  {
    if n > 0 && k < |draws| {
      CellsFromStep(mines, draws, k);
      if draws[k] in mines {
        FinishesIff(mines, draws, k + 1, n);
      } else {
        FinishesIff(mines + {draws[k]}, draws, k + 1, n - 1);
      }
    }
  }

  /** When the loop ends, placement keeps every old mine, adds only drawn cells, and adds
      exactly `n` of them. */
  lemma {:induction false} PlacementAdds(mines: set<(int, int)>, draws: seq<(int, int)>, k: nat, n: nat)
    requires Finishes(mines, draws, k, n)
    ensures mines <= Placement(mines, draws, k, n) <= mines + CellsFrom(draws, k)
    ensures |Placement(mines, draws, k, n)| == |mines| + n
    decreases |draws| - k
  {
    if n > 0 {
      var d := draws[k];
      if d in mines {
        PlacementAdds(mines, draws, k + 1, n);
      } else {
        PlacementAdds(mines + {d}, draws, k + 1, n - 1);
      }
    }
  }

  /** Placement can only finish when the board has room: `n` distinct in-range draws
      need `n <= rows * cols`. */
  lemma RoomForMines(draws: seq<(int, int)>, rows: nat, cols: nat, n: nat)
    requires forall k :: 0 <= k < |draws| ==> 0 <= draws[k].0 < rows && 0 <= draws[k].1 < cols
    requires Finishes({}, draws, 0, n)
    ensures n <= rows * cols
  {
    FinishesIff({}, draws, 0, n);
    CellsFromMembers(draws, 0);
    assert CellsFrom(draws, 0) <= SetFacts.Rect(rows, cols);
    SetFacts.SubsetCard(CellsFrom(draws, 0), SetFacts.Rect(rows, cols));
    SetFacts.RectCard(rows, cols);
  }

  // ---------------------------------------------------------------------------
  // The reveal cascade
  // ---------------------------------------------------------------------------

  /** Every neighbour of (row, col) that is still hidden carries a flag. Hidden cells are
      always in bounds, so this says every in-bounds neighbour is revealed or flagged. */
  ghost predicate Settled(hidden: set<(int, int)>, flags: set<(int, int)>, row: int, col: int)
  {
    forall k, l :: Adjacent(row, col, k, l) && (k, l) in hidden ==> (k, l) in flags
  }

  /** revealAdjacentCells' loops have swept the block around (row, col) up to offset
      (r - row, c - col), row by row: every swept cell still hidden carries a flag. */
  ghost predicate Swept(hidden: set<(int, int)>, flags: set<(int, int)>, row: int, col: int, r: int, c: int)
  {
    forall k, l :: (row - 1 <= k < r || (k == r && l < c)) && col - 1 <= l <= col + 1 && (k, l) in hidden ==>
      (k, l) in flags
  }

  /** Sweeping one more cell: (r, c) is now revealed or flagged, and revealing only shrinks
      the hidden set. */
  lemma SweptStep(h1: set<(int, int)>, h2: set<(int, int)>, flags: set<(int, int)>, row: int, col: int, r: int, c: int)
    requires h2 <= h1 && Swept(h1, flags, row, col, r, c)
    requires (r, c) !in h2 || (r, c) in flags
    ensures Swept(h2, flags, row, col, r, c + 1)
  {
  }

  /** Finishing one row of the block is starting the next; the whole block swept means
      (row, col) is settled. */
  lemma SweptRows(hidden: set<(int, int)>, flags: set<(int, int)>, row: int, col: int, r: int)
    ensures Swept(hidden, flags, row, col, r - 1, col + 2) ==> Swept(hidden, flags, row, col, r, col - 1)
    ensures Swept(hidden, flags, row, col, row + 2, col - 1) ==> Settled(hidden, flags, row, col)
  {
  }

  /** `order` lists exactly the cells that went from hidden (`before`) to revealed (`after`). */
  ghost predicate Lists(order: seq<(int, int)>, before: set<(int, int)>, after: set<(int, int)>)
  {
    CellsFrom(order, 0) == before - after
  }

  /** The cells of `a + b` from index |a| + j on are those of `b` from index j on. */
  lemma {:induction false} CellsFromShift(a: seq<(int, int)>, b: seq<(int, int)>, j: nat)
    ensures CellsFrom(a + b, |a| + j) == CellsFrom(b, j)
    decreases |b| - j
  {
    if j < |b| {
      assert (a + b)[|a| + j] == b[j];
      CellsFromShift(a, b, j + 1);
    }
  }

  /** The cells of a concatenation are the cells of its parts. */
  lemma {:induction false} CellsFromAppend(a: seq<(int, int)>, b: seq<(int, int)>, k: nat)
    requires k <= |a|
    ensures CellsFrom(a + b, k) == CellsFrom(a, k) + CellsFrom(b, 0)
    decreases |a| - k
  {
    if k == |a| {
      CellsFromShift(a, b, 0);
    } else {
      assert (a + b)[k] == a[k];
      CellsFromAppend(a, b, k + 1);
    }
  }

  /** Two reveals in a row, the second starting where the first ended, are listed by the
      concatenation of their lists. */
  lemma ListsStep(order: seq<(int, int)>, sub: seq<(int, int)>, h0: set<(int, int)>, h1: set<(int, int)>,
                  h2: set<(int, int)>)
    requires h2 <= h1 <= h0 && Lists(order, h0, h1) && Lists(sub, h1, h2)
    ensures Lists(order + sub, h0, h2)
  {
    CellsFromAppend(order, sub, 0);
    assert (h0 - h1) + (h1 - h2) == h0 - h2;
  }

  /** Cell `c` neighbours a cell of `prev` that has no mine around it, so revealing that cell
      goes on to reveal `c`. */
  ghost predicate Linked(prev: seq<(int, int)>, c: (int, int), mines: set<(int, int)>)
  {
    exists p :: p in prev && Adjacent(p.0, p.1, c.0, c.1) && MinesAround(mines, p.0, p.1) == 0
  }

  /** Each cell of `order` is linked to a cell of `seed` or to one revealed before it: the
      cells of `order` are connected to `seed` through zero-count cells, in the order revealed. */
  ghost predicate Chain(seed: seq<(int, int)>, order: seq<(int, int)>, mines: set<(int, int)>)
  {
    forall m :: 0 <= m < |order| ==> Linked(seed + order[..m], order[m], mines)
  }

  /** Every opened cell with no mine around it has all its neighbours revealed or flagged:
      the flood fill is closed. */
  ghost predicate Closed(before: set<(int, int)>, after: set<(int, int)>, flags: set<(int, int)>, mines: set<(int, int)>)
  {
    forall i, j :: (i, j) in before && (i, j) !in after && MinesAround(mines, i, j) == 0 ==>
      Settled(after, flags, i, j)
  }

  /** A cell next to a zero-count cell is no mine, since the count covers it. */
  lemma LinkedSafe(prev: seq<(int, int)>, c: (int, int), mines: set<(int, int)>)
    requires Linked(prev, c, mines)
    ensures c !in mines
  {
    var p :| p in prev && Adjacent(p.0, p.1, c.0, c.1) && MinesAround(mines, p.0, p.1) == 0;
    MinesAroundZero(mines, p.0, p.1);
  }

  /** The cascade never opens a mine: every cell of a chain is safe. */
  lemma ChainSafe(seed: seq<(int, int)>, order: seq<(int, int)>, mines: set<(int, int)>)
    requires Chain(seed, order, mines)
    ensures forall m :: 0 <= m < |order| ==> order[m] !in mines
  {
    forall m | 0 <= m < |order|
      ensures order[m] !in mines
    {
      LinkedSafe(seed + order[..m], order[m], mines);
    }
  }

  /** A link to some earlier cells stays a link when more earlier cells are known. */
  lemma LinkedMono(prev: seq<(int, int)>, more: seq<(int, int)>, c: (int, int), mines: set<(int, int)>)
    requires Linked(prev, c, mines) && forall p :: p in prev ==> p in more
    ensures Linked(more, c, mines)
  {
  }

  /** One turn of revealAdjacentCells' loops: the cells opened so far are chained to
      (row, col), a zero-count cell; revealCell on a neighbour (r, c) opens (r, c) first and
      then cells chained to it; together they are still chained to (row, col). */
  lemma ChainStep(mines: set<(int, int)>, row: int, col: int, order: seq<(int, int)>, sub: seq<(int, int)>)
    requires MinesAround(mines, row, col) == 0 && Chain([(row, col)], order, mines)
    requires |sub| > 0 ==> Adjacent(row, col, sub[0].0, sub[0].1) && Chain(sub[..1], sub[1..], mines)
    ensures Chain([(row, col)], order + sub, mines)
  {
    var seed := [(row, col)];
    if sub == [] {
      assert order + sub == order;
      return;
    }
    forall m | 0 <= m < |order + sub|
      ensures Linked(seed + (order + sub)[..m], (order + sub)[m], mines)
    {
      var prev := seed + (order + sub)[..m];
      if m < |order| {
        assert (order + sub)[..m] == order[..m];
      } else {
        var n := m - |order|;
        assert (order + sub)[m] == sub[n];
        assert (order + sub)[..m] == order + sub[..n];
        if n == 0 {
          assert (row, col) in prev;
        } else {
          assert sub[..1] + sub[1..][..n - 1] == sub[..n];
          LinkedMono(sub[..n], prev, sub[n], mines);
        }
      }
    }
  }

  /** Between `h1` and `h2` hidden sets, a later part of a reveal that is closed keeps the
      earlier part closed, since revealing only shrinks the hidden set. */
  lemma ClosedStep(mines: set<(int, int)>, flags: set<(int, int)>, h0: set<(int, int)>, h1: set<(int, int)>,
                   h2: set<(int, int)>)
    requires h2 <= h1 <= h0
    requires Closed(h0, h1, flags, mines) && Closed(h1, h2, flags, mines)
    ensures Closed(h0, h2, flags, mines)
  {
  }

  // ---------------------------------------------------------------------------
  // Flagging
  // ---------------------------------------------------------------------------

  /** What toggleFlag does to one cell while the game is (or is not) over. */
  function Toggled(cell: Cell, gameOver: bool): Cell
  {
    if gameOver || cell.revealed then cell else cell.(flagged := !cell.flagged)
  }

  /** Toggling a flag twice in a row restores the cell; it never touches `mine` or `revealed`. */
  lemma ToggledTwice(cell: Cell, gameOver: bool)
    ensures Toggled(Toggled(cell, gameOver), gameOver) == cell
    ensures Toggled(cell, gameOver).mine == cell.mine
    ensures Toggled(cell, gameOver).revealed == cell.revealed
  {
  }

  /** What toggleFlag does to the set of flagged cells: it flips whether `c` is flagged,
      unless the game is over or `c` is revealed; no other cell's flag changes. */
  function FlagsToggled(flags: set<(int, int)>, hidden: set<(int, int)>, gameOver: bool, c: (int, int)): (r: set<(int, int)>)
    ensures r - {c} == flags - {c}
    ensures c in r <==> if gameOver || c !in hidden then c in flags else c !in flags
  {
    if gameOver || c !in hidden then flags
    else if c in flags then flags - {c}
    else flags + {c}
  }

  /** Two toggles of the same cell, with nothing revealed in between, restore the flag set. */
  lemma FlagsToggledTwice(flags: set<(int, int)>, hidden: set<(int, int)>, gameOver: bool, c: (int, int))
    ensures FlagsToggled(FlagsToggled(flags, hidden, gameOver, c), hidden, gameOver, c) == flags
  {
  }

  // ---------------------------------------------------------------------------
  // The game
  // ---------------------------------------------------------------------------

  /** The module-level state of script.js: the board size and mine count (fixed there at
      10, 10 and 15), the grid of cells and the `gameOver` flag. The ghost sets `mines`,
      `hidden` and `flags` are the abstract view of the grid: the cells that are mines, that
      are not revealed yet, and that carry a flag. */
  class Game {
    const rows: nat
    const cols: nat
    const minesCount: nat
    var grid: array2<Cell>
    var gameOver: bool
    ghost var mines: set<(int, int)>
    ghost var hidden: set<(int, int)>
    ghost var flags: set<(int, int)>

    /** The grid has the configured size, the ghost sets describe it cell by cell, and only
        hidden cells carry flags (revealing skips flagged cells, flagging skips revealed ones). */
    ghost predicate Valid()
      reads this, grid
    {
      grid.Length0 == rows && grid.Length1 == cols &&
      (forall p :: p in mines ==> 0 <= p.0 < rows && 0 <= p.1 < cols) &&
      (forall p :: p in hidden ==> 0 <= p.0 < rows && 0 <= p.1 < cols) &&
      flags <= hidden &&
      forall i, j :: 0 <= i < rows && 0 <= j < cols ==>
        (grid[i, j].mine <==> (i, j) in mines) && (grid[i, j].revealed <==> (i, j) !in hidden) &&
        (grid[i, j].flagged <==> (i, j) in flags)
    }

    /** The bounds check: (row, col) indexes a cell of the grid. */
    function IsValid(row: int, col: int): (b: bool)
      reads this, grid
      ensures b <==> (row, col) in SetFacts.Rect(rows, cols)
      ensures Valid() ==> (b <==> 0 <= row < grid.Length0 && 0 <= col < grid.Length1)
    {
      row >= 0 && col >= 0 && row < rows && col < cols
    }

    /** Loading the page: an empty grid, then a first createGrid. */
    constructor (rows: nat, cols: nat, minesCount: nat, draws: seq<(int, int)>)
      requires forall k :: 0 <= k < |draws| ==> 0 <= draws[k].0 < rows && 0 <= draws[k].1 < cols
      requires Finishes({}, draws, 0, minesCount)
      ensures this.rows == rows && this.cols == cols && this.minesCount == minesCount
      ensures Valid() && fresh(grid) && !gameOver
      ensures forall i, j :: 0 <= i < rows && 0 <= j < cols ==> !grid[i, j].revealed && !grid[i, j].flagged
      ensures mines == Placement({}, draws, 0, minesCount) && |mines| == minesCount
    {
      this.rows, this.cols, this.minesCount := rows, cols, minesCount;
      grid := new Cell[0, 0];
      gameOver := false;
      mines, hidden, flags := {}, {}, {};
      new;
      CreateGrid(draws);
    }

    /** Builds a fresh grid of blank cells, clears `gameOver` and places the mines; also the
        whole of a restart. `draws` stands for the coordinates Math.random yields. */
    method CreateGrid(draws: seq<(int, int)>)
      requires forall k :: 0 <= k < |draws| ==> 0 <= draws[k].0 < rows && 0 <= draws[k].1 < cols
      requires Finishes({}, draws, 0, minesCount)
      modifies this
      ensures Valid() && fresh(grid) && !gameOver
      ensures forall i, j :: 0 <= i < rows && 0 <= j < cols ==> !grid[i, j].revealed && !grid[i, j].flagged
      ensures mines == Placement({}, draws, 0, minesCount) && |mines| == minesCount
      ensures minesCount <= rows * cols
    {
      var cells := new Cell[rows, cols];
      for row := 0 to rows
        invariant forall i, j :: 0 <= i < row && 0 <= j < cols ==> cells[i, j] == Blank
      {
        for col := 0 to cols
          invariant forall i, j :: 0 <= i < row && 0 <= j < cols ==> cells[i, j] == Blank
          invariant forall j :: 0 <= j < col ==> cells[row, j] == Blank
        {
          cells[row, col] := Blank;
        }
      }
      grid := cells;
      gameOver := false;
      mines, hidden, flags := {}, SetFacts.Rect(rows, cols), {};
      PlaceMines(draws);
      RoomForMines(draws, rows, cols, minesCount);
    }

    /** Rejection sampling: draw a cell, make it a mine unless it is one already, until
        `minesCount` new mines are placed. The loop only ends if the draws hold that many
        cells that are not mines yet, which is what the last requires says. */
    method PlaceMines(draws: seq<(int, int)>)
      requires Valid()
      requires forall k :: 0 <= k < |draws| ==> 0 <= draws[k].0 < rows && 0 <= draws[k].1 < cols
      requires Finishes(mines, draws, 0, minesCount)
      modifies this`mines, grid
      ensures Valid()
      ensures mines == Placement(old(mines), draws, 0, minesCount)
      ensures old(mines) <= mines && |mines| == |old(mines)| + minesCount
    {
      var placed := 0;
      var k := 0;
      while placed < minesCount
        invariant 0 <= k <= |draws| && placed <= minesCount
        invariant Valid() && old(mines) <= mines
        invariant Placement(mines, draws, k, minesCount - placed) == Placement(old(mines), draws, 0, minesCount)
        invariant Finishes(mines, draws, k, minesCount - placed)
        decreases |draws| - k
      {
        var (row, col) := draws[k];
        if !grid[row, col].mine {
          grid[row, col] := grid[row, col].(mine := true);
          mines := mines + {(row, col)};
          placed := placed + 1;
        }
        k := k + 1;
      }
      PlacementAdds(old(mines), draws, 0, minesCount);
    }

    /** Reveals (row, col) unless the game is over or the cell is flagged or already revealed.
        A mine ends the game; a safe cell with no mine around it reveals its neighbours in turn.
        Each call that gets past the guard reveals a hidden cell, so `hidden` shrinks. The ghost
        result `order` lists the cells revealed, in the order they are revealed. */
    method RevealCell(row: int, col: int) returns (ghost order: seq<(int, int)>)
      requires Valid() && IsValid(row, col)
      modifies this`gameOver, this`hidden, grid
      decreases hidden, 0
      ensures Valid() && hidden <= old(hidden) && Lists(order, old(hidden), hidden)
      ensures forall i, j :: 0 <= i < rows && 0 <= j < cols ==>
        grid[i, j].mine == old(grid[i, j].mine) && grid[i, j].flagged == old(grid[i, j].flagged) &&
        (old(grid[i, j].revealed) ==> grid[i, j].revealed)
      ensures old(gameOver || grid[row, col].flagged || grid[row, col].revealed) ==>
        gameOver == old(gameOver) && hidden == old(hidden) && order == [] &&
        forall i, j :: 0 <= i < rows && 0 <= j < cols ==> grid[i, j] == old(grid[i, j])
      ensures !old(gameOver || grid[row, col].flagged || grid[row, col].revealed) ==>
        grid[row, col].revealed && |order| > 0 && order[0] == (row, col) && Chain(order[..1], order[1..], mines)
      ensures gameOver == old(gameOver || (!grid[row, col].flagged && !grid[row, col].revealed && grid[row, col].mine))
      ensures !old(gameOver || grid[row, col].flagged || grid[row, col].revealed) && grid[row, col].mine ==>
        hidden == old(hidden) - {(row, col)}
      ensures (!old(gameOver || grid[row, col].flagged || grid[row, col].revealed) &&
        MinesAround(mines, row, col) > 0) ==> hidden == old(hidden) - {(row, col)}
      ensures (!old(gameOver || grid[row, col].flagged || grid[row, col].revealed) &&
        MinesAround(mines, row, col) == 0) ==> Settled(hidden, flags, row, col)
      ensures forall m :: 1 <= m < |order| ==> order[m] !in mines
      ensures Closed(old(hidden), hidden, flags, mines)
    {
      if gameOver || grid[row, col].flagged || grid[row, col].revealed {
        assert CellsFrom([], 0) == {};
        return [];
      }
      grid[row, col] := grid[row, col].(revealed := true);
      hidden := hidden - {(row, col)};
      order := [(row, col)];
      assert CellsFrom(order, 1) == {};
      assert Lists(order, old(hidden), hidden);
      if grid[row, col].mine {
        MinesAroundZero(mines, row, col);
        ShowGameOver();
        return;
      }
      var minesAround := CountMinesAround(row, col);
      // A positive count is only written into the cell's page element.
      if minesAround == 0 {
        ghost var mid := hidden;
        var spread := RevealAdjacentCells(row, col);
        ListsStep(order, spread, old(hidden), mid, hidden);
        order := order + spread;
        assert order[..1] == [(row, col)] && order[1..] == spread;
        ChainSafe([(row, col)], spread, mines);
      }
    }

    /** Calls RevealCell on every in-bounds cell of the 3×3 block around (row, col). Its one
        caller is RevealCell, right after revealing (row, col), a safe cell with no mine around
        it, while the game is on. The ghost result `order` lists the cells revealed, in order. */
    method RevealAdjacentCells(row: int, col: int) returns (ghost order: seq<(int, int)>)
      requires Valid() && IsValid(row, col) && !gameOver
      requires (row, col) !in hidden && MinesAround(mines, row, col) == 0
      modifies this`gameOver, this`hidden, grid
      decreases hidden, 1
      ensures Valid() && hidden <= old(hidden) && !gameOver
      ensures Settled(hidden, flags, row, col)
      ensures Lists(order, old(hidden), hidden) && Chain([(row, col)], order, mines)
      ensures Closed(old(hidden), hidden, flags, mines)
    {
      MinesAroundZero(mines, row, col);
      order := [];
      for dr := -1 to 2
        invariant Valid() && hidden <= old(hidden) && !gameOver
        invariant Swept(hidden, flags, row, col, row + dr, col - 1)
        invariant Lists(order, old(hidden), hidden) && Chain([(row, col)], order, mines)
        invariant Closed(old(hidden), hidden, flags, mines)
      {
        for dc := -1 to 2
          invariant Valid() && hidden <= old(hidden) && !gameOver
          invariant Swept(hidden, flags, row, col, row + dr, col + dc)
          invariant Lists(order, old(hidden), hidden) && Chain([(row, col)], order, mines)
          invariant Closed(old(hidden), hidden, flags, mines)
        {
          var newRow, newCol := row + dr, col + dc;
          ghost var before := hidden;
          if IsValid(newRow, newCol) {
            var sub := RevealCell(newRow, newCol);
            ClosedStep(mines, flags, old(hidden), before, hidden);
            ListsStep(order, sub, old(hidden), before, hidden);
            ChainStep(mines, row, col, order, sub);
            order := order + sub;
          }
          SweptStep(before, hidden, flags, row, col, newRow, newCol);
        }
        SweptRows(hidden, flags, row, col, row + dr + 1);
      }
      SweptRows(hidden, flags, row, col, row + 2);
    }

    /** countMinesAround: the mines among the in-bounds cells of the 3×3 block around
        (row, col), the centre included. */
    method CountMinesAround(row: int, col: int) returns (count: nat)
      requires Valid()
      ensures count == MinesAround(mines, row, col)
      ensures count <= 9
      ensures 0 <= row < rows && 0 <= col < cols && !grid[row, col].mine ==> count <= 8
    {
      count := 0;
      for dr := -1 to 2
        invariant count == BlockMines(mines, row, col, row + dr)
      {
        for dc := -1 to 2
          invariant count == BlockMines(mines, row, col, row + dr) + LineMines(mines, row + dr, col, col + dc)
        {
          var newRow, newCol := row + dr, col + dc;
          var isMine := IsValid(newRow, newCol) && grid[newRow, newCol].mine;
          assert isMine <==> (newRow, newCol) in mines;
          if isMine {
            count := count + 1;
          }
        }
      }
      BlockMinesIsCount(mines, row, col);
      MinesAroundBounds(mines, row, col);
    }

    /** Flips the flag of (row, col) unless the game is over or the cell is revealed. */
    method ToggleFlag(row: int, col: int)
      requires Valid() && IsValid(row, col)
      modifies this`flags, grid
      ensures Valid() && flags == FlagsToggled(old(flags), hidden, gameOver, (row, col))
      ensures grid[row, col] == Toggled(old(grid[row, col]), gameOver)
      ensures forall i, j :: 0 <= i < rows && 0 <= j < cols && (i != row || j != col) ==> grid[i, j] == old(grid[i, j])
    {
      if gameOver || grid[row, col].revealed {
        return;
      }
      grid[row, col] := grid[row, col].(flagged := !grid[row, col].flagged);
      flags := if (row, col) in flags then flags - {(row, col)} else flags + {(row, col)};
    }

    /** The state change of showGameOver: the game is over. */
    method ShowGameOver()
      modifies this`gameOver
      ensures gameOver
    {
      gameOver := true;
    }
  }
}
