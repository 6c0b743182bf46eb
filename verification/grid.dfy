/**
 * The board: a sequence of rows of cells (`Game::cells`), with the
 * operations that build, list, edit and grow it.
 */
module GameGrid {
  import opened Wrappers
  import opened LifeCell

  type Grid = seq<seq<Cell>>

  function Max(a: u16, b: u16): u16
  {
    if a >= b then a else b
  }

  /** Length of the first row; an empty board has width 0. */
  function Width(g: Grid): nat
  {
    if |g| == 0 then 0 else |g[0]|
  }

  predicate Rectangular(g: Grid)
  {
    forall y :: 0 <= y < |g| ==> |g[y]| == Width(g)
  }

  /** Every cell stores the column and row it sits at. */
  predicate Positional(g: Grid)
  {
    forall y, x :: 0 <= y < |g| && 0 <= x < |g[y]| ==> g[y][x].x == x && g[y][x].y == y
  }

  /**
   * The board invariant kept by every operation: rectangular, positional,
   * and no larger than the `u16` dimensions it is built from.
   */
  predicate Wf(g: Grid)
  {
    |g| <= U16_MAX && Width(g) <= U16_MAX && Rectangular(g) && Positional(g)
  }

  predicate InBounds(g: Grid, x: int, y: int)
  {
    0 <= y < |g| && 0 <= x < |g[y]|
  }

  /** A row of `width` Dead cells for row `y`. */
  function DeadRow(width: u16, y: u16): (r: seq<Cell>)
    ensures |r| == width
    ensures forall x :: 0 <= x < width ==> r[x] == NewCell(x, y)
  {
    seq(width, x requires 0 <= x < width => NewCell(x, y))
  }

  /** `Game::new(width, height)`. */
  function New(width: u16, height: u16): (r: Grid)
    ensures Wf(r)
    ensures |r| == height
    ensures forall y :: 0 <= y < |r| ==> |r[y]| == width
    ensures forall y, x :: InBounds(r, x, y) ==> !IsAlive(r[y][x])
  {
    seq(height, y requires 0 <= y < height => DeadRow(width, y))
  }

  /** The `(cell, (x, y))` pairs `cells()` produces for row `y`. */
  function RowPairs(row: seq<Cell>, y: nat): seq<(Cell, (u16, u16))>
  {
    seq(|row|, x requires 0 <= x < |row| => (row[x], (AsU16(x), AsU16(y))))
  }

  /** Total number of cells in the board. */
  function Size(g: Grid): nat
  {
    if |g| == 0 then 0 else Size(g[..|g| - 1]) + |g[|g| - 1]|
  }

  /** Row `y`'s cell `x` sits at position `Size(g[..y]) + x` of the listing `r`. */
  predicate ListedAt(g: Grid, r: seq<(Cell, (u16, u16))>, x: nat, y: nat)
    requires InBounds(g, x, y)
  {
    Size(g[..y]) + x < |r| && r[Size(g[..y]) + x] == (g[y][x], (AsU16(x), AsU16(y)))
  }

  /**
   * `Game::cells`: the cells row after row, each row left to right, each
   * paired with its column and row index. Which cell lands where is
   * `CellsListsEveryCell`.
   */
  function Cells(g: Grid): (r: seq<(Cell, (u16, u16))>)
    ensures |r| == Size(g)
  {
    if |g| == 0 then []
    else Cells(g[..|g| - 1]) + RowPairs(g[|g| - 1], |g| - 1)
  }

  /**
   * Cell (x, y) is listed exactly at `Size(g[..y]) + x`: all earlier rows
   * come first, and within its row cells keep their order. Since these
   * positions are distinct and there are `Size(g)` of them, every cell is
   * listed once and nothing else is listed.
   */
  lemma {:induction false} CellsListsEveryCell(g: Grid)
    ensures forall y, x :: InBounds(g, x, y) ==> ListedAt(g, Cells(g), x, y)
  {
    if |g| > 0 {
      var front := g[..|g| - 1];
      var last := |g| - 1;
      CellsListsEveryCell(front);
      assert g[..last] == front;
      forall y, x | InBounds(g, x, y)
        ensures ListedAt(g, Cells(g), x, y)
      {
        if y < last {
          assert front[..y] == g[..y];
          assert ListedAt(front, Cells(front), x, y);
          SizeOfPrefixBound(front, y);
        } else {
          assert Cells(g)[Size(front) + x] == RowPairs(g[last], last)[x];
        }
      }
    }
  }

  /** Rows before `y`, plus row `y` itself, fit in the whole board. */
  lemma {:induction false} SizeOfPrefixBound(g: Grid, y: nat)
    requires y < |g|
    ensures Size(g[..y]) + |g[y]| <= Size(g)
    decreases |g|
  {
    var front := g[..|g| - 1];
    assert g[..|g|][..|g| - 1] == front;
    if y < |g| - 1 {
      assert front[..y] == g[..y];
      SizeOfPrefixBound(front, y);
    } else {
      assert g[..y] == front;
    }
  }

  /** Row `y` starts after `y` full rows. */
  lemma {:induction false} SizeOfRectangularPrefix(g: Grid, y: nat)
    requires Rectangular(g)
    requires y <= |g|
    ensures Size(g[..y]) == y * Width(g)
  {
    if y > 0 {
      var p := g[..y];
      assert p[..y - 1] == g[..y - 1];
      SizeOfRectangularPrefix(g, y - 1);
      assert Size(p) == (y - 1) * Width(g) + Width(g);
    }
  }

  /**
   * On a rectangular board of width w the listing is exactly row-major:
   * it has |g| * w entries and entry y * w + x is cell (x, y).
   */
  lemma CellsRowMajor(g: Grid, y: nat, x: nat)
    requires Rectangular(g)
    requires y < |g| && x < Width(g)
    ensures |Cells(g)| == |g| * Width(g)
    ensures y * Width(g) + x < |Cells(g)|
    ensures Cells(g)[y * Width(g) + x] == (g[y][x], (AsU16(x), AsU16(y)))
  {
    SizeOfRectangularPrefix(g, |g|);
    assert g[..|g|] == g;
    SizeOfRectangularPrefix(g, y);
    SizeOfPrefixBound(g, y);
    CellsListsEveryCell(g);
    assert InBounds(g, x, y);
    assert ListedAt(g, Cells(g), x, y);
  }

  /** `find_cell_at_pos_mut`: the cell at column x of row y, if there is one. */
  function FindCellAtPos(g: Grid, x: u16, y: u16): (r: Option<Cell>)
    ensures r.Some? <==> InBounds(g, x, y)
    ensures r.Some? ==> r.value == g[y][x]
  {
    if y < |g| then
      var row := g[y];
      if x < |row| then Some(row[x]) else None
    else None
  }

  /** The board after a point mutation, and the mutation's `Option<()>` result. */
  datatype Update = Update(grid: Grid, found: Option<()>)

  /** `h` has the shape of `g` and differs from it at most at (x, y). */
  predicate ChangedOnlyAt(g: Grid, h: Grid, x: int, y: int)
  {
    && |h| == |g|
    && (forall j :: 0 <= j < |g| ==> |h[j]| == |g[j]|)
    && (forall j, i :: 0 <= j < |g| && 0 <= i < |g[j]| && (i, j) != (x, y) ==> h[j][i] == g[j][i])
  }

  /** `revive_cell_at_pos`. */
  function ReviveCellAtPos(g: Grid, x: u16, y: u16): (r: Update)
    ensures r.found.Some? <==> InBounds(g, x, y)
    ensures r.found.None? ==> r.grid == g
    ensures r.found.Some? ==> ChangedOnlyAt(g, r.grid, x, y)
    ensures r.found.Some? ==> IsAlive(r.grid[y][x]) && r.grid[y][x].x == g[y][x].x && r.grid[y][x].y == g[y][x].y
    ensures Wf(g) ==> Wf(r.grid)
  {
    match FindCellAtPos(g, x, y)
    case None => Update(g, None)
    case Some(cell) => Update(g[y := g[y][x := Live(cell)]], Some(()))
  }

  /** `kill_cell_at_pos`. */
  function KillCellAtPos(g: Grid, x: u16, y: u16): (r: Update)
    ensures r.found.Some? <==> InBounds(g, x, y)
    ensures r.found.None? ==> r.grid == g
    ensures r.found.Some? ==> ChangedOnlyAt(g, r.grid, x, y)
    ensures r.found.Some? ==> !IsAlive(r.grid[y][x]) && r.grid[y][x].x == g[y][x].x && r.grid[y][x].y == g[y][x].y
    ensures Wf(g) ==> Wf(r.grid)
  {
    match FindCellAtPos(g, x, y)
    case None => Update(g, None)
    case Some(cell) => Update(g[y := g[y][x := Die(cell)]], Some(()))
  }

  /** Reviving twice is reviving once. */
  lemma ReviveIdempotent(g: Grid, x: u16, y: u16)
    ensures ReviveCellAtPos(ReviveCellAtPos(g, x, y).grid, x, y) == ReviveCellAtPos(g, x, y)
  {
    if InBounds(g, x, y) {
      var h := ReviveCellAtPos(g, x, y).grid;
      assert h[y][x] == Live(g[y][x]);
      assert h[y][x := Live(h[y][x])] == h[y];
      assert h[y := h[y]] == h;
    }
  }

  /** Killing twice is killing once. */
  lemma KillIdempotent(g: Grid, x: u16, y: u16)
    ensures KillCellAtPos(KillCellAtPos(g, x, y).grid, x, y) == KillCellAtPos(g, x, y)
  {
    if InBounds(g, x, y) {
      var h := KillCellAtPos(g, x, y).grid;
      assert h[y][x] == Die(g[y][x]);
      assert h[y][x := Die(h[y][x])] == h[y];
      assert h[y := h[y]] == h;
    }
  }

  /**
   * A kill after a revive at the same position leaves what the kill alone
   * leaves; when that cell was Dead it restores the board.
   */
  lemma KillUndoesRevive(g: Grid, x: u16, y: u16)
    ensures KillCellAtPos(ReviveCellAtPos(g, x, y).grid, x, y) == KillCellAtPos(g, x, y)
    ensures InBounds(g, x, y) && !IsAlive(g[y][x]) ==> KillCellAtPos(ReviveCellAtPos(g, x, y).grid, x, y).grid == g
  {
    if InBounds(g, x, y) {
      var h := ReviveCellAtPos(g, x, y).grid;
      assert h[y][x] == Live(g[y][x]);
      assert Die(h[y][x]) == Die(g[y][x]);
      assert h[y][x := Die(h[y][x])] == g[y][x := Die(g[y][x])];
      if !IsAlive(g[y][x]) {
        assert g[y][x := Die(g[y][x])] == g[y];
        assert g[y := g[y]] == g;
      }
    }
  }

  /**
   * A revive after a kill at the same position leaves what the revive
   * alone leaves; when that cell was Alive it restores the board.
   */
  lemma ReviveUndoesKill(g: Grid, x: u16, y: u16)
    ensures ReviveCellAtPos(KillCellAtPos(g, x, y).grid, x, y) == ReviveCellAtPos(g, x, y)
    ensures InBounds(g, x, y) && IsAlive(g[y][x]) ==> ReviveCellAtPos(KillCellAtPos(g, x, y).grid, x, y).grid == g
  {
    if InBounds(g, x, y) {
      var h := KillCellAtPos(g, x, y).grid;
      assert h[y][x] == Die(g[y][x]);
      assert Live(h[y][x]) == Live(g[y][x]);
      assert h[y][x := Live(h[y][x])] == g[y][x := Live(g[y][x])];
      if IsAlive(g[y][x]) {
        assert g[y][x := Live(g[y][x])] == g[y];
        assert g[y := g[y]] == g;
      }
    }
  }

  /**
   * `resize_if_larger(width, height)`: first appends rows (at the old width)
   * up to `height`, then widens every row to `width`. It never removes
   * anything: each old row is a prefix of the row at the same index.
   * The first row is read for the old width, so the board must not be empty.
   */
  function ResizeIfLarger(g: Grid, width: u16, height: u16): (r: Grid)
    requires |g| > 0
    ensures |r| >= |g|
    ensures forall y, x :: InBounds(g, x, y) ==> InBounds(r, x, y) && r[y][x] == g[y][x]
  {
    var oldHeight := AsU16(|g|);
    var oldWidth := AsU16(|g[0]|);
    var taller :=
      if height > oldHeight then
        g + seq(height - oldHeight, k requires 0 <= k < height - oldHeight => DeadRow(oldWidth, oldHeight + k))
      else g;
    if width > oldWidth then
      seq(|taller|, y requires 0 <= y < |taller| =>
        taller[y] + seq(width - oldWidth, k requires 0 <= k < width - oldWidth => NewCell(oldWidth + k, AsU16(y))))
    else taller
  }

  /**
   * On a well-formed board resizing grows to the larger of the old and the
   * requested dimensions, keeps every old cell, fills the rest with Dead
   * cells that store their own position, and keeps the board well formed.
   */
  lemma ResizeGrows(g: Grid, width: u16, height: u16)
    requires Wf(g) && |g| > 0
    ensures var r := ResizeIfLarger(g, width, height);
      && Wf(r)
      && |r| == Max(|g|, height)
      && Width(r) == Max(Width(g), width)
      && forall y, x :: InBounds(r, x, y) ==>
           r[y][x] == if y < |g| && x < Width(g) then g[y][x] else NewCell(x, y)
  {
    var r := ResizeIfLarger(g, width, height);
    var oldWidth := Width(g);
    var taller :=
      if height > |g| then
        g + seq(height - |g|, k requires 0 <= k < height - |g| => DeadRow(oldWidth, |g| + k))
      else g;
    assert |taller| == Max(|g|, height);
    forall y | 0 <= y < |taller|
      ensures |taller[y]| == oldWidth
      ensures forall x :: 0 <= x < oldWidth ==> taller[y][x] == if y < |g| then g[y][x] else NewCell(x, y)
    {
      if y >= |g| {
        assert taller[y] == DeadRow(oldWidth, y);
      } else {
        assert taller[y] == g[y];
        assert |g[y]| == oldWidth;
      }
    }
    if width > oldWidth {
      assert |r| == |taller|;
      forall y | 0 <= y < |r|
        ensures |r[y]| == width
        ensures forall x :: 0 <= x < width ==> r[y][x] == if y < |g| && x < oldWidth then g[y][x] else NewCell(x, y)
      {
        assert r[y] == taller[y] + seq(width - oldWidth, k requires 0 <= k < width - oldWidth => NewCell(oldWidth + k, AsU16(y)));
      }
    } else {
      assert r == taller;
    }
  }

  /** Asking for no more than the current dimensions changes nothing. */
  lemma ResizeNoOp(g: Grid, width: u16, height: u16)
    requires 0 < |g| <= U16_MAX && |g[0]| <= U16_MAX
    requires width <= |g[0]| && height <= |g|
    ensures ResizeIfLarger(g, width, height) == g
  {
  }

  /** Growing a fresh board gives the fresh board of the larger size. */
  lemma ResizeOfNew(w: u16, h: u16, width: u16, height: u16)
    requires h > 0
    ensures ResizeIfLarger(New(w, h), width, height) == New(Max(w, width), Max(h, height))
  {
    var r := ResizeIfLarger(New(w, h), width, height);
    var n := New(Max(w, width), Max(h, height));
    ResizeGrows(New(w, h), width, height);
    assert |r| == |n|;
    forall y | 0 <= y < |r|
      ensures r[y] == n[y]
    {
      assert |r[y]| == |n[y]|;
      forall x | 0 <= x < |r[y]|
        ensures r[y][x] == n[y][x]
      {
        assert InBounds(r, x, y);
      }
    }
  }

  /** The repository's own resize scenario: a 3x2 board grown with (4, 3). */
  lemma ResizeThreeByTwo()
    ensures ResizeIfLarger(
      [[NewCell(0, 0), NewCell(1, 0), NewCell(2, 0)],
       [NewCell(0, 1), NewCell(1, 1), NewCell(2, 1)]], 4, 3)
      == [[NewCell(0, 0), NewCell(1, 0), NewCell(2, 0), NewCell(3, 0)],
          [NewCell(0, 1), NewCell(1, 1), NewCell(2, 1), NewCell(3, 1)],
          [NewCell(0, 2), NewCell(1, 2), NewCell(2, 2), NewCell(3, 2)]]
  {
    var before := [[NewCell(0, 0), NewCell(1, 0), NewCell(2, 0)],
                   [NewCell(0, 1), NewCell(1, 1), NewCell(2, 1)]];
    var after := [[NewCell(0, 0), NewCell(1, 0), NewCell(2, 0), NewCell(3, 0)],
                  [NewCell(0, 1), NewCell(1, 1), NewCell(2, 1), NewCell(3, 1)],
                  [NewCell(0, 2), NewCell(1, 2), NewCell(2, 2), NewCell(3, 2)]];
    EqualsNew(before, 3, 2);
    EqualsNew(after, 4, 3);
    ResizeOfNew(3, 2, 4, 3);
  }

  /** A board of `height` rows of `width` Dead positional cells is `New(width, height)`. */
  lemma EqualsNew(g: Grid, width: u16, height: u16)
    requires |g| == height
    requires forall y :: 0 <= y < |g| ==> |g[y]| == width
    requires forall y, x :: 0 <= y < |g| && 0 <= x < |g[y]| ==> g[y][x] == NewCell(x, y)
    ensures g == New(width, height)
  {
    var n := New(width, height);
    forall y | 0 <= y < |g|
      ensures g[y] == n[y]
    {
      assert g[y] == DeadRow(width, y);
    }
  }
}
