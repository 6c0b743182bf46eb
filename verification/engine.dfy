/**
 * The simulation engine: the live-neighbour count and one generation of
 * Conway's B3/S23 rule. `LiveNeighbours` states the count declaratively;
 * `NeighboursCountAtPos` is the windowed computation the program performs.
 */
module Engine {
  import opened LifeCell
  import opened Slices
  import opened GameGrid

  /** Saturation onto the `u16` range: values below 0 become 0, values above `U16_MAX` become `U16_MAX`. */
  function ClampU16(v: int): u16
  {
    if v < 0 then 0 else if v > U16_MAX then U16_MAX else v
  }

  /** `u16::saturating_sub(1)`: n - 1 saturated onto the `u16` range. */
  function SaturatingDec(n: u16): (r: u16)
    ensures r == ClampU16(n - 1)
  {
    if n == 0 then 0 else n - 1
  }

  /** `u16::saturating_add(1)`: n + 1 saturated onto the `u16` range. */
  function SaturatingInc(n: u16): (r: u16)
    ensures r == ClampU16(n + 1)
  {
    if n == U16_MAX then U16_MAX else n + 1
  }

  /** Filter for the rows above and below: the cell is alive. */
  function AliveFilter(): Cell -> bool
  {
    c => IsAlive(c)
  }

  /** Filter for the cell's own row: alive and not the cell stored as (x, y). */
  function NotCentreFilter(x: u16, y: u16): Cell -> bool
  {
    c => IsAlive(c) && (c.x, c.y) != (x, y)
  }

  /** 1 when (i, j) is a position of the board holding an Alive cell; off-board positions count 0. */
  function LiveAt(g: Grid, i: int, j: int): nat
  {
    if 0 <= j < |g| && 0 <= i < |g[j]| && IsAlive(g[j][i]) then 1 else 0
  }

  /**
   * The clipped, non-wrapping neighbourhood: the Alive cells among the
   * eight positions around (x, y), positions off the board counting 0.
   */
  function LiveNeighbours(g: Grid, x: int, y: int): (r: nat)
    ensures r <= 8
  {
    LiveAt(g, x - 1, y - 1) + LiveAt(g, x, y - 1) + LiveAt(g, x + 1, y - 1)
    + LiveAt(g, x - 1, y) + LiveAt(g, x + 1, y)
    + LiveAt(g, x - 1, y + 1) + LiveAt(g, x, y + 1) + LiveAt(g, x + 1, y + 1)
  }

  /**
   * The three row bands of `get_neighbours_count_at_pos` (above, own,
   * below), each a window of `until` columns from `prev_x`, the own band
   * skipping the cell that stores (x, y), the row above skipped when it
   * saturates onto y; summed as `usize`, before the `as u8` cast. Each band
   * counts at most `until` <= 3 cells, so the sum is at most 9.
   */
  function BandSum(g: Grid, x: u16, y: u16): (r: nat)
    ensures r <= 9
  {
    var prevY := SaturatingDec(y);
    var nextY := SaturatingInc(y);
    var prevX := SaturatingDec(x);
    var nextX := SaturatingInc(x);
    var until := nextX - prevX + 1;
    var prevCount := if prevY != y then SliceLen2d(g, prevY, prevX, until, AliveFilter()) else 0;
    var currentCount := SliceLen2d(g, y, prevX, until, NotCentreFilter(x, y));
    var nextCount := SliceLen2d(g, nextY, prevX, until, AliveFilter());
    prevCount + currentCount + nextCount
  }

  /**
   * `get_neighbours_count_at_pos`: the band sum cast `as u8`. Since that sum
   * is at most 9 on any board, the cast keeps it whole.
   */
  function NeighboursCountAtPos(g: Grid, x: u16, y: u16): (r: nat)
    ensures r == BandSum(g, x, y)
    ensures r <= 9
  {
    BandSum(g, x, y) % 0x100
  }

  /**
   * The window [prev_x, prev_x + until) of a row no longer than `U16_MAX`
   * holds exactly the columns x - 1, x and x + 1 that exist.
   */
  lemma WindowIsThreeColumns(row: seq<Cell>, x: u16, f: Cell -> bool)
    requires |row| <= U16_MAX
    ensures var prevX := SaturatingDec(x);
      CountRange(row, prevX, prevX + (SaturatingInc(x) - prevX + 1), f)
      == Hit(row, x - 1, f) + Hit(row, x, f) + Hit(row, x + 1, f)
  {
    var prevX := SaturatingDec(x);
    var hi := prevX + (SaturatingInc(x) - prevX + 1);
    assert CountRange(row, prevX, hi, f) == Hit(row, prevX, f) + CountRange(row, prevX + 1, hi, f);
    assert CountRange(row, prevX + 1, hi, f) == Hit(row, prevX + 1, f) + CountRange(row, prevX + 2, hi, f);
    if 0 < x < U16_MAX {
      assert CountRange(row, prevX + 2, hi, f) == Hit(row, prevX + 2, f) + CountRange(row, prevX + 3, hi, f);
    }
  }

  /** One band of the count, as the three columns around x in row j. */
  lemma BandCount(g: Grid, j: nat, x: u16, f: Cell -> bool)
    requires Wf(g)
    ensures var prevX := SaturatingDec(x);
      SliceLen2d(g, j, prevX, SaturatingInc(x) - prevX + 1, f)
      == if j < |g| then Hit(g[j], x - 1, f) + Hit(g[j], x, f) + Hit(g[j], x + 1, f) else 0
  {
    var prevX := SaturatingDec(x);
    SliceLen2dIsCountRange(g, j, prevX, SaturatingInc(x) - prevX + 1, f);
    if j < |g| {
      WindowIsThreeColumns(g[j], x, f);
    }
  }

  /** The band above: the three columns of row y - 1, nothing when y = 0. */
  lemma RowAboveCount(g: Grid, x: u16, y: u16)
    requires Wf(g)
    ensures var prevX := SaturatingDec(x);
      (if SaturatingDec(y) != y then SliceLen2d(g, SaturatingDec(y), prevX, SaturatingInc(x) - prevX + 1, AliveFilter()) else 0)
      == LiveAt(g, x - 1, y - 1) + LiveAt(g, x, y - 1) + LiveAt(g, x + 1, y - 1)
  {
    if y > 0 {
      BandCount(g, y - 1, x, AliveFilter());
    }
  }

  /**
   * The cell's own row: columns x - 1 and x + 1; the cell itself is left
   * out because, the board being positional, it is the only one of the
   * row's window that stores (x, y).
   */
  lemma OwnRowCount(g: Grid, x: u16, y: u16)
    requires Wf(g)
    ensures var prevX := SaturatingDec(x);
      SliceLen2d(g, y, prevX, SaturatingInc(x) - prevX + 1, NotCentreFilter(x, y))
      == LiveAt(g, x - 1, y) + LiveAt(g, x + 1, y)
  {
    var own := NotCentreFilter(x, y);
    BandCount(g, y, x, own);
    if y < |g| {
      var row := g[y];
      assert Hit(row, x, own) == 0;
      if 0 <= x - 1 < |row| {
        assert row[x - 1].x == x - 1;
      }
      if x + 1 < |row| {
        assert row[x + 1].x == x + 1;
      }
    }
  }

  /** The band below: the three columns of row y + 1; at y = U16_MAX it lands on row y, which is off the board. */
  lemma RowBelowCount(g: Grid, x: u16, y: u16)
    requires Wf(g)
    ensures var prevX := SaturatingDec(x);
      SliceLen2d(g, SaturatingInc(y), prevX, SaturatingInc(x) - prevX + 1, AliveFilter())
      == LiveAt(g, x - 1, y + 1) + LiveAt(g, x, y + 1) + LiveAt(g, x + 1, y + 1)
  {
    BandCount(g, SaturatingInc(y), x, AliveFilter());
  }

  /**
   * On a well-formed board the windowed count is the declarative one, for
   * every `u16` position: the live cells of the clipped 3x3 box around
   * (x, y) other than (x, y) itself. In particular it lies in [0, 8].
   */
  lemma NeighboursCountMatchesSpec(g: Grid, x: u16, y: u16)
    requires Wf(g)
    ensures NeighboursCountAtPos(g, x, y) == LiveNeighbours(g, x, y)
  {
    RowAboveCount(g, x, y);
    OwnRowCount(g, x, y);
    RowBelowCount(g, x, y);
  }

  /** Conway's B3/S23: survive with 2 or 3 live neighbours, be born with exactly 3. */
  predicate LifeRule(alive: bool, n: nat)
  {
    (alive && 2 <= n <= 3) || (!alive && n == 3)
  }

  /**
   * The next-generation cell for row `y`, column `x`, from the pre-tick
   * board: Alive when the old cell is Alive with 2 or 3 neighbours or Dead
   * with exactly 3, Dead otherwise; it stores the cast indices.
   */
  function NextCell(g: Grid, x: nat, y: nat): (r: Cell)
    requires InBounds(g, x, y)
    ensures r.x == AsU16(x) && r.y == AsU16(y)
    ensures IsAlive(r) <==>
      var n := NeighboursCountAtPos(g, AsU16(x), AsU16(y));
      (IsAlive(g[y][x]) && (n == 2 || n == 3)) || (!IsAlive(g[y][x]) && n == 3)
  {
    var cx := AsU16(x);
    var cy := AsU16(y);
    if LifeRule(IsAlive(g[y][x]), NeighboursCountAtPos(g, cx, cy)) then NewAliveCell(cx, cy) else NewCell(cx, cy)
  }

  /**
   * `Game::tick`: a fresh board of the same shape, each cell computed from
   * the old board only, then swapped in. Every new cell stores the (cast)
   * index it is placed at.
   */
  function Tick(g: Grid): (r: Grid)
    ensures |r| == |g|
    ensures forall y :: 0 <= y < |g| ==> |r[y]| == |g[y]|
    ensures forall y, x :: InBounds(r, x, y) ==> r[y][x].x == AsU16(x) && r[y][x].y == AsU16(y)
  {
    seq(|g|, y requires 0 <= y < |g| => seq(|g[y]|, x requires 0 <= x < |g[y]| => NextCell(g, x, y)))
  }

  /**
   * On a well-formed board one tick keeps the board well formed and of the
   * same dimensions, and a cell is Alive afterwards exactly when the B3/S23
   * rule holds of its old state and its declarative neighbour count on the
   * old board.
   */
  lemma TickAppliesLifeRule(g: Grid)
    requires Wf(g)
    ensures Wf(Tick(g))
    ensures |Tick(g)| == |g| && Width(Tick(g)) == Width(g)
    ensures forall y, x :: InBounds(g, x, y) ==>
      (IsAlive(Tick(g)[y][x]) <==> LifeRule(IsAlive(g[y][x]), LiveNeighbours(g, x, y)))
  {
    TickKeepsShape(g);
    forall y, x | InBounds(g, x, y)
      ensures IsAlive(Tick(g)[y][x]) <==> LifeRule(IsAlive(g[y][x]), LiveNeighbours(g, x, y))
    {
      TickCell(g, x, y);
    }
  }

  /** A tick keeps a well-formed board well formed and of the same dimensions. */
  lemma TickKeepsShape(g: Grid)
    requires Wf(g)
    ensures Wf(Tick(g))
    ensures |Tick(g)| == |g| && Width(Tick(g)) == Width(g)
  {
  }

  /** The cell at (x, y) after a tick, by the rule on the declarative count. */
  lemma TickCell(g: Grid, x: nat, y: nat)
    requires Wf(g) && InBounds(g, x, y)
    ensures IsAlive(Tick(g)[y][x]) <==> LifeRule(IsAlive(g[y][x]), LiveNeighbours(g, x, y))
  {
    NeighboursCountMatchesSpec(g, x, y);
    assert Tick(g)[y][x] == NextCell(g, x, y);
  }
}
