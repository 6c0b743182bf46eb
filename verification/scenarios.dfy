/**
 * A board on which the engine's behaviour is known: the 2x2 block is a
 * still life.
 */
module Scenarios {
  import opened LifeCell
  import opened GameGrid
  import opened Engine

  /** A `width` x `height` board whose Alive cells are exactly the (x, y) pairs in `live`. */
  function Pattern(width: u16, height: u16, live: set<(int, int)>): (r: Grid)
    ensures Wf(r) && |r| == height
    ensures forall y :: 0 <= y < height ==> |r[y]| == width
    ensures forall y, x :: InBounds(r, x, y) ==> (IsAlive(r[y][x]) <==> (x, y) in live)
  {
    seq(height, y requires 0 <= y < height =>
      seq(width, x requires 0 <= x < width => Cell(x, y, if (x, y) in live then Alive else Dead)))
  }

  /** 1 when (i, j) lies on the `width` x `height` board and is in `live`. */
  function LiveIn(live: set<(int, int)>, width: int, height: int, i: int, j: int): nat
  {
    if 0 <= i < width && 0 <= j < height && (i, j) in live then 1 else 0
  }

  /** The declarative neighbour count of a pattern board, read off the set of live positions. */
  lemma PatternNeighbours(width: u16, height: u16, live: set<(int, int)>, x: int, y: int)
    ensures LiveNeighbours(Pattern(width, height, live), x, y)
         == LiveIn(live, width, height, x - 1, y - 1) + LiveIn(live, width, height, x, y - 1)
          + LiveIn(live, width, height, x + 1, y - 1) + LiveIn(live, width, height, x - 1, y)
          + LiveIn(live, width, height, x + 1, y) + LiveIn(live, width, height, x - 1, y + 1)
          + LiveIn(live, width, height, x, y + 1) + LiveIn(live, width, height, x + 1, y + 1)
  {
    var g := Pattern(width, height, live);
    forall i, j ensures LiveAt(g, i, j) == LiveIn(live, width, height, i, j) {
      if 0 <= j < height && 0 <= i < width {
        assert InBounds(g, i, j);
      }
    }
  }

  /** The B3/S23 rule, read off the sets of live positions before and after, for the cell at (x, y). */
  predicate RuleGives(width: u16, height: u16, live: set<(int, int)>, next: set<(int, int)>, x: int, y: int)
  {
    var n := LiveIn(live, width, height, x - 1, y - 1) + LiveIn(live, width, height, x, y - 1)
          + LiveIn(live, width, height, x + 1, y - 1) + LiveIn(live, width, height, x - 1, y)
          + LiveIn(live, width, height, x + 1, y) + LiveIn(live, width, height, x - 1, y + 1)
          + LiveIn(live, width, height, x, y + 1) + LiveIn(live, width, height, x + 1, y + 1);
    (x, y) in next <==> LifeRule((x, y) in live, n)
  }

  /** When the rule carries every cell of `live` to `next`, one tick of the `live` board is the `next` board. */
  lemma PatternStep(width: u16, height: u16, live: set<(int, int)>, next: set<(int, int)>)
    requires width > 0 && height > 0
    requires forall y, x :: 0 <= y < height && 0 <= x < width ==> RuleGives(width, height, live, next, x, y)
    ensures Tick(Pattern(width, height, live)) == Pattern(width, height, next)
  {
    var g := Pattern(width, height, live);
    TickAppliesLifeRule(g);
    var t := Tick(g);
    var p := Pattern(width, height, next);
    forall y | 0 <= y < height
      ensures t[y] == p[y]
    {
      forall x | 0 <= x < width
        ensures t[y][x] == p[y][x]
      {
        assert InBounds(g, x, y);
        PatternNeighbours(width, height, live, x, y);
        assert RuleGives(width, height, live, next, x, y);
      }
    }
  }

  function Block(): set<(int, int)>
  {
    {(1, 1), (2, 1), (1, 2), (2, 2)}
  }

  /** The 2x2 block in the middle of a 4x4 board is a still life. */
  lemma BlockIsStill()
    ensures Tick(Pattern(4, 4, Block())) == Pattern(4, 4, Block())
  {
    forall y, x | 0 <= y < 4 && 0 <= x < 4
      ensures RuleGives(4, 4, Block(), Block(), x, y)
    {
      BlockCell(x, y);
    }
    PatternStep(4, 4, Block(), Block());
  }

  /** The rule leaves each cell of the 4x4 block board as it is. */
  lemma BlockCell(x: int, y: int)
    requires 0 <= y < 4 && 0 <= x < 4
    ensures RuleGives(4, 4, Block(), Block(), x, y)
  {
    assert forall i, j :: (i, j) in Block() <==> (1 <= i <= 2 && 1 <= j <= 2);
  }
}
