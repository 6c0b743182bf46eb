/** One cell of the board: its stored position and whether it is alive. */
module LifeCell {

  /** Largest value of Rust's `u16`. */
  const U16_MAX: int := 0xFFFF

  /** Rust's `u16`: coordinates and board dimensions. */
  type u16 = n: int | 0 <= n <= U16_MAX

  /** Rust's `n as u16`: keeps the low 16 bits of a `usize`. */
  function AsU16(n: nat): (r: u16)
    ensures n <= U16_MAX ==> r == n
    ensures (n - r) % 0x1_0000 == 0
  {
    n % 0x1_0000
  }

  datatype CellKind = Alive | Dead

  /** A cell remembers the column `x` and row `y` it was created for. */
  datatype Cell = Cell(x: u16, y: u16, kind: CellKind)

  /** `Cell::new`: a Dead cell at (x, y). */
  function NewCell(x: u16, y: u16): (r: Cell)
    ensures !IsAlive(r)
    ensures r.x == x && r.y == y
  {
    Cell(x, y, Dead)
  }

  /** `Cell::new_alive`: an Alive cell at (x, y). */
  function NewAliveCell(x: u16, y: u16): (r: Cell)
    ensures IsAlive(r)
    ensures r.x == x && r.y == y
  {
    Cell(x, y, Alive)
  }

  /** `Cell::is_alive`: true for an Alive cell, false for a Dead one. */
  predicate IsAlive(c: Cell)
    ensures IsAlive(c) <==> c.kind == Alive
    ensures !IsAlive(c) <==> c.kind == Dead
  {
    match c.kind
    case Alive => true
    case Dead => false
  }

  /** `Cell::live`: the same cell, now Alive. */
  function Live(c: Cell): (r: Cell)
    ensures IsAlive(r)
    ensures r.x == c.x && r.y == c.y
  {
    c.(kind := Alive)
  }

  /** `Cell::die`: the same cell, now Dead. */
  function Die(c: Cell): (r: Cell)
    ensures !IsAlive(r)
    ensures r.x == c.x && r.y == c.y
  {
    c.(kind := Dead)
  }
}
