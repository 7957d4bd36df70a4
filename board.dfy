/** Board geometry of the snake game: the screen and grid constants, the four
    movement directions and the toroidal one-cell step of the snake's head. */
module Board {

  datatype Option<T> = None | Some(value: T)

  const SCREEN_WIDTH: int := 640
  const SCREEN_HEIGHT: int := 480
  const GRID_SIZE: int := 20
  const GRID_WIDTH: int := SCREEN_WIDTH / GRID_SIZE
  const GRID_HEIGHT: int := SCREEN_HEIGHT / GRID_SIZE

  /** A cell is named by the pixel coordinates of its top-left corner. */
  type Cell = (int, int)

  /** The middle of the screen, where a new or reset snake starts. */
  const CENTER: Cell := (SCREEN_WIDTH / 2, SCREEN_HEIGHT / 2)

  /** The cells of the 32 x 24 board: pixel coordinates on the screen that
      are multiples of the cell size. */
  predicate OnGrid(c: Cell) {
    0 <= c.0 < SCREEN_WIDTH && c.0 % GRID_SIZE == 0 &&
    0 <= c.1 < SCREEN_HEIGHT && c.1 % GRID_SIZE == 0
  }

  datatype Direction = Up | Down | Left | Right {

    /** The unit vector (dx, dy) of the direction; y grows downwards. */
    function Vector(): (v: (int, int))
      ensures -1 <= v.0 <= 1 && -1 <= v.1 <= 1
      ensures (v.0 == 0) != (v.1 == 0)
    {
      match this
      case Up => (0, -1)
      case Down => (0, 1)
      case Left => (-1, 0)
      case Right => (1, 0)
    }

    /** The direction a 180-degree turn would take. */
    function Opposite(): (o: Direction)
      ensures o.Vector() == (-Vector().0, -Vector().1)
      ensures o != this
    {
      match this
      case Up => Down
      case Down => Up
      case Left => Right
      case Right => Left
    }
  }

  /** The cell one step from c in direction d, wrapping round the screen
      edges. Dafny's % on a positive divisor is never negative, as Python's. */
  function Step(c: Cell, d: Direction): (r: Cell)
    ensures 0 <= r.0 < SCREEN_WIDTH && 0 <= r.1 < SCREEN_HEIGHT
  {
    ((c.0 + d.Vector().0 * GRID_SIZE) % SCREEN_WIDTH,
     (c.1 + d.Vector().1 * GRID_SIZE) % SCREEN_HEIGHT)
  }

  /** Wrapping one coordinate: inside the screen the step is a plain move of
      one cell; leaving by one edge re-enters at the opposite one. */
  function WrapOne(x: int, dx: int, size: int): int {
    var y := x + dx * GRID_SIZE;
    if y < 0 then y + size else if y >= size then y - size else y
  }

  /** A step from a board cell lands on a board cell, and it is the plain
      move of one cell except where it crosses an edge of the screen. */
  lemma {:induction false} StepOnGrid(c: Cell, d: Direction)
    requires OnGrid(c)
    ensures OnGrid(Step(c, d))
    ensures Step(c, d) == (WrapOne(c.0, d.Vector().0, SCREEN_WIDTH),
                           WrapOne(c.1, d.Vector().1, SCREEN_HEIGHT))
  {
    var v := d.Vector();
    assert -GRID_SIZE <= c.0 + v.0 * GRID_SIZE < SCREEN_WIDTH + GRID_SIZE;
    assert -GRID_SIZE <= c.1 + v.1 * GRID_SIZE < SCREEN_HEIGHT + GRID_SIZE;
  }

  /** Every step moves the head: the board is wider and taller than one cell. */
  lemma StepMoves(c: Cell, d: Direction)
    requires OnGrid(c)
    ensures Step(c, d) != c
  {
    StepOnGrid(c, d);
  }

  /** A step in the opposite direction undoes a step on the board. */
  lemma StepBack(c: Cell, d: Direction)
    requires OnGrid(c)
    ensures Step(Step(c, d), d.Opposite()) == c
  {
    StepOnGrid(c, d);
    StepOnGrid(Step(c, d), d.Opposite());
  }
}
