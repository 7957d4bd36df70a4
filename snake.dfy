/** The snake: its abstract state, the update rules as functions on that
    state, and the `Snake` object whose methods change its fields in place
    exactly as those functions say. */
module Snakes {
  import opened Board

  /** The fields of a snake: its cells head first, the direction it moves
      in, a pending direction set by a key press, its length and the cell
      its tail vacated on the last move. */
  datatype SnakeState = SnakeState(
    positions: seq<Cell>,
    direction: Direction,
    nextDirection: Option<Direction>,
    length: int,
    last: Option<Cell>)

  /** What holds of a snake between any two steps of the game: the length
      field counts the cells, there is at least one (so the head exists),
      and every cell lies on the board. */
  predicate Inv(s: SnakeState) {
    s.length == |s.positions| && |s.positions| >= 1 &&
    forall i :: 0 <= i < |s.positions| ==> OnGrid(s.positions[i])
  }

  function Head(s: SnakeState): Cell
    requires |s.positions| >= 1
  {
    s.positions[0]
  }

  /** A new snake: one cell in the middle of the screen, moving right. */
  function Initial(): (s: SnakeState)
    ensures Inv(s)
    ensures s.positions == [CENTER] && s.direction == Right
    ensures s.nextDirection == None && s.last == None
  {
    SnakeState([CENTER], Right, None, 1, None)
  }

  /** Applying the pending direction: it becomes the direction and the
      pending slot is emptied; with nothing pending the snake is unchanged. */
  function DirectionUpdated(s: SnakeState): (r: SnakeState)
    ensures r.nextDirection == None
    ensures s.nextDirection.Some? ==> r.direction == s.nextDirection.value
    ensures s.nextDirection.None? ==> r == s
    ensures r.positions == s.positions && r.length == s.length && r.last == s.last
  {
    if s.nextDirection.Some? then
      s.(direction := s.nextDirection.value, nextDirection := None)
    else
      s
  }

  /** One move: the new head is one wrapped step from the old head, the body
      follows, the tail cell is dropped and remembered; the number of cells
      does not change. */
  function Moved(s: SnakeState): (r: SnakeState)
    requires Inv(s)
    ensures Inv(r)
    ensures |r.positions| == |s.positions|
    ensures Head(r) == Step(Head(s), s.direction)
    ensures r.positions[1..] == s.positions[..|s.positions| - 1]
    ensures r.last == Some(s.positions[|s.positions| - 1])
    ensures r.direction == s.direction && r.nextDirection == s.nextDirection
  {
    var n := |s.positions|;
    StepOnGrid(Head(s), s.direction);
    var inserted := [Step(Head(s), s.direction)] + s.positions;
    s.(positions := inserted[..n], last := Some(inserted[n]))
  }

  /** Eating the apple at cell a: the apple's cell is put in front once more
      and the length goes up by one. */
  function Grown(s: SnakeState, a: Cell): (r: SnakeState)
    requires Inv(s) && OnGrid(a)
    ensures Inv(r)
    ensures |r.positions| == |s.positions| + 1 && r.length == s.length + 1
    ensures Head(r) == a && r.positions[1..] == s.positions
    ensures r.direction == s.direction && r.nextDirection == s.nextDirection
    ensures r.last == s.last
  {
    s.(length := s.length + 1, positions := [a] + s.positions)
  }

  /** The head lies on the body further back than the cell right behind it.
      Python's slice positions[2:] is empty for a snake of fewer than three
      cells. */
  predicate HitsBody(s: SnakeState)
    requires |s.positions| >= 1
    ensures HitsBody(s) <==> exists i :: 2 <= i < |s.positions| && s.positions[i] == s.positions[0]
  {
    |s.positions| > 2 && Head(s) in s.positions[2..]
  }

  /** Starting over after a collision: one cell in the middle, moving in the
      direction d chosen at random; the pending direction and the vacated
      cell are left as they were. */
  function ResetTo(s: SnakeState, d: Direction): (r: SnakeState)
    ensures Inv(r)
    ensures r.positions == [CENTER] && r.length == 1 && r.direction == d
    ensures r.nextDirection == s.nextDirection && r.last == s.last
  {
    s.(length := 1, positions := [CENTER], direction := d)
  }

  /** After a move the head is the only cell that can be new. */
  lemma {:induction false} MovedCells(s: SnakeState, c: Cell)
    requires Inv(s)
    ensures c in Moved(s).positions <==>
            c == Step(Head(s), s.direction) || c in s.positions[..|s.positions| - 1]
  {
    var r := Moved(s);
    assert r.positions == [Head(r)] + r.positions[1..];
  }

  class Snake {
    var positions: seq<Cell>
    var direction: Direction
    var nextDirection: Option<Direction>
    var length: int
    var last: Option<Cell>

    function State(): SnakeState
      reads this
    {
      SnakeState(positions, direction, nextDirection, length, last)
    }

    predicate Valid()
      reads this
    {
      Inv(State())
    }

    constructor ()
      ensures State() == Initial()
    {
      positions := [CENTER];
      direction := Right;
      length := 1;
      nextDirection := None;
      last := None;
    }

    method UpdateDirection()
      modifies this
      ensures old(Valid()) ==> Valid()
      ensures State() == DirectionUpdated(old(State()))
    {
      if nextDirection.Some? {
        direction := nextDirection.value;
        nextDirection := None;
      }
    }

    method Move()
      requires Valid()
      modifies this
      ensures Valid()
      ensures State() == Moved(old(State()))
    {
      var head := HeadPosition();
      positions := [Step(head, direction)] + positions;
      last := Some(positions[|positions| - 1]);
      positions := positions[..|positions| - 1];
    }

    /** The head cell; it exists and lies on the board. */
    function HeadPosition(): (h: Cell)
      reads this
      requires Valid()
      ensures h == positions[0] && OnGrid(h)
    {
      positions[0]
    }

    /** Starting over with the direction d drawn at random by the caller. */
    method Reset(d: Direction)
      modifies this
      ensures Valid()
      ensures State() == ResetTo(old(State()), d)
    {
      length := 1;
      positions := [CENTER];
      direction := d;
    }
  }
}
