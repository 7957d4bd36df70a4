/** The apple and its placement. The random generator is not modelled: the
    pairs that `randint` returns on successive rounds of the sampling loop
    are given as a sequence of draws. */
module Apples {
  import opened Board

  /** One round's pair of `randint` results (column, row); `randint` includes
      both bounds, so a column is in [0, 22] and a row in [0, 14]. */
  type Draw = (int, int)

  predicate ValidDraw(d: Draw) {
    0 <= d.0 <= GRID_WIDTH - 10 && 0 <= d.1 <= GRID_HEIGHT - 10
  }

  predicate ValidDraws(draws: seq<Draw>) {
    forall i :: 0 <= i < |draws| ==> ValidDraw(draws[i])
  }

  /** The cells the sampler can produce: the top-left 23 x 15 cells of the
      board, x a multiple of 20 in [0, 440] and y one in [0, 280]. */
  predicate InSubGrid(c: Cell) {
    0 <= c.0 <= (GRID_WIDTH - 10) * GRID_SIZE && c.0 % GRID_SIZE == 0 &&
    0 <= c.1 <= (GRID_HEIGHT - 10) * GRID_SIZE && c.1 % GRID_SIZE == 0
  }

  /** The cell a draw names. */
  function Candidate(d: Draw): (c: Cell)
    ensures ValidDraw(d) ==> InSubGrid(c) && OnGrid(c)
  {
    (d.0 * GRID_SIZE, d.1 * GRID_SIZE)
  }

  /** Every cell of the sub-grid is named by exactly one valid draw. */
  lemma {:induction false} SubGridDraw(c: Cell)
    requires InSubGrid(c)
    ensures ValidDraw((c.0 / GRID_SIZE, c.1 / GRID_SIZE))
    ensures Candidate((c.0 / GRID_SIZE, c.1 / GRID_SIZE)) == c
    ensures forall d :: ValidDraw(d) && Candidate(d) == c ==> d == (c.0 / GRID_SIZE, c.1 / GRID_SIZE)
  {
  }

  /** Some round of the sampling loop draws a cell that is not occupied: the
      loop, which has no other way out, ends. */
  predicate HasFreeDraw(draws: seq<Draw>, occupied: seq<Cell>) {
    exists i :: 0 <= i < |draws| && Candidate(draws[i]) !in occupied
  }

  /** i is the round at which the sampling loop stops. */
  predicate IsFirstFree(draws: seq<Draw>, occupied: seq<Cell>, i: int) {
    0 <= i < |draws| && Candidate(draws[i]) !in occupied &&
    forall j :: 0 <= j < i ==> Candidate(draws[j]) in occupied
  }

  /** The round at which the sampling loop stops. */
  function FirstFreeIndex(draws: seq<Draw>, occupied: seq<Cell>): (i: nat)
    requires HasFreeDraw(draws, occupied)
    ensures IsFirstFree(draws, occupied, i)
    decreases |draws|
  {
    if Candidate(draws[0]) !in occupied then 0
    else
      assert HasFreeDraw(draws[1..], occupied) by {
        var k :| 0 <= k < |draws| && Candidate(draws[k]) !in occupied;
        assert Candidate(draws[1..][k - 1]) !in occupied;
      }
      1 + FirstFreeIndex(draws[1..], occupied)
  }

  /** Where the apple goes: the first drawn cell that is free. It is free
      and lies in the sub-grid. */
  function Placed(draws: seq<Draw>, occupied: seq<Cell>): (c: Cell)
    requires ValidDraws(draws) && HasFreeDraw(draws, occupied)
    ensures c !in occupied && InSubGrid(c) && OnGrid(c)
  {
    Candidate(draws[FirstFreeIndex(draws, occupied)])
  }

  /** The `while True` sampling loop: draw until the drawn cell is not
      occupied. */
  method SampleFree(occupied: seq<Cell>, draws: seq<Draw>) returns (c: Cell)
    requires ValidDraws(draws) && HasFreeDraw(draws, occupied)
    ensures c == Placed(draws, occupied)
    ensures c !in occupied && InSubGrid(c)
  {
    var i := 0;
    c := Candidate(draws[0]);
    while c in occupied
      invariant 0 <= i < |draws| && c == Candidate(draws[i])
      invariant forall j :: 0 <= j < i ==> Candidate(draws[j]) in occupied
      invariant HasFreeDraw(draws[i..], occupied)
      decreases |draws| - i
    {
      assert Candidate(draws[i..][0]) in occupied;
      i := i + 1;
      c := Candidate(draws[i]);
    }
    assert IsFirstFree(draws, occupied, i);
  }

  /** The guard in front of the sampling loop as written: it stops the game
      only when the list of occupied cells is as long as the whole board. */
  predicate BoardFullGuard(occupied: seq<Cell>)
    ensures BoardFullGuard(occupied) <==> |occupied| == 768
  {
    |occupied| == GRID_WIDTH * GRID_HEIGHT
  }

  /** The guard the loop needs: some cell the sampler can draw is free. */
  predicate SamplerHasRoom(occupied: seq<Cell>) {
    exists col, row | 0 <= col <= GRID_WIDTH - 10 && 0 <= row <= GRID_HEIGHT - 10 ::
      Candidate((col, row)) !in occupied
  }

  /** The corrected guard holds exactly when a free sub-grid cell exists, and
      exactly when some sequence of draws lets the sampling loop end. */
  lemma {:induction false} SamplerHasRoomIff(occupied: seq<Cell>)
    ensures SamplerHasRoom(occupied) <==> exists c :: InSubGrid(c) && c !in occupied
    ensures SamplerHasRoom(occupied) <==>
            exists d :: ValidDraw(d) && HasFreeDraw([d], occupied)
  {
    if c :| InSubGrid(c) && c !in occupied {
      SubGridDraw(c);
      var d := (c.0 / GRID_SIZE, c.1 / GRID_SIZE);
      assert Candidate([d][0]) !in occupied;
    }
    if d :| ValidDraw(d) && HasFreeDraw([d], occupied) {
      assert Candidate([d][0]) !in occupied;
      assert Candidate((d.0, d.1)) !in occupied;
    }
  }

  /** Draws that end the sampling loop show that the corrected guard holds. */
  lemma {:induction false} FreeDrawMeansRoom(draws: seq<Draw>, occupied: seq<Cell>)
    requires ValidDraws(draws) && HasFreeDraw(draws, occupied)
    ensures SamplerHasRoom(occupied)
  {
    var i := FirstFreeIndex(draws, occupied);
    var d := draws[i];
    assert Candidate((d.0, d.1)) !in occupied;
  }

  /** Every cell of the sub-grid, row by row: 23 * 15 = 345 cells. */
  function SubGridCells(): (s: seq<Cell>)
    ensures |s| == (GRID_WIDTH - 9) * (GRID_HEIGHT - 9)
  {
    seq(345, i => ((i % 23) * GRID_SIZE, (i / 23) * GRID_SIZE))
  }

  /** A snake covering the sub-grid, 345 cells long, does not set off the
      guard as written, yet no draw can find a free cell: the sampling loop
      never ends. */
  lemma {:induction false} GuardMissesFullSubGrid()
    ensures !BoardFullGuard(SubGridCells())
    ensures !SamplerHasRoom(SubGridCells())
    ensures forall draws :: ValidDraws(draws) ==> !HasFreeDraw(draws, SubGridCells())
  {
    var s := SubGridCells();
    forall col, row | 0 <= col <= GRID_WIDTH - 10 && 0 <= row <= GRID_HEIGHT - 10
      ensures Candidate((col, row)) in s
    {
      var i := row * 23 + col;
      assert i / 23 == row && i % 23 == col;
      assert s[i] == Candidate((col, row));
    }
    forall draws | ValidDraws(draws) ensures !HasFreeDraw(draws, s) {
      forall i | 0 <= i < |draws| ensures Candidate(draws[i]) in s {
        var d := draws[i];
        assert ValidDraw(d);
        assert Candidate((d.0, d.1)) in s;
      }
    }
  }

  class Apple {
    var position: Cell

    /** A new apple, placed away from the cells in busy. */
    constructor (busy: seq<Cell>, draws: seq<Draw>)
      requires SamplerHasRoom(busy)
      requires ValidDraws(draws) && HasFreeDraw(draws, busy)
      ensures position == Placed(draws, busy)
    {
      position := CENTER;
      new;
      RandomizePosition(busy, draws);
    }

    /** Moves the apple to the first drawn cell that is not occupied. The
        model enters the loop only when the corrected guard holds. */
    method RandomizePosition(occupied: seq<Cell>, draws: seq<Draw>)
      requires SamplerHasRoom(occupied)
      requires ValidDraws(draws) && HasFreeDraw(draws, occupied)
      modifies this
      ensures position == Placed(draws, occupied)
      ensures position !in occupied && InSubGrid(position)
    {
      position := SampleFree(occupied, draws);
    }
  }
}
