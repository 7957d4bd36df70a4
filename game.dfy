/** The game loop: key handling with its reversal guard, one tick of the
    loop (steer, move, eat, collide) and the invariants that every tick
    keeps. Drawing, the clock and the event queue are not modelled: a tick
    receives the arrow keys pressed since the previous one, the draws of
    the apple sampler and the direction a reset would pick at random. */
module Game {
  import opened Board
  import opened Snakes
  import opened Apples

  /** A key-down event: an arrow key or any other key. */
  datatype Key = ArrowUp | ArrowDown | ArrowLeft | ArrowRight | OtherKey

  /** The direction an arrow key asks for; other keys ask for none. */
  function KeyDirection(k: Key): (r: Option<Direction>)
    ensures r.None? <==> k == OtherKey
  {
    match k
    case ArrowUp => Some(Up)
    case ArrowDown => Some(Down)
    case ArrowLeft => Some(Left)
    case ArrowRight => Some(Right)
    case OtherKey => None
  }

  /** No two keys ask for the same direction, and every direction has its key. */
  lemma KeyDirectionOneToOne(k: Key, k': Key, d: Direction)
    ensures KeyDirection(k).Some? && KeyDirection(k) == KeyDirection(k') ==> k == k'
    ensures exists a :: KeyDirection(a) == Some(d)
  {
    var a := match d case Up => ArrowUp case Down => ArrowDown
                     case Left => ArrowLeft case Right => ArrowRight;
    assert KeyDirection(a) == Some(d);
  }

  /** One key press against the current direction: an arrow key that does
      not ask for a 180-degree turn becomes the pending direction; any other
      key leaves the pending direction as it was. */
  function Accept(direction: Direction, pending: Option<Direction>, k: Key): (r: Option<Direction>)
    ensures KeyDirection(k).None? ==> r == pending
    ensures r != pending ==> r == KeyDirection(k) && r != Some(direction.Opposite())
    ensures KeyDirection(k).Some? && KeyDirection(k).value != direction.Opposite() ==>
            r == KeyDirection(k)
  {
    match k
    case ArrowUp => if direction != Down then Some(Up) else pending
    case ArrowDown => if direction != Up then Some(Down) else pending
    case ArrowLeft => if direction != Right then Some(Left) else pending
    case ArrowRight => if direction != Left then Some(Right) else pending
    case OtherKey => pending
  }

  /** The pending direction after the keys of one tick, each checked against
      the current direction, which does not change while they are handled.
      It is the old pending direction or the direction of some key, and it is
      never the reverse of the current direction unless it already was. */
  function PendingAfter(direction: Direction, pending: Option<Direction>, keys: seq<Key>): (r: Option<Direction>)
    ensures r == pending ||
            exists i :: 0 <= i < |keys| && KeyDirection(keys[i]).Some? && r == KeyDirection(keys[i])
    ensures pending != Some(direction.Opposite()) ==> r != Some(direction.Opposite())
    decreases |keys|
  {
    if keys == [] then pending
    else
      var r := PendingAfter(direction, Accept(direction, pending, keys[0]), keys[1..]);
      assert r != Accept(direction, pending, keys[0]) ==>
             exists i :: 0 <= i < |keys| && KeyDirection(keys[i]).Some? && r == KeyDirection(keys[i]) by {
        if r != Accept(direction, pending, keys[0]) {
          var i :| 0 <= i < |keys[1..]| && KeyDirection(keys[1..][i]).Some? && r == KeyDirection(keys[1..][i]);
          assert r == KeyDirection(keys[i + 1]);
        }
      }
      r
  }

  /** The last key decides: a later key is checked against the same current
      direction and, when accepted, overrides every earlier one. */
  lemma {:induction false} PendingAfterLastKey(direction: Direction, pending: Option<Direction>,
                                               keys: seq<Key>, k: Key)
    ensures PendingAfter(direction, pending, keys + [k]) ==
            Accept(direction, PendingAfter(direction, pending, keys), k)
    decreases |keys|
  {
    if keys == [] {
      assert [] + [k] == [k];
      assert [k][1..] == [];
    } else {
      assert (keys + [k])[0] == keys[0];
      assert (keys + [k])[1..] == keys[1..] + [k];
      PendingAfterLastKey(direction, Accept(direction, pending, keys[0]), keys[1..], k);
    }
  }

  /** The key handler: every arrow key is checked against the current
      direction, in the order of `handle_keys`'s if/elif chain. */
  method HandleKeys(snake: Snake, keys: seq<Key>)
    modifies snake`nextDirection
    ensures snake.nextDirection == PendingAfter(snake.direction, old(snake.nextDirection), keys)
  {
    for i := 0 to |keys|
      invariant PendingAfter(snake.direction, snake.nextDirection, keys[i..]) ==
                PendingAfter(snake.direction, old(snake.nextDirection), keys)
    {
      ghost var before := snake.nextDirection;
      var k := keys[i];
      if k == ArrowUp && snake.direction != Down {
        snake.nextDirection := Some(Up);
      } else if k == ArrowDown && snake.direction != Up {
        snake.nextDirection := Some(Down);
      } else if k == ArrowLeft && snake.direction != Right {
        snake.nextDirection := Some(Left);
      } else if k == ArrowRight && snake.direction != Left {
        snake.nextDirection := Some(Right);
      }
      assert snake.nextDirection == Accept(snake.direction, before, k);
      assert keys[i..][0] == k && keys[i..][1..] == keys[i + 1..];
    }
  }

  /** What one tick of the loop receives from outside the model. */
  datatype TickInput = TickInput(keys: seq<Key>, draws: seq<Draw>, resetDirection: Direction)

  /** The snake after the keys were handled and the pending direction applied. */
  function Steered(s: SnakeState, keys: seq<Key>): SnakeState {
    DirectionUpdated(s.(nextDirection := PendingAfter(s.direction, s.nextDirection, keys)))
  }

  /** The snake after the move of the tick. */
  function Advanced(s: SnakeState, keys: seq<Key>): SnakeState
    requires Inv(s)
  {
    Moved(Steered(s, keys))
  }

  /** The draws are `randint` results and, if the snake eats this tick, some
      of them finds a cell outside the grown snake. */
  predicate DrawsSuffice(s: SnakeState, apple: Cell, input: TickInput)
    requires Inv(s)
  {
    var moved := Advanced(s, input.keys);
    ValidDraws(input.draws) &&
    (Head(moved) == apple ==> HasFreeDraw(input.draws, [apple] + moved.positions))
  }

  /** One tick: handle keys, apply the pending direction, move; if the head
      is on the apple, grow and place a new apple; if the head is on the body
      behind the neck, reset. The result is the new snake and apple cell.
      Every tick consumes the pending direction. */
  function TickResult(s: SnakeState, apple: Cell, input: TickInput): (r: (SnakeState, Cell))
    requires Inv(s) && InSubGrid(apple) && DrawsSuffice(s, apple, input)
    ensures Inv(r.0) && InSubGrid(r.1)
    ensures r.0.nextDirection == None
  {
    var moved := Advanced(s, input.keys);
    var eats := Head(moved) == apple;
    var fed := if eats then Grown(moved, apple) else moved;
    var apple' := if eats then Placed(input.draws, fed.positions) else apple;
    (if HitsBody(fed) then ResetTo(fed, input.resetDirection) else fed, apple')
  }

  /** One iteration of the game loop, without the clock and the drawing. */
  method Tick(snake: Snake, apple: Apple, input: TickInput)
    requires snake.Valid() && InSubGrid(apple.position)
    requires DrawsSuffice(snake.State(), apple.position, input)
    modifies snake, apple
    ensures snake.Valid()
    ensures (snake.State(), apple.position) ==
            TickResult(old(snake.State()), old(apple.position), input)
  {
    HandleKeys(snake, input.keys);
    snake.UpdateDirection();
    snake.Move();
    if snake.positions[0] == apple.position {
      snake.length := snake.length + 1;
      snake.positions := [apple.position] + snake.positions;
      FreeDrawMeansRoom(input.draws, snake.positions);
      apple.RandomizePosition(snake.positions, input.draws);
    }
    if |snake.positions| > 2 && snake.positions[0] in snake.positions[2..] {
      snake.Reset(input.resetDirection);
    }
  }

  /** What holds between ticks: the snake invariant, no pending direction,
      the apple in the sampler's sub-grid and off the snake, except right
      after a reset, when the one-cell snake may sit on it. */
  predicate GameInv(s: SnakeState, apple: Cell) {
    Inv(s) && s.nextDirection == None && InSubGrid(apple) &&
    (apple !in s.positions || s.positions == [CENTER])
  }

  /** The state `main` starts the loop from. */
  method NewGame(draws: seq<Draw>) returns (snake: Snake, apple: Apple)
    requires ValidDraws(draws) && HasFreeDraw(draws, [CENTER])
    ensures fresh(snake) && fresh(apple)
    ensures snake.State() == Initial() && apple.position == Placed(draws, [CENTER])
    ensures GameInv(snake.State(), apple.position)
  {
    snake := new Snake();
    FreeDrawMeansRoom(draws, snake.positions);
    apple := new Apple(snake.positions, draws);
  }

  /** The reversal guard works across a tick: the direction the snake moves
      in is never the reverse of the direction it has when the tick begins.
      A reset may choose any direction, so the moves just before and after
      a reset can be opposite. */
  lemma SteeringNeverReverses(s: SnakeState, keys: seq<Key>)
    requires s.nextDirection != Some(s.direction.Opposite())
    ensures Steered(s, keys).direction != s.direction.Opposite()
  {
    var p := PendingAfter(s.direction, s.nextDirection, keys);
    assert p != Some(s.direction.Opposite());
  }

  /** Every tick keeps the game invariant. */
  lemma {:induction false} TickKeepsGameInv(s: SnakeState, apple: Cell, input: TickInput)
    requires GameInv(s, apple) && DrawsSuffice(s, apple, input)
    ensures GameInv(TickResult(s, apple, input).0, TickResult(s, apple, input).1)
  {
    var steered := Steered(s, input.keys);
    var moved := Advanced(s, input.keys);
    var r := TickResult(s, apple, input);
    if Head(moved) != apple && !HitsBody(moved) {
      MovedCells(steered, apple);
      assert apple !in moved.positions || s.positions == [CENTER];
    }
  }

  /** A tick in which the snake neither eats nor collides moves it one cell
      in a direction other than the reverse of the one it had when the tick
      began, keeping its length and the apple. */
  lemma TickTranslates(s: SnakeState, apple: Cell, input: TickInput)
    requires GameInv(s, apple) && DrawsSuffice(s, apple, input)
    requires Head(Advanced(s, input.keys)) != apple && !HitsBody(Advanced(s, input.keys))
    ensures var r := TickResult(s, apple, input);
      var d := r.0.direction;
      d != s.direction.Opposite() &&
      r.1 == apple && r.0.length == s.length && |r.0.positions| == |s.positions| &&
      r.0.positions == [Step(Head(s), d)] + s.positions[..|s.positions| - 1] &&
      r.0.last == Some(s.positions[|s.positions| - 1])
  {
    SteeringNeverReverses(s, input.keys);
    var r := TickResult(s, apple, input);
    assert r.0.positions == [r.0.positions[0]] + r.0.positions[1..];
  }

  /** A tick in which the snake eats and does not collide: the apple's cell
      is at the front twice, the snake is one cell longer, and the new apple
      is off the snake. */
  lemma TickEats(s: SnakeState, apple: Cell, input: TickInput)
    requires GameInv(s, apple) && DrawsSuffice(s, apple, input)
    requires Head(Advanced(s, input.keys)) == apple
    requires !HitsBody(Grown(Advanced(s, input.keys), apple))
    ensures var r := TickResult(s, apple, input);
      r.0.length == s.length + 1 && |r.0.positions| == |s.positions| + 1 &&
      r.0.positions == [apple, apple] + s.positions[..|s.positions| - 1] &&
      r.1 !in r.0.positions && r.0.direction != s.direction.Opposite()
  {
    SteeringNeverReverses(s, input.keys);
  }

  /** A tick that ends with the head on the body resets the snake: one cell
      in the middle, moving in the randomly chosen direction, nothing
      pending; the cell vacated by the move is still recorded. */
  lemma TickCollides(s: SnakeState, apple: Cell, input: TickInput)
    requires GameInv(s, apple) && DrawsSuffice(s, apple, input)
    requires var moved := Advanced(s, input.keys);
      HitsBody(if Head(moved) == apple then Grown(moved, apple) else moved)
    ensures var r := TickResult(s, apple, input);
      r.0.length == 1 && r.0.positions == [CENTER] &&
      r.0.direction == input.resetDirection && r.0.nextDirection == None &&
      r.0.last == Some(s.positions[|s.positions| - 1])
  {
  }

  /** A run of several ticks is defined when each tick's draws suffice. */
  predicate RunDefined(s: SnakeState, apple: Cell, inputs: seq<TickInput>)
    requires Inv(s) && InSubGrid(apple)
    decreases |inputs|
  {
    inputs == [] ||
    (DrawsSuffice(s, apple, inputs[0]) &&
     var r := TickResult(s, apple, inputs[0]);
     RunDefined(r.0, r.1, inputs[1..]))
  }

  /** The snake and apple after a finite prefix of the game loop. */
  function Run(s: SnakeState, apple: Cell, inputs: seq<TickInput>): (r: (SnakeState, Cell))
    requires Inv(s) && InSubGrid(apple) && RunDefined(s, apple, inputs)
    ensures Inv(r.0) && InSubGrid(r.1)
    decreases |inputs|
  {
    if inputs == [] then (s, apple)
    else
      var r := TickResult(s, apple, inputs[0]);
      Run(r.0, r.1, inputs[1..])
  }

  /** However many ticks the loop runs from a new game, the length field
      counts the cells, the head exists, every cell is on the board, nothing
      is pending and the apple is off the snake (but after a reset). */
  lemma {:induction false} RunKeepsGameInv(draws: seq<Draw>, inputs: seq<TickInput>)
    requires ValidDraws(draws) && HasFreeDraw(draws, [CENTER])
    requires RunDefined(Initial(), Placed(draws, [CENTER]), inputs)
    ensures var r := Run(Initial(), Placed(draws, [CENTER]), inputs);
      GameInv(r.0, r.1)
  {
    RunFromGameInv(Initial(), Placed(draws, [CENTER]), inputs);
  }

  lemma {:induction false} RunFromGameInv(s: SnakeState, apple: Cell, inputs: seq<TickInput>)
    requires GameInv(s, apple) && RunDefined(s, apple, inputs)
    ensures GameInv(Run(s, apple, inputs).0, Run(s, apple, inputs).1)
    decreases |inputs|
  {
    if inputs != [] {
      TickKeepsGameInv(s, apple, inputs[0]);
      var r := TickResult(s, apple, inputs[0]);
      RunFromGameInv(r.0, r.1, inputs[1..]);
    }
  }

  /** From a new game with no key pressed: with the apple elsewhere the head
      moves one cell right; with the apple one cell right the snake eats it
      and holds that cell twice. */
  lemma FirstTickFromCenter(apple: Cell, draws: seq<Draw>, d: Direction)
    requires InSubGrid(apple) && ValidDraws(draws) && HasFreeDraw(draws, [(340, 240), (340, 240)])
    ensures var r := TickResult(Initial(), apple, TickInput([], draws, d));
      if apple == (340, 240) then
        r.0.positions == [(340, 240), (340, 240)] && r.0.length == 2 && r.1 != apple
      else
        r.0.positions == [(340, 240)] && r.0.length == 1 && r.1 == apple
  {
  }
}
