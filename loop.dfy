/** One round of the game loop: the arrow keys pressed since the last round
    steer the snake one event at a time, the snake moves, and if its head is
    on the fruit it grows by one and the fruit is redrawn. World is the value
    of the whole game and Ticked what one round does to it; the method Tick
    does the same round on the Snake and Fruit objects. */
module Loop {
  import opened Grid
  import opened Snakes
  import opened Fruits

  /** A key-down event: one of the four arrow keys, or any other key (which
      the loop ignores, as it ignores every event but key-down and quit). */
  datatype Key = ArrowUp | ArrowDown | ArrowLeft | ArrowRight | OtherKey {

    predicate IsArrow() {
      !OtherKey?
    }

    function Dir(): Direction
      requires IsArrow()
    {
      match this
      case ArrowUp => Up
      case ArrowDown => Down
      case ArrowLeft => Left
      case ArrowRight => Right
    }
  }

  /** The direction after one key event: an arrow key is obeyed unless it
      points exactly against the current direction of travel. */
  function Steered(d: Direction, k: Key): (r: Direction)
    ensures r != d.Opposite()
    ensures !k.IsArrow() ==> r == d
    ensures k.IsArrow() ==>
      (r == k.Dir() <==> k.Dir().Dx() != -d.Dx() || k.Dir().Dy() != -d.Dy())
    ensures k.IsArrow() && r != k.Dir() ==> r == d
  {
    if k.IsArrow() && k.Dir() != d.Opposite() then k.Dir() else d
  }

  /** The direction after a round's key events, taken in arrival order. The
      last direction any accepted key asked for wins, so the result is the
      direction the round began with or one that some arrow key of the round
      named. */
  function SteerAll(d: Direction, keys: seq<Key>): (r: Direction)
    ensures r == d || exists i :: 0 <= i < |keys| && keys[i].IsArrow() && keys[i].Dir() == r
  {
    if keys == [] then d
    else
      var init := keys[..|keys| - 1];
      var p := SteerAll(d, init);
      assert forall i :: 0 <= i < |init| ==> init[i] == keys[i];
      Steered(p, keys[|keys| - 1])
  }

  /** Keys other than the arrows never change the direction. */
  lemma {:induction false} SteerAllIgnoresOthers(d: Direction, keys: seq<Key>)
    requires forall i :: 0 <= i < |keys| ==> !keys[i].IsArrow()
    ensures SteerAll(d, keys) == d
  {
    if keys != [] {
      SteerAllIgnoresOthers(d, keys[..|keys| - 1]);
    }
  }

  /** Each event is checked against the direction it finds, not the one the
      round began with, so two keys in one round can reverse the snake. */
  lemma TwoKeysReverse()
    ensures SteerAll(Right, [ArrowUp, ArrowLeft]) == Left
  {
    assert [ArrowUp, ArrowLeft][..1] == [ArrowUp];
    assert [ArrowUp][..0] == [];
  }

  /** With only two cells the bite test is skipped, so once the snake has
      grown to a target length of 3, reversing within one round turns it back
      onto its neck and the body holds the same cell twice. */
  lemma BodyMayRepeat()
    ensures var w := World(SnakeState([(475, 350), (450, 350)], 3, Right), (0, 0));
      var m := Moved(w, [ArrowUp, ArrowLeft], Up);
      m.positions == [(450, 350), (475, 350), (450, 350)] && m.positions[0] == m.positions[2]
  {
    TwoKeysReverse();
  }

  /** The whole game: the snake and the fruit's cell. */
  datatype World = World(snake: SnakeState, fruit: Cell)

  /** The game as it stands between rounds. */
  predicate WorldInv(w: World) {
    Inv(w.snake) && OnGrid(w.fruit)
  }

  /** The game as main creates it, from the random choices given. */
  function Start(d: Direction, col: int, row: int): (w: World)
    requires 0 <= col < COLS && 0 <= row < ROWS
    ensures WorldInv(w)
  {
    World(Fresh(d), FruitCell(col, row))
  }

  /** The snake after a round's keys and its move, before the fruit check. */
  function Moved(w: World, keys: seq<Key>, resetDir: Direction): (s: SnakeState)
    requires |w.snake.positions| > 0
    ensures var d := SteerAll(w.snake.direction, keys);
      if BitesOnTick(w, keys) then
        s.positions == [START] && s.length == 1 && s.direction == resetDir
      else
        && s.direction == d
        && s.length == w.snake.length
        && (w.snake.length >= 1 ==> |s.positions| >= 1 && s.positions[0] == Step(w.snake.positions[0], d))
  {
    Updated(w.snake.(direction := SteerAll(w.snake.direction, keys)), resetDir)
  }

  /** The move of this round makes the snake bite itself. */
  predicate BitesOnTick(w: World, keys: seq<Key>)
    requires |w.snake.positions| > 0
  {
    Bites(w.snake.positions, Step(w.snake.positions[0], SteerAll(w.snake.direction, keys)))
  }

  /** One round: steer, move, then check the fruit against the new head —
      also right after a reset. On a hit the target length goes up by
      exactly one and the fruit is redrawn at (col, row); otherwise both are
      kept. */
  function Ticked(w: World, keys: seq<Key>, resetDir: Direction, col: int, row: int): (r: World)
    requires |w.snake.positions| > 0 && w.snake.length >= 1
    requires 0 <= col < COLS && 0 <= row < ROWS
    ensures |r.snake.positions| > 0 && r.snake.length >= 1
    ensures var m := Moved(w, keys, resetDir);
      && r.snake.positions == m.positions
      && r.snake.direction == m.direction
      && (r.snake.length == m.length + 1 <==> m.positions[0] == w.fruit)
      && (m.positions[0] == w.fruit ==> r.fruit == FruitCell(col, row))
      && (m.positions[0] != w.fruit ==> r.snake.length == m.length && r.fruit == w.fruit)
    ensures BitesOnTick(w, keys) ==> r.snake.positions == [START]
    ensures !BitesOnTick(w, keys) ==> |r.snake.positions| <= |w.snake.positions| + 1
  {
    var m := Moved(w, keys, resetDir);
    if m.positions[0] == w.fruit then World(m.(length := m.length + 1), FruitCell(col, row))
    else World(m, w.fruit)
  }

  /** A collision resets the snake and the fruit check still runs: with the
      fruit on the centre the reset snake eats it at once. */
  lemma {:induction false} EatRightAfterReset(w: World, keys: seq<Key>, resetDir: Direction, col: int, row: int)
    requires |w.snake.positions| > 0 && w.snake.length >= 1
    requires 0 <= col < COLS && 0 <= row < ROWS
    requires BitesOnTick(w, keys) && w.fruit == START
    ensures var r := Ticked(w, keys, resetDir, col, row);
      r.snake.positions == [START] && r.snake.length == 2 && r.snake.direction == resetDir
      && r.fruit == FruitCell(col, row)
  {
    var s := w.snake.(direction := SteerAll(w.snake.direction, keys));
    assert Bites(s.positions, Step(s.positions[0], s.direction));
  }

  /** A round keeps the game's invariant. */
  lemma {:induction false} TickedKeepsInv(w: World, keys: seq<Key>, resetDir: Direction, col: int, row: int)
    requires WorldInv(w)
    requires 0 <= col < COLS && 0 <= row < ROWS
    ensures WorldInv(Ticked(w, keys, resetDir, col, row))
  {
    var s := w.snake.(direction := SteerAll(w.snake.direction, keys));
    UpdatedKeepsInv(s, resetDir);
  }

  /** The random choices of one round. */
  datatype TickInput = TickInput(keys: seq<Key>, resetDir: Direction, col: int, row: int)

  predicate InRange(t: TickInput) {
    0 <= t.col < COLS && 0 <= t.row < ROWS
  }

  /** The game after a sequence of rounds. */
  function Run(w: World, ins: seq<TickInput>): (r: World)
    requires |w.snake.positions| > 0 && w.snake.length >= 1
    requires forall i :: 0 <= i < |ins| ==> InRange(ins[i])
    ensures |r.snake.positions| > 0 && r.snake.length >= 1
  {
    if ins == [] then w
    else
      var t := ins[|ins| - 1];
      assert InRange(t);
      Ticked(Run(w, ins[..|ins| - 1]), t.keys, t.resetDir, t.col, t.row)
  }

  /** Rounds since the last reset, counting from age0 for the starting game. */
  function Age(w: World, ins: seq<TickInput>, age0: nat): nat
    requires |w.snake.positions| > 0 && w.snake.length >= 1
    requires forall i :: 0 <= i < |ins| ==> InRange(ins[i])
  {
    if ins == [] then age0
    else if BitesOnTick(Run(w, ins[..|ins| - 1]), ins[|ins| - 1].keys) then 0
    else Age(w, ins[..|ins| - 1], age0) + 1
  }

  /** Each round adds at most one cell, and a reset starts again from one, so
      the body never has more cells than the rounds since the last reset plus
      one. */
  lemma {:induction false} RunSizeBound(w: World, ins: seq<TickInput>, age0: nat)
    requires |w.snake.positions| > 0 && w.snake.length >= 1
    requires forall i :: 0 <= i < |ins| ==> InRange(ins[i])
    requires |w.snake.positions| <= age0 + 1
    ensures |Run(w, ins).snake.positions| <= Age(w, ins, age0) + 1
  {
    if ins != [] {
      RunSizeBound(w, ins[..|ins| - 1], age0);
    }
  }

  /** The invariant holds after any sequence of rounds. */
  lemma {:induction false} RunKeepsInv(w: World, ins: seq<TickInput>)
    requires WorldInv(w)
    requires forall i :: 0 <= i < |ins| ==> InRange(ins[i])
    ensures WorldInv(Run(w, ins))
  {
    if ins != [] {
      var init := ins[..|ins| - 1];
      RunKeepsInv(w, init);
      var t := ins[|ins| - 1];
      TickedKeepsInv(Run(w, init), t.keys, t.resetDir, t.col, t.row);
    }
  }

  /** One iteration of main's loop on the game objects: the key events in
      arrival order, the move, and the fruit check. The randomness of a reset
      and of the fruit's redraw is given as resetDir and (col, row). */
  method Tick(snake: Snake, fruit: Fruit, events: seq<Key>, resetDir: Direction, col: int, row: int)
    requires snake.Valid() && fruit.Valid()
    requires 0 <= col < COLS && 0 <= row < ROWS
    modifies snake, fruit
    ensures snake.Valid() && fruit.Valid()
    ensures World(snake.State(), fruit.position)
         == Ticked(World(old(snake.State()), old(fruit.position)), events, resetDir, col, row)
  {
    ghost var w := World(snake.State(), fruit.position);
    var i := 0;
    while i < |events|
      invariant 0 <= i <= |events|
      invariant snake.Valid()
      invariant snake.positions == w.snake.positions && snake.length == w.snake.length
      invariant snake.direction == SteerAll(w.snake.direction, events[..i])
      invariant fruit.position == w.fruit
    {
      var key := events[i];
      if key == ArrowUp && snake.direction != Down {
        snake.direction := Up;
      } else if key == ArrowDown && snake.direction != Up {
        snake.direction := Down;
      } else if key == ArrowLeft && snake.direction != Right {
        snake.direction := Left;
      } else if key == ArrowRight && snake.direction != Left {
        snake.direction := Right;
      }
      assert events[..i + 1][..i] == events[..i];
      i := i + 1;
    }
    assert events[..i] == events;
    snake.Update(resetDir);
    if snake.HeadPosition() == fruit.position {
      snake.length := snake.length + 1;
      fruit.RandomizePosition(col, row);
    }
    TickedKeepsInv(w, events, resetDir, col, row);
  }
}
