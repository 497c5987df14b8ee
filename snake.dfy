/** The snake: an ordered list of cells with the head first, a target length
    and a travel direction. SnakeState is its value and Updated and Fresh say
    what one move and a restart do to it; the class Snake holds the same three
    fields and changes them in place, each method tied to those functions. */
module Snakes {
  import opened Grid

  /** Where the snake starts and restarts: the centre of the board. */
  const START: Cell := (WIDTH / 2, HEIGHT / 2)

  datatype SnakeState = SnakeState(positions: seq<Cell>, length: nat, direction: Direction)

  /** Consecutive cells of the body are one step apart. */
  predicate Connected(body: seq<Cell>) {
    forall i :: 0 <= i < |body| - 1 ==> Adjacent(body[i], body[i + 1])
  }

  /** What holds of the snake between moves: it has a head, it is no longer
      than its target length, every cell is grid-aligned on the board, and the
      body is a chain of neighbouring cells. */
  predicate Inv(s: SnakeState) {
    && 1 <= |s.positions| <= s.length
    && (forall i :: 0 <= i < |s.positions| ==> OnGrid(s.positions[i]))
    && Connected(s.positions)
  }

  /** The list slice s[:n] for a non-negative n: the first n cells, or all of
      them when there are fewer. */
  function Take(s: seq<Cell>, n: nat): (r: seq<Cell>)
    ensures |r| == if n < |s| then n else |s|
    ensures r <= s
  {
    if n < |s| then s[..n] else s
  }

  /** The snake as created and as reset: one cell at the centre, target
      length 1, travelling in the given (randomly chosen) direction. */
  function Fresh(d: Direction): (r: SnakeState)
    ensures Inv(r)
    ensures r.positions == [START] && r.length == 1 && r.direction == d
  {
    SnakeState([START], 1, d)
  }

  /** The new head bites the body when it lands on a cell at index 2 or
      later; the head (index 0) and the neck (index 1) are not checked. */
  predicate Bites(body: seq<Cell>, h: Cell)
    ensures Bites(body, h) <==> exists i :: 2 <= i < |body| && body[i] == h
  {
    |body| > 2 && h in body[2..]
  }

  /** One move of the snake. The new head is one step from the old one; if it
      bites the body the snake is reset (in the direction resetDir), otherwise
      the head is put in front and the list cut back to the target length. */
  function Updated(s: SnakeState, resetDir: Direction): (r: SnakeState)
    requires |s.positions| > 0
    ensures var h := Step(s.positions[0], s.direction);
      if Bites(s.positions, h) then
        r.positions == [START] && r.length == 1 && r.direction == resetDir
      else
        && r.length == s.length
        && r.direction == s.direction
        && |r.positions| == (if s.length < |s.positions| + 1 then s.length else |s.positions| + 1)
        && (s.length >= 1 ==> r.positions[0] == h && r.positions[1..] <= s.positions)
    ensures |s.positions| <= 2 ==> !Bites(s.positions, Step(s.positions[0], s.direction))
    ensures s.length >= 1 ==> |r.positions| >= 1
    ensures |r.positions| <= |s.positions| + 1
  {
    var h := Step(s.positions[0], s.direction);
    if |s.positions| > 2 && h in s.positions[2..] then Fresh(resetDir)
    else s.(positions := Take([h] + s.positions, s.length))
  }

  /** Prefixes of a chain of neighbouring cells are chains too. */
  lemma {:induction false} ConnectedPrefix(body: seq<Cell>, p: seq<Cell>)
    requires Connected(body) && p <= body
    ensures Connected(p)
  {
    forall i | 0 <= i < |p| - 1
      ensures Adjacent(p[i], p[i + 1])
    {
      assert p[i] == body[i] && p[i + 1] == body[i + 1];
    }
  }

  /** A move keeps the invariant: the new head is a grid cell next to the old
      head, and cutting back to the target length keeps a prefix. */
  lemma {:induction false} UpdatedKeepsInv(s: SnakeState, resetDir: Direction)
    requires Inv(s)
    ensures Inv(Updated(s, resetDir))
  {
    var h := Step(s.positions[0], s.direction);
    if !Bites(s.positions, h) {
      var full := [h] + s.positions;
      StepOnGrid(s.positions[0], s.direction);
      assert Connected(full) by {
        forall i | 0 <= i < |full| - 1
          ensures Adjacent(full[i], full[i + 1])
        {
          if i > 0 {
            assert full[i] == s.positions[i - 1] && full[i + 1] == s.positions[i];
          }
        }
      }
      var r := Updated(s, resetDir);
      assert r.positions == Take(full, s.length);
      ConnectedPrefix(full, r.positions);
      forall i | 0 <= i < |r.positions|
        ensures OnGrid(r.positions[i])
      {
        assert r.positions[i] == full[i];
        if i > 0 {
          assert full[i] == s.positions[i - 1];
        }
      }
    }
  }

  /** The snake object of the game, updated in place. */
  class Snake {
    var length: nat
    var positions: seq<Cell>
    var direction: Direction

    function State(): SnakeState
      reads this
    {
      SnakeState(positions, length, direction)
    }

    ghost predicate Valid()
      reads this
    {
      Inv(State())
    }

    /** The direction is drawn at random by game.py; here it is given. */
    constructor (d: Direction)
      ensures Valid()
      ensures State() == Fresh(d)
    {
      length := 1;
      positions := [START];
      direction := d;
    }

    /** The head is the first cell of the list; on a valid snake it is a grid
        cell on the board. */
    function HeadPosition(): (h: Cell)
      reads this
      requires |positions| > 0
      ensures h == positions[0]
      ensures Valid() ==> OnGrid(h)
    {
      positions[0]
    }

    method Update(resetDir: Direction)
      requires Valid()
      modifies this
      ensures Valid()
      ensures State() == Updated(old(State()), resetDir)
    {
      UpdatedKeepsInv(State(), resetDir);
      var cur := HeadPosition();
      var dirX, dirY := direction.Dx(), direction.Dy();
      var next := ((cur.0 + dirX * GRID_SIZE) % WIDTH, (cur.1 + dirY * GRID_SIZE) % HEIGHT);
      if |positions| > 2 && next in positions[2..] {
        Reset(resetDir);
      } else {
        positions := [next] + positions;
        positions := Take(positions, length);
      }
    }

    /** The replacement direction is drawn at random by game.py; here it
        is given. */
    method Reset(d: Direction)
      modifies this
      ensures Valid()
      ensures State() == Fresh(d)
    {
      length := 1;
      positions := [START];
      direction := d;
    }
  }
}
