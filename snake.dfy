/**
 * The per-snake record of SnakeAI/Snake.cs: a body kept as a circular chain
 * over two flat lists (as in the arena), a heading and a life flag, with
 * the `Kill`/`Respawn` lifecycle.
 */
module Snakes {
  import opened Structs
  import opened Game
  import Arena

  /** The updatable part of a snake, as a value. */
  datatype SnakeState = SnakeState(positions: seq<int>, indices: seq<int>, head: int,
                                   pos: Int2, dir: Int2, alive: bool)

  /** What `Kill` leaves (Snake.cs:66-71). */
  function Killed(s: SnakeState): (k: SnakeState)
    ensures k.positions == [] && k.indices == [] && !k.alive
    ensures k.head == s.head && k.pos == s.pos && k.dir == s.dir
  {
    s.(positions := [], indices := [], alive := false)
  }

  /** What `Respawn(startPos)` leaves, `cell` being the owner's conversion of
      `startPos` (Snake.cs:77-83). */
  function Respawned(s: SnakeState, startPos: int, cell: Int2): (r: SnakeState)
    ensures r.positions == s.positions + [startPos] && r.indices == s.indices + [0]
    ensures r.head == 0 && r.pos == cell
    ensures r.dir == s.dir && r.alive == s.alive
  {
    s.(positions := s.positions + [startPos], indices := s.indices + [0], head := 0, pos := cell)
  }

  /** Killing is idempotent. */
  lemma KillIsIdempotent(s: SnakeState)
    ensures Killed(Killed(s)) == Killed(s)
  {
  }

  /** Respawning a killed snake gives a one-segment chain whose single slot
      links to itself; the snake stays dead and keeps its heading. */
  lemma {:induction false} RespawnAfterKill(s: SnakeState, startPos: int, cell: Int2)
    ensures var r := Respawned(Killed(s), startPos, cell);
            && r.positions == [startPos] && r.indices == [0] && r.head == 0
            && Arena.IsCycle(r.indices, [r.head])
            && !r.alive && r.dir == s.dir
  {
    var r := Respawned(Killed(s), startPos, cell);
    assert r.indices == [0];
    forall t | 0 <= t < |r.indices|
      ensures t in [r.head]
    {
      assert t == 0;
    }
  }

  /** `Respawn` only appends: on a snake that was not killed first the chain
      is longer than one segment. */
  lemma RespawnOnLiveBodyGrows(s: SnakeState, startPos: int, cell: Int2)
    requires s.positions != []
    ensures |Respawned(s, startPos, cell).positions| == |s.positions| + 1 >= 2
  {
  }

  class Snake {
    /** The game this snake belongs to. In the source it is the multi-snake
        `SnakeGame` that owns a list of `Snake` objects, which is not part of
        this model; the single-snake game stands in for it only as an
        identity, and no member of `Snake` reads its state. */
    const owner: SnakeGame
    /** `Owner.IntToInt2`, the owner's index-to-cell conversion, which the
        game shown does not define: kept uninterpreted. */
    const intToInt2: int -> Int2
    var positions: seq<int>
    var indices: seq<int>
    var head: int
    var pos: Int2
    var dir: Int2
    const character: char
    var alive: bool

    function State(): SnakeState
      reads this
    {
      SnakeState(positions, indices, head, pos, dir, alive)
    }

    /** `Snake(owner, character)` (Snake.cs:53-61). */
    constructor (owner: SnakeGame, character: char, intToInt2: int -> Int2)
      ensures this.owner == owner && this.character == character && this.intToInt2 == intToInt2
      ensures positions == [] && indices == [] && dir == Int2(1, 0) && alive
      ensures head == 0 && pos == Zero
    {
      this.owner := owner;
      this.character := character;
      this.intToInt2 := intToInt2;
      positions := [];
      indices := [];
      head := 0;
      pos := Zero;
      dir := Int2(1, 0);
      alive := true;
    }

    /** `Kill()` (Snake.cs:66-71). */
    method Kill()
      modifies this`positions, this`indices, this`alive
      ensures State() == Killed(old(State()))
    {
      positions := [];
      indices := [];
      alive := false;
    }

    /** `Respawn(startPos)` (Snake.cs:77-83). */
    method Respawn(startPos: int)
      modifies this`positions, this`indices, this`head, this`pos
      ensures State() == Respawned(old(State()), startPos, intToInt2(startPos))
    {
      pos := intToInt2(startPos);
      positions := positions + [startPos];
      head := 0;
      indices := indices + [0];
    }
  }
}
