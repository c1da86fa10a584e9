/**
 * The single-snake arena of SnakeAI/SnakeGame.cs as a class whose methods
 * update the free list, the tag array, the snake chain and the apples in
 * place. Random draws are parameters whose range is a precondition.
 */
module Game {
  import opened Structs
  import opened Arena

  /** What one `Tick` produces: a score, or the exception raised when an apple
      is eaten with no free cell left to re-place it on. */
  datatype TickResult = Score(value: int) | Exhausted

  /** The value `GetBoard` stores for a tag: free 0, snake 1, apple -1. */
  function BoardValue(tag: int): (v: int)
    requires tag >= AppleTag
    ensures tag >= 0 <==> v == 0
    ensures tag == SnakeTag <==> v == 1
    ensures tag == AppleTag <==> v == -1
  {
    if tag < 0 then 2 * tag + 3 else 0
  }

  /** The array `0, 1, ..., n - 1` the constructor starts from
      (SnakeGame.cs:45-47). */
  method CountingArray(n: nat) returns (a: array<int>)
    ensures fresh(a) && a[..] == Identity(n)
  {
    a := new int[n];
    var i := 0;
    while i < n
      invariant 0 <= i <= n
      invariant forall c :: 0 <= c < i ==> a[c] == c
    {
      a[i] := i;
      i := i + 1;
    }
  }

  class SnakeGame {
    const offset: Int2
    const dims: Int2
    const size: int
    var snake: seq<int>
    var snakeIndices: seq<int>
    var head: int
    var pos: Int2
    var availablePoints: seq<int>
    const availableIndices: array<int>
    var dir: Int2
    const apples: array<int>
    var ticks: int
    /** The slots in the order the links visit them, starting at the head. */
    ghost var order: seq<int>

    /** The board bookkeeping the fields' comments describe: every cell is
        free (and listed once in the free list), a snake cell or an apple, and
        the counts of the three add up to the board. */
    ghost predicate Valid()
      reads this, availableIndices, apples
      ensures Valid() ==> availableIndices.Length == size == dims.x * dims.y
      ensures Valid() ==> 1 <= |snake| && |availablePoints| + |snake| + NumApples == size
      ensures Valid() ==> 0 <= head < |snake|
      ensures Valid() ==> forall c :: 0 <= c < availableIndices.Length ==>
        || (0 <= availableIndices[c] < |availablePoints| && availablePoints[availableIndices[c]] == c)
        || c in snake || c in apples[..]
    {
      && dims.x > 0 && dims.y > 0 && size == dims.x * dims.y
      && availableIndices.Length == size
      && apples.Length == NumApples
      && availableIndices != apples
      && Bookkeeping(availablePoints, availableIndices[..], snake, snakeIndices, order, apples[..])
      && order[0] == head
      && (forall s :: 0 <= s < |snakeIndices| ==> 0 <= snakeIndices[s] < |snakeIndices|)
    }

    /** `SnakeGame(size, offset, seed)` (SnakeGame.cs:33-65); `draws[i]` is the
        `rnd.Next(AvailablePoints.Count)` of the i-th apple. */
    constructor (dims: Int2, offset: Int2, draws: seq<int>)
      requires dims.x > 0 && dims.y > 0 && dims.x * dims.y >= 4
      requires |draws| == NumApples
      requires forall i :: 0 <= i < NumApples ==> 0 <= draws[i] < dims.x * dims.y - 1 - i
      requires 0 <= CellIndex(dims, Div(dims, 2)) < dims.x * dims.y
      ensures Valid() && fresh(availableIndices) && fresh(apples)
      ensures this.dims == dims && this.offset == offset
      ensures pos == Div(dims, 2) && dir == Int2(1, 0) && ticks == 0
      ensures snake == [CellIndex(dims, pos)] && snakeIndices == [0] && head == 0
      ensures |availablePoints| == size - 1 - NumApples
    {
      this.dims := dims;
      this.offset := offset;
      var n := dims.x * dims.y;
      size := n;
      var ai := CountingArray(n);
      availableIndices := ai;
      availablePoints := ai[..];
      var start := Div(dims, 2);
      pos := start;
      snake := [CellIndex(dims, start)];
      head := 0;
      snakeIndices := [0];
      order := [0];
      dir := Int2(1, 0);
      apples := new int[NumApples];
      ticks := 0;
      new;
      StartPlacing(n, snake[0], apples[..]);
      // The source removes every snake cell in a loop; the snake has one cell.
      RemovePoint(snake[0], SnakeTag);
      PlaceApples(draws);
      PlacingDone(availablePoints, availableIndices[..], snake[0], apples[..]);
    }

    /** The apple loop of the constructor (SnakeGame.cs:62-64): apple `i`
        goes on free cell `draws[i]`, and the board keeps its bookkeeping. */
    method PlaceApples(draws: seq<int>)
      requires availableIndices.Length == size && apples.Length == NumApples && apples != availableIndices
      requires Placing(availablePoints, availableIndices[..], snake, apples[..], 0)
      requires |draws| == NumApples && forall i :: 0 <= i < NumApples ==> 0 <= draws[i] < size - 1 - i
      requires |snake| == 1
      modifies this`availablePoints, availableIndices, apples
      ensures Placing(availablePoints, availableIndices[..], snake, apples[..], NumApples)
    {
      var i := 0;
      while i < NumApples
        invariant 0 <= i <= NumApples
        invariant Placing(availablePoints, availableIndices[..], snake, apples[..], i)
      {
        PlaceAppleKeepsPlacing(availablePoints, availableIndices[..], snake, apples[..], i, draws[i]);
        var ok := NewApple(i, draws[i]);
        i := i + 1;
      }
    }

    /** `NewApple(index)` (SnakeGame.cs:69-74): the apple `index` moves onto the
        free cell `availablePoints[r]`. With no free cell the source throws
        before changing anything; `ok` reports that case. */
    method NewApple(index: int, r: int) returns (ok: bool)
      requires 0 <= index < apples.Length && apples != availableIndices
      requires FreeListOk(availablePoints, availableIndices[..])
      requires 0 <= r && (r < |availablePoints| || |availablePoints| == 0)
      modifies this`availablePoints, availableIndices, apples
      ensures ok <==> old(|availablePoints|) > 0
      ensures !ok ==> unchanged(this, availableIndices, apples)
      ensures ok ==> && 0 <= old(availablePoints[r]) < availableIndices.Length
                     && apples[..] == old(apples[..])[index := old(availablePoints[r])]
                     && availablePoints == SwapRemove(old(availablePoints), r)
                     && availableIndices[..] == RemovedIndices(old(availablePoints), old(availableIndices[..]),
                                                               old(availablePoints[r]), AppleTag)
    {
      if |availablePoints| == 0 {
        return false;
      }
      apples[index] := availablePoints[r];
      RemovePoint(apples[index], AppleTag);
      ok := true;
    }

    /** `RemovePoint(pos, empty)` (SnakeGame.cs:76-91): swap-with-last removal of
        the free cell `p` from the free list, tagging it `tag`. */
    method RemovePoint(p: int, tag: int)
      requires FreeListOk(availablePoints, availableIndices[..])
      requires 0 <= p < availableIndices.Length && availableIndices[p] >= 0 && tag < 0
      modifies this`availablePoints, availableIndices
      ensures |old(availablePoints)| > 0
      ensures availablePoints == SwapRemove(old(availablePoints), old(availableIndices[p]))
      ensures availableIndices[..] == RemovedIndices(old(availablePoints), old(availableIndices[..]), p, tag)
      ensures FreeListOk(availablePoints, availableIndices[..])
    {
      ghost var ap0, ai0 := availablePoints, availableIndices[..];
      RemoveKeepsInverse(ap0, ai0, p, tag);
      var index := availableIndices[p];
      var end := |availablePoints| - 1;
      availablePoints := availablePoints[index := availablePoints[end]];
      availableIndices[availablePoints[index]] := index;
      availableIndices[p] := tag;
      availablePoints := availablePoints[..end];
      assert availableIndices[..] == RemovedIndices(ap0, ai0, p, tag);
    }

    /** The cell the head moves to on the next tick. */
    function Target(): Int2
      reads this
    {
      Add(pos, dir)
    }

    /** The free-cell branch of `Tick` (SnakeGame.cs:142-149, 152): the tail
        slot takes the cell `c` and becomes the head, and the old tail cell
        takes `c`'s place in the free list. */
    method Slide(c: int)
      requires Valid()
      requires 0 <= c < availableIndices.Length && availableIndices[c] >= 0
      modifies this`snake, this`head, this`availablePoints, this`order, availableIndices
      ensures Valid()
      ensures var t := old(snakeIndices[head]);
              var tail := old(snake[snakeIndices[head]]);
              var k := old(availableIndices[c]);
              && 0 <= k < old(|availablePoints|)
              && snake == old(snake)[t := c]
              && availablePoints == old(availablePoints)[k := tail]
              && availableIndices[..] == old(availableIndices[..])[tail := k][c := SnakeTag]
              && head == t
    {
      var oldTailIndex := snakeIndices[head];
      var oldTailPos := snake[oldTailIndex];
      ghost var order0 := order;
      MoveKeepsBookkeeping(availablePoints, availableIndices[..], snake, snakeIndices, order, apples[..], c);
      snake := snake[oldTailIndex := c];
      availablePoints := availablePoints[availableIndices[c] := oldTailPos];
      availableIndices[oldTailPos] := availableIndices[c];
      availableIndices[c] := SnakeTag;
      order := order0[1..] + [order0[0]];
      head := snakeIndices[head];
    }

    /** The apple branch of `Tick` (SnakeGame.cs:115-141, 152): the apple
        `index` standing on `c` is re-placed on the free cell
        `availablePoints[r]`, and a new slot holding `c`, linked to the old
        tail, becomes the head. With no free cell the source throws inside
        `NewApple` before changing anything. */
    method Grow(c: int, index: int, r: int) returns (ok: bool)
      requires Valid()
      requires 0 <= index < NumApples && apples[index] == c
      requires 0 <= r && (r < |availablePoints| || |availablePoints| == 0)
      modifies this`snake, this`snakeIndices, this`head, this`availablePoints, this`order, availableIndices, apples
      ensures Valid()
      ensures ok <==> old(|availablePoints|) > 0
      ensures !ok ==> unchanged(this, availableIndices, apples)
      ensures ok ==> && 0 <= old(availablePoints[r]) < availableIndices.Length
                     && 0 <= old(availablePoints[|availablePoints| - 1]) < availableIndices.Length
                     && apples[..] == old(apples[..])[index := old(availablePoints[r])]
                     && availablePoints == SwapRemove(old(availablePoints), r)
                     && availableIndices[..] == RemovedIndices(old(availablePoints), old(availableIndices[..]),
                                                               old(availablePoints[r]), AppleTag)[c := SnakeTag]
                     && snake == old(snake) + [c]
                     && snakeIndices == old(snakeIndices)[old(head) := |old(snake)|] + [old(snakeIndices[head])]
                     && head == |old(snake)|
    {
      var oldTailIndex := snakeIndices[head];
      ghost var ap0, ai0, snake0, links0, order0, apples0 :=
        availablePoints, availableIndices[..], snake, snakeIndices, order, apples[..];
      ok := NewApple(index, r);
      if !ok {
        return;
      }
      EatKeepsBookkeeping(ap0, ai0, snake0, links0, order0, apples0, index, r);
      snakeIndices := snakeIndices + [oldTailIndex];
      snakeIndices := snakeIndices[head := |snake|];
      snake := snake + [c];
      availableIndices[c] := SnakeTag;
      order := [|links0|] + order0[1..] + [order0[0]];
      head := snakeIndices[head];
      assert snakeIndices == links0[order0[0] := |links0|] + [links0[order0[0]]];
    }

    /** The search for the eaten apple's slot (SnakeGame.cs:117-126): the
        first slot holding cell `c`. */
    method FindApple(c: int) returns (index: int)
      requires apples.Length == NumApples && c in apples[..]
      ensures 0 <= index < NumApples && apples[index] == c
      ensures forall j :: 0 <= j < index ==> apples[j] != c
    {
      index := -1;
      var i := 0;
      while i < NumApples
        invariant 0 <= i <= NumApples
        invariant forall j :: 0 <= j < i ==> apples[j] != c
      {
        if apples[i] == c {
          return i;
        }
        i := i + 1;
      }
    }

    /** The part of `Tick` after the border check (SnakeGame.cs:104-157): the
        head enters on-board cell `c`. */
    method Enter(c: int, r: int) returns (result: TickResult)
      requires Valid() && 0 <= c < size
      requires 0 <= r && (r < |availablePoints| || |availablePoints| == 0)
      modifies this`snake, this`snakeIndices, this`head, this`availablePoints, this`ticks, this`order
      modifies availableIndices, apples
      ensures Valid()
      // self collision: nothing changes
      ensures old(availableIndices[c]) == SnakeTag ==>
                && result == Score(DEATH_SCORE)
                && snake == old(snake) && snakeIndices == old(snakeIndices) && head == old(head)
                && availablePoints == old(availablePoints) && availableIndices[..] == old(availableIndices[..])
                && apples[..] == old(apples[..]) && ticks == old(ticks)
      // apple, but no free cell to re-place it on: the source throws
      ensures old(availableIndices[c]) == AppleTag && old(|availablePoints|) == 0 ==>
                && result == Exhausted
                && snake == old(snake) && snakeIndices == old(snakeIndices) && head == old(head)
                && availablePoints == old(availablePoints) && availableIndices[..] == old(availableIndices[..])
                && apples[..] == old(apples[..]) && ticks == old(ticks)
      // apple: grow by one slot and re-place the eaten apple on free cell r
      ensures old(availableIndices[c]) == AppleTag && old(|availablePoints|) > 0 ==>
                var placed := old(availablePoints[r]);
                && (forall j :: 0 <= j < NumApples ==>
                      apples[j] == if old(apples[j]) == c then placed else old(apples[j]))
                && availablePoints == SwapRemove(old(availablePoints), r)
                && snake == old(snake) + [c]
                && snakeIndices == old(snakeIndices)[old(head) := |old(snake)|] + [old(snakeIndices[head])]
                && head == |old(snake)|
                && result == Score(if availablePoints == [] then WIN_SCORE else APPLE_SCORE)
                && ticks == old(ticks) + 1
      // free cell: the tail slot takes the new head cell
      ensures old(availableIndices[c]) >= 0 ==>
                var k := old(availableIndices[c]);
                var t := old(snakeIndices[head]);
                var tail := old(snake[snakeIndices[head]]);
                && 0 <= k < old(|availablePoints|)
                && snake == old(snake)[t := c]
                && availablePoints == old(availablePoints)[k := tail]
                && availableIndices[..] == old(availableIndices[..])[tail := k][c := SnakeTag]
                && head == t && snakeIndices == old(snakeIndices)
                && apples[..] == old(apples[..])
                && result == Score(MOVE_SCORE)
                && ticks == old(ticks) + 1
    {
      var score := MOVE_SCORE;
      var tile := availableIndices[c];
      if tile == SnakeTag {
        return Score(DEATH_SCORE);
      }

      if tile == AppleTag {
        assert c in apples[..];
        var index := FindApple(c);
        ghost var apples0 := apples[..];
        var ok := Grow(c, index, r);
        if !ok {
          return Exhausted;
        }
        score := APPLE_SCORE;
        forall j | 0 <= j < NumApples
          ensures apples[j] == if apples0[j] == c then old(availablePoints[r]) else apples0[j]
        {
        }
      } else {
        Slide(c);
      }

      if |availablePoints| == 0 {
        score := WIN_SCORE;
      }

      ticks := ticks + 1;
      return Score(score);
    }

    /** `Tick()` (SnakeGame.cs:93-161). `r` is the `rnd.Next(Count)` draw used
        if an apple is eaten. */
    method Tick(r: int) returns (result: TickResult)
      requires Valid()
      requires 0 <= r && (r < |availablePoints| || |availablePoints| == 0)
      modifies this`pos, this`snake, this`snakeIndices, this`head, this`availablePoints, this`ticks, this`order
      modifies availableIndices, apples
      ensures Valid()
      ensures pos == old(Target())
      // border or self collision: only the head position moved
      ensures (!InBoard(dims, pos) || old(availableIndices[..])[CellIndex(dims, pos)] == SnakeTag) ==>
                && result == Score(DEATH_SCORE)
                && snake == old(snake) && snakeIndices == old(snakeIndices) && head == old(head)
                && availablePoints == old(availablePoints) && availableIndices[..] == old(availableIndices[..])
                && apples[..] == old(apples[..]) && ticks == old(ticks)
      // apple, but no free cell to re-place it on: the source throws
      ensures InBoard(dims, pos) && old(availableIndices[..])[CellIndex(dims, pos)] == AppleTag
              && old(|availablePoints|) == 0 ==>
                && result == Exhausted
                && snake == old(snake) && snakeIndices == old(snakeIndices) && head == old(head)
                && availablePoints == old(availablePoints) && availableIndices[..] == old(availableIndices[..])
                && apples[..] == old(apples[..]) && ticks == old(ticks)
      // apple: grow by one slot and re-place the eaten apple on free cell r
      ensures InBoard(dims, pos) && old(availableIndices[..])[CellIndex(dims, pos)] == AppleTag
              && old(|availablePoints|) > 0 ==>
                var c := CellIndex(dims, pos);
                var placed := old(availablePoints[r]);
                && (forall j :: 0 <= j < NumApples ==>
                      apples[j] == if old(apples[j]) == c then placed else old(apples[j]))
                && availablePoints == SwapRemove(old(availablePoints), r)
                && snake == old(snake) + [c]
                && snakeIndices == old(snakeIndices)[old(head) := |old(snake)|] + [old(snakeIndices[head])]
                && head == |old(snake)|
                && result == Score(if availablePoints == [] then WIN_SCORE else APPLE_SCORE)
                && ticks == old(ticks) + 1
      // free cell: the tail slot takes the new head cell
      ensures InBoard(dims, pos) && old(availableIndices[..])[CellIndex(dims, pos)] >= 0 ==>
                var c := CellIndex(dims, pos);
                var k := old(availableIndices[..])[c];
                var t := old(snakeIndices[head]);
                var tail := old(snake[snakeIndices[head]]);
                && 0 <= k < old(|availablePoints|)
                && snake == old(snake)[t := c]
                && availablePoints == old(availablePoints)[k := tail]
                && availableIndices[..] == old(availableIndices[..])[tail := k][c := SnakeTag]
                && head == t && snakeIndices == old(snakeIndices)
                && apples[..] == old(apples[..])
                && result == Score(MOVE_SCORE)
                && ticks == old(ticks) + 1
    {
      pos := Add(pos, dir);

      if pos.x >= dims.x || pos.x < 0 || pos.y >= dims.y || pos.y < 0 {
        return Score(DEATH_SCORE);
      }

      var newHeadPos := CellIndex(dims, pos);
      result := Enter(newHeadPos, r);
    }

    /** `RayCast(rayDir)` (SnakeGame.cs:165-181): walks from the head along
        `rayDir` and returns the number of free cells passed and what stopped
        the ray: the border (1), the snake (0) or an apple (-1). */
    method RayCast(rayDir: Int2) returns (hit: Int2)
      requires Valid()
      requires rayDir != Zero
      ensures hit.x >= 0 && (hit.y == 1 || hit.y == 0 || hit.y == -1)
      ensures forall k :: 1 <= k <= hit.x ==> Clear(Ray(pos, rayDir, k))
      ensures !Clear(Ray(pos, rayDir, hit.x + 1))
      ensures var stop := Ray(pos, rayDir, hit.x + 1);
              && (hit.y == 1 <==> !InBoard(dims, stop))
              && (hit.y == 0 <==> InBoard(dims, stop) && Tag(stop) == SnakeTag)
              && (hit.y == -1 <==> InBoard(dims, stop) && Tag(stop) == AppleTag)
    {
      assert TagsOk(availableIndices[..]);
      var currentPos := Add(pos, rayDir);
      var count := 0;
      while true
        invariant count >= 0 && currentPos == Ray(pos, rayDir, count + 1)
        invariant forall k :: 1 <= k <= count ==> Clear(Ray(pos, rayDir, k))
        decreases DistanceToBorder(dims, currentPos, rayDir)
      {
        if currentPos.x >= dims.x || currentPos.x < 0 || currentPos.y >= dims.y || currentPos.y < 0 {
          return Int2(count, 1);
        }
        var tile := availableIndices[CellIndex(dims, currentPos)];
        if tile < 0 {
          return Int2(count, tile + 1);
        }
        currentPos := Add(currentPos, rayDir);
        count := count + 1;
      }
    }

    /** The tag of an on-board cell. */
    ghost function Tag(p: Int2): int
      reads this, availableIndices
      requires InBoard(dims, p) && availableIndices.Length == dims.x * dims.y
    {
      availableIndices[CellIndex(dims, p)]
    }

    /** An on-board cell that is free. */
    ghost predicate Clear(p: Int2)
      reads this, availableIndices
    {
      InBoard(dims, p) && availableIndices.Length == dims.x * dims.y && Tag(p) >= 0
    }

    /** `GetBoard()` (SnakeGame.cs:183-197): free 0, snake 1, apple -1. */
    method GetBoard() returns (board: array<int>)
      requires Valid()
      ensures fresh(board) && board.Length == size
      ensures forall c :: 0 <= c < size ==> board[c] == BoardValue(availableIndices[c])
    {
      board := new int[size];
      var i := 0;
      while i < size
        invariant 0 <= i <= size
        invariant forall c :: 0 <= c < i ==> board[c] == BoardValue(availableIndices[c])
      {
        var tile := availableIndices[i];
        assert TagsOk(availableIndices[..]);
        if tile < 0 {
          board[i] := 2 * tile + 3;
        } else {
          board[i] := 0;
        }
        i := i + 1;
      }
    }
  }

  /** The k-th cell along a ray from `p`. */
  function Ray(p: Int2, d: Int2, k: nat): Int2 {
    if k == 0 then p else Add(Ray(p, d, k - 1), d)
  }

  /** How many more steps along `d` stay on the board (for a non-zero `d`). */
  function DistanceToBorder(dims: Int2, p: Int2, d: Int2): int {
    if d.x > 0 then dims.x - p.x
    else if d.x < 0 then p.x + 1
    else if d.y > 0 then dims.y - p.y
    else p.y + 1
  }
}
