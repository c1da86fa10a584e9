/**
 * The occupancy bookkeeping of SnakeAI/SnakeGame.cs, stated over plain
 * sequences so that every step of `Tick` can be argued once, as a lemma.
 *
 *  - `ap` is `AvailablePoints`: a compacted list of the free cells.
 *  - `ai` is `AvailableIndices`: for a free cell its position in `ap`,
 *    otherwise the tag -1 (snake) or -2 (apple).
 *  - `snake`/`links` are `Snake`/`SnakeIndices`: slot s holds a body cell and
 *    `links[s]` names the next slot of the circular chain.
 *  - `order` (ghost) lists the slots in the order the links visit them,
 *    starting at the head slot.
 */
module Arena {

  const NumApples := 3
  const SnakeTag := -1
  const AppleTag := -2
  const DEATH_SCORE := -10
  const APPLE_SCORE := 20
  /** The score of an ordinary step (`score = -1`, SnakeGame.cs:96). */
  const MOVE_SCORE := -1
  /** The score of the tick that fills the board (SnakeGame.cs:156). */
  const WIN_SCORE := 10000

  // ---- free-cell allocator ------------------------------------------------

  /** `ap` and `ai` invert each other on the free cells. */
  ghost predicate FreeListOk(ap: seq<int>, ai: seq<int>) {
    && (forall k :: 0 <= k < |ap| ==> 0 <= ap[k] < |ai| && ai[ap[k]] == k)
    && (forall c :: 0 <= c < |ai| && ai[c] >= 0 ==> ai[c] < |ap| && ap[ai[c]] == c)
  }

  /** Swap-with-last removal of position `i` (SnakeGame.cs:83, 90). */
  function SwapRemove(s: seq<int>, i: nat): (r: seq<int>)
    requires i < |s|
    ensures |r| == |s| - 1
    ensures forall k :: 0 <= k < |r| && k != i ==> r[k] == s[k]
    ensures i < |r| ==> r[i] == s[|s| - 1]
  {
    s[i := s[|s| - 1]][..|s| - 1]
  }

  /** Removing a position takes exactly that element out of the multiset. */
  lemma {:induction false} SwapRemoveRemovesOne(s: seq<int>, i: nat)
    requires i < |s|
    ensures multiset(SwapRemove(s, i)) == multiset(s) - multiset{s[i]}
  {
    var n := |s|;
    var x, last := s[i], s[n - 1];
    var r := SwapRemove(s, i);
    if i == n - 1 {
      assert s == r + [x];
    } else {
      var t := s[i := last];
      assert t == r + [last];
      assert s == t[i := x];
      assert multiset(s) == multiset(t) - multiset{last} + multiset{x};
      assert multiset(s) == multiset(r) + multiset{x};
    }
  }

  /** The tags after `RemovePoint(pos, tag)` (SnakeGame.cs:79-87). */
  function RemovedIndices(ap: seq<int>, ai: seq<int>, pos: int, tag: int): seq<int>
    requires |ap| > 0 && 0 <= pos < |ai| && 0 <= ap[|ap| - 1] < |ai|
  {
    ai[ap[|ap| - 1] := ai[pos]][pos := tag]
  }

  /** `RemovePoint` keeps the two lists inverse to each other, frees nothing,
      and occupies exactly `pos`, whatever its place in the list (last included). */
  lemma {:induction false} RemoveKeepsInverse(ap: seq<int>, ai: seq<int>, pos: int, tag: int)
    requires FreeListOk(ap, ai)
    requires 0 <= pos < |ai| && ai[pos] >= 0 && tag < 0
    ensures |ap| > 0
    ensures var ai' := RemovedIndices(ap, ai, pos, tag);
            && |ai'| == |ai|
            && FreeListOk(SwapRemove(ap, ai[pos]), ai')
            && ai'[pos] == tag
            && (forall c :: 0 <= c < |ai| && c != pos ==> (ai'[c] >= 0 <==> ai[c] >= 0))
            && (forall c :: 0 <= c < |ai| && ai[c] < 0 ==> ai'[c] == ai[c])
  {
    var k := ai[pos];
    var n := |ap|;
    var last := ap[n - 1];
    var ap' := SwapRemove(ap, k);
    var ai' := RemovedIndices(ap, ai, pos, tag);
    forall j | 0 <= j < |ap'|
      ensures 0 <= ap'[j] < |ai'| && ai'[ap'[j]] == j
    {
      if j == k {
        assert ap'[j] == last && last != pos;
      } else {
        assert ap'[j] == ap[j] && ap[j] != pos && ap[j] != last;
      }
    }
    forall c | 0 <= c < |ai'| && ai'[c] >= 0
      ensures ai'[c] < |ap'| && ap'[ai'[c]] == c
    {
      if c == last {
        assert ai'[c] == k && k < n - 1;
      } else {
        assert ai'[c] == ai[c] && ai[c] != n - 1;
      }
    }
  }

  // ---- snake body and apples --------------------------------------------

  /** `cells` lists distinct cells, each tagged `tag`, and every cell tagged
      `tag` is listed. */
  ghost predicate Marks(cells: seq<int>, ai: seq<int>, tag: int) {
    && (forall s :: 0 <= s < |cells| ==> 0 <= cells[s] < |ai| && ai[cells[s]] == tag)
    && (forall s, t :: 0 <= s < t < |cells| ==> cells[s] != cells[t])
    && (forall c :: 0 <= c < |ai| && ai[c] == tag ==> c in cells)
  }

  /** Every snake slot holds a distinct cell tagged -1, and every -1 cell is in the snake. */
  ghost predicate SnakeOk(snake: seq<int>, ai: seq<int>) {
    Marks(snake, ai, SnakeTag)
  }

  /** The apples sit on distinct cells tagged -2, and every -2 cell is an apple. */
  ghost predicate ApplesOk(apples: seq<int>, ai: seq<int>) {
    |apples| == NumApples && Marks(apples, ai, AppleTag)
  }

  /** `ai'` tags with `tag` the cells `ai` tags with it, except `gone`, and
      also `added` (-1 names no cell). */
  ghost predicate Retagged(ai: seq<int>, ai': seq<int>, tag: int, gone: int, added: int) {
    && |ai'| == |ai|
    && forall d :: 0 <= d < |ai| ==> (ai'[d] == tag <==> (ai[d] == tag && d != gone) || d == added)
  }

  /** Replacing the marked cell `cells[i]` by the unmarked cell `x`. */
  lemma ReplaceKeepsMarks(cells: seq<int>, ai: seq<int>, ai': seq<int>, tag: int, i: int, x: int)
    requires Marks(cells, ai, tag) && 0 <= i < |cells| && 0 <= x < |ai| && ai[x] != tag
    requires Retagged(ai, ai', tag, cells[i], x)
    ensures Marks(cells[i := x], ai', tag)
  {
    var cells' := cells[i := x];
    forall s | 0 <= s < |cells'|
      ensures 0 <= cells'[s] < |ai'| && ai'[cells'[s]] == tag
    {
      if s != i {
        assert cells[s] != cells[i] by {
          if s < i { assert cells[s] != cells[i]; } else { assert cells[i] != cells[s]; }
        }
      }
    }
    forall d | 0 <= d < |ai'| && ai'[d] == tag
      ensures d in cells'
    {
      if d == x {
        assert cells'[i] == d;
      } else {
        assert ai[d] == tag && d != cells[i];
        var s :| 0 <= s < |cells| && cells[s] == d;
        assert s != i && cells'[s] == d;
      }
    }
  }

  /** Adding the unmarked cell `x` at the end. */
  lemma AppendKeepsMarks(cells: seq<int>, ai: seq<int>, ai': seq<int>, tag: int, x: int)
    requires Marks(cells, ai, tag) && 0 <= x < |ai| && ai[x] != tag
    requires Retagged(ai, ai', tag, -1, x)
    ensures Marks(cells + [x], ai', tag)
  {
    var cells' := cells + [x];
    forall s | 0 <= s < |cells'|
      ensures 0 <= cells'[s] < |ai'| && ai'[cells'[s]] == tag
    {
    }
    forall d | 0 <= d < |ai'| && ai'[d] == tag
      ensures d in cells'
    {
      if d == x {
        assert cells'[|cells|] == d;
      } else {
        var s :| 0 <= s < |cells| && cells[s] == d;
        assert cells'[s] == d;
      }
    }
  }

  /** Retagging other cells leaves the marked cells marked. */
  lemma SameTagsKeepMarks(cells: seq<int>, ai: seq<int>, ai': seq<int>, tag: int)
    requires Marks(cells, ai, tag) && Retagged(ai, ai', tag, -1, -1)
    ensures Marks(cells, ai', tag)
  {
  }

  ghost predicate TagsOk(ai: seq<int>) {
    forall c :: 0 <= c < |ai| ==> ai[c] >= AppleTag
  }

  /** `order` lists every slot exactly once, and each slot links to the next
      one in `order`, the last back to the first. */
  ghost predicate IsCycle(links: seq<int>, order: seq<int>) {
    && |order| == |links| > 0
    && (forall k :: 0 <= k < |order| ==> 0 <= order[k] < |links|)
    && (forall k, l :: 0 <= k < l < |order| ==> order[k] != order[l])
    && (forall s :: 0 <= s < |links| ==> s in order)
    && (forall k :: 0 <= k < |order| - 1 ==> links[order[k]] == order[k + 1])
    && links[order[|order| - 1]] == order[0]
  }

  /** Every cell is exactly one of free, snake or apple; the counts add up. */
  ghost predicate Bookkeeping(ap: seq<int>, ai: seq<int>, snake: seq<int>, links: seq<int>,
                              order: seq<int>, apples: seq<int>) {
    && FreeListOk(ap, ai)
    && TagsOk(ai)
    && SnakeOk(snake, ai)
    && ApplesOk(apples, ai)
    && |snake| == |links|
    && IsCycle(links, order)
    && |ap| + |snake| + NumApples == |ai|
  }

  // ---- following the links ----------------------------------------------

  /** The slot reached from `s` after `k` link steps. */
  function Follow(links: seq<int>, s: int, k: nat): (r: int)
    requires 0 <= s < |links|
    requires forall t :: 0 <= t < |links| ==> 0 <= links[t] < |links|
    ensures 0 <= r < |links|
  {
    if k == 0 then s else links[Follow(links, s, k - 1)]
  }

  /** The first `n` slots reached from `s`. */
  function Walk(links: seq<int>, s: int, n: nat): (w: seq<int>)
    requires 0 <= s < |links|
    requires forall t :: 0 <= t < |links| ==> 0 <= links[t] < |links|
    ensures |w| == n
    ensures forall k :: 0 <= k < n ==> w[k] == Follow(links, s, k)
  {
    if n == 0 then [] else Walk(links, s, n - 1) + [Follow(links, s, n - 1)]
  }

  /** Following the links from the head slot walks through `order` and is back
      at the head after |order| steps. */
  lemma {:induction false} FollowWalksOrder(links: seq<int>, order: seq<int>, k: nat)
    requires IsCycle(links, order)
    requires k <= |order|
    ensures forall t :: 0 <= t < |links| ==> 0 <= links[t] < |links|
    ensures Follow(links, order[0], k) == if k < |order| then order[k] else order[0]
  {
    forall t | 0 <= t < |links|
      ensures 0 <= links[t] < |links|
    {
      assert t in order;
      var j :| 0 <= j < |order| && order[j] == t;
      if j < |order| - 1 {
        assert links[order[j]] == order[j + 1];
      }
    }
    if k > 0 {
      FollowWalksOrder(links, order, k - 1);
    }
  }

  /** The chain invariant as the source relies on it: from the head, the links
      visit every slot exactly once and return to the head. */
  lemma {:induction false} ChainVisitsEverySlotOnce(links: seq<int>, order: seq<int>)
    requires IsCycle(links, order)
    ensures forall t :: 0 <= t < |links| ==> 0 <= links[t] < |links|
    ensures Follow(links, order[0], |links|) == order[0]
    ensures var w := Walk(links, order[0], |links|);
            && (forall k, l :: 0 <= k < l < |w| ==> w[k] != w[l])
            && (forall s :: 0 <= s < |links| ==> s in w)
  {
    FollowWalksOrder(links, order, |links|);
    forall k | 0 <= k < |links|
      ensures Follow(links, order[0], k) == order[k]
    {
      FollowWalksOrder(links, order, k);
    }
    var w := Walk(links, order[0], |links|);
    assert w == order;
  }

  /** A step without growth: the slot after the head becomes the head. */
  lemma {:induction false} RotateKeepsCycle(links: seq<int>, order: seq<int>)
    requires IsCycle(links, order)
    ensures IsCycle(links, order[1..] + [order[0]])
    ensures links[order[0]] == (order[1..] + [order[0]])[0]
  {
    var n := |order|;
    var o := order[1..] + [order[0]];
    forall s | 0 <= s < |links|
      ensures s in o
    {
      assert s in order;
        var k :| 0 <= k < n && order[k] == s;
      if k == 0 { assert o[n - 1] == s; } else { assert o[k - 1] == s; }
    }
    forall k | 0 <= k < n - 1
      ensures links[o[k]] == o[k + 1]
    {
      assert o[k] == order[k + 1];
      if k + 1 < n - 1 {
        assert o[k + 1] == order[k + 2];
      } else {
        assert o[k + 1] == order[0];
      }
    }
    if n == 1 {
      assert links[order[0]] == order[0];
    } else {
      assert links[order[0]] == order[1];
    }
  }

  /** Growth (SnakeGame.cs:132-134, 152): a new slot n after the old head,
      linked to the old tail, becomes the head. */
  lemma {:induction false} GrowKeepsCycle(links: seq<int>, order: seq<int>)
    requires IsCycle(links, order)
    ensures var n := |links|;
            var links' := links[order[0] := n] + [links[order[0]]];
            && IsCycle(links', [n] + order[1..] + [order[0]])
            && links'[order[0]] == n
  {
    var n := |links|;
    var links' := links[order[0] := n] + [links[order[0]]];
    var o := [n] + order[1..] + [order[0]];
    GrownOrderListsSlots(links, order);
    forall k | 0 <= k < |o| - 1
      ensures links'[o[k]] == o[k + 1]
    {
      if k == 0 {
        assert links'[n] == links[order[0]];
        if n == 1 {
          assert links[order[0]] == order[0] == o[1];
        } else {
          assert links[order[0]] == order[1] == o[1];
        }
      } else {
        assert o[k] == order[k] && order[k] != order[0];
        if k < n - 1 {
          assert o[k + 1] == order[k + 1];
        } else {
          assert o[k + 1] == order[0];
        }
      }
    }
    assert o[|o| - 1] == order[0];
  }

  /** The grown order lists the slots 0 .. n exactly once. */
  lemma GrownOrderListsSlots(links: seq<int>, order: seq<int>)
    requires IsCycle(links, order)
    ensures var n := |links|;
            var o := [n] + order[1..] + [order[0]];
            && |o| == n + 1
            && (forall k :: 0 <= k < |o| ==> 0 <= o[k] < n + 1)
            && (forall k, l :: 0 <= k < l < |o| ==> o[k] != o[l])
            && (forall s :: 0 <= s < n + 1 ==> s in o)
  {
    var n := |links|;
    var o := [n] + order[1..] + [order[0]];
    assert |o| == n + 1;
    forall k | 0 <= k < |o|
      ensures 0 <= o[k] < n + 1
    {
    }
    forall k, l | 0 <= k < l < |o|
      ensures o[k] != o[l]
    {
      if k > 0 && l < n {
        assert o[k] == order[k] && o[l] == order[l];
      } else if k > 0 {
        assert o[k] == order[k] && o[l] == order[0];
      }
    }
    forall s | 0 <= s < n + 1
      ensures s in o
    {
      if s < n {
        assert s in order;
        var k :| 0 <= k < n && order[k] == s;
        if k == 0 { assert o[n] == s; } else { assert o[k] == s; }
      } else {
        assert o[0] == s;
      }
    }
  }

  // ---- the two kinds of step --------------------------------------------

  /** A step onto the free cell `c` (SnakeGame.cs:145-148, 152): the tail slot
      takes the new head cell, the old tail cell takes the vacated place in
      the free list, and the bookkeeping stays consistent with the counts
      unchanged. */
  lemma {:induction false} MoveKeepsBookkeeping(ap: seq<int>, ai: seq<int>, snake: seq<int>, links: seq<int>,
                                               order: seq<int>, apples: seq<int>, c: int)
    requires Bookkeeping(ap, ai, snake, links, order, apples)
    requires 0 <= c < |ai| && ai[c] >= 0
    ensures 0 <= order[0] < |links| && 0 <= links[order[0]] < |snake|
    ensures var t := links[order[0]];
            var tail := snake[t];
            && 0 <= tail < |ai| && ai[tail] == SnakeTag && ai[c] < |ap|
            && Bookkeeping(ap[ai[c] := tail], ai[tail := ai[c]][c := SnakeTag], snake[t := c],
                           links, order[1..] + [order[0]], apples)
            && links[order[0]] == (order[1..] + [order[0]])[0]
  {
    RotateKeepsCycle(links, order);
    ChainVisitsEverySlotOnce(links, order);
    var t := links[order[0]];
    var tail := snake[t];
    var k := ai[c];
    var ai' := ai[tail := k][c := SnakeTag];
    assert tail != c;
    MoveKeepsFreeList(ap, ai, c, tail);
    assert Retagged(ai, ai', SnakeTag, tail, c);
    ReplaceKeepsMarks(snake, ai, ai', SnakeTag, t, c);
    assert Retagged(ai, ai', AppleTag, -1, -1);
    SameTagsKeepMarks(apples, ai, ai', AppleTag);
  }

  /** The free list after a step onto the free cell `c` whose old tail cell
      is `tail`. */
  lemma MoveKeepsFreeList(ap: seq<int>, ai: seq<int>, c: int, tail: int)
    requires FreeListOk(ap, ai) && TagsOk(ai)
    requires 0 <= c < |ai| && ai[c] >= 0 && 0 <= tail < |ai| && ai[tail] == SnakeTag
    ensures ai[c] < |ap|
    ensures var ai' := ai[tail := ai[c]][c := SnakeTag];
            FreeListOk(ap[ai[c] := tail], ai') && TagsOk(ai')
  {
    var k := ai[c];
    var ap' := ap[k := tail];
    var ai' := ai[tail := k][c := SnakeTag];
    forall j | 0 <= j < |ap'|
      ensures 0 <= ap'[j] < |ai'| && ai'[ap'[j]] == j
    {
      if j != k {
        assert ap[j] != c && ap[j] != tail;
      }
    }
    forall d | 0 <= d < |ai'| && ai'[d] >= 0
      ensures ai'[d] < |ap'| && ap'[ai'[d]] == d
    {
      if d != tail {
        assert ai'[d] == ai[d] && ai[d] != k;
      }
    }
  }

  /** A step onto the apple `c` = `apples[i]` (SnakeGame.cs:115-141, 152):
      the apple is re-placed on the free cell `ap[r]`, the chain grows by one
      slot holding `c`, and the bookkeeping stays consistent with one free
      cell fewer. */
  lemma {:induction false} EatKeepsBookkeeping(ap: seq<int>, ai: seq<int>, snake: seq<int>, links: seq<int>,
                                              order: seq<int>, apples: seq<int>, i: int, r: int)
    requires Bookkeeping(ap, ai, snake, links, order, apples)
    requires 0 <= i < NumApples && 0 <= r < |ap|
    ensures 0 <= ap[r] < |ai| && 0 <= ap[|ap| - 1] < |ai| && 0 <= apples[i] < |ai| && ai[ap[r]] == r
    ensures var c := apples[i];
            var n := |links|;
            && Bookkeeping(SwapRemove(ap, r),
                           RemovedIndices(ap, ai, ap[r], AppleTag)[c := SnakeTag],
                           snake + [c],
                           links[order[0] := n] + [links[order[0]]],
                           [n] + order[1..] + [order[0]],
                           apples[i := ap[r]])
  {
    var c := apples[i];
    var a := ap[r];
    RemoveKeepsInverse(ap, ai, a, AppleTag);
    GrowKeepsCycle(links, order);
    var ap' := SwapRemove(ap, r);
    var ai1 := RemovedIndices(ap, ai, a, AppleTag);
    var ai' := ai1[c := SnakeTag];
    assert a != c;
    RetagKeepsFreeList(ap', ai1, c, SnakeTag);
    assert TagsOk(ai');
    assert Retagged(ai, ai', SnakeTag, -1, c);
    AppendKeepsMarks(snake, ai, ai', SnakeTag, c);
    assert Retagged(ai, ai', AppleTag, c, a);
    ReplaceKeepsMarks(apples, ai, ai', AppleTag, i, a);
  }

  /** Tagging a cell that is not free keeps the free list. */
  lemma RetagKeepsFreeList(ap: seq<int>, ai: seq<int>, c: int, tag: int)
    requires FreeListOk(ap, ai) && 0 <= c < |ai| && ai[c] < 0 && tag < 0
    ensures FreeListOk(ap, ai[c := tag])
  {
    forall j | 0 <= j < |ap|
      ensures ai[c := tag][ap[j]] == j
    {
      assert ap[j] != c;
    }
  }

  // ---- the initial board -------------------------------------------------

  /** The identity list 0, 1, ..., n-1 that the constructor fills both lists with. */
  function Identity(n: nat): (s: seq<int>)
    ensures |s| == n && forall k :: 0 <= k < n ==> s[k] == k
  {
    seq(n, k => k)
  }

  /** The constructor's state after the snake and the first `i` apples have been
      placed (SnakeGame.cs:59-64). */
  ghost predicate Placing(ap: seq<int>, ai: seq<int>, snake: seq<int>, apples: seq<int>, i: int) {
    && 0 <= i <= NumApples && |apples| == NumApples
    && FreeListOk(ap, ai)
    && TagsOk(ai)
    && SnakeOk(snake, ai)
    && Marks(apples[..i], ai, AppleTag)
    && |ap| + |snake| + i == |ai|
  }

  /** Every cell free, then the start cell taken by the snake. */
  lemma {:induction false} StartPlacing(n: nat, c: int, apples: seq<int>)
    requires 0 <= c < n && |apples| == NumApples
    ensures FreeListOk(Identity(n), Identity(n))
    ensures Placing(SwapRemove(Identity(n), c), RemovedIndices(Identity(n), Identity(n), c, SnakeTag), [c], apples, 0)
  {
    var id := Identity(n);
    assert FreeListOk(id, id);
    RemoveKeepsInverse(id, id, c, SnakeTag);
    var ai := RemovedIndices(id, id, c, SnakeTag);
    forall d | 0 <= d < |ai| && ai[d] == SnakeTag
      ensures d in [c]
    {
    }
  }

  /** Placing apple `i` on the free cell `ap[r]` (SnakeGame.cs:69-74). */
  lemma {:induction false} PlaceAppleKeepsPlacing(ap: seq<int>, ai: seq<int>, snake: seq<int>, apples: seq<int>,
                                                 i: int, r: int)
    requires Placing(ap, ai, snake, apples, i) && i < NumApples
    requires 0 <= r < |ap|
    ensures 0 <= ap[r] < |ai| && 0 <= ap[|ap| - 1] < |ai|
    ensures Placing(SwapRemove(ap, r), RemovedIndices(ap, ai, ap[r], AppleTag), snake, apples[i := ap[r]], i + 1)
  {
    var a := ap[r];
    RemoveKeepsInverse(ap, ai, a, AppleTag);
    var ai' := RemovedIndices(ap, ai, a, AppleTag);
    assert TagsOk(ai');
    assert Retagged(ai, ai', SnakeTag, -1, -1);
    SameTagsKeepMarks(snake, ai, ai', SnakeTag);
    assert Retagged(ai, ai', AppleTag, -1, a);
    AppendKeepsMarks(apples[..i], ai, ai', AppleTag, a);
    assert apples[i := a][..i + 1] == apples[..i] + [a];
  }

  /** With every apple placed, the one-cell snake and its self-linked slot
      complete the bookkeeping. */
  lemma {:induction false} PlacingDone(ap: seq<int>, ai: seq<int>, c: int, apples: seq<int>)
    requires Placing(ap, ai, [c], apples, NumApples)
    ensures Bookkeeping(ap, ai, [c], [0], [0], apples)
  {
    assert apples[..NumApples] == apples;
  }
}
