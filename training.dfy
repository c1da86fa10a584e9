/**
 * The sequential parts of the training driver in SnakeAI/Program.cs:
 * keyboard steering, elite selection, breeding the next generation, the
 * statistics pass, and the fitness and apple accounting of one evaluation
 * batch (`RunNets`). Console output, threads and the multi-snake game that
 * `RunNets` drives are outside the model: the game's per-tick results come
 * in as parameters.
 */
module Training {
  import opened Structs
  import Arena
  import opened Networks
  import Snakes

  const CAPACITY := 500
  const NUM_ROUNDS := 5
  const BOARD_WIDTH := 8
  const NUM_COMP := 4
  const CIRCLE_PENALTY := Arena.MOVE_SCORE * 4
  /** The tick budget of one round (Program.cs:709). */
  const MAX_TICKS := BOARD_WIDTH * BOARD_WIDTH * 2
  /** The layer sizes every bot is built with (Program.cs:31-34). */
  const LAYERS: seq<int> := [(2 * BOARD_WIDTH + 1) * (2 * BOARD_WIDTH + 1), 3]

  /** The mutation (or initial) draws of one network, layer by layer. */
  type NetDraws = seq<seq<seq<real>>>

  // ---- evaluation batches ------------------------------------------------

  /** Bot `j` of batch `i` when batches hold `n` bots. */
  function Slot(i: int, j: int, n: int): int {
    i * n + j
  }

  function BatchOf(b: int, n: int): int
    requires n > 0
  {
    b / n
  }

  function LaneOf(b: int, n: int): int
    requires n > 0
  {
    b % n
  }

  /** The training loop runs `RunNets(i * NumNets, NumNets, ...)` for
      `i < Bots.Length / NumNets` with `NumNets` either 1 or `NUM_COMP`.
      Because `CAPACITY` is a multiple of `NUM_COMP`, every slot of a batch is
      a bot, every bot is in a batch, and no bot is in two. */
  lemma {:induction false} BatchesCoverBots(n: int)
    requires n == 1 || n == NUM_COMP
    ensures CAPACITY % n == 0
    ensures forall i, j :: 0 <= i < CAPACITY / n && 0 <= j < n ==> 0 <= Slot(i, j, n) < CAPACITY
    ensures forall b :: 0 <= b < CAPACITY ==>
              && 0 <= BatchOf(b, n) < CAPACITY / n && 0 <= LaneOf(b, n) < n
              && Slot(BatchOf(b, n), LaneOf(b, n), n) == b
    ensures forall i, j, i', j' ::
              0 <= j < n && 0 <= j' < n && Slot(i, j, n) == Slot(i', j', n) ==> i == i' && j == j'
  {
    forall i, j | 0 <= i < CAPACITY / n && 0 <= j < n
      ensures 0 <= Slot(i, j, n) < CAPACITY
    {
      assert i * n <= (CAPACITY / n - 1) * n;
    }
  }

  // ---- steering by keyboard ----------------------------------------------

  /** The keys `DoUserMove` tells apart. */
  datatype Key = W | A | S | D | Escape | Other

  /** The unit step a key asks for; `Zero` for a key that steers nowhere
      (+y is up, +x is right). */
  function KeyDir(k: Key): (d: Int2)
    ensures d != Zero <==> k.W? || k.A? || k.S? || k.D?
    ensures d != Zero ==> (d.x == 0 && (d.y == 1 || d.y == -1)) || (d.y == 0 && (d.x == 1 || d.x == -1))
  {
    match k
    case W => Int2(0, 1)
    case A => Int2(-1, 0)
    case S => Int2(0, -1)
    case D => Int2(1, 0)
    case _ => Zero
  }

  /** The heading after a steering key (Program.cs:469-480): the key's step,
      unless the key steers nowhere or the step added to the heading is zero. */
  function Steer(k: Key, dir: Int2): (d: Int2)
    ensures KeyDir(k) != Zero && KeyDir(k) != Neg(dir) ==> d == KeyDir(k)
    ensures KeyDir(k) == Zero || KeyDir(k) == Neg(dir) ==> d == dir
  {
    var step := KeyDir(k);
    if Neq(step, Zero) && Neq(Add(step, dir), Zero) then step else dir
  }

  /** A moving snake is never turned around on itself nor stopped. */
  lemma NoReversal(k: Key, dir: Int2)
    requires dir != Zero
    ensures Steer(k, dir) != Neg(dir) && Steer(k, dir) != Zero
  {
  }

  // ---- specification of the statistics -----------------------------------

  /** The index a scan with a strict `>` keeps: the first of the largest values. */
  function FirstMax(f: seq<real>): (k: nat)
    requires |f| > 0
    ensures k < |f|
    ensures forall j :: 0 <= j < |f| ==> f[j] <= f[k]
    ensures forall j :: 0 <= j < k ==> f[j] < f[k]
    decreases |f|
  {
    if |f| == 1 then 0
    else
      var k := FirstMax(f[..|f| - 1]);
      if f[|f| - 1] > f[k] then |f| - 1 else k
  }

  /** One more entry becomes the first maximum exactly when it is larger. */
  lemma FirstMaxSnoc(f: seq<real>, i: int)
    requires 0 < i < |f|
    ensures FirstMax(f[..i + 1]) == if f[i] > f[FirstMax(f[..i])] then i else FirstMax(f[..i])
  {
    assert f[..i + 1][..i] == f[..i];
  }

  /** There is only one index that is maximal with nothing as large before it. */
  lemma FirstMaxIsUnique(f: seq<real>, k: int)
    requires 0 <= k < |f|
    requires forall j :: 0 <= j < |f| ==> f[j] <= f[k]
    requires forall j :: 0 <= j < k ==> f[j] < f[k]
    ensures k == FirstMax(f)
  {
  }

  /** The fitness of every network, in order. */
  function Fitnesses(s: seq<NeuralNetwork>): (f: seq<real>)
    reads s
    ensures |f| == |s| && forall i :: 0 <= i < |s| ==> f[i] == s[i].fitness
  {
    seq(|s|, i requires 0 <= i < |s| reads s => s[i].fitness)
  }

  /** The largest count, or 0 when every count is below 0. */
  function MaxOrZero(a: seq<int>): (m: int)
    ensures m >= 0 && forall i :: 0 <= i < |a| ==> a[i] <= m
    ensures m == 0 || exists i :: 0 <= i < |a| && a[i] == m
  {
    if a == [] then 0
    else
      var m := MaxOrZero(a[..|a| - 1]);
      if a[|a| - 1] > m then a[|a| - 1]
      else
        assert m != 0 ==> exists i :: 0 <= i < |a| - 1 && a[i] == m;
        m
  }

  lemma MaxOrZeroSnoc(a: seq<int>, i: int)
    requires 0 <= i < |a|
    ensures MaxOrZero(a[..i + 1]) == if a[i] > MaxOrZero(a[..i]) then a[i] else MaxOrZero(a[..i])
  {
    assert a[..i + 1][..i] == a[..i];
  }

  /** A well-formed network with the layer sizes `LAYERS`. */
  ghost predicate Shaped(n: NeuralNetwork) {
    && n.Valid() && |n.layers| == |LAYERS| - 1
    && forall l :: 0 <= l < |n.layers| ==>
         n.layers[l].numberOfInputs == LAYERS[l] && n.layers[l].numberOfOutputs == LAYERS[l + 1]
  }

  /** A network is shaped exactly when its layer-size list is `LAYERS`. */
  lemma ShapedIffSizes(n: NeuralNetwork)
    requires n.Valid()
    ensures Shaped(n) <==> n.Sizes() == LAYERS
  {
  }

  /** Well-formed networks of the same shape, no two of them the same object. */
  ghost predicate Population(s: seq<NeuralNetwork>) {
    && (forall i :: 0 <= i < |s| ==> Shaped(s[i]))
    && (forall i, j :: 0 <= i < j < |s| ==> s[i] != s[j])
  }

  /** `s` with slots 0 and `k` exchanged. */
  function Swap<T>(s: seq<T>, k: int): (t: seq<T>)
    requires 0 <= k < |s|
    ensures |t| == |s|
  {
    s[k := s[0]][0 := s[k]]
  }

  /** Swapping two slots keeps the same elements. */
  lemma SwapKeepsMultiset<T>(s: seq<T>, k: int)
    requires 0 <= k < |s|
    ensures multiset(Swap(s, k)) == multiset(s)
  {
    var t := s[k := s[0]];
    assert multiset(t) == multiset(s) - multiset{s[k]} + multiset{s[0]};
    assert multiset(t[0 := s[k]]) == multiset(t) - multiset{t[0]} + multiset{s[k]};
  }

  /** Swapping the first best bot to the front keeps the population and puts
      a bot of highest fitness first. */
  lemma SwapBestFirst(s: seq<NeuralNetwork>, k: int)
    requires Population(s) && |s| > 0 && k == FirstMax(Fitnesses(s))
    ensures Population(Swap(s, k))
    ensures forall j :: 0 <= j < |s| ==> Swap(s, k)[j].fitness <= Swap(s, k)[0].fitness
  {
    var t := Swap(s, k);
    forall i | 0 <= i < |t|
      ensures t[i] == s[if i == 0 then k else if i == k then 0 else i]
    {
    }
  }

  /** A new, well-shaped network in one slot keeps the population. */
  lemma ReplaceKeepsPopulation(s: seq<NeuralNetwork>, i: int, n: NeuralNetwork)
    requires Population(s) && 0 <= i < |s| && Shaped(n) && n !in s
    ensures Population(s[i := n])
  {
  }

  /** Two bots are never the same object. */
  ghost predicate Distinct(bots: array<NeuralNetwork>)
    reads bots
  {
    forall i, j :: 0 <= i < j < bots.Length ==> bots[i] != bots[j]
  }

  // ---- the population ----------------------------------------------------

  /** The static state of the training driver: the population `Bots`, the
      best apple count of each bot `Apples`, `GenerationNumber` and the queue
      of pending key presses. */
  class Trainer {
    const bots: array<NeuralNetwork>
    var apples: array<int>
    var generationNumber: int
    var presses: seq<Key>

    ghost predicate Valid()
      reads this, bots
    {
      && bots.Length == CAPACITY && apples.Length == bots.Length
      && Population(bots[..])
    }

    /** The static initialisers and the `Bots[i] = new(Layers)` loop of the
        training mode (Program.cs:26-27, 123-126); `draws[i]` are the initial
        weight draws of bot `i`. */
    constructor (draws: seq<NetDraws>)
      requires |draws| == CAPACITY
      requires forall i :: 0 <= i < CAPACITY ==>
                 |draws[i]| == |LAYERS| - 1 &&
                 forall l :: 0 <= l < |LAYERS| - 1 ==> DrawsShaped(draws[i][l], LAYERS[l + 1], LAYERS[l])
      ensures Valid() && fresh(bots) && fresh(apples)
      ensures generationNumber == 0 && presses == []
      ensures forall i :: 0 <= i < CAPACITY ==> fresh(bots[i]) && bots[i].fitness == 0.0 && apples[i] == 0
    {
      var ns: seq<NeuralNetwork> := [];
      var i := 0;
      while i < CAPACITY
        invariant 0 <= i <= CAPACITY && |ns| == i
        invariant forall k :: 0 <= k < i ==> fresh(ns[k]) && ns[k].fitness == 0.0
        invariant forall k :: 0 <= k < i ==> Shaped(ns[k])
        invariant forall k, l :: 0 <= k < l < i ==> ns[k] != ns[l]
      {
        var n := new NeuralNetwork(LAYERS, draws[i]);
        ShapedIffSizes(n);
        ns := ns + [n];
        i := i + 1;
      }
      var a := new NeuralNetwork[CAPACITY](k requires 0 <= k < CAPACITY => ns[k]);
      assert a[..] == ns;
      bots := a;
      apples := new int[CAPACITY](_ => 0);
      generationNumber := 0;
      presses := [];
    }

    /** `DoUserMove(game)` (Program.cs:465-483): takes at most one key off the
        queue; Escape asks to quit, a steering key turns the snake unless it
        would reverse it. */
    method DoUserMove(snake: Snakes.Snake) returns (quit: bool)
      modifies this`presses, snake`dir
      ensures old(presses) == [] ==> !quit && presses == [] && snake.dir == old(snake.dir)
      ensures old(presses) != [] ==> presses == old(presses)[1..]
      ensures quit <==> old(presses) != [] && old(presses)[0] == Escape
      ensures quit ==> snake.dir == old(snake.dir)
      ensures old(presses) != [] && !quit ==> snake.dir == Steer(old(presses)[0], old(snake.dir))
    {
      if presses == [] {
        return false;
      }
      var input := presses[0];
      presses := presses[1..];
      if input == Escape {
        return true;
      }
      var newDir := KeyDir(input);
      if Neq(newDir, Zero) && Neq(Add(newDir, snake.dir), Zero) {
        snake.dir := newDir;
      }
      return false;
    }

    /** The scan of `BestBotFirst()` (Program.cs:798-805): the bot whose
        `CompareTo` beats every earlier leader, starting from slot 0. */
    method FindBest() returns (largest: int)
      requires bots.Length > 0
      ensures largest == FirstMax(Fitnesses(bots[..]))
    {
      largest := 0;
      var i := 0;
      while i < bots.Length
        invariant 0 <= i <= bots.Length && 0 <= largest < bots.Length
        invariant i == 0 ==> largest == 0
        invariant i > 0 ==> largest == FirstMax(Fitnesses(bots[..i]))
      {
        if bots[i].CompareTo(bots[largest]).value > 0 {
          largest := i;
        }
        assert Fitnesses(bots[..i + 1])[..i] == Fitnesses(bots[..i]);
        i := i + 1;
      }
      assert bots[..i] == bots[..];
    }

    /** `BestBotFirst()` (Program.cs:795-809): swaps the first bot of highest
        fitness into slot 0. */
    method BestBotFirst()
      requires Valid()
      modifies bots
      ensures Valid()
      ensures bots[..] == Swap(old(bots[..]), old(FirstMax(Fitnesses(bots[..]))))
      ensures multiset(bots[..]) == multiset(old(bots[..]))
      ensures forall j :: 0 <= j < bots.Length ==> bots[j].fitness <= bots[0].fitness
      ensures forall j :: 0 <= j < bots.Length ==> old(bots[j]).fitness <= bots[0].fitness
    {
      var largest := FindBest();
      ghost var before := bots[..];
      SwapBestFirst(before, largest);
      SwapKeepsMultiset(before, largest);
      bots[largest], bots[0] := bots[0], bots[largest];
      assert bots[..] == Swap(before, largest);
    }

    /** `NextGeneration()` (Program.cs:811-823): the generation count goes up,
        the best bot moves to slot 0 and stays as it is, and every other slot
        gets a fresh copy of it with fitness 0, mutated with `rolls[i]` and
        `extras[i]`. */
    method NextGeneration(rolls: seq<NetDraws>, extras: seq<NetDraws>)
      requires Valid()
      requires |rolls| == CAPACITY && |extras| == CAPACITY
      requires forall i :: 1 <= i < CAPACITY ==>
                 |rolls[i]| == |extras[i]| == |LAYERS| - 1 && DrawsFit(rolls[i], extras[i], LAYERS)
      modifies this`generationNumber, bots
      ensures Valid() && forall i :: 0 <= i < CAPACITY ==> Shaped(bots[i])
      ensures generationNumber == old(generationNumber) + 1
      ensures bots[0] == old(bots[FirstMax(Fitnesses(bots[..]))])
      ensures forall j :: 0 <= j < CAPACITY ==> old(bots[j].fitness) <= bots[0].fitness
      ensures forall l :: 0 <= l < |bots[0].layers| ==> unchanged(bots[0].layers[l].weights)
      ensures forall i :: 1 <= i < CAPACITY ==> fresh(bots[i]) && bots[i].fitness == 0.0
      ensures forall i, l :: 1 <= i < CAPACITY && 0 <= l < |LAYERS| - 1 ==>
                Mutated(bots[i].layers[l], Cells(bots[0].layers[l].weights), rolls[i][l], extras[i][l])
    {
      generationNumber := generationNumber + 1;
      BestBotFirst();
      ghost var best := bots[0];
      BreedFromFirst(rolls, extras);
      assert bots[0] == best;
    }

    /** The loop of `NextGeneration()` (Program.cs:818-822): every slot after
        the first gets a mutated copy of the first bot. */
    method BreedFromFirst(rolls: seq<NetDraws>, extras: seq<NetDraws>)
      requires Valid()
      requires |rolls| == CAPACITY && |extras| == CAPACITY
      requires forall i :: 1 <= i < CAPACITY ==>
                 |rolls[i]| == |extras[i]| == |LAYERS| - 1 && DrawsFit(rolls[i], extras[i], LAYERS)
      modifies bots
      ensures Valid() && forall i :: 0 <= i < CAPACITY ==> Shaped(bots[i])
      ensures bots[0] == old(bots[0])
      ensures forall l :: 0 <= l < |bots[0].layers| ==> unchanged(bots[0].layers[l].weights)
      ensures forall i :: 1 <= i < CAPACITY ==> fresh(bots[i]) && bots[i].fitness == 0.0
      ensures forall i, l :: 1 <= i < CAPACITY && 0 <= l < |LAYERS| - 1 ==>
                Mutated(bots[i].layers[l], Cells(bots[0].layers[l].weights), rolls[i][l], extras[i][l])
    {
      var best := bots[0];
      var i := 1;
      while i < bots.Length
        invariant 1 <= i <= bots.Length && bots[0] == best && Valid()
        invariant forall k :: 1 <= k < i ==> fresh(bots[k]) && bots[k].fitness == 0.0
        invariant forall l :: 0 <= l < |best.layers| ==> unchanged(best.layers[l].weights)
        invariant forall k, l :: 1 <= k < i && 0 <= l < |LAYERS| - 1 ==>
                    Mutated(bots[k].layers[l], Cells(best.layers[l].weights), rolls[k][l], extras[k][l])
      {
        var child := Breed(best, rolls[i], extras[i]);
        ghost var before := bots[..];
        bots[i] := child;
        assert bots[..] == before[i := child];
        ReplaceKeepsPopulation(before, i, child);
        i := i + 1;
      }
    }

    /** `ResetStats()` (Program.cs:783-793): every fitness back to 0 and a new,
        zeroed apple record. */
    method ResetStats()
      requires Valid()
      modifies this`apples, set i | 0 <= i < bots.Length :: bots[i]`fitness
      ensures Valid() && fresh(apples)
      ensures forall i :: 0 <= i < bots.Length ==> bots[i].fitness == 0.0 && apples[i] == 0
    {
      var i := 0;
      while i < bots.Length
        invariant 0 <= i <= bots.Length
        invariant forall k :: 0 <= k < i ==> bots[k].fitness == 0.0
      {
        bots[i].fitness := 0.0;
        i := i + 1;
      }
      apples := new int[bots.Length](_ => 0);
    }

    /** The selection part of `CalculateStats()` (Program.cs:407-451): the
        first bot of highest fitness, its apple record, and the best apple
        record (never below 0). The running maximum starts at minus infinity,
        here the `bestIndex == -1` state. */
    method CalculateStats() returns (bestIndex: int, maxApples: int, bestApples: int)
      requires apples.Length == bots.Length
      ensures bots.Length == 0 ==> bestIndex == -1 && maxApples == 0
      ensures bots.Length > 0 ==> bestIndex == FirstMax(Fitnesses(bots[..])) && maxApples == apples[bestIndex]
      ensures bestApples == MaxOrZero(apples[..])
    {
      bestIndex := -1;
      maxApples := 0;
      bestApples := 0;
      ghost var fits := Fitnesses(bots[..]);
      var max: real := 0.0;
      var i := 0;
      while i < bots.Length
        invariant 0 <= i <= bots.Length
        invariant i == 0 ==> bestIndex == -1 && maxApples == 0
        invariant i > 0 ==> && bestIndex == FirstMax(fits[..i])
                            && max == fits[bestIndex] && maxApples == apples[bestIndex]
        invariant bestApples == MaxOrZero(apples[..i])
      {
        assert bots[i].fitness == fits[i] && apples[i] == apples[..][i];
        if i > 0 {
          FirstMaxSnoc(fits, i);
        }
        MaxOrZeroSnoc(apples[..], i);
        if bestIndex == -1 || bots[i].fitness > max {
          bestIndex := i;
          max := bots[i].fitness;
          maxApples := apples[i];
        }
        if apples[i] > bestApples {
          bestApples := apples[i];
        }
        i := i + 1;
      }
      assert fits[..i] == fits;
      assert apples[..i] == apples[..];
    }
  }

  /** One child of `NextGeneration`: `new(Bots[0])` then `Mutate()`. */
  method Breed(best: NeuralNetwork, rolls: NetDraws, extras: NetDraws) returns (child: NeuralNetwork)
    requires Shaped(best)
    requires DrawsFit(rolls, extras, LAYERS)
    ensures fresh(child) && child.fitness == 0.0
    ensures Shaped(child)
    ensures forall l :: 0 <= l < |LAYERS| - 1 ==>
              Mutated(child.layers[l], Cells(best.layers[l].weights), rolls[l], extras[l])
  {
    ShapedIffSizes(best);
    child := new NeuralNetwork.Copy(best);
    ShapedIffSizes(child);
    forall l | 0 <= l < |child.layers|
      ensures Cells(child.layers[l].weights) == Cells(best.layers[l].weights)
    {
      SameWeightsSameCells(child.layers[l].weights, best.layers[l].weights);
    }
    child.DrawsFitLayers(rolls, extras);
    child.Mutate(rolls, extras);
  }

  // ---- one evaluation batch ----------------------------------------------

  /** The score of a tick on which the snake ate (an apple, or the last free
      cell). */
  predicate Eats(score: int) {
    score == Arena.APPLE_SCORE || score == Arena.WIN_SCORE
  }

  /** The visited set is forgotten on death and on eating. */
  predicate Forgets(score: int) {
    score == Arena.DEATH_SCORE || Eats(score)
  }

  /** The fitness one tick adds for one snake: the circle penalty if the new
      head cell was visited since the last apple, then the tick's score. */
  function Credit(visited: set<Int2>, head: Int2, score: int): (r: real)
    ensures r <= score as real
    ensures r == score as real <==> head !in visited
  {
    (if head in visited then CIRCLE_PENALTY as real else 0.0) + score as real
  }

  /** The penalty is charged exactly on a revisit, and costs 4 points. */
  lemma CreditChargesRevisits(visited: set<Int2>, head: Int2, score: int)
    ensures Credit(visited, head, score) <= score as real
    ensures Credit(visited, head, score) == score as real <==> head !in visited
    ensures head in visited ==> Credit(visited, head, score) == score as real - 4.0
  {
  }

  /** The number of deaths among a tick's scores. */
  function Deaths(scores: seq<int>): (d: nat)
    ensures d <= |scores|
  {
    if scores == [] then 0
    else Deaths(scores[..|scores| - 1]) + if scores[|scores| - 1] == Arena.DEATH_SCORE then 1 else 0
  }

  /** `Deaths` counts the occurrences of the death score. */
  lemma {:induction false} DeathsCountDeathScores(scores: seq<int>)
    ensures Deaths(scores) == multiset(scores)[Arena.DEATH_SCORE]
  {
    if scores != [] {
      var init := scores[..|scores| - 1];
      DeathsCountDeathScores(init);
      assert scores == init + [scores[|scores| - 1]];
    }
  }

  /** Whether some snake ate on this tick, scanning the snakes in order. */
  predicate SomeEats(scores: seq<int>) {
    scores != [] && (SomeEats(scores[..|scores| - 1]) || Eats(scores[|scores| - 1]))
  }

  /** The per-snake state a tick's accounting starts from. */
  datatype Tally = Tally(fitness: seq<real>, positions: seq<set<Int2>>, apples: seq<int>, alive: int)

  /** The outcomes of a number of ticks, each with one entry per snake. */
  predicate TicksShaped(n: int, living: seq<seq<bool>>, before: seq<seq<Int2>>, heads: seq<seq<Int2>>,
                        scores: seq<seq<int>>, counters: seq<int>) {
    && |living| == |scores| && |before| == |scores| && |heads| == |scores| && |counters| == |scores|
    && forall t :: 0 <= t < |scores| ==>
         |living[t]| == n && |before[t]| == n && |heads[t]| == n && |scores[t]| == n
  }

  /** The deaths counted over the scores of several ticks. */
  function TotalDeaths(ticks: seq<seq<int>>): nat {
    if ticks == [] then 0 else TotalDeaths(ticks[..|ticks| - 1]) + Deaths(ticks[|ticks| - 1])
  }

  /** A visited set with the head a snake leaves recorded, if it lives. */
  function Marked(visited: set<Int2>, live: bool, from: Int2): set<Int2> {
    if live then visited + {from} else visited
  }

  /** Ticks `0 .. n - 1` of the outcomes carry an entry for snake `j`. */
  predicate Covers(living: seq<seq<bool>>, before: seq<seq<Int2>>, heads: seq<seq<Int2>>,
                   scores: seq<seq<int>>, j: int, n: nat) {
    && 0 <= j && n <= |living| && n <= |before| && n <= |heads| && n <= |scores|
    && forall t :: 0 <= t < n ==> j < |living[t]| && j < |before[t]| && j < |heads[t]| && j < |scores[t]|
  }

  lemma ShapedCovers(k: int, living: seq<seq<bool>>, before: seq<seq<Int2>>, heads: seq<seq<Int2>>,
                     scores: seq<seq<int>>, counters: seq<int>, j: int, n: nat)
    requires TicksShaped(k, living, before, heads, scores, counters)
    requires 0 <= j < k && n <= |scores|
    ensures Covers(living, before, heads, scores, j, n)
  {
  }

  /** Snake `j`'s visited set after the first `n` ticks, starting from `visited`:
      each tick records the head it leaves, if it lives, and a death or a
      meal empties the set. */
  function VisitedAfter(visited: set<Int2>, living: seq<seq<bool>>, before: seq<seq<Int2>>, heads: seq<seq<Int2>>,
                        scores: seq<seq<int>>, j: int, n: nat): set<Int2>
    requires Covers(living, before, heads, scores, j, n)
  {
    if n == 0 then visited
    else
      var t := n - 1;
      if Forgets(scores[t][j]) then {}
      else Marked(VisitedAfter(visited, living, before, heads, scores, j, t), living[t][j], before[t][j])
  }

  /** Snake `j`'s fitness after the first `n` ticks, starting from `fitness`
      and `visited`: each tick adds its `Credit` against the visited set as
      it stands once the tick's head is recorded. */
  function FitnessAfter(fitness: real, visited: set<Int2>, living: seq<seq<bool>>, before: seq<seq<Int2>>,
                        heads: seq<seq<Int2>>, scores: seq<seq<int>>, j: int, n: nat): real
    requires Covers(living, before, heads, scores, j, n)
  {
    if n == 0 then fitness
    else
      var t := n - 1;
      FitnessAfter(fitness, visited, living, before, heads, scores, j, t)
        + Credit(Marked(VisitedAfter(visited, living, before, heads, scores, j, t), living[t][j], before[t][j]),
                 heads[t][j], scores[t][j])
  }

  /** Every snake's visited set and fitness (`visited[j]`, `fitness[j]`) are
      the folds of the first `n` ticks from `visited0[j]` and `fitness0[j]`. */
  predicate Folded(visited0: seq<set<Int2>>, fitness0: seq<real>, visited: seq<set<Int2>>, fitness: seq<real>,
                   living: seq<seq<bool>>, before: seq<seq<Int2>>, heads: seq<seq<Int2>>, scores: seq<seq<int>>, n: nat) {
    && |visited0| == |visited| && |fitness0| == |visited| && |fitness| == |visited|
    && forall j :: 0 <= j < |visited| ==>
         && Covers(living, before, heads, scores, j, n)
         && visited[j] == VisitedAfter(visited0[j], living, before, heads, scores, j, n)
         && fitness[j] == FitnessAfter(fitness0[j], visited0[j], living, before, heads, scores, j, n)
  }

  /** Accounting tick `n` for every snake extends both folds by one tick,
      to `next == n + 1` ticks. */
  lemma FoldedStep(visited0: seq<set<Int2>>, fitness0: seq<real>, visited: seq<set<Int2>>, fitness: seq<real>,
                   visited': seq<set<Int2>>, fitness': seq<real>, living: seq<seq<bool>>, before: seq<seq<Int2>>,
                   heads: seq<seq<Int2>>, scores: seq<seq<int>>, n: nat, next: nat)
    requires next == n + 1
    requires Folded(visited0, fitness0, visited, fitness, living, before, heads, scores, n)
    requires |visited'| == |visited| && |fitness'| == |visited|
    requires forall j :: 0 <= j < |visited| ==>
               && Covers(living, before, heads, scores, j, next)
               && visited'[j] == (if Forgets(scores[n][j]) then {} else Marked(visited[j], living[n][j], before[n][j]))
               && fitness'[j] == fitness[j] + Credit(Marked(visited[j], living[n][j], before[n][j]), heads[n][j], scores[n][j])
    ensures Folded(visited0, fitness0, visited', fitness', living, before, heads, scores, next)
  {
    forall j | 0 <= j < |visited'|
      ensures visited'[j] == VisitedAfter(visited0[j], living, before, heads, scores, j, next)
      ensures fitness'[j] == FitnessAfter(fitness0[j], visited0[j], living, before, heads, scores, j, next)
    {
      assert visited[j] == VisitedAfter(visited0[j], living, before, heads, scores, j, n);
      assert fitness[j] == FitnessAfter(fitness0[j], visited0[j], living, before, heads, scores, j, n);
    }
  }

  /** The scores snake `j` earned over the first `n` ticks. */
  function ScoreSum(scores: seq<seq<int>>, j: int, n: nat): int
    requires n <= |scores| && 0 <= j && forall t :: 0 <= t < n ==> j < |scores[t]|
  {
    if n == 0 then 0 else ScoreSum(scores, j, n - 1) + scores[n - 1][j]
  }

  /** Over a round, the circle penalty only ever lowers a snake's fitness
      below the sum of its scores, and it leaves the sum untouched exactly
      when the snake never moved onto a cell it had visited. */
  lemma {:induction false} FitnessAtMostScores(fitness: real, visited: set<Int2>, living: seq<seq<bool>>,
                                               before: seq<seq<Int2>>, heads: seq<seq<Int2>>,
                                               scores: seq<seq<int>>, j: int, n: nat)
    requires Covers(living, before, heads, scores, j, n)
    ensures FitnessAfter(fitness, visited, living, before, heads, scores, j, n) <= fitness + ScoreSum(scores, j, n) as real
  {
    if n > 0 {
      var t := n - 1;
      FitnessAtMostScores(fitness, visited, living, before, heads, scores, j, t);
    }
  }

  /** The number of ticks in which snake `j` ate an apple. */
  function Meals(ticks: seq<seq<int>>, j: int): nat {
    if ticks == [] then 0
    else Meals(ticks[..|ticks| - 1], j) + if 0 <= j < |ticks[|ticks| - 1]| && Eats(ticks[|ticks| - 1][j]) then 1 else 0
  }

  lemma MealsSnoc(ticks: seq<seq<int>>, t: int, j: int)
    requires 0 <= t < |ticks| && 0 <= j < |ticks[t]|
    ensures Meals(ticks[..t + 1], j) == Meals(ticks[..t], j) + if Eats(ticks[t][j]) then 1 else 0
  { assert ticks[..t + 1][..t] == ticks[..t]; }

  lemma TotalDeathsSnoc(ticks: seq<seq<int>>, t: int)
    requires 0 <= t < |ticks|
    ensures TotalDeaths(ticks[..t + 1]) == TotalDeaths(ticks[..t]) + Deaths(ticks[t])
  {
    assert ticks[..t + 1][..t] == ticks[..t];
  }

  /** Deaths only accumulate: a later point of the round has counted at
      least as many. With `PlayRound`'s guarantee for the last tick played,
      some snake was alive before every tick of the round. */
  lemma {:induction false} TotalDeathsGrow(ticks: seq<seq<int>>, t: nat, u: nat)
    requires t <= u <= |ticks|
    ensures TotalDeaths(ticks[..t]) <= TotalDeaths(ticks[..u])
    decreases u - t
  {
    if t < u {
      TotalDeathsSnoc(ticks, t);
      TotalDeathsGrow(ticks, t + 1, u);
    }
  }

  /** One more snake's score extends the death count and the meal scan. */
  lemma ScanStep(scores: seq<int>, j: int)
    requires 0 <= j < |scores|
    ensures Deaths(scores[..j + 1]) == Deaths(scores[..j]) + if scores[j] == Arena.DEATH_SCORE then 1 else 0
    ensures SomeEats(scores[..j + 1]) <==> SomeEats(scores[..j]) || Eats(scores[j])
  {
    assert scores[..j + 1][..j] == scores[..j];
  }

  /** The scan finds a meal exactly when there is one. */
  lemma {:induction false} SomeEatsIffExists(scores: seq<int>)
    ensures SomeEats(scores) <==> exists j :: 0 <= j < |scores| && Eats(scores[j])
  {
    if scores != [] {
      var init := scores[..|scores| - 1];
      SomeEatsIffExists(init);
      if SomeEats(init) {
        var j :| 0 <= j < |init| && Eats(init[j]);
        assert scores[j] == init[j];
      }
      if !SomeEats(scores) {
        forall j | 0 <= j < |scores|
          ensures !Eats(scores[j])
        {
          if j < |init| {
            assert init[j] == scores[j];
          }
        }
      }
    }
  }

  /** The locals of `RunNets(bot1, numSnakes, mode)` (Program.cs:682-781):
      the visited cells and the apple count of each snake in the current
      round, the number of snakes alive and the game's tick counter, over the
      bots `bot1 .. bot1 + numSnakes - 1` and their apple record. */
  class Episode {
    /** `Bots[bot1 .. bot1 + numSnakes - 1]`, the networks steering the snakes. */
    const team: seq<NeuralNetwork>
    const record: array<int>
    const bot1: int
    const numSnakes: int
    var positions: seq<set<Int2>>
    var apples: seq<int>
    var alive: int
    var ticks: int

    ghost predicate Valid()
      reads this
    {
      Wired() && |positions| == numSnakes && |apples| == numSnakes
    }

    /** The part of `Valid` that only reads constant fields: the team is a
        window of distinct networks onto the population. */
    ghost predicate Wired() {
      && 0 <= bot1 && 1 <= numSnakes && bot1 + numSnakes <= record.Length
      && |team| == numSnakes
      && forall i, j :: 0 <= i < j < numSnakes ==> team[i] != team[j]
    }

    /** The start of `RunNets` (Program.cs:698-702): empty visited sets, no
        apples, a new game at tick 0. */
    constructor (bots: array<NeuralNetwork>, record: array<int>, bot1: int, numSnakes: int)
      requires 0 <= bot1 && 1 <= numSnakes && bot1 + numSnakes <= bots.Length && record.Length == bots.Length
      requires Distinct(bots)
      ensures Valid()
      ensures team == bots[bot1..bot1 + numSnakes]
      ensures this.record == record && this.bot1 == bot1 && this.numSnakes == numSnakes
      ensures forall j :: 0 <= j < numSnakes ==> positions[j] == {} && apples[j] == 0
      ensures alive == 0 && ticks == 0
    {
      team := bots[bot1..bot1 + numSnakes];
      this.record := record;
      this.bot1 := bot1;
      this.numSnakes := numSnakes;
      positions := seq(numSnakes, _ => {});
      apples := seq(numSnakes, _ => 0);
      alive := 0;
      ticks := 0;
    }

    /** `var alive = numSnakes` at the start of a round (Program.cs:707). */
    method StartRound()
      modifies this`alive
      ensures alive == numSnakes
    {
      alive := numSnakes;
    }

    /** The loop condition of a round (Program.cs:709). */
    predicate RoundContinues()
      reads this
    {
      alive > 0 && ticks < MAX_TICKS
    }

    /** One pass of the round loop (Program.cs:710-763): the living snakes'
        heads are recorded and the tick's scores are accounted. */
    method PlayTick(living: seq<bool>, before: seq<Int2>, heads: seq<Int2>, scores: seq<int>, counter: int)
      requires Valid() && |living| == numSnakes && |before| == numSnakes
      requires |heads| == numSnakes && |scores| == numSnakes
      modifies this`positions, this`apples, this`alive, this`ticks, team`fitness
      ensures Valid()
      ensures alive == old(alive) - Deaths(scores)
      ensures ticks == if SomeEats(scores) then 0 else counter
      ensures forall j :: 0 <= j < numSnakes ==>
                team[j].fitness == old(team[j].fitness) +
                  Credit(if living[j] then old(positions[j]) + {before[j]} else old(positions[j]), heads[j], scores[j])
      ensures forall j :: 0 <= j < numSnakes ==>
                positions[j] == if Forgets(scores[j]) then {}
                                else if living[j] then old(positions[j]) + {before[j]} else old(positions[j])
      ensures forall j :: 0 <= j < numSnakes ==>
                apples[j] == if Eats(scores[j]) then old(apples[j]) + 1 else old(apples[j])
    {
      RecordHeads(before, living);
      ScoreTick(heads, scores, counter);
    }

    /** `PlayTick` as one step of a round: it extends the folds of every
        snake's visited set, fitness and meals over the ticks from `n` to
        `n + 1`. */
    method AccountTick(ghost visited0: seq<set<Int2>>, ghost fitness0: seq<real>, ghost apples0: seq<int>,
                       living: seq<seq<bool>>, before: seq<seq<Int2>>, heads: seq<seq<Int2>>,
                       scores: seq<seq<int>>, counters: seq<int>, n: nat)
      requires Valid() && TicksShaped(numSnakes, living, before, heads, scores, counters) && n < |scores|
      requires Folded(visited0, fitness0, positions, Fitnesses(team), living, before, heads, scores, n)
      requires |apples0| == numSnakes
      requires forall j :: 0 <= j < numSnakes ==> apples[j] == apples0[j] + Meals(scores[..n], j)
      modifies this`positions, this`apples, this`alive, this`ticks, team`fitness
      ensures Valid()
      ensures Folded(visited0, fitness0, positions, Fitnesses(team), living, before, heads, scores, n + 1)
      ensures forall j :: 0 <= j < numSnakes ==> apples[j] == apples0[j] + Meals(scores[..n + 1], j)
      ensures alive == old(alive) - Deaths(scores[n])
      ensures ticks == if SomeEats(scores[n]) then 0 else counters[n]
    {
      ghost var visited, fitness := positions, Fitnesses(team);
      PlayTick(living[n], before[n], heads[n], scores[n], counters[n]);
      ghost var next := n + 1;
      forall j | 0 <= j < numSnakes
        ensures Covers(living, before, heads, scores, j, next)
        ensures apples[j] == apples0[j] + Meals(scores[..next], j)
      {
        ShapedCovers(numSnakes, living, before, heads, scores, counters, j, next);
        MealsSnoc(scores, n, j);
      }
      FoldedStep(visited0, fitness0, visited, fitness, positions, Fitnesses(team), living, before, heads, scores, n, next);
    }

    /** One round of `RunNets` (Program.cs:706-764): starting with every snake
        alive, while a snake lives and the game's tick counter is below the
        limit, record the living snakes' heads and score the next tick. The
        outcome of tick `t` is given: which snakes live (`living[t]`), their
        heads before (`before[t]`) and after (`heads[t]`) the move, their
        scores (`scores[t]`) and the game's tick counter (`counters[t]`).
        The round runs until all snakes have died or the counter runs out;
        it stops short of that only when the given ticks are used up. */
    method PlayRound(living: seq<seq<bool>>, before: seq<seq<Int2>>, heads: seq<seq<Int2>>,
                     scores: seq<seq<int>>, counters: seq<int>) returns (played: nat)
      requires Valid()
      requires TicksShaped(numSnakes, living, before, heads, scores, counters)
      modifies this`positions, this`apples, this`alive, this`ticks, team`fitness
      ensures Valid() && played <= |scores|
      ensures alive == numSnakes - TotalDeaths(scores[..played])
      ensures played > 0 ==> TotalDeaths(scores[..played - 1]) < numSnakes
      ensures played < |scores| ==> !RoundContinues()
      ensures TotalDeaths(scores[..played]) >= numSnakes ==> !RoundContinues()
      ensures played > 0 ==> ticks == if SomeEats(scores[played - 1]) then 0 else counters[played - 1]
      ensures forall j :: 0 <= j < numSnakes ==> apples[j] == old(apples[j]) + Meals(scores[..played], j)
      ensures forall j :: 0 <= j < numSnakes ==>
                positions[j] == VisitedAfter(old(positions[j]), living, before, heads, scores, j, played)
      ensures forall j :: 0 <= j < numSnakes ==>
                team[j].fitness == FitnessAfter(old(team[j].fitness), old(positions[j]), living, before, heads, scores, j, played)
    {
      ghost var visited0, fitness0, apples0 := positions, Fitnesses(team), apples;
      StartRound();
      played := 0;
      while played < |scores| && RoundContinues()
        invariant Valid() && played <= |scores|
        invariant alive == numSnakes - TotalDeaths(scores[..played])
        invariant played > 0 ==> TotalDeaths(scores[..played - 1]) < numSnakes
        invariant played > 0 ==> ticks == if SomeEats(scores[played - 1]) then 0 else counters[played - 1]
        invariant forall j :: 0 <= j < numSnakes ==> apples[j] == apples0[j] + Meals(scores[..played], j)
        invariant Folded(visited0, fitness0, positions, Fitnesses(team), living, before, heads, scores, played)
      {
        ghost var dead := TotalDeaths(scores[..played]);
        assert dead < numSnakes;
        AccountTick(visited0, fitness0, apples0, living, before, heads, scores, counters, played);
        TotalDeathsSnoc(scores, played);
        assert alive == numSnakes - TotalDeaths(scores[..played + 1]);
        played := played + 1;
      }
    }

    /** Each living snake's head cell is added to its visited set before it
        moves (Program.cs:718-729). */
    method RecordHeads(heads: seq<Int2>, living: seq<bool>)
      requires Valid() && |heads| == numSnakes && |living| == numSnakes
      modifies this`positions
      ensures Valid()
      ensures forall j :: 0 <= j < numSnakes ==>
                positions[j] == if living[j] then old(positions[j]) + {heads[j]} else old(positions[j])
    {
      var j := 0;
      while j < numSnakes
        invariant 0 <= j <= numSnakes && |positions| == numSnakes
        invariant forall k :: 0 <= k < j ==>
                    positions[k] == if living[k] then old(positions[k]) + {heads[k]} else old(positions[k])
        invariant forall k :: j <= k < numSnakes ==> positions[k] == old(positions[k])
      {
        if living[j] {
          positions := positions[j := positions[j] + {heads[j]}];
        }
        j := j + 1;
      }
    }

    /** Snake j's share of the accounting after a tick (Program.cs:741-762):
        the circle penalty on a revisit, the score, and on death or eating a
        forgotten visited set; a death costs one living snake, eating counts
        an apple and restarts the game's tick counter. */
    method ScoreSnake(j: int, bot: NeuralNetwork, head: Int2, score: int)
      requires Valid() && 0 <= j < numSnakes && bot == team[j]
      modifies this`positions, this`apples, this`alive, this`ticks, bot`fitness
      ensures Valid()
      ensures bot.fitness == old(bot.fitness) + Credit(old(positions[j]), head, score)
      ensures forall k :: 0 <= k < numSnakes && k != j ==> team[k].fitness == old(team[k].fitness)
      ensures positions == old(positions)[j := if Forgets(score) then {} else old(positions[j])]
      ensures apples == old(apples)[j := if Eats(score) then old(apples[j]) + 1 else old(apples[j])]
      ensures alive == if score == Arena.DEATH_SCORE then old(alive) - 1 else old(alive)
      ensures ticks == if Eats(score) then 0 else old(ticks)
    {
      if head in positions[j] {
        bot.fitness := bot.fitness + CIRCLE_PENALTY as real;
      }
      bot.fitness := bot.fitness + score as real;
      if score == Arena.DEATH_SCORE {
        positions := positions[j := {}];
        alive := alive - 1;
      } else if score == Arena.APPLE_SCORE || score == Arena.WIN_SCORE {
        positions := positions[j := {}];
        ticks := 0;
        apples := apples[j := apples[j] + 1];
      }
    }

    /** Where the sweep of `ScoreTick` stands once the first `j` snakes are
        scored, relative to the state `start` it began from. */
    ghost predicate Swept(j: int, start: Tally, heads: seq<Int2>, scores: seq<int>, ticksAfter: int)
      reads this, team
    {
      && Valid() && 0 <= j <= numSnakes && |heads| == numSnakes && |scores| == numSnakes
      && |start.fitness| == numSnakes && |start.positions| == numSnakes && |start.apples| == numSnakes
      && (forall k :: 0 <= k < numSnakes ==>
            team[k].fitness == start.fitness[k] + if k < j then Credit(start.positions[k], heads[k], scores[k]) else 0.0)
      && (forall k :: 0 <= k < numSnakes ==>
            positions[k] == if k < j && Forgets(scores[k]) then {} else start.positions[k])
      && (forall k :: 0 <= k < numSnakes ==>
            apples[k] == if k < j && Eats(scores[k]) then start.apples[k] + 1 else start.apples[k])
      && alive == start.alive - Deaths(scores[..j])
      && ticks == if SomeEats(scores[..j]) then 0 else ticksAfter
    }

    /** One pass of the loop body of `ScoreTick`: snake `j` is scored. */
    method ScoreNext(j: int, heads: seq<Int2>, scores: seq<int>, ticksAfter: int, ghost start: Tally)
      requires Swept(j, start, heads, scores, ticksAfter) && j < numSnakes
      modifies this`positions, this`apples, this`alive, this`ticks, team`fitness
      ensures Swept(j + 1, start, heads, scores, ticksAfter)
    {
      assert positions[j] == start.positions[j];
      ScoreSnake(j, team[j], heads[j], scores[j]);
      ScanStep(scores, j);
    }

    /** The accounting after the game's tick (Program.cs:735-764): `heads[j]`
        is snake j's head cell after the tick, `scores[j]` its score and
        `ticksAfter` the game's tick counter. */
    method ScoreTick(heads: seq<Int2>, scores: seq<int>, ticksAfter: int)
      requires Valid() && |heads| == numSnakes && |scores| == numSnakes
      modifies this`positions, this`apples, this`alive, this`ticks, team`fitness
      ensures Valid()
      ensures forall j :: 0 <= j < numSnakes ==>
                team[j].fitness == old(team[j].fitness) + Credit(old(positions[j]), heads[j], scores[j])
      ensures forall j :: 0 <= j < numSnakes ==>
                positions[j] == if Forgets(scores[j]) then {} else old(positions[j])
      ensures forall j :: 0 <= j < numSnakes ==>
                apples[j] == if Eats(scores[j]) then old(apples[j]) + 1 else old(apples[j])
      ensures alive == old(alive) - Deaths(scores)
      ensures ticks == if SomeEats(scores) then 0 else ticksAfter
    {
      ghost var start := Tally(Fitnesses(team), positions, apples, alive);
      ticks := ticksAfter;
      var j := 0;
      while j < numSnakes
        invariant Swept(j, start, heads, scores, ticksAfter)
      {
        ScoreNext(j, heads, scores, ticksAfter, start);
        j := j + 1;
      }
      assert j == numSnakes && scores[..j] == scores;
    }

    /** The end of a round (Program.cs:766-780): each bot keeps the larger of
        its record and this round's apples, and the round's counts, visited
        sets and tick counter start again from zero. Bot `b` of the batch is
        snake `b - bot1`. */
    method EndRound()
      requires Valid()
      modifies this`positions, this`apples, this`ticks, record
      ensures Valid()
      ensures forall b :: bot1 <= b < bot1 + numSnakes ==>
                && record[b] >= old(record[b]) && record[b] >= old(apples[b - bot1])
                && (record[b] == old(record[b]) || record[b] == old(apples[b - bot1]))
      ensures forall b :: 0 <= b < record.Length && !(bot1 <= b < bot1 + numSnakes) ==> record[b] == old(record[b])
      ensures forall j :: 0 <= j < numSnakes ==> positions[j] == {} && apples[j] == 0
      ensures ticks == 0
    {
      var j := 0;
      while j < numSnakes
        invariant 0 <= j <= numSnakes && |positions| == numSnakes && |apples| == numSnakes
        invariant forall b :: bot1 <= b < bot1 + j ==>
                    && record[b] >= old(record[b]) && record[b] >= old(apples[b - bot1])
                    && (record[b] == old(record[b]) || record[b] == old(apples[b - bot1]))
        invariant forall b :: 0 <= b < record.Length && !(bot1 <= b < bot1 + j) ==> record[b] == old(record[b])
        invariant forall k :: 0 <= k < j ==> positions[k] == {} && apples[k] == 0
        invariant forall k :: j <= k < numSnakes ==> apples[k] == old(apples[k])
      {
        positions := positions[j := {}];
        if apples[j] > record[bot1 + j] {
          record[bot1 + j] := apples[j];
        }
        apples := apples[j := 0];
        j := j + 1;
      }
      ticks := 0;
    }
  }
}
