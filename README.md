# Snake-AI core in Dafny

A verified model of the core of Snake-AI, a C# program that trains neural
networks to play Snake. It covers five parts:

- **The single-snake arena (`SnakeGame`).**
  - A compacted free-cell list `AvailablePoints` with its inverse `AvailableIndices`. The inverse holds a position in the list for a free cell, and the tag -1 for a snake cell or -2 for an apple.
  - O(1) swap-with-last removal.
  - The snake body as a circular chain of slots over two flat lists, `Snake` and `SnakeIndices`, entered at `head`.
  - Three apples.
  - The `Tick` state machine: border death, self collision, eating (grow and re-place the apple), an ordinary move, and the win score.
  - The read-only views `RayCast` and `GetBoard`.
- **`Snake`.** The per-snake record and its `Kill`/`Respawn` lifecycle.
- **`Int2` vector algebra (`Structs`).** Addition, the component-swapping scalar division, the quarter-turn operator `^`, and the equality operators.
- **The training driver (`Program`).**
  - Keyboard steering without reversal.
  - Elite selection (`BestBotFirst`) and `NextGeneration`.
  - `ResetStats` and the selection part of `CalculateStats`.
  - The fitness and apple accounting of `RunNets` (circle penalty, visited sets, per-round apple records).
  - The batching of bots into games.
- **`NeuralNetwork`.**
  - The text format of the weight file: the `{7,12,3}` size header, row lines and `#` separators. Weight values are opaque tokens.
  - The constructors and copy constructors (shapes and copied weights).
  - `CompareTo`.
  - The class-of-mutation choice of `Layer.Mutate`.

Files:

| file | module | models |
|---|---|---|
| `wrappers.dfy` | `Wrappers` | `Option`/`Result` |
| `structs.dfy` | `Structs` | `SnakeAI/Structs.cs` |
| `arena.dfy` | `Arena` | the bookkeeping of `SnakeAI/SnakeGame.cs` as predicates over sequences, and one lemma per kind of step |
| `snake_game.dfy` | `Game` | class `SnakeGame`, whose methods update the lists and arrays in place and are proved against the `Arena` lemmas |
| `snake.dfy` | `Snakes` | `SnakeAI/Snake.cs` |
| `networks.dfy` | `Networks` | `Layer` and `NeuralNetwork` of `SnakeAI/NeuralNetwork.cs` |
| `weight_file.dfy` | `WeightFile` | the weight-file text format, as functions over lines, plus the reading loop as a method |
| `training.dfy` | `Training` | the parts of `SnakeAI/Program.cs` listed above |

The arena is specified by one invariant, `SnakeGame.Valid()`, built on
`Arena.Bookkeeping`. It says:

- every cell is exactly one of free, snake or apple;
- `AvailablePoints` and `AvailableIndices` invert each other on the free cells;
- the snake and apple cells are distinct and carry their tags;
- the counts add up to the board size;
- following `SnakeIndices` from `head` visits every slot exactly once and comes back to `head`.

The constructor establishes the invariant and every step of `Tick` keeps it.

Randomness is passed in as parameters, and each draw's range is a precondition: `rnd.Next(Count)` in `SnakeGame`, and `NextSingle()` in the network initialisation and mutation.

## Model

| member | source | states |
|---|---|---|
| Structs.TruncDiv | SnakeAI/Structs.cs:18-21 | C# `/` on `int` truncates toward zero: for either sign of the divisor the remainder `a - q * b` has the sign of the dividend and is smaller than the divisor in magnitude |
| Structs.TruncRemainder | SnakeAI/Structs.cs:18-21 | the magnitude of the truncated quotient is the quotient of the magnitudes, with the sign chosen from the operands' signs |
| Structs.Add | SnakeAI/Structs.cs:13-16 | `a + b` is `a` moved by `b`: subtracting `b` gives `a` back, and the sum differs from `a` exactly when `b` is non-zero |
| Structs.Div | SnakeAI/Structs.cs:18-21 | `i / scalar` as written is the componentwise quotient of the swapped vector `(i.y, i.x)`; on equal components it equals the componentwise quotient |
| Structs.DivComponentwise | SnakeAI/Structs.cs:18-21 | the componentwise quotient; halving positive dimensions lands on the board they span, and dividing by 1 changes nothing |
| Structs.Rotate | SnakeAI/Structs.cs:23-31 | `i ^ 0 == i`; any other rotation is orthogonal to `i` and keeps its squared length |
| Structs.Eq | SnakeAI/Structs.cs:33-36 | `==` holds exactly when the two vectors are equal |
| Structs.Neq | SnakeAI/Structs.cs:38-41 | `!=` is exactly the negation of `==` |
| Structs.Equals | SnakeAI/Structs.cs:43-48 | `Equals(obj)` is true exactly for a boxed `Int2` equal to this one; for an `Int2` argument it agrees with `==`; null and other objects give false |
| Structs.AddCommutesAndAssociates | SnakeAI/Structs.cs:13-16 | componentwise `+` is commutative and associative, `(0,0)` is neutral and `-v` is the inverse |
| Structs.DivSwapsComponents | SnakeAI/Structs.cs:18-21 | `/` divides and swaps: `(x,y)/s` is the componentwise quotient of `(y,x)`, i.e. `(y/s, x/s)` for non-negative input |
| Structs.DivAgreesOnSquare | SnakeAI/Structs.cs:18-21 | on a vector with equal components the swap is invisible |
| Structs.RotateByZero | SnakeAI/Structs.cs:23-31 | `v ^ 0 == v` |
| Structs.RotateBySign | SnakeAI/Structs.cs:23-31 | only the sign of the rotation argument matters |
| Structs.RotateInverse | SnakeAI/Structs.cs:23-31 | `(v ^ 1) ^ -1 == v` and `(v ^ -1) ^ 1 == v` |
| Structs.RotateHalfAndFullTurn | SnakeAI/Structs.cs:23-31 | two quarter turns give `-v`, four give `v` |
| Structs.RotateIsOrthogonal | SnakeAI/Structs.cs:23-31 | `v ^ r` for `r != 0` has dot product 0 with `v`, so for non-zero `v` it is neither `v` nor `-v` |
| Structs.CellIndex | SnakeAI/SnakeGame.cs:107 | the row-major index `y * width + x` of an on-board cell lies in `[0, Size)` |
| Structs.RowMajorInRange | SnakeAI/SnakeGame.cs:107 | bounds of the row-major index for every on-board cell |
| Structs.DivStartCellOutOfRange | SnakeAI/SnakeGame.cs:53-54 | with the swapping `/`, a 10x1 board starts the snake at `(0,5)`, off the board, at cell index 50 of a 10-cell board |
| Structs.HalfIsOnBoard | SnakeAI/SnakeGame.cs:53-54 | halving the dimensions component by component always yields an on-board start cell |
| Structs.SquareStartOnBoard | SnakeAI/Program.cs:29 | on the square board the program builds, the start `Dims / 2` as written is the componentwise half, on the board, with its index inside the board |
| Structs.WideStartIsTransposed | SnakeAI/SnakeGame.cs:53-54 | on an 8x6 board the start as written is `(3,4)`, cell 35, on the board but not the centre `(4,3)`, cell 28 |
| Arena.SwapRemove | SnakeAI/SnakeGame.cs:82-90 | removal at `i` moves the last element into `i`, keeps every other position, and shortens the list by one |
| Arena.SwapRemoveRemovesOne | SnakeAI/SnakeGame.cs:82-90 | swap-with-last removal takes exactly one occurrence of the removed element out of the multiset, even when it is the last |
| Arena.RemoveKeepsInverse | SnakeAI/SnakeGame.cs:76-91 | `RemovePoint(pos, tag)` on a free `pos` keeps points and indices inverse on the free cells; `pos` gets `tag`; no other cell changes between free and occupied, and other tags are kept |
| Arena.ReplaceKeepsMarks | SnakeAI/SnakeGame.cs:145-148 | overwriting one tagged body cell with a newly tagged cell keeps "distinct, tagged, and every tagged cell listed" |
| Arena.AppendKeepsMarks | SnakeAI/SnakeGame.cs:132-137 | appending a newly tagged cell keeps the same property |
| Arena.SameTagsKeepMarks | SnakeAI/SnakeGame.cs:146-148 | retagging only other cells leaves the apples' marking intact |
| Arena.Follow | SnakeAI/SnakeGame.cs:152 | following `SnakeIndices` from a slot stays among the slots |
| Arena.Walk | SnakeAI/SnakeGame.cs:152 | the k-th slot of a walk is the k-fold link follow |
| Arena.FollowWalksOrder | SnakeAI/SnakeGame.cs:152 | following the links k times from the head reaches the k-th slot of the chain, and after a full lap the head again |
| Arena.ChainVisitsEverySlotOnce | SnakeAI/SnakeGame.cs:105-106 | from `head` the links visit every slot exactly once and return to `head` after `Count` steps |
| Arena.RotateKeepsCycle | SnakeAI/SnakeGame.cs:145-152 | on a move, the old tail slot becomes the head and the chain stays one cycle |
| Arena.GrowKeepsCycle | SnakeAI/SnakeGame.cs:132-152 | growth inserts the new slot (linked to the old tail) after the old head, makes it the head, and keeps a single cycle over all slots |
| Arena.GrownOrderListsSlots | SnakeAI/SnakeGame.cs:132-134 | after growth the chain order lists each of the `n + 1` slots exactly once |
| Arena.MoveKeepsBookkeeping | SnakeAI/SnakeGame.cs:142-152 | a move onto a free cell: the tail slot takes the new cell, the old tail cell takes its place in the free list, the new head is the old tail slot, and the whole invariant holds with the counts unchanged |
| Arena.MoveKeepsFreeList | SnakeAI/SnakeGame.cs:146-148 | the free-list update of a move keeps the inverse mapping |
| Arena.EatKeepsBookkeeping | SnakeAI/SnakeGame.cs:115-152 | eating apple `i`: the apple moves to the free cell `AvailablePoints[r]`, the snake grows by one slot holding the eaten cell, and the whole invariant holds with one free cell fewer |
| Arena.RetagKeepsFreeList | SnakeAI/SnakeGame.cs:137 | retagging an occupied cell (apple to snake) keeps the free list |
| Arena.Identity | SnakeAI/SnakeGame.cs:45-48 | the initial list `0 .. Size-1` |
| Arena.StartPlacing | SnakeAI/SnakeGame.cs:44-60 | the all-free board inverts itself, and after the snake cell is removed the placement invariant holds |
| Arena.PlaceAppleKeepsPlacing | SnakeAI/SnakeGame.cs:69-74 | `NewApple(i)` puts apple `i` on a free cell, tags it -2, touches no other apple slot and keeps the placement invariant |
| Arena.PlacingDone | SnakeAI/SnakeGame.cs:50-64 | once all three apples are placed, the board satisfies the full invariant with a one-slot self-linked snake |
| Game.BoardValue | SnakeAI/SnakeGame.cs:189-193 | `2 * tile + 3` for occupied cells: free 0, snake 1, apple -1, each in both directions |
| Game.CountingArray | SnakeAI/SnakeGame.cs:45-47 | a fresh array holding `0 .. n-1` |
| Game.SnakeGame.Valid | SnakeAI/SnakeGame.cs:14-31 | the invariant: the inverse array covers the board, each cell is a free cell listed in `AvailablePoints` at its `AvailableIndices` slot, a snake cell or an apple, the free, snake and apple counts add up to `Size`, and `head` is a slot of the snake |
| Game.SnakeGame.constructor | SnakeAI/SnakeGame.cs:33-65 | the new game satisfies the invariant: `Pos` is `Dims / 2` as written (components swapped), one snake cell at its index, three apples, `Size - 4` free cells, `Dir == (1,0)`, `ticks == 0` |
| Game.SnakeGame.PlaceApples | SnakeAI/SnakeGame.cs:62-64 | the apple loop of the constructor places the three apples and keeps the placement invariant |
| Game.SnakeGame.NewApple | SnakeAI/SnakeGame.cs:69-74 | apple `index` takes the free cell `AvailablePoints[r]`, which is removed and tagged -2; other apples stay; with no free cell it fails and changes nothing |
| Game.SnakeGame.RemovePoint | SnakeAI/SnakeGame.cs:76-91 | swap-with-last removal of `p` from the free list, `p` tagged, the inverse kept |
| Game.SnakeGame.Slide | SnakeAI/SnakeGame.cs:142-152 | the move branch, stated as the new lists, indices and head, keeping the invariant |
| Game.SnakeGame.Grow | SnakeAI/SnakeGame.cs:115-152 | the apple branch: apple re-placed, slot appended and linked, head moved, invariant kept; with no free cell it fails unchanged |
| Game.SnakeGame.FindApple | SnakeAI/SnakeGame.cs:117-126 | the first apple slot holding the cell |
| Game.SnakeGame.Enter | SnakeAI/SnakeGame.cs:104-160 | the on-board part of `Tick`, by the tag of the entered cell: snake gives `DEATH_SCORE` with nothing changed; an apple with no free cell gives the exception; an apple grows the snake and scores 20, or 10000 when no free cell is left; a free cell slides the snake and scores -1; the invariant always holds |
| Game.SnakeGame.Tick | SnakeAI/SnakeGame.cs:93-161 | `Pos` moves by `Dir`; border or self collision returns -10 and changes nothing else (the tail cell counts as a collision); otherwise as `Enter`, with `ticks` counted only on non-death ticks; the invariant is kept |
| Game.SnakeGame.RayCast | SnakeAI/SnakeGame.cs:165-181 | the ray passes `hit.x` free cells and stops at the first cell that is not free: `hit.y` is 1 when that cell is off the board, 0 when it is a snake cell and -1 when it is an apple, and nothing else |
| Game.SnakeGame.GetBoard | SnakeAI/SnakeGame.cs:183-197 | a fresh board of `Size` cells, free 0, snake 1, apple -1 |
| Snakes.Killed | SnakeAI/Snake.cs:66-71 | `Kill` empties both lists and clears `Alive`, keeping `Head`, `Pos` and `Dir` |
| Snakes.Respawned | SnakeAI/Snake.cs:77-83 | `Respawn(p)` appends `p` and slot 0, sets `Head` to 0 and `Pos` to the converted cell, and keeps `Dir` and `Alive` |
| Snakes.KillIsIdempotent | SnakeAI/Snake.cs:66-71 | killing twice is killing once |
| Snakes.RespawnAfterKill | SnakeAI/Snake.cs:77-83 | respawning a killed snake gives a one-segment self-linked chain `[p]`, `[0]`, head 0, still not alive, same heading |
| Snakes.RespawnOnLiveBodyGrows | SnakeAI/Snake.cs:77-83 | respawning a snake that was not killed only appends: the body has at least two segments |
| Snakes.Snake.constructor | SnakeAI/Snake.cs:53-61 | empty lists, `Dir == (1,0)`, alive, owner and character kept |
| Snakes.Snake.Kill | SnakeAI/Snake.cs:66-71 | the new state is `Killed` of the old one |
| Snakes.Snake.Respawn | SnakeAI/Snake.cs:77-83 | the new state is `Respawned` of the old one, with `Pos` the owner's conversion of `startPos` |
| Networks.ClassOf | SnakeAI/NeuralNetwork.cs:370-394 | the mutation class of a roll: negate up to 2, replace up to 4, scale up up to 6, scale down up to 8, otherwise keep; each an if-and-only-if, so every roll has exactly one class |
| Networks.MutateWeight | SnakeAI/NeuralNetwork.cs:366-395 | negation flips the sign; replacement lands in `[-1, 1)`; scaling up never decreases `|w|` and keeps the sign; scaling down never increases `|w|` and never flips the sign; keep leaves `w` |
| Networks.ScaleBy | SnakeAI/NeuralNetwork.cs:384-391 | multiplying by a factor of at least 1 (at most 1) does not shrink (grow) the magnitude, and never flips the sign |
| Networks.MutationIsRare | SnakeAI/NeuralNetwork.cs:370-394 | every roll above 8 leaves the weight unchanged |
| Networks.Compare | SnakeAI/NeuralNetwork.cs:242-247 | 1, -1 or 0 exactly when `>`, `<` or `==` |
| Networks.CompareIsConsistent | SnakeAI/NeuralNetwork.cs:237-248 | the comparison is antisymmetric and transitive |
| Networks.Layer.constructor | SnakeAI/NeuralNetwork.cs:269-282 | a fresh `[outputs, inputs]` weight matrix, each weight its draw minus 0.5 |
| Networks.Layer.Copy | SnakeAI/NeuralNetwork.cs:288-303 | the same sizes and a fresh matrix holding the parent's weights |
| Networks.Layer.Mutate | SnakeAI/NeuralNetwork.cs:361-397 | every weight becomes `MutateWeight` of its old value under its own roll and extra draw |
| Networks.CopyWeights | SnakeAI/NeuralNetwork.cs:302 | `Array.Copy` between matrices of one shape copies every cell |
| Networks.FormatRows | SnakeAI/NeuralNetwork.cs:214-220 | the text of every weight, row by row, in the matrix's shape |
| Networks.FormattedRowsFit | SnakeAI/NeuralNetwork.cs:214-220 | with a format yielding well-formed tokens, the formatted matrix has the row and column counts the reader checks |
| Networks.WriteRow | SnakeAI/NeuralNetwork.cs:216-221 | row `j` is every weight text followed by a space |
| Networks.WriteLayer | SnakeAI/NeuralNetwork.cs:214-222 | one row line per output of the layer |
| Networks.NeuralNetwork.Sizes | SnakeAI/NeuralNetwork.cs:202-207 | each layer's input count, then the last layer's output count |
| Networks.NeuralNetwork.constructor | SnakeAI/NeuralNetwork.cs:25-35 | `sizes.Length - 1` fresh layers with chained sizes, so the size list is given back; fitness 0 |
| Networks.NeuralNetwork.Copy | SnakeAI/NeuralNetwork.cs:41-52 | the same shapes and weights in fresh matrices, fitness reset to 0 |
| Networks.NeuralNetwork.FromWeights | SnakeAI/NeuralNetwork.cs:58-69 | one layer per matrix, shaped `[GetLength(0), GetLength(1)]` and holding its values; fitness 0 |
| Networks.NeuralNetwork.Mutate | SnakeAI/NeuralNetwork.cs:96-102 | every layer mutated with its own draws |
| Networks.NeuralNetwork.WeightsToFile | SnakeAI/NeuralNetwork.cs:198-230 | the header line then the body lines; for token-shaped weight texts the file reads back as matrices of the layers' shapes holding the written texts; with no layer there is no file |
| Networks.NeuralNetwork.WriteBody | SnakeAI/NeuralNetwork.cs:212-225 | per layer, its row lines and a `#` line |
| Networks.NeuralNetwork.SavedFileReadsBack | SnakeAI/NeuralNetwork.cs:119-196 | `WeightsFromFile` of the written file succeeds with one matrix per layer, of that layer's shape and weight texts |
| Networks.NeuralNetwork.WriteHeader | SnakeAI/NeuralNetwork.cs:201-209 | `{`, each size and a comma, the last size, `}` |
| Networks.NeuralNetwork.CompareTo | SnakeAI/NeuralNetwork.cs:237-248 | throws exactly on null; otherwise the fitness comparison |
| WeightFile.NatToString | SnakeAI/NeuralNetwork.cs:204 | the decimal text of a size is a non-empty digit run |
| WeightFile.NatToStringRoundTrip | SnakeAI/NeuralNetwork.cs:140 | `int.Parse` of the written decimal text gives the number back |
| WeightFile.DigitRunLength | SnakeAI/NeuralNetwork.cs:129-137 | the maximal run of digits at the start of the text |
| WeightFile.DigitRuns | SnakeAI/NeuralNetwork.cs:123-144 | the header scan yields non-empty digit runs |
| WeightFile.ParseHeader | SnakeAI/NeuralNetwork.cs:122-144 | reading the first line gives one size per digit run, each in `[0, int.MaxValue]`, or fails only by overflow |
| WeightFile.HeaderText | SnakeAI/NeuralNetwork.cs:201-209 | the written header is at least three characters, opens with `{` and closes with `}` |
| WeightFile.ParseNumbers | SnakeAI/NeuralNetwork.cs:139-141 | every run parses to a size in `[0, int.MaxValue]`, or the read fails with an overflow |
| WeightFile.SizeListSnoc | SnakeAI/NeuralNetwork.cs:202-206 | the size list is written one "size," at a time |
| WeightFile.RunLengthOfDigitsThenOther | SnakeAI/NeuralNetwork.cs:129-137 | a run ended by a non-digit is scanned exactly to its end |
| WeightFile.RunsOfDigitsThenSeparator | SnakeAI/NeuralNetwork.cs:123-144 | a run and its separator give one number, and the scan goes on after the separator |
| WeightFile.RunsOfSizeList | SnakeAI/NeuralNetwork.cs:123-144 | the runs of a written header are the decimal texts of the sizes |
| WeightFile.ParseNumbersOfTexts | SnakeAI/NeuralNetwork.cs:140 | parsing the decimal texts gives the sizes |
| WeightFile.RunsSkipNonDigit | SnakeAI/NeuralNetwork.cs:123-126 | a character that is not a digit starts no run and is skipped |
| WeightFile.HeaderRuns | SnakeAI/NeuralNetwork.cs:123-144 | the digit runs of a written header are the decimal texts of the layer sizes, in order |
| WeightFile.HeaderRoundTrip | SnakeAI/NeuralNetwork.cs:201-209 | reading the written header gives back the layer-size list |
| WeightFile.SpaceFreeLength | SnakeAI/NeuralNetwork.cs:174-181 | a token runs to the next space |
| WeightFile.Tokens | SnakeAI/NeuralNetwork.cs:167-190 | the weights of a row line, each starting with a digit or `-` and free of spaces |
| WeightFile.RowText | SnakeAI/NeuralNetwork.cs:216-221 | a row line is empty exactly when the row has no weights, and otherwise ends with a space |
| WeightFile.TokenThenSpace | SnakeAI/NeuralNetwork.cs:167-188 | a written weight text and its space read back as that one weight, and the scan resumes after the space |
| WeightFile.RowTextSnoc | SnakeAI/NeuralNetwork.cs:216-220 | a row line is written one "token " at a time |
| WeightFile.RowRoundTrip | SnakeAI/NeuralNetwork.cs:167-190 | reading a written row line gives back its weight texts |
| WeightFile.SpaceFreeOfToken | SnakeAI/NeuralNetwork.cs:174-181 | a written token is scanned exactly to its terminating space |
| WeightFile.RowIsNotSeparator | SnakeAI/NeuralNetwork.cs:158 | a written row line is never the `#` separator |
| WeightFile.Blank | SnakeAI/NeuralNetwork.cs:150 | a fresh matrix of the given shape |
| WeightFile.Allocate | SnakeAI/NeuralNetwork.cs:147-151 | `layers.Count - 1` matrices, matrix `i` shaped `[layers[i+1], layers[i]]` |
| WeightFile.ReadLine | SnakeAI/NeuralNetwork.cs:156-192 | a `#` succeeds only when matrix `w` exists with all its rows read, and moves to the next matrix; a row succeeds only with exactly `GetLength(1)` weights, and stores them as row `y`; shapes never change |
| WeightFile.ReadBody | SnakeAI/NeuralNetwork.cs:155-193 | reading the body line by line keeps the shapes |
| WeightFile.ReadBodyStep | SnakeAI/NeuralNetwork.cs:155-193 | the body read stops at the first failing line and otherwise continues from the state that line leaves |
| WeightFile.ReadWeights | SnakeAI/NeuralNetwork.cs:119-196 | a successful read gives well-shaped matrices |
| WeightFile.ReadKeepsHeaderShapes | SnakeAI/NeuralNetwork.cs:146-151 | whatever the body holds, a successful read has the shapes the header announced |
| WeightFile.RowLinesSnoc | SnakeAI/NeuralNetwork.cs:214-222 | the row lines of a matrix, row by row |
| WeightFile.BodyLinesSnoc | SnakeAI/NeuralNetwork.cs:212-225 | the body, matrix by matrix, each followed by `#` |
| WeightFile.BodyLinesPrefix | SnakeAI/NeuralNetwork.cs:212-225 | the body of the first `i + 1` matrices extends that of the first `i` |
| WeightFile.ReadRows | SnakeAI/NeuralNetwork.cs:166-192 | reading the written remaining rows of matrix `w` stores each of them in its row |
| WeightFile.ReadRowLine | SnakeAI/NeuralNetwork.cs:156-192 | a non-`#` line holding exactly a row's weights stores them as row `y` of matrix `w` and moves to the next row |
| WeightFile.ReadSeparator | SnakeAI/NeuralNetwork.cs:158-163 | a `#` after the last row of matrix `w` moves on to row 0 of matrix `w + 1` |
| WeightFile.BodyLinesCons | SnakeAI/NeuralNetwork.cs:212-225 | the written body is the first matrix's row lines, its `#`, then the rest |
| WeightFile.ReadOneRow | SnakeAI/NeuralNetwork.cs:166-192 | one written row line stores its weight texts as the next row |
| WeightFile.StoreRowsStep | SnakeAI/NeuralNetwork.cs:186 | storing the first row and then the rest stores all of them |
| WeightFile.ReadBlocks | SnakeAI/NeuralNetwork.cs:155-193 | reading the written matrices from matrix `w` on fills each with its written rows and ends past the last one |
| WeightFile.BlocksFitTail | SnakeAI/NeuralNetwork.cs:160-162 | after one matrix and its `#`, the remaining blocks still fit the remaining matrices |
| WeightFile.ReadOneBlock | SnakeAI/NeuralNetwork.cs:155-193 | one written matrix and its `#` are read as that matrix's rows, moving on to the next matrix |
| WeightFile.FilledStep | SnakeAI/NeuralNetwork.cs:186 | filling matrix `w` and then the rest fills them all |
| WeightFile.FileRoundTrip | SnakeAI/NeuralNetwork.cs:119-196 | reading back what `WeightsToFile` writes gives the written shapes holding the written weight texts |
| WeightFile.ReadOneLine | SnakeAI/NeuralNetwork.cs:156-192 | one pass of the reading loop gives exactly what `ReadLine` specifies: the error it raises, or the new counters and matrices |
| WeightFile.WeightsFromLines | SnakeAI/NeuralNetwork.cs:154-193 | the reading loop with its counters `w` and `y` computes exactly `ReadWeights`, errors included |
| Training.BatchesCoverBots | SnakeAI/Program.cs:168-179 | for one or `NUM_COMP` nets per game, `CAPACITY % n == 0` and the batches `i * n + j` cover every bot exactly once |
| Training.KeyDir | SnakeAI/Program.cs:469-477 | W, A, S, D give the four unit steps; other keys none |
| Training.Steer | SnakeAI/Program.cs:469-480 | the heading becomes the key's step unless there is none or it is the exact reverse of the heading |
| Training.NoReversal | SnakeAI/Program.cs:478-480 | a moving snake is never turned back onto itself nor stopped |
| Training.FirstMax | SnakeAI/Program.cs:798-805 | the first index of largest fitness: nothing is larger, and everything before it is smaller |
| Training.FirstMaxSnoc | SnakeAI/Program.cs:416-423 | one more bot takes over as best exactly when it is strictly fitter |
| Training.FirstMaxIsUnique | SnakeAI/Program.cs:798-805 | the first maximal index is unique |
| Training.Fitnesses | SnakeAI/Program.cs:418 | the fitness of each bot, in order |
| Training.MaxOrZero | SnakeAI/Program.cs:428-431 | no count is larger, it is not below 0, and it is 0 or one of the counts |
| Training.MaxOrZeroSnoc | SnakeAI/Program.cs:428-431 | one more count raises the best only when it is larger |
| Training.ShapedIffSizes | SnakeAI/Program.cs:31-34 | a network has the shape of `Layers` exactly when its size list is `Layers` |
| Training.Swap | SnakeAI/Program.cs:808 | slots 0 and `k` exchanged, every other slot kept |
| Training.SwapKeepsMultiset | SnakeAI/Program.cs:808 | the swap is a permutation |
| Training.SwapBestFirst | SnakeAI/Program.cs:795-809 | swapping the first best to the front keeps the population and puts a bot of maximal fitness first |
| Training.ReplaceKeepsPopulation | SnakeAI/Program.cs:818-822 | putting a new network of the right shape into a slot keeps the population distinct and shaped |
| Training.Breed | SnakeAI/Program.cs:820-821 | a fresh copy of the best bot, fitness 0, each layer mutated from the best's weights |
| Training.Trainer.constructor | SnakeAI/Program.cs:123-126 | `CAPACITY` fresh networks of shape `Layers`, fitness 0, apple records 0, generation 0 |
| Training.Trainer.DoUserMove | SnakeAI/Program.cs:465-483 | at most one key is taken; with none nothing changes; Escape returns true and keeps `Dir`; any other key steers by `Steer` |
| Training.Trainer.FindBest | SnakeAI/Program.cs:798-805 | the scan with strict `>` finds the first bot of largest fitness |
| Training.Trainer.BestBotFirst | SnakeAI/Program.cs:795-809 | only slots 0 and the first argmax are swapped; the array is a permutation of the old one; `Bots[0]` has maximal fitness |
| Training.Trainer.NextGeneration | SnakeAI/Program.cs:811-823 | generation +1; `Bots[0]` is the old best with its fitness and weights; every other slot is a fresh mutated copy of it with fitness 0 |
| Training.Trainer.BreedFromFirst | SnakeAI/Program.cs:818-822 | slot 0 untouched; each slot from 1 on gets a fresh mutated copy of `Bots[0]` |
| Training.Trainer.ResetStats | SnakeAI/Program.cs:783-793 | every fitness 0 and a fresh, zeroed apple-record array |
| Training.Trainer.CalculateStats | SnakeAI/Program.cs:407-451 | the returned index is the first bot of largest fitness (-1 with no bot), `maxApples` is its record, and `bestApples` is the largest record, floored at 0 |
| Training.Credit | SnakeAI/Program.cs:740-747 | a tick never credits more than the score, and credits exactly the score when the new head was not visited |
| Training.CreditChargesRevisits | SnakeAI/Program.cs:740-747 | a tick adds the score, minus 4 exactly when the new head was already visited |
| Training.Deaths | SnakeAI/Program.cs:750-754 | the number of deaths is at most the number of snakes |
| Training.DeathsCountDeathScores | SnakeAI/Program.cs:750-754 | the deaths counted are the occurrences of `DEATH_SCORE` |
| Training.ScanStep | SnakeAI/Program.cs:738-763 | one more snake extends the death count and the meal scan |
| Training.SomeEatsIffExists | SnakeAI/Program.cs:755-761 | the tick counter is reset exactly when some snake ate or won |
| Training.Episode.constructor | SnakeAI/Program.cs:694-702 | the team is `Bots[bot1 .. bot1 + numSnakes - 1]`, with empty visited sets and zero apple counts |
| Training.Episode.StartRound | SnakeAI/Program.cs:708 | every snake alive at the start of a round |
| Training.TotalDeathsSnoc | SnakeAI/Program.cs:750-754 | the deaths counted over one more tick grow by that tick's deaths |
| Training.TotalDeathsGrow | SnakeAI/Program.cs:706-764 | deaths only accumulate over a round, so with `PlayRound` some snake was alive before every tick played |
| Training.Episode.PlayTick | SnakeAI/Program.cs:710-763 | one pass of the round loop: the living snakes drop by the tick's deaths, and the tick counter restarts exactly when some snake ate. Each snake's fitness grows by the tick's `Credit`, charged against its visited set with the head it left added if it lives. Its visited set is emptied when it died or ate and otherwise gains that head if it lives, and its apple count grows by one exactly when it ate |
| Training.FitnessAtMostScores | SnakeAI/Program.cs:740-747 | over any number of ticks a snake's fitness grows by at most the sum of its scores: the circle penalty only lowers it |
| Training.Episode.PlayRound | SnakeAI/Program.cs:706-764 | a round starts with every snake alive, and the living count is always the snakes minus the deaths scored so far. Before the last tick played some snake was still alive. The round stops short of the given ticks only when no snake lives or the tick counter reached `2 * BOARD_WIDTH²`, and once every snake has died it stops. Each snake's apple count grows by the ticks in which it ate; its visited set and fitness are the folds `VisitedAfter` and `FitnessAfter` of the ticks played |
| Training.Episode.AccountTick | SnakeAI/Program.cs:710-763 | one tick of a round extends every snake's visited-set, fitness and meal folds by that tick, and drops the living count by its deaths |
| Training.Episode.RecordHeads | SnakeAI/Program.cs:718-729 | each living snake's head joins its visited set; the dead snakes' sets stay |
| Training.Episode.ScoreSnake | SnakeAI/Program.cs:741-762 | the bot gains the circle-penalised score; its visited set is cleared on death, apple or win; apples +1 and ticks reset on apple or win; `alive` -1 on death; nothing else changes |
| Training.Episode.ScoreNext | SnakeAI/Program.cs:738-763 | the accounting of the first `j + 1` snakes, given that of the first `j` |
| Training.Episode.ScoreTick | SnakeAI/Program.cs:735-764 | after a tick each snake is scored independently, `alive` drops by the number of deaths, and the tick counter is 0 exactly when some snake ate |
| Training.Episode.EndRound | SnakeAI/Program.cs:766-780 | each team bot's record becomes the larger of the old record and the round's count; other records stay; counts, visited sets and ticks reset |

## Left out

- `SnakeAI/ConsoleExtender.cs`, `SnakeGame.DrawBoard`, and all console input and output are not modelled: they are Win32 calls and rendering. This covers `Main`, `ChangeMode`, the statistics printout and the checkpoint pause in `CalculateStats`, and `Thread.Sleep`.
- Concurrency is not modelled: `GetInputParallel` (a background key poller) and the `Parallel.For` over batches. `DoUserMove` works on a queue given as a field, and the batches are stated by `Training.BatchesCoverBots`.
- The float numerics of the network are not modelled: `FeedForward`, activations, backpropagation, `UpdateWeights`, `DeepNet`/`TrainBestMove`/`DoBotMove`. Neither is the BFS `GetBestMove`, which relies on `Int2` operators and game methods that the shown sources do not define.
- `SnakeAI/PopulationNetwork.cs`, `SnakeAI/Neuralnet.cs` and `SnakeAI/QLearning.cs` are not part of this model (unused by the program's main loop).
- `System.Random` is not modelled. Every draw is a parameter with its range as a precondition. The model does not fix the order in which `Layer.Mutate` consumes draws: each weight gets its own roll and its own extra draw.
- `float` is modelled as `real`: rounding, NaN and infinities are not. The weight file keeps weight values as opaque text tokens, and formatting is a function parameter. `float.Parse` of a token is not modelled.
- Files are not modelled: `File.ReadAllLines` and `StreamWriter` become a sequence of lines.
- .NET `int` is modelled as unbounded. Board sizes, scores and counts stay far below 2^31. `int.Parse` overflow of a header size is modelled as a read error.
- `RunNets` drives a multi-snake `SnakeGame` (with `Snakes[j]`, `RespawnSnake`, an `int[]`-returning `Tick` and a settable `Ticks`) that is not among the shown sources. Its accounting is modelled over the per-tick scores and head positions, given as parameters. The game's own tick counter is the parameter `ticksAfter`. Respawning and `Seeds` are left out.
- `Training.Trainer.CalculateStats`: the average and minimum fitness are not modelled; they are only printed.
- Loading a weights file into `Bots` in `Main` is not modelled. `WeightFile.WeightsFromLines` stops at the weight text and does not call `new NeuralNetwork(float[][,])`.
- The `NeuralNetwork(string path)` constructor is not modelled: it only chains file reading to `FromWeights`.
- `Game.SnakeGame.GetBoard` returns integers where the source returns `float[]`, whose values are the same small integers.
- `Game.SnakeGame.RayCast` requires a non-zero direction. With `(0,0)` the source loops forever on a free cell.
- `Game.SnakeGame.constructor` requires the index of the as-written start `Dims / 2` to lie inside the board. Where it does not (a 10x1 board, say), the source throws `IndexOutOfRangeException` in `RemovePoint`, and that exception is not modelled. Every square board meets the condition (`Structs.SquareStartOnBoard`), and so does 8x6 (`Structs.WideStartIsTransposed`).
- `Game.SnakeGame.constructor` requires at least 4 cells. On smaller boards the source throws inside `NewApple` while placing apples, and that exception path is not modelled there. Ticks model it as `Exhausted`.
- `Game.SnakeGame.Tick`: once an apple is eaten with no free cell left, the source throws and leaves `Pos` moved. The model returns `Exhausted` with only `Pos` changed.
- `WeightFile.IsDigit` accepts only the ASCII digits. The source's `char.IsDigit` (NeuralNetwork.cs:126, 133, 171) also accepts other Unicode decimal digits. On such a digit the header scan would include it in a run, and `int.Parse` would throw `FormatException`. That error path is not modelled.
- `Networks.NeuralNetwork.constructor` requires at least one size. With an empty size list the source's `new Layer[layers.Length - 1]` throws `OverflowException`, which is not modelled.
- `Training.CIRCLE_PENALTY` is `MOVE_SCORE * 4` with the single-snake arena's `MOVE_SCORE` of -1, so -4. The source takes `MOVE_SCORE` from the multi-snake game, which is not part of this model; its value is taken to be the same -1.
- `Training.Episode.constructor` requires the team's bots to be distinct objects, which the program's `Bots` array always is.
- The `Int2` operators `-` and `*` used elsewhere in `Program.cs` are not defined in `Structs.cs`, and `Snake.cs`'s `Owner.IntToInt2` is absent from the shown game. The former are left out; the latter is an uninterpreted function field of `Snakes.Snake`.

## Findings

| source | as written | input that shows it | evidently intended | confidence | as-written member | corrected member |
|---|---|---|---|---|---|---|
| SnakeAI/Structs.cs:18-21 | `i / scalar` divides and swaps the components, so `Pos = Dims / 2` starts the snake at `(Dims.y/2, Dims.x/2)` | a 10x1 board: start `(0,5)` is off the board and its index 50 exceeds the 10 cells, so `RemovePoint(50, -1)` indexes out of range | componentwise division `(x/s, y/s)`, always on the board; the two agree on the square boards the program builds, so the game model keeps the division as written and requires its start index on the board | not executed | Structs.DivStartCellOutOfRange | Structs.HalfIsOnBoard |
