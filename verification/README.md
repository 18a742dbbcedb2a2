# Snake game engine in Dafny

This project models the game-state engine of the single-file browser Snake game
(`Snake/script.js`). It covers:

- the tick that moves the snake;
- the food slot with its respawn cooldown and bonus expiry;
- the rejection-sampling obstacle generator;
- the round lifecycle (reset, start, pause, game over);
- the top-5 scoreboard;
- the input classifiers for keys and swipes;
- the settings handlers.

The page keeps the game state in module-level variables. Here that state is one `Game` object
(`engine.dfy`), whose methods change its fields the way the page's functions do. Each method is
proved against a pure description of what it computes, kept in the other modules:

| module | file | contents |
|---|---|---|
| `Wrappers` | `wrappers.dfy` | `Option` |
| `Random` | `random.dfy` | `RandomValue`, one value of `Math.random()`; `randInt` over it |
| `Grid` | `grid.dfy` | cells and directions; `inSnake`/`inObstacles`; the reversal rule; JavaScript's truncating `%`; the next head in wall and wrap mode |
| `Food` | `food.dfy` | the food slot; the free-cell scan (a method with nested loops, and the function it computes); `spawnFood`, `clearFood` and expiry |
| `Obstacles` | `obstacles.dfy` | `generateObstacles` as a function of its draws, with its guarantees |
| `Difficulty` | `difficulty.dfy` | the tick-rate formula |
| `Scoreboard` | `scoreboard.dfy` | `addScoreEntry` as a pure list-to-list function: a stable descending sort, then the first five |
| `Input` | `input.dfy` | the keydown map and the swipe classifier |
| `Rules` | `rules.dfy` | the collision checks of a tick; the board a legal step produces; the board a reset builds; the state invariant |
| `Engine` | `engine.dfy` | class `Game` |

The clock and randomness are parameters:

- Every `Math.random()` call is a parameter of type `RandomValue`, a real in [0, 1). `Draws` bundles
  the values one tick or reset may use. `generateObstacles` reads a stream `nat -> RandomValue`: try t
  takes its x from draw 2t and its y from draw 2t + 1.
- `performance.now()` is a `now: nat` argument, and the ISO date of a score entry is a string
  argument.

`Game.Valid()` is the state invariant. The constructor, `Reset` and every tick keep it:

- the snake is non-empty, its segments pairwise distinct and on the board;
- obstacles are interior, pairwise distinct, off the snake and off the food, and there are at
  most `floor(cols * rows / 6)` of them;
- there is at most one food, on a board cell off the snake;
- normal food has no expiry, and bonus food expires 3.0 to 5.2 s after it was created.

Two behaviours of the code are modelled as written:

- `tick` has no `running` guard.
  - A tick that collides calls `gameOver` and leaves the board untouched. `Game.Tick` states
    this, and states that the next tick meets the same collision.
  - So when one animation frame drains several ticks, every tick after the collision calls
    `gameOver` again: the high score is recomputed and the scoreboard gets one more entry.
  - The model keeps this: `RunTicks` calls `Tick` without a guard.
- After any food is eaten, obstacles are regenerated when the draw exceeds 0.85 and obstacles
  are on (`Snake/script.js:163`). The comment next to that line (`Snake/script.js:162`) says
  this happens only after bonus food. The model follows the code: `Rules.Regenerated`
  does not look at the food's kind.

## Model

| member | source | states |
|---|---|---|
| Random.RandInt | Snake/script.js:89 | `randInt(min, max)` always returns an integer in [min, max] |
| Random.RandIntCovers | Snake/script.js:89 | every integer of [min, max] is returned for some draw, so the range is exact |
| Grid.InCells | Snake/script.js:91-92 | `inSnake`/`inObstacles` hold exactly when some listed cell has the same x and y |
| Grid.InCellsIsMembership | Snake/script.js:91-92 | the coordinate test coincides with membership of the cell in the list |
| Grid.NextDir | Snake/script.js:145 | the pending direction replaces `dir` unless it is the exact reverse; with no pending direction, or a reversal, `dir` stays; the result is never the reverse of `dir` |
| Engine.Game.ApplyPendingDirection | Snake/script.js:145 | `dir` becomes the reversal-rule direction of the old `dir` and `nextDir`, and the pending slot is emptied |
| Grid.JsRem | Snake/script.js:149 | JavaScript `%` with a positive modulus: strictly inside (-m, m), with the sign of the dividend, equal to Dafny's `%` on non-negative dividends, and always differing from the dividend by a multiple of m |
| Grid.NextHead | Snake/script.js:146-149 | in wall mode the head moves by the direction unreduced; in wrap mode, from an on-board head, it lands on the board, each coordinate re-entering at the opposite edge |
| Grid.WrapReentersOppositeEdge | Snake/script.js:149 | for a coordinate at most one step off the board, `(v + n) % n` is the torus position: -1 goes to n - 1, n goes to 0, others stay |
| Grid.WallStepLeavesBoard | Snake/script.js:146-151 | in wall mode a step from an on-board head leaves the board exactly when it crosses the edge it faces |
| Grid.WrapScenario | Snake/script.js:149 | on the 20 x 20 board a head at x = 19 moving right in wrap mode re-enters at x = 0 |
| Rules.ProbeSpec | Snake/script.js:146-155 | a tick's verdict: out of bounds exactly when wall mode leaves the grid; obstacle and self hits only on taken cells, the tail included; an advance exactly when the new cell is free, and then on the board |
| Rules.AdvancedValid | Snake/script.js:157-166 | a legal step keeps the segments distinct and on the board, puts the new head last, grows the snake by one exactly when it eats, and adds no cell but the head |
| Rules.PushThenShift | Snake/script.js:157-165 | `push(head)` then `shift()` leaves the old body without its tail, plus the head |
| Rules.StepConsistent | Snake/script.js:157-166 | a legal step keeps the board invariant: eating empties the food slot, moving keeps the food |
| Rules.SpawnConsistent | Snake/script.js:97-122 | a spawn attempt never breaks the board invariant |
| Rules.ExpireConsistent | Snake/script.js:172 | the expiry check never breaks the board invariant |
| Rules.RegenConsistent | Snake/script.js:163 | regenerated obstacles keep the board invariant and stay within the cap |
| Rules.SteppedEating | Snake/script.js:157-172 | on food the snake grows by the head; the score rises by 1 (normal) or 3 (bonus); the slot is empty with the cooldown started at `now`, so that tick cannot respawn; obstacles stay unless regenerated |
| Rules.SteppedMoving | Snake/script.js:157-172 | off food the snake keeps its length, loses its tail and gains the head; score and obstacles stay; present food stays unless it has expired |
| Rules.SteppedConsistent | Snake/script.js:157-172 | a non-terminating tick keeps the state invariant |
| Rules.StartSnake | Snake/script.js:131-132 | the new snake has three distinct on-board segments, the middle one at the grid centre and each one step right of the previous |
| Rules.StartBoardConsistent | Snake/script.js:129-135 | whatever the draws, a reset board satisfies the state invariant |
| Rules.Probe | Snake/script.js:146-155 | the collision verdict of a tick; its contract is `Rules.ProbeSpec` |
| Rules.Advanced | Snake/script.js:157-166 | the snake after a legal step; its contract is `Rules.AdvancedValid`, and `Rules.PushThenShift` ties it to push-then-shift |
| Rules.Fed | Snake/script.js:157-161 | the board once the head has eaten; its effect is stated by `Rules.SteppedEating` |
| Rules.Regenerated | Snake/script.js:163 | the optional obstacle regeneration after eating; `Rules.RegenConsistent` and `Rules.SteppedEating` state its contract |
| Rules.Eaten | Snake/script.js:159-163 | feeding followed by the optional regeneration; stated by `Rules.SteppedEating` |
| Rules.Slid | Snake/script.js:164-166 | the board once the tail is shifted off; stated by `Rules.SteppedMoving` |
| Rules.Moved | Snake/script.js:157-166 | eating on the food cell, sliding otherwise; stated by `Rules.SteppedEating` and `Rules.SteppedMoving` |
| Rules.Restocked | Snake/script.js:167-172 | the spawn attempt, then the expiry check; stated by `Rules.SteppedEating` and `Rules.SteppedMoving` |
| Rules.Stepped | Snake/script.js:157-172 | the board after a legal step; its contracts are `Rules.SteppedEating`, `Rules.SteppedMoving` and `Rules.SteppedConsistent` |
| Rules.StartBoard | Snake/script.js:129-135 | the board a reset builds; its contract is `Rules.StartBoardConsistent` |
| Food.FreeList | Snake/script.js:111-114 | the `free` array; `Food.FreeListMembers` and `Food.FreeListOrdered` pin it down, and `Food.CollectFree` computes it |
| Food.PickKind | Snake/script.js:104-108 | the food type; `Food.SpawnSpec` states that spawned food has this kind |
| Food.Spawn | Snake/script.js:97-122 | `spawnFood` on the slot; its contract is `Food.SpawnSpec` |
| Food.Cleared | Snake/script.js:123 | `clearFood`; `Food.CooldownBlocksImmediateRespawn` states what it implies for the next spawn |
| Food.Expire | Snake/script.js:172 | the expiry check; its contracts are `Food.NormalFoodNeverExpires` and `Food.BonusExpiryWindow` |
| Obstacles.Sample | Snake/script.js:126 | the rejection loop from a given state; its contracts are `Obstacles.SampleValid` and `Obstacles.SampleTakesFreshDraws` |
| Obstacles.Generated | Snake/script.js:126 | `generateObstacles(count)` for given draws; its contract is `Obstacles.GeneratedValid` |
| Scoreboard.Insert | Snake/script.js:51 | one insertion step of the stable sort; its contract is `Scoreboard.InsertSpec` |
| Scoreboard.SortDesc | Snake/script.js:51 | the stable descending sort; its contract is `Scoreboard.SortDescSpec`, and `Scoreboard.StableSortUnique` makes it the only such sort |
| Scoreboard.AddScoreEntry | Snake/script.js:48-53 | push, sort, keep five; its contracts are `Scoreboard.AddScoreEntrySpec` and `Scoreboard.AddToSortedBoard` |
| Engine.StartValid | Snake/script.js:129-135 | a game whose board is a reset board satisfies `Valid()` |
| Engine.MaxObstaclesIsLimit | Snake/script.js:126 | the game's obstacle cap is `floor(cols * rows / 6)` of its board |
| Food.FreeListMembers | Snake/script.js:111-114 | a cell is in the free list exactly when it is on the board and on neither the snake nor an obstacle |
| Food.FreeListOrdered | Snake/script.js:112-114 | the free list is in the loops' scan order (by column, then row), so it has no duplicates |
| Food.CollectFree | Snake/script.js:111-114 | the nested loops build exactly the free list |
| Food.NewFood | Snake/script.js:116-120 | created food lies on a free cell, has the chosen kind and creation time `now`, and a normal or 3.0 to 5.2 s bonus expiry |
| Food.SpawnSpec | Snake/script.js:97-122 | `spawnFood` changes nothing when food is present, during the 200 ms cooldown, or with no free cell; otherwise it places well-formed food of the picked kind on a free cell and resets the cooldown mark |
| Food.NormalFoodNeverExpires | Snake/script.js:172 | normal food is never removed by the expiry check |
| Food.BonusExpiryWindow | Snake/script.js:172 | bonus food survives every check up to 3000 ms after creation and is gone at any check after 5200 ms |
| Food.CooldownBlocksImmediateRespawn | Snake/script.js:99-102 | within 200 ms of a clear, a spawn attempt leaves the slot empty |
| Engine.Game.SpawnFood | Snake/script.js:97-122 | the new slot and cooldown mark are `Spawn` of the old ones over the current free list |
| Engine.Game.ClearFood | Snake/script.js:123 | the slot empties and the cooldown mark becomes `now` |
| Obstacles.Draw | Snake/script.js:126 | every candidate cell is interior |
| Obstacles.SampleValid | Snake/script.js:126 | from a placeable partial list, the loop ends with a placeable list, at most `max` long, that extends it |
| Obstacles.GeneratedValid | Snake/script.js:126 | for any draws the result has at most min(count, limit) cells, pairwise distinct, interior, and off the snake and the food |
| Obstacles.SampleTakesFreshDraws | Snake/script.js:126 | when no candidate is rejected, the loop keeps exactly the next `max - |acc|` candidates in draw order |
| Engine.Game.GenerateObstacles | Snake/script.js:126 | the `while` loop replaces the obstacles by the list `Generated` describes for the draws |
| Difficulty.TickRate | Snake/script.js:175 | the tick rate never exceeds 30 and never falls below min(base, 30) |
| Difficulty.TickRateMonotone | Snake/script.js:175 | a higher score never lowers the tick rate |
| Difficulty.TickRateStep | Snake/script.js:175 | six more points add exactly one tick per second until the cap |
| Difficulty.TickRateReachesCap | Snake/script.js:175 | from 6 * (30 - base) points on, the rate is 30 |
| Scoreboard.SortDescSpec | Snake/script.js:51 | the sort is descending, a permutation, and keeps entries of equal score in their original order |
| Scoreboard.InsertSpec | Snake/script.js:51 | inserting into a sorted list keeps it sorted, adds exactly the entry, and puts it after every earlier entry of its score |
| Scoreboard.StableSortUnique | Snake/script.js:51 | two descending lists with the same entries per score, in the same order, are equal, so every stable sort gives this one |
| Scoreboard.KeepBest | Snake/script.js:52 | the first n of a sorted list stay sorted, are a sub-multiset, and score at least as much as every dropped entry |
| Scoreboard.AddScoreEntrySpec | Snake/script.js:48-53 | the new board has min(5, stored + 1) entries, descending, with the first entries of each score in insertion order, and no dropped entry outscoring a kept one |
| Scoreboard.AddToSortedBoard | Snake/script.js:48-53 | on a sorted board the entry goes in after every entry scoring at least as much, and the result is cut to five |
| Engine.Game.StartGame | Snake/script.js:138 | a stopped game starts unpaused at max(1, speed); a running game is left as it is |
| Engine.Game.PauseGame | Snake/script.js:139 | the pause flag flips |
| Engine.Game.GameOver | Snake/script.js:140 | running off and paused on; the high score becomes the larger of itself and the score; the round's entry is added to the scoreboard |
| Engine.Game.ResetBoard | Snake/script.js:130-135 | the board becomes the reset board for the current obstacle setting and draws |
| Engine.Game.Reset | Snake/script.js:129-135 | the state is valid, the board is the reset board, the snake faces right with nothing pending, and moves are 0 |
| Engine.Game.constructor | Snake/script.js:30-41 | page start-up: the stored high score, scoreboard and settings are taken, the game is stopped, the tick rate is the speed, and a round is reset |
| Engine.Game.Feed | Snake/script.js:157-161 | the board becomes `Fed`: head pushed, food's points added, slot cleared at `now` |
| Engine.Game.Eat | Snake/script.js:159-163 | the board becomes `Eaten`: fed, then obstacles regenerated with count `6 + floor(score / 5)` when on and the draw exceeds 0.85 |
| Engine.Game.MoveHead | Snake/script.js:157-166 | the board becomes `Moved`: eaten on food, otherwise the tail shifted off |
| Engine.Game.RestockFood | Snake/script.js:167-172 | the slot becomes `Restocked`: a spawn attempt when empty, then expired food cleared |
| Engine.Game.Step | Snake/script.js:157-175 | from a valid state and a free on-board head, the state stays valid, the board becomes `Stepped`, and the tick rate follows the new score |
| Engine.Game.CollideOrStep | Snake/script.js:146-175 | a blocked head ends the game with the board and tick rate untouched; a free head makes the board `Stepped` and keeps the game flags and scoreboard |
| Engine.Game.Tick | Snake/script.js:145-177 | `tick` keeps `Valid()`, applies the reversal rule, counts the move before the checks, and either ends the game with the board untouched (so that the next tick is blocked too) or steps the board |
| Engine.Game.RunTicks | Snake/script.js:199 | draining k ticks keeps the state valid and adds k moves |
| Input.KeyDirection | Snake/script.js:202 | exactly the twelve mapped keys have a direction |
| Input.LettersMatchArrows | Snake/script.js:202 | w, s, a, d in either case steer like the up, down, left and right arrows |
| Input.KeyActionOf | Snake/script.js:202 | space and only space toggles pause; exactly the mapped keys steer, in their mapped direction |
| Engine.Game.HandleKey | Snake/script.js:202 | space flips pause; a mapped key sets the pending direction and starts a stopped game; other keys change nothing |
| Input.ClassifySwipe | Snake/script.js:205 | on fractional pixel offsets, a tap exactly when both are under 10 px; otherwise a horizontal swipe exactly when the x offset dominates, pointing the way of the drag |
| Input.SwipeReversed | Snake/script.js:205 | the opposite drag gives the opposite swipe |
| Input.SwipeTieIsVertical | Snake/script.js:205 | a drag with equal offsets of at least 10 px is a vertical swipe |
| Engine.Game.HandlePointerDown | Snake/script.js:204 | the drag's starting point is recorded |
| Engine.Game.HandlePointerUp | Snake/script.js:205 | without a recorded start nothing changes; otherwise, on the drag from the start, a tap starts a stopped game or flips pause, a swipe sets the pending direction and starts a stopped game, and the start is forgotten |
| Engine.Game.SetSpeed | Snake/script.js:212 | the tick rate becomes max(1, speed) |
| Engine.Game.SetWrap | Snake/script.js:149-151 | the wrap setting read by later ticks is replaced |
| Engine.Game.SetObstaclesEnabled | Snake/script.js:214 | switching on generates six obstacles, switching off removes them all; the state stays valid |

## Left out

- Canvas rendering (`draw`, `roundRect`, `resizeCanvas`, `mixColor`, `hexToRgb`) and `updateUI`: pixel and DOM output.
- Audio (`ensureAudio`, `playSound`) and the sound toggle: Web Audio calls with no effect on the game state.
- `localStorage`, JSON parsing and `renderScoreboard` formatting: storage is abstracted. The stored high score and scoreboard are passed to the constructor, and the new scoreboard is a field. The high score write and the clear-scores button are not modelled.
- The start, pause, reset and touch-direction buttons: DOM wiring. They call `startGame`, `pauseGame`, `resetGame` and set `nextDir`, all of which are modelled.
- Engine.Game.RunTicks: does not model the `requestAnimationFrame` accumulator, because it works on floating-point seconds and host scheduling. It stands for one frame that drains a given number of ticks, and it states only the invariant and the move count.
- The time `t` that the pointerdown handler stores in `touchStart` (`Snake/script.js:204`): nothing reads it.
- The clock: each operation takes one `now`, while `spawnFood` and `tick` read `performance.now()` more than once. Times are integers, not fractional milliseconds.
- `Math.random()`: its values are parameters. The 8% bonus and 15% regeneration probabilities are not modelled.
- The board size: `cols` and `rows` are fixed at 20, as in the code. The resize handler changes only the cell size in pixels. The cap `maxObstacles` is the literal 66, and `Engine.MaxObstaclesIsLimit` ties it to `floor(cols * rows / 6)`.
- The speed selector's value: an integer here. The code passes the raw string to the scoreboard entry and `parseInt` elsewhere, so a non-numeric value is not modelled.
- The truthiness of `food.expires` at `Snake/script.js:172` is modelled as "has an expiry". An expiry of 0 would be falsy, but it cannot arise because times are non-negative and expiries are at least 3000.
