/**
 * The game-state engine: the module-level state of the game as a `Game` object, the tick that
 * moves the snake, the food and obstacle operations, and the round lifecycle.
 * The clock (`performance.now()`, the ISO date of a score) and every `Math.random()` draw
 * are parameters.
 */
module Engine {
  import opened Wrappers
  import opened Random
  import opened Grid
  import opened Food
  import opened Obstacles
  import opened Difficulty
  import opened Scoreboard
  import opened Input
  import opened Rules

  /** A game whose board is a freshly reset board is valid. */
  lemma StartValid(g: Game, now: int, draws: Draws)
    requires g.BoardState() == StartBoard(g.obstaclesEnabled, now, draws, g.maxObstacles, g.cols, g.rows)
    ensures g.Valid()
  {
    StartBoardConsistent(g.obstaclesEnabled, now, draws, g.maxObstacles, g.cols, g.rows);
  }

  /** The game's obstacle cap is `ObstacleLimit` of its board. */
  lemma MaxObstaclesIsLimit(g: Game)
    ensures g.maxObstacles == ObstacleLimit(g.cols, g.rows)
  {
  }

  function ModeOf(wrap: bool): Mode {
    if wrap then Wrap else Classic
  }

  function Max(a: int, b: int): int {
    if a < b then b else a
  }

  /** The game's state: one object for the variables the page keeps at module scope. */
  class Game {
    const cols: nat := GRID
    const rows: nat := GRID
    /** The obstacle cap `Math.floor(cols * rows / 6)` of the 20 x 20 board (see `MaxObstaclesIsLimit`). */
    const maxObstacles: nat := 66

    var snake: seq<Cell>
    var dir: Dir
    var nextDir: Option<Dir>
    var food: Option<Food>
    var lastFoodClearedAt: int
    var obstacles: seq<Cell>
    var score: nat
    var moves: nat
    var tickRate: int
    var running: bool
    var paused: bool
    var highScore: int
    /** The stored scoreboard. */
    var scores: seq<ScoreEntry>

    /** Settings read from the page's controls: the wrap and obstacle toggles and the speed selector. */
    var wrap: bool
    var obstaclesEnabled: bool
    var speed: int
    /** Where the current pointer drag began (`touchStart`), if one is under way. */
    var touchStart: Option<Point>

    /** The state invariant: the board is consistent and holds at most `maxObstacles` obstacles. */
    ghost predicate Valid()
      reads this`snake, this`obstacles, this`food, this`lastFoodClearedAt, this`score
    {
      BoardInvariant(BoardState(), maxObstacles, cols, rows)
    }

    /** Page start-up: the stored high score and board are read, then a round is reset. */
    constructor (highScore: int, stored: seq<ScoreEntry>, wrap: bool, obstaclesEnabled: bool, speed: int,
                 now: nat, draws: Draws)
      ensures Valid()
      ensures BoardState() == StartBoard(obstaclesEnabled, now, draws, maxObstacles, cols, rows)
      ensures (dir, nextDir, moves) == (Right, None, 0)
      ensures (running, paused, tickRate) == (false, false, speed)
      ensures (this.highScore, scores, touchStart) == (highScore, stored, None)
      ensures (this.wrap, this.obstaclesEnabled, this.speed) == (wrap, obstaclesEnabled, speed)
    {
      this.highScore := highScore;
      scores := stored;
      this.wrap := wrap;
      this.obstaclesEnabled := obstaclesEnabled;
      this.speed := speed;
      tickRate := speed;
      running, paused := false, false;
      touchStart := None;
      snake, dir, nextDir := [], Right, None;
      food, lastFoodClearedAt, obstacles := None, 0, [];
      score, moves := 0, 0;
      new;
      Reset(now, draws);
    }

    /** `resetGame`: a fresh centred snake facing right, empty counters, new obstacles if enabled, then a spawn attempt. */
    method Reset(now: nat, draws: Draws)
      modifies this`snake, this`dir, this`nextDir, this`score, this`moves, this`food, this`obstacles, this`lastFoodClearedAt
      ensures Valid()
      ensures BoardState() == StartBoard(obstaclesEnabled, now, draws, maxObstacles, cols, rows)
      ensures (dir, nextDir, moves) == (Right, None, 0)
    {
      dir, nextDir, moves := Right, None, 0;
      ResetBoard(now, draws);
      StartValid(this, now, draws);
    }

    /** The board half of `resetGame`: snake, score, cooldown mark, obstacles and food. */
    method ResetBoard(now: nat, draws: Draws)
      modifies this`snake, this`score, this`food, this`obstacles, this`lastFoodClearedAt
      ensures BoardState() == StartBoard(obstaclesEnabled, now, draws, maxObstacles, cols, rows)
    {
      snake := StartSnake(cols, rows);
      score, food, obstacles, lastFoodClearedAt := 0, None, [], 0;
      if obstaclesEnabled {
        GenerateObstacles(StartObstacles, draws.obstacleDraw);
      }
      SpawnFood(None, now, draws.foodRoll, draws.foodPick, draws.foodExtra);
    }

    /** `startGame`: only a stopped game starts; it runs unpaused at max(1, speed) ticks per second. */
    method StartGame()
      modifies this`running, this`paused, this`tickRate
      ensures running
      ensures old(running) ==> paused == old(paused) && tickRate == old(tickRate)
      ensures !old(running) ==> !paused && tickRate == Max(1, speed)
    {
      if !running {
        running := true;
        paused := false;
        tickRate := Max(1, speed);
      }
    }

    /** `pauseGame`: flips the pause flag, whether or not the game runs. */
    method PauseGame()
      modifies this`paused
      ensures paused == !old(paused)
    {
      paused := !paused;
    }

    /**
     * `gameOver`: the game stops (running off, paused on), the high score becomes the larger
     * of itself and the score, and the round is entered on the scoreboard.
     */
    method GameOver(date: string)
      modifies this`running, this`paused, this`highScore, this`scores
      ensures !running && paused
      ensures highScore == Max(old(highScore), score)
      ensures scores == AddScoreEntry(old(scores), ScoreEntry(score, ModeOf(wrap), speed, |snake|, date))
    {
      running := false;
      paused := true;
      if score > highScore {
        highScore := score;
      }
      scores := AddScoreEntry(scores, ScoreEntry(score, ModeOf(wrap), speed, |snake|, date));
    }

    /** `clearFood`: the slot empties and the respawn cooldown starts at `now`. */
    method ClearFood(now: nat)
      modifies this`food, this`lastFoodClearedAt
      ensures FoodSlot(food, lastFoodClearedAt) == Cleared(now)
    {
      food := None;
      lastFoodClearedAt := now;
    }

    /** `spawnFood(forceType)` at time `now`, with the draws of its `Math.random()` calls. */
    method SpawnFood(force: Option<FoodKind>, now: nat, roll: RandomValue, pick: RandomValue, extra: RandomValue)
      modifies this`food, this`lastFoodClearedAt
      ensures FoodSlot(food, lastFoodClearedAt) ==
              Spawn(FoodSlot(old(food), old(lastFoodClearedAt)), now, FreeList(cols, rows, snake, obstacles), force, roll, pick, extra)
    {
      if food.Some? {
        return;
      }
      if now - lastFoodClearedAt < FoodCooldown {
        return;
      }
      var kind := Normal;
      if force.Some? {
        kind := force.value;
      } else if roll > 0.92 {
        kind := Bonus;
      }
      var free := CollectFree(cols, rows, snake, obstacles);
      if |free| == 0 {
        return;
      }
      var pos := free[RandInt(0, |free| - 1, pick)];
      var expires := None;
      if kind == Bonus {
        expires := Some(now + BonusLife + RandInt(0, BonusExtraLife, extra));
      }
      food := Some(Food(pos, kind, now, expires));
      lastFoodClearedAt := 0;
    }

    /** `generateObstacles(count)`: rejection sampling into a fresh obstacle list, at most 5000 tries. */
    method GenerateObstacles(count: nat, rand: nat -> RandomValue)
      modifies this`obstacles
      ensures obstacles == Generated(count, maxObstacles, cols, rows, snake, food, rand)
    {
      obstacles := [];
      var max := Cap(count, maxObstacles);
      var tries: nat := 0;
      while |obstacles| < max && tries < MaxTries
        invariant tries <= MaxTries
        invariant Sample(cols, rows, max, snake, food, rand, tries, obstacles) == Generated(count, maxObstacles, cols, rows, snake, food, rand)
        decreases MaxTries - tries
      {
        tries := tries + 1;
        var x := RandInt(1, cols - 2, rand(2 * (tries - 1)));
        var y := RandInt(1, rows - 2, rand(2 * (tries - 1) + 1));
        if InCells(snake, Cell(x, y)) {
          continue;
        }
        if InCells(obstacles, Cell(x, y)) {
          continue;
        }
        if food.Some? && food.value.pos.x == x && food.value.pos.y == y {
          continue;
        }
        obstacles := obstacles + [Cell(x, y)];
      }
    }

    /** The board part of the state. */
    function BoardState(): Board
      reads this`snake, this`obstacles, this`food, this`lastFoodClearedAt, this`score
    {
      Board(snake, obstacles, FoodSlot(food, lastFoodClearedAt), score)
    }

    /** The last food steps of `tick`: a spawn is tried when the slot is empty, then expired food is cleared. */
    method RestockFood(now: nat, draws: Draws)
      modifies this`food, this`lastFoodClearedAt
      ensures FoodSlot(food, lastFoodClearedAt) ==
              Restocked(FoodSlot(old(food), old(lastFoodClearedAt)), now, FreeList(cols, rows, snake, obstacles), draws)
    {
      if food.None? {
        SpawnFood(None, now, draws.foodRoll, draws.foodPick, draws.foodExtra);
      }
      if food.Some? && food.value.expires.Some? && now > food.value.expires.value {
        ClearFood(now);
      }
    }

    /** The head moves onto the food at h: it is pushed, the food's points are added and the slot is cleared. */
    method Feed(h: Cell, now: nat)
      requires food.Some?
      modifies this`snake, this`score, this`food, this`lastFoodClearedAt
      ensures BoardState() == Fed(old(BoardState()), h, now)
    {
      snake := snake + [h];
      var pts := Points(food.value.kind);
      score := score + pts;
      ClearFood(now);
    }

    /** Eating at h: the food is consumed, then with obstacles on and a draw above 0.85 the obstacles are regenerated. */
    method Eat(h: Cell, now: nat, draws: Draws)
      requires food.Some?
      modifies this`snake, this`score, this`food, this`lastFoodClearedAt, this`obstacles
      ensures BoardState() == Eaten(old(BoardState()), h, now, draws, obstaclesEnabled, maxObstacles, cols, rows)
    {
      Feed(h, now);
      if obstaclesEnabled && draws.regen > RegenThreshold {
        GenerateObstacles(RegenCount(score), draws.obstacleDraw);
      }
    }

    /** The head moves to the legal cell h: pushed, then food eaten or the tail shifted. */
    method MoveHead(h: Cell, now: nat, draws: Draws)
      requires |snake| > 0
      modifies this`snake, this`score, this`food, this`lastFoodClearedAt, this`obstacles
      ensures BoardState() == Moved(old(BoardState()), h, now, draws, obstaclesEnabled, maxObstacles, cols, rows)
    {
      if food.Some? && h.x == food.value.pos.x && h.y == food.value.pos.y {
        Eat(h, now, draws);
      } else {
        ghost var b := snake;
        snake := snake + [h];
        PushThenShift(b, h);
        snake := snake[1..];
      }
    }

    /**
     * The second half of `tick`, once the head h has passed the collision checks: the board
     * becomes `Stepped` and the tick rate follows the new score.
     */
    method Step(h: Cell, now: nat, draws: Draws)
      requires Valid() && InGrid(h, cols, rows) && h !in snake && h !in obstacles
      modifies this`snake, this`score, this`food, this`lastFoodClearedAt, this`obstacles, this`tickRate
      ensures Valid()
      ensures BoardState() == Stepped(old(BoardState()), h, now, draws, obstaclesEnabled, maxObstacles, cols, rows)
      ensures tickRate == TickRate(speed, score)
    {
      SteppedConsistent(BoardState(), h, now, draws, obstaclesEnabled, maxObstacles, cols, rows);
      MoveHead(h, now, draws);
      RestockFood(now, draws);
      tickRate := TickRate(speed, score);
    }

    /** The first step of `tick`: the buffered direction is taken unless it reverses `dir`, and the buffer empties. */
    method ApplyPendingDirection()
      modifies this`dir, this`nextDir
      ensures dir == NextDir(old(dir), old(nextDir)) && nextDir == None
    {
      if nextDir.Some? {
        if nextDir.value != Reverse(dir) {
          dir := nextDir.value;
        }
        nextDir := None;
      }
    }

    /**
     * The collision checks and the rest of `tick`, after the direction is applied: a blocked
     * head ends the game and leaves the board as it was; a free head makes the board `Stepped`
     * and the tick rate follow the score.
     */
    method CollideOrStep(now: nat, date: string, draws: Draws)
      requires Valid()
      modifies this`snake, this`score, this`food, this`lastFoodClearedAt,
               this`obstacles, this`tickRate, this`running, this`paused, this`highScore, this`scores
      ensures Valid()
      ensures var m := Probe(old(snake), old(obstacles), dir, wrap, cols, rows);
              !m.Advance? ==>
                && BoardState() == old(BoardState()) && tickRate == old(tickRate)
                && !running && paused
                && highScore == Max(old(highScore), score)
                && scores == AddScoreEntry(old(scores), ScoreEntry(score, ModeOf(wrap), speed, |snake|, date))
      ensures var m := Probe(old(snake), old(obstacles), dir, wrap, cols, rows);
              m.Advance? ==>
                && BoardState() == Stepped(old(BoardState()), m.head, now, draws, obstaclesEnabled, maxObstacles, cols, rows)
                && tickRate == TickRate(speed, score)
                && running == old(running) && paused == old(paused)
                && highScore == old(highScore) && scores == old(scores)
    {
      assert snake[|snake| - 1] in snake;
      var m := Probe(snake, obstacles, dir, wrap, cols, rows);
      if m.Advance? {
        ProbeSpec(snake, obstacles, dir, wrap, cols, rows);
        Step(m.head, now, draws);
      } else {
        GameOver(date);
      }
    }

    /**
     * `tick`: one simulation step. The buffered direction is applied (a reversal is dropped),
     * `moves` counts the step, and the head is checked against the walls (wall mode), the
     * obstacles and the whole current snake. A collision ends the game and leaves the board as
     * it was, so that, as nothing guards a stopped game, a further tick meets the same collision
     * again. Otherwise the board becomes `Stepped` and the tick rate follows the score.
     */
    method Tick(now: nat, date: string, draws: Draws)
      requires Valid()
      modifies this`dir, this`nextDir, this`moves, this`snake, this`score, this`food, this`lastFoodClearedAt,
               this`obstacles, this`tickRate, this`running, this`paused, this`highScore, this`scores
      ensures Valid()
      ensures dir == NextDir(old(dir), old(nextDir)) && nextDir == None
      ensures moves == old(moves) + 1
      ensures var m := Probe(old(snake), old(obstacles), dir, wrap, cols, rows);
              !m.Advance? ==>
                && BoardState() == old(BoardState()) && tickRate == old(tickRate)
                && !running && paused
                && highScore == Max(old(highScore), score)
                && scores == AddScoreEntry(old(scores), ScoreEntry(score, ModeOf(wrap), speed, |snake|, date))
      ensures var m := Probe(old(snake), old(obstacles), dir, wrap, cols, rows);
              !m.Advance? ==> Probe(snake, obstacles, dir, wrap, cols, rows) == m
      ensures var m := Probe(old(snake), old(obstacles), dir, wrap, cols, rows);
              m.Advance? ==>
                && BoardState() == Stepped(old(BoardState()), m.head, now, draws, obstaclesEnabled, maxObstacles, cols, rows)
                && tickRate == TickRate(speed, score)
                && running == old(running) && paused == old(paused)
                && highScore == old(highScore) && scores == old(scores)
    {
      ApplyPendingDirection();
      moves := moves + 1;
      CollideOrStep(now, date, draws);
    }

    /** Calls `tick` once per draw record, as a frame whose accumulator holds that many ticks does. */
    method RunTicks(now: nat, date: string, draws: seq<Draws>)
      requires Valid()
      modifies this
      ensures Valid()
      ensures moves == old(moves) + |draws|
    {
      for i := 0 to |draws|
        invariant Valid()
        invariant moves == old(moves) + i
      {
        Tick(now, date, draws[i]);
      }
    }

    /** The keydown handler: space toggles pause; a steering key overwrites the pending direction and starts a stopped game. */
    method HandleKey(key: string)
      modifies this`nextDir, this`running, this`paused, this`tickRate
      ensures match KeyActionOf(key)
              case TogglePause =>
                paused == !old(paused) && nextDir == old(nextDir) && running == old(running) && tickRate == old(tickRate)
              case Steer(d) =>
                && nextDir == Some(d) && running
                && (old(running) ==> paused == old(paused) && tickRate == old(tickRate))
                && (!old(running) ==> !paused && tickRate == Max(1, speed))
              case NoAction =>
                nextDir == old(nextDir) && running == old(running) && paused == old(paused) && tickRate == old(tickRate)
    {
      match KeyActionOf(key)
      case TogglePause =>
        PauseGame();
      case Steer(d) =>
        nextDir := Some(d);
        if !running {
          StartGame();
        }
      case NoAction =>
    }

    /** The pointerdown handler: the drag's starting point is recorded. */
    method HandlePointerDown(at: Point)
      modifies this`touchStart
      ensures touchStart == Some(at)
    {
      touchStart := Some(at);
    }

    /**
     * The pointerup handler: without a recorded start it does nothing; otherwise the drag from
     * the start is read as a gesture (a tap starts a stopped game or toggles pause, a swipe
     * steers and starts a stopped game) and the start is forgotten.
     */
    method HandlePointerUp(at: Point)
      modifies this`nextDir, this`running, this`paused, this`tickRate, this`touchStart
      ensures touchStart == None
      ensures old(touchStart) == None ==>
                (nextDir, running, paused, tickRate) == old((nextDir, running, paused, tickRate))
      ensures old(touchStart).Some? ==>
                match ClassifySwipe(at.x - old(touchStart).value.x, at.y - old(touchStart).value.y)
                case Tap =>
                  && nextDir == old(nextDir)
                  && (old(running) ==> running && paused == !old(paused) && tickRate == old(tickRate))
                  && (!old(running) ==> running && !paused && tickRate == Max(1, speed))
                case Swipe(d) =>
                  && nextDir == Some(d) && running
                  && (old(running) ==> paused == old(paused) && tickRate == old(tickRate))
                  && (!old(running) ==> !paused && tickRate == Max(1, speed))
    {
      if touchStart.None? {
        return;
      }
      var start := touchStart.value;
      match ClassifySwipe(at.x - start.x, at.y - start.y) {
        case Tap =>
          if !running {
            StartGame();
          } else {
            PauseGame();
          }
        case Swipe(d) =>
          nextDir := Some(d);
          if !running {
            StartGame();
          }
      }
      touchStart := None;
    }

    /** The speed selector's change handler. */
    method SetSpeed(value: int)
      modifies this`speed, this`tickRate
      ensures speed == value && tickRate == Max(1, value)
    {
      speed := value;
      tickRate := Max(1, value);
    }

    /** The wrap toggle; it has no handler of its own and is read by every tick. */
    method SetWrap(on: bool)
      modifies this`wrap
      ensures wrap == on
    {
      wrap := on;
    }

    /** The obstacles toggle's change handler: six fresh obstacles when switched on, none when off. */
    method SetObstaclesEnabled(on: bool, rand: nat -> RandomValue)
      requires Valid()
      modifies this`obstaclesEnabled, this`obstacles
      ensures Valid()
      ensures obstaclesEnabled == on
      ensures obstacles == if on then Generated(StartObstacles, maxObstacles, cols, rows, snake, food, rand) else []
    {
      obstaclesEnabled := on;
      if on {
        GenerateObstacles(StartObstacles, rand);
        GeneratedValid(StartObstacles, maxObstacles, cols, rows, snake, food, rand);
      } else {
        obstacles := [];
      }
    }
  }

}
