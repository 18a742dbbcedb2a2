/**
 * The rules of one round as functions on values: the collision checks of a tick, the board a
 * legal step produces, the board a reset builds, and the state invariant they all keep.
 * Every `Math.random()` draw is a parameter.
 */
module Rules {
  import opened Wrappers
  import opened Random
  import opened Grid
  import opened Food
  import opened Obstacles

  /** The `Math.random()` draws one tick or one reset may consume. */
  datatype Draws = Draws(foodRoll: RandomValue, foodPick: RandomValue, foodExtra: RandomValue, regen: RandomValue, obstacleDraw: nat -> RandomValue)

  /** Obstacles placed at the start of a round. */
  const StartObstacles: nat := 6
  /** Eating regenerates the obstacles when the draw exceeds this (and obstacles are on). */
  const RegenThreshold: real := 0.85

  /** `6 + Math.floor(score / 5)`: the number of obstacles a regeneration asks for. */
  function RegenCount(score: nat): nat {
    StartObstacles + score / 5
  }

  /** Where a tick's head goes: one of the three collisions, or a cell the snake may enter. */
  datatype Move = OutOfBounds | HitObstacle | HitSelf | Advance(head: Cell)

  /**
   * The collision checks of a tick for a snake moving in direction d: leaving the board in
   * wall mode, then an obstacle cell, then any current snake cell (the tail included).
   */
  function Probe(snake: seq<Cell>, obstacles: seq<Cell>, d: Dir, wrap: bool, cols: nat, rows: nat): Move
    requires |snake| > 0 && cols > 0 && rows > 0
  {
    var h := NextHead(snake[|snake| - 1], d, wrap, cols, rows);
    if !wrap && !InGrid(h, cols, rows) then OutOfBounds
    else if InCells(obstacles, h) then HitObstacle
    else if InCells(snake, h) then HitSelf
    else Advance(h)
  }

  /**
   * The collision verdict of a tick: off the board exactly when wall mode leaves the grid;
   * an obstacle or snake hit only when the cell is taken; an advance exactly when the cell
   * is free (and on the board in wall mode), and then onto that cell.
   */
  lemma ProbeSpec(snake: seq<Cell>, obstacles: seq<Cell>, d: Dir, wrap: bool, cols: nat, rows: nat)
    requires |snake| > 0 && cols > 0 && rows > 0
    ensures var m := Probe(snake, obstacles, d, wrap, cols, rows);
            var h := NextHead(snake[|snake| - 1], d, wrap, cols, rows);
            && (m == OutOfBounds <==> !wrap && !InGrid(h, cols, rows))
            && (m == HitObstacle ==> h in obstacles)
            && (m == HitSelf ==> h in snake && h !in obstacles)
            && (m.Advance? ==> m.head == h && h !in obstacles && h !in snake)
            && (m.Advance? && InGrid(snake[|snake| - 1], cols, rows) ==> InGrid(h, cols, rows))
            && (h !in obstacles && h !in snake && (wrap || InGrid(h, cols, rows)) ==> m == Advance(h))
  {
    var h := NextHead(snake[|snake| - 1], d, wrap, cols, rows);
    InCellsIsMembership(obstacles, h);
    InCellsIsMembership(snake, h);
  }

  /** The snake after a legal step to h: it grows when it eats, otherwise its tail moves up. */
  function Advanced(snake: seq<Cell>, h: Cell, ate: bool): seq<Cell>
    requires |snake| > 0
  {
    if ate then snake + [h] else snake[1..] + [h]
  }

  /** A legal step keeps the segments pairwise distinct and on the board, with the new head last. */
  lemma AdvancedValid(snake: seq<Cell>, h: Cell, ate: bool, cols: nat, rows: nat)
    requires |snake| > 0 && Distinct(snake) && h !in snake
    requires forall c | c in snake :: InGrid(c, cols, rows)
    requires InGrid(h, cols, rows)
    ensures var s := Advanced(snake, h, ate);
            && Distinct(s)
            && (forall c | c in s :: InGrid(c, cols, rows))
            && s[|s| - 1] == h
            && |s| == |snake| + (if ate then 1 else 0)
            && (forall c | c in s :: c in snake || c == h)
  {
    if ate {
      DistinctAppend(snake, h);
    } else {
      DistinctDropFirst(snake);
      assert forall c | c in snake[1..] :: c in snake;
      DistinctAppend(snake[1..], h);
    }
  }

  /** `snake.push(head)` then `snake.shift()` is the old body without its tail plus the head. */
  lemma PushThenShift(snake: seq<Cell>, h: Cell)
    requires |snake| > 0
    ensures (snake + [h])[1..] == Advanced(snake, h, false)
  {
  }

  /** The three-segment snake of a new round, centred and facing right. */
  function StartSnake(cols: nat, rows: nat): (s: seq<Cell>)
    requires cols >= 3 && rows >= 3
    ensures |s| == 3 && Distinct(s)
    ensures forall c | c in s :: InGrid(c, cols, rows)
    ensures s[1] == Cell(cols / 2, rows / 2)
    ensures forall i | 0 <= i < 2 :: s[i + 1] == Cell(s[i].x + Right.dx, s[i].y + Right.dy)
  {
    var cx, cy := cols / 2, rows / 2;
    [Cell(cx - 1, cy), Cell(cx, cy), Cell(cx + 1, cy)]
  }

  /** A non-empty snake of pairwise distinct cells on the board. */
  predicate SnakeOk(snake: seq<Cell>, cols: nat, rows: nat) {
    && |snake| >= 1
    && (forall c | c in snake :: InGrid(c, cols, rows))
    && Distinct(snake)
  }

  /**
   * The state invariant on the board: a well-formed snake; obstacles that are interior,
   * distinct, off the snake and off the food; and at most one food, on a board cell off the
   * snake, normal without expiry or bonus with a 3.0 to 5.2 s expiry.
   */
  predicate Consistent(snake: seq<Cell>, obstacles: seq<Cell>, food: Option<Food>, cols: nat, rows: nat) {
    && SnakeOk(snake, cols, rows)
    && Placeable(obstacles, cols, rows, snake, food)
    && (food.Some? ==> InGrid(food.value.pos, cols, rows) && food.value.pos !in snake && WellFormed(food.value))
  }

  /** A spawn only ever places food on a free board cell, so it keeps the invariant. */
  lemma SpawnConsistent(snake: seq<Cell>, obstacles: seq<Cell>, slot: FoodSlot, now: int, cols: nat, rows: nat,
                        force: Option<FoodKind>, roll: RandomValue, pick: RandomValue, extra: RandomValue)
    requires Consistent(snake, obstacles, slot.food, cols, rows)
    ensures Consistent(snake, obstacles,
                       Spawn(slot, now, FreeList(cols, rows, snake, obstacles), force, roll, pick, extra).food, cols, rows)
  {
    var r := Spawn(slot, now, FreeList(cols, rows, snake, obstacles), force, roll, pick, extra);
    SpawnSpec(slot, now, FreeList(cols, rows, snake, obstacles), force, roll, pick, extra);
    if r.food.Some? && r != slot {
      FreeListMembers(cols, rows, snake, obstacles, r.food.value.pos);
    }
  }

  /** Expiry only ever removes food, so it keeps the invariant. */
  lemma ExpireConsistent(snake: seq<Cell>, obstacles: seq<Cell>, slot: FoodSlot, now: int, cols: nat, rows: nat)
    requires Consistent(snake, obstacles, slot.food, cols, rows)
    ensures Consistent(snake, obstacles, Expire(slot, now).food, cols, rows)
  {
  }

  /** Regenerated obstacles avoid the snake and the food, so the invariant survives a regeneration. */
  lemma RegenConsistent(snake: seq<Cell>, obstacles: seq<Cell>, food: Option<Food>, count: nat, limit: nat,
                        rand: nat -> RandomValue, cols: nat, rows: nat)
    requires cols >= 3 && rows >= 3
    requires Consistent(snake, obstacles, food, cols, rows)
    ensures var r := Generated(count, limit, cols, rows, snake, food, rand);
            Consistent(snake, r, food, cols, rows) && |r| <= limit
  {
    GeneratedValid(count, limit, cols, rows, snake, food, rand);
  }

  /**
   * A legal step keeps the invariant: eating grows the snake and empties the food slot,
   * otherwise the snake moves up and the food stays.
   */
  lemma StepConsistent(snake: seq<Cell>, obstacles: seq<Cell>, food: Option<Food>, h: Cell, cols: nat, rows: nat)
    requires Consistent(snake, obstacles, food, cols, rows)
    requires InGrid(h, cols, rows) && h !in snake && h !in obstacles
    ensures FoodAt(food, h) ==> Consistent(Advanced(snake, h, true), obstacles, None, cols, rows)
    ensures !FoodAt(food, h) ==> Consistent(Advanced(snake, h, false), obstacles, food, cols, rows)
  {
    AdvancedValid(snake, h, FoodAt(food, h), cols, rows);
  }

  /** The part of the state the second half of a tick rewrites. */
  datatype Board = Board(snake: seq<Cell>, obstacles: seq<Cell>, slot: FoodSlot, score: nat)

  /** The last food steps of a tick: a spawn is tried, then food whose expiry time has passed is cleared. */
  function Restocked(slot: FoodSlot, now: int, free: seq<Cell>, draws: Draws): FoodSlot {
    Expire(Spawn(slot, now, free, None, draws.foodRoll, draws.foodPick, draws.foodExtra), now)
  }

  /** The board once the head has moved onto the food at h: the snake grows by h, the food's points are added and the slot is cleared at `now`. */
  function Fed(b: Board, h: Cell, now: int): Board
    requires b.slot.food.Some?
  {
    Board(b.snake + [h], b.obstacles, Cleared(now), b.score + Points(b.slot.food.value.kind))
  }

  /**
   * The obstacles after food is eaten: with obstacles on and a draw above 0.85,
   * `generateObstacles(6 + floor(score / 5))` replaces them, avoiding the snake and the food.
   */
  function Regenerated(b: Board, draws: Draws, obstaclesOn: bool, limit: nat, cols: nat, rows: nat): Board
    requires cols >= 3 && rows >= 3
  {
    if obstaclesOn && draws.regen > RegenThreshold
    then b.(obstacles := Generated(RegenCount(b.score), limit, cols, rows, b.snake, b.slot.food, draws.obstacleDraw))
    else b
  }

  /** The board once the head has moved onto the food at h, before the food is restocked. */
  function Eaten(b: Board, h: Cell, now: int, draws: Draws, obstaclesOn: bool, limit: nat, cols: nat, rows: nat): Board
    requires b.slot.food.Some? && cols >= 3 && rows >= 3
  {
    Regenerated(Fed(b, h, now), draws, obstaclesOn, limit, cols, rows)
  }

  /** The board once the head has moved to the free cell h: the tail is shifted off. */
  function Slid(b: Board, h: Cell): Board
    requires |b.snake| > 0
  {
    b.(snake := Advanced(b.snake, h, false))
  }

  /** The board once the head has moved to the legal cell h, before the food is restocked. */
  function Moved(b: Board, h: Cell, now: int, draws: Draws, obstaclesOn: bool, limit: nat, cols: nat, rows: nat): Board
    requires |b.snake| > 0 && cols >= 3 && rows >= 3
  {
    if FoodAt(b.slot.food, h) then Eaten(b, h, now, draws, obstaclesOn, limit, cols, rows) else Slid(b, h)
  }

  /** The board after a step to the legal cell h: the head moves, then the food is restocked. */
  function Stepped(b: Board, h: Cell, now: int, draws: Draws, obstaclesOn: bool, limit: nat, cols: nat, rows: nat): Board
    requires |b.snake| > 0 && cols >= 3 && rows >= 3
  {
    var m := Moved(b, h, now, draws, obstaclesOn, limit, cols, rows);
    m.(slot := Restocked(m.slot, now, FreeList(cols, rows, m.snake, m.obstacles), draws))
  }

  /**
   * Eating grows the snake by the new head, adds the food's points, and leaves the slot empty
   * with the cooldown started: the spawn attempt of the same tick always falls in the cooldown.
   */
  lemma SteppedEating(b: Board, h: Cell, now: int, draws: Draws, obstaclesOn: bool, limit: nat, cols: nat, rows: nat)
    requires |b.snake| > 0 && cols >= 3 && rows >= 3
    requires FoodAt(b.slot.food, h)
    ensures var r := Stepped(b, h, now, draws, obstaclesOn, limit, cols, rows);
            && r.snake == b.snake + [h]
            && r.score == b.score + Points(b.slot.food.value.kind)
            && r.slot == Cleared(now)
            && (!obstaclesOn || draws.regen <= RegenThreshold ==> r.obstacles == b.obstacles)
  {
    var r := Stepped(b, h, now, draws, obstaclesOn, limit, cols, rows);
    CooldownBlocksImmediateRespawn(now, FreeList(cols, rows, r.snake, r.obstacles),
                                   None, draws.foodRoll, draws.foodPick, draws.foodExtra, now);
  }

  /**
   * Without food at the head the snake keeps its length, its tail cell is vacated, the score
   * and the obstacles stay, and present food stays unless it has expired.
   */
  lemma SteppedMoving(b: Board, h: Cell, now: int, draws: Draws, obstaclesOn: bool, limit: nat, cols: nat, rows: nat)
    requires |b.snake| > 0 && cols >= 3 && rows >= 3
    requires !FoodAt(b.slot.food, h)
    ensures var r := Stepped(b, h, now, draws, obstaclesOn, limit, cols, rows);
            && r.snake == b.snake[1..] + [h]
            && |r.snake| == |b.snake|
            && r.score == b.score
            && r.obstacles == b.obstacles
            && (b.slot.food.Some? ==> r.slot == Expire(b.slot, now))
  {
    var r := Stepped(b, h, now, draws, obstaclesOn, limit, cols, rows);
    SpawnSpec(b.slot, now, FreeList(cols, rows, r.snake, r.obstacles), None, draws.foodRoll, draws.foodPick, draws.foodExtra);
  }

  /** The state invariant of a board: consistent, with at most `limit` obstacles. */
  predicate BoardInvariant(b: Board, limit: nat, cols: nat, rows: nat) {
    Consistent(b.snake, b.obstacles, b.slot.food, cols, rows) && |b.obstacles| <= limit
  }

  /** A legal step keeps the state invariant. */
  lemma SteppedConsistent(b: Board, h: Cell, now: int, draws: Draws, obstaclesOn: bool, limit: nat, cols: nat, rows: nat)
    requires cols >= 3 && rows >= 3
    requires BoardInvariant(b, limit, cols, rows)
    requires InGrid(h, cols, rows) && h !in b.snake && h !in b.obstacles
    ensures BoardInvariant(Stepped(b, h, now, draws, obstaclesOn, limit, cols, rows), limit, cols, rows)
  {
    var ate := FoodAt(b.slot.food, h);
    var r := Stepped(b, h, now, draws, obstaclesOn, limit, cols, rows);
    StepConsistent(b.snake, b.obstacles, b.slot.food, h, cols, rows);
    var slot := if ate then Cleared(now) else b.slot;
    if ate && obstaclesOn && draws.regen > RegenThreshold {
      RegenConsistent(r.snake, b.obstacles, None, RegenCount(r.score), limit, draws.obstacleDraw, cols, rows);
    }
    assert Consistent(r.snake, r.obstacles, slot.food, cols, rows);
    var spawned := Spawn(slot, now, FreeList(cols, rows, r.snake, r.obstacles), None, draws.foodRoll, draws.foodPick, draws.foodExtra);
    SpawnConsistent(r.snake, r.obstacles, slot, now, cols, rows, None, draws.foodRoll, draws.foodPick, draws.foodExtra);
    ExpireConsistent(r.snake, r.obstacles, spawned, now, cols, rows);
  }

  /**
   * The board `resetGame` builds: the centred snake, score 0, no food and the cooldown mark at 0;
   * with obstacles on, six generated obstacles; then a spawn attempt at `now`.
   */
  function StartBoard(obstaclesOn: bool, now: int, draws: Draws, limit: nat, cols: nat, rows: nat): Board
    requires cols >= 3 && rows >= 3
  {
    var cleared := Board(StartSnake(cols, rows), [], FoodSlot(None, 0), 0);
    var seeded := if obstaclesOn then cleared.(obstacles := Generated(StartObstacles, limit, cols, rows, cleared.snake, cleared.slot.food, draws.obstacleDraw))
                  else cleared;
    seeded.(slot := Spawn(seeded.slot, now, FreeList(cols, rows, seeded.snake, seeded.obstacles), None, draws.foodRoll, draws.foodPick, draws.foodExtra))
  }

  /** A new round satisfies the state invariant, whatever the draws. */
  lemma StartBoardConsistent(obstaclesOn: bool, now: int, draws: Draws, limit: nat, cols: nat, rows: nat)
    requires cols >= 3 && rows >= 3
    ensures BoardInvariant(StartBoard(obstaclesOn, now, draws, limit, cols, rows), limit, cols, rows)
  {
    var snake := StartSnake(cols, rows);
    assert Consistent(snake, [], None, cols, rows);
    var obstacles := if obstaclesOn then Generated(StartObstacles, limit, cols, rows, snake, None, draws.obstacleDraw) else [];
    if obstaclesOn {
      RegenConsistent(snake, [], None, StartObstacles, limit, draws.obstacleDraw, cols, rows);
    }
    SpawnConsistent(snake, obstacles, FoodSlot(None, 0), now, cols, rows, None, draws.foodRoll, draws.foodPick, draws.foodExtra);
  }

}
