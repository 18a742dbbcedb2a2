/**
 * Food management: the single optional food slot, the free-cell scan that picks a spawn
 * cell, the 200 ms respawn cooldown and the expiry of bonus food.
 */
module Food {
  import opened Wrappers
  import opened Random
  import opened Grid

  datatype FoodKind = Normal | Bonus

  /** `{x, y, type, created, expires}`; `expires` is `null` for normal food. */
  datatype Food = Food(pos: Cell, kind: FoodKind, created: int, expires: Option<int>)

  /** The food slot together with `lastFoodClearedAt`, the start of the respawn cooldown. */
  datatype FoodSlot = FoodSlot(food: Option<Food>, lastClearedAt: int)

  /** `foodCooldown`: milliseconds before food may respawn after it was cleared. */
  const FoodCooldown: int := 200
  /** A bonus food lives 3000 ms plus `randInt(0, 2200)` ms. */
  const BonusLife: int := 3000
  const BonusExtraLife: int := 2200

  /** Normal food never expires; bonus food expires 3.0 to 5.2 s after it was created. */
  predicate WellFormed(f: Food) {
    match f.kind
    case Normal => f.expires == None
    case Bonus =>
      f.expires.Some? && f.created + BonusLife <= f.expires.value <= f.created + BonusLife + BonusExtraLife
  }

  /** Points awarded for eating food of kind `k`. */
  function Points(k: FoodKind): nat {
    match k
    case Normal => 1
    case Bonus => 3
  }

  predicate IsFree(c: Cell, snake: seq<Cell>, obstacles: seq<Cell>) {
    c !in snake && c !in obstacles
  }

  /** The free cells of column x with row below y, in increasing row order. */
  function FreeColumn(x: int, y: nat, snake: seq<Cell>, obstacles: seq<Cell>): seq<Cell> {
    if y == 0 then []
    else
      FreeColumn(x, y - 1, snake, obstacles)
      + (if IsFree(Cell(x, y - 1), snake, obstacles) then [Cell(x, y - 1)] else [])
  }

  /** The free cells of the columns below x, column by column. */
  function FreeColumns(x: nat, rows: nat, snake: seq<Cell>, obstacles: seq<Cell>): seq<Cell> {
    if x == 0 then []
    else FreeColumns(x - 1, rows, snake, obstacles) + FreeColumn(x - 1, rows, snake, obstacles)
  }

  /** The `free` array of `spawnFood`: every cell of the board in x-major order, minus snake and obstacle cells. */
  function FreeList(cols: nat, rows: nat, snake: seq<Cell>, obstacles: seq<Cell>): seq<Cell> {
    FreeColumns(cols, rows, snake, obstacles)
  }

  /** The scan order of `spawnFood`'s nested loops: by column, then by row. */
  predicate Before(a: Cell, b: Cell) {
    a.x < b.x || (a.x == b.x && a.y < b.y)
  }

  predicate ScanOrdered(s: seq<Cell>) {
    forall i, j :: 0 <= i < j < |s| ==> Before(s[i], s[j])
  }

  /** A cell is offered to the spawn exactly when it is on the board and in neither the snake nor the obstacles. */
  lemma FreeListMembers(cols: nat, rows: nat, snake: seq<Cell>, obstacles: seq<Cell>, c: Cell)
    ensures c in FreeList(cols, rows, snake, obstacles) <==> InGrid(c, cols, rows) && IsFree(c, snake, obstacles)
  {
    var free := FreeList(cols, rows, snake, obstacles);
    if c in free {
      FreeColumnsSound(cols, rows, snake, obstacles);
      var i :| 0 <= i < |free| && free[i] == c;
    }
    if InGrid(c, cols, rows) && IsFree(c, snake, obstacles) {
      FreeColumnsComplete(cols, rows, snake, obstacles, c);
    }
  }

  lemma ScanOrderedConcat(a: seq<Cell>, b: seq<Cell>)
    requires ScanOrdered(a) && ScanOrdered(b)
    requires forall i, j :: 0 <= i < |a| && 0 <= j < |b| ==> Before(a[i], b[j])
    ensures ScanOrdered(a + b)
  {
  }

  /** Every cell of `FreeColumn(x, y, ..)` is a free cell of column x below row y. */
  lemma {:induction false} FreeColumnSound(x: int, y: nat, snake: seq<Cell>, obstacles: seq<Cell>)
    ensures forall i | 0 <= i < |FreeColumn(x, y, snake, obstacles)| ::
              && FreeColumn(x, y, snake, obstacles)[i].x == x
              && 0 <= FreeColumn(x, y, snake, obstacles)[i].y < y
              && IsFree(FreeColumn(x, y, snake, obstacles)[i], snake, obstacles)
  {
    if y > 0 {
      var prev := FreeColumn(x, y - 1, snake, obstacles);
      var last := if IsFree(Cell(x, y - 1), snake, obstacles) then [Cell(x, y - 1)] else [];
      FreeColumnSound(x, y - 1, snake, obstacles);
      var col := prev + last;
      forall i | 0 <= i < |col| ensures col[i].x == x && 0 <= col[i].y < y && IsFree(col[i], snake, obstacles) {
        if i < |prev| {
          assert col[i] == prev[i];
        } else {
          assert col[i] == Cell(x, y - 1);
        }
      }
    }
  }

  /** Every cell of `FreeColumns(x, rows, ..)` is a free cell of the columns below x. */
  lemma {:induction false} FreeColumnsSound(x: nat, rows: nat, snake: seq<Cell>, obstacles: seq<Cell>)
    ensures forall i | 0 <= i < |FreeColumns(x, rows, snake, obstacles)| ::
              && 0 <= FreeColumns(x, rows, snake, obstacles)[i].x < x
              && 0 <= FreeColumns(x, rows, snake, obstacles)[i].y < rows
              && IsFree(FreeColumns(x, rows, snake, obstacles)[i], snake, obstacles)
  {
    if x > 0 {
      var prev := FreeColumns(x - 1, rows, snake, obstacles);
      var col := FreeColumn(x - 1, rows, snake, obstacles);
      FreeColumnsSound(x - 1, rows, snake, obstacles);
      FreeColumnSound(x - 1, rows, snake, obstacles);
      var s := prev + col;
      forall i | 0 <= i < |s| ensures 0 <= s[i].x < x && 0 <= s[i].y < rows && IsFree(s[i], snake, obstacles) {
        if i < |prev| {
          assert s[i] == prev[i];
        } else {
          assert s[i] == col[i - |prev|];
        }
      }
    }
  }

  /** Every free cell of column x below row y is in `FreeColumn(x, y, ..)`. */
  lemma {:induction false} FreeColumnComplete(x: int, y: nat, snake: seq<Cell>, obstacles: seq<Cell>, c: Cell)
    requires c.x == x && 0 <= c.y < y && IsFree(c, snake, obstacles)
    ensures c in FreeColumn(x, y, snake, obstacles)
  {
    var prev := FreeColumn(x, y - 1, snake, obstacles);
    var col := FreeColumn(x, y, snake, obstacles);
    if c.y < y - 1 {
      FreeColumnComplete(x, y - 1, snake, obstacles, c);
      var j :| 0 <= j < |prev| && prev[j] == c;
      assert col[j] == c;
    } else {
      assert col[|col| - 1] == c;
    }
  }

  /** Every free cell of the columns below x is in `FreeColumns(x, rows, ..)`. */
  lemma {:induction false} FreeColumnsComplete(x: nat, rows: nat, snake: seq<Cell>, obstacles: seq<Cell>, c: Cell)
    requires 0 <= c.x < x && 0 <= c.y < rows && IsFree(c, snake, obstacles)
    ensures c in FreeColumns(x, rows, snake, obstacles)
  {
    var prev := FreeColumns(x - 1, rows, snake, obstacles);
    var col := FreeColumn(x - 1, rows, snake, obstacles);
    var s := prev + col;
    if c.x < x - 1 {
      FreeColumnsComplete(x - 1, rows, snake, obstacles, c);
      var j :| 0 <= j < |prev| && prev[j] == c;
      assert s[j] == c;
    } else {
      FreeColumnComplete(x - 1, rows, snake, obstacles, c);
      var j :| 0 <= j < |col| && col[j] == c;
      assert s[|prev| + j] == c;
    }
  }

  lemma {:induction false} FreeColumnOrdered(x: int, y: nat, snake: seq<Cell>, obstacles: seq<Cell>)
    ensures ScanOrdered(FreeColumn(x, y, snake, obstacles))
  {
    if y > 0 {
      var prev := FreeColumn(x, y - 1, snake, obstacles);
      FreeColumnOrdered(x, y - 1, snake, obstacles);
      FreeColumnSound(x, y - 1, snake, obstacles);
      ScanOrderedConcat(prev, if IsFree(Cell(x, y - 1), snake, obstacles) then [Cell(x, y - 1)] else []);
    }
  }

  lemma {:induction false} FreeColumnsOrdered(x: nat, rows: nat, snake: seq<Cell>, obstacles: seq<Cell>)
    ensures ScanOrdered(FreeColumns(x, rows, snake, obstacles))
  {
    if x > 0 {
      var prev := FreeColumns(x - 1, rows, snake, obstacles);
      var col := FreeColumn(x - 1, rows, snake, obstacles);
      FreeColumnsOrdered(x - 1, rows, snake, obstacles);
      FreeColumnOrdered(x - 1, rows, snake, obstacles);
      FreeColumnsSound(x - 1, rows, snake, obstacles);
      FreeColumnSound(x - 1, rows, snake, obstacles);
      ScanOrderedConcat(prev, col);
    }
  }

  /** The free list is in scan order, so in particular it holds no cell twice. */
  lemma FreeListOrdered(cols: nat, rows: nat, snake: seq<Cell>, obstacles: seq<Cell>)
    ensures ScanOrdered(FreeList(cols, rows, snake, obstacles))
    ensures Distinct(FreeList(cols, rows, snake, obstacles))
  {
    FreeColumnsOrdered(cols, rows, snake, obstacles);
  }

  /** The nested loops of `spawnFood` that build `free`. */
  method CollectFree(cols: nat, rows: nat, snake: seq<Cell>, obstacles: seq<Cell>) returns (free: seq<Cell>)
    ensures free == FreeList(cols, rows, snake, obstacles)
  {
    free := [];
    for x := 0 to cols
      invariant free == FreeColumns(x, rows, snake, obstacles)
    {
      for y := 0 to rows
        invariant free == FreeColumns(x, rows, snake, obstacles) + FreeColumn(x, y, snake, obstacles)
      {
        var c := Cell(x, y);
        InCellsIsMembership(snake, c);
        InCellsIsMembership(obstacles, c);
        if InCells(snake, c) || InCells(obstacles, c) {
          continue;
        }
        free := free + [c];
      }
    }
  }

  /** The food type: a forced type wins, otherwise a roll above 0.92 makes bonus food. */
  function PickKind(force: Option<FoodKind>, roll: RandomValue): FoodKind {
    if force.Some? then force.value else if roll > 0.92 then Bonus else Normal
  }

  /** The food `spawnFood` creates at time `now` from a non-empty free list. */
  function NewFood(free: seq<Cell>, now: int, kind: FoodKind, pick: RandomValue, extra: RandomValue): (f: Food)
    requires |free| > 0
    ensures f.pos in free && f.kind == kind && f.created == now
    ensures WellFormed(f)
  {
    var pos := free[RandInt(0, |free| - 1, pick)];
    var expires := if kind == Bonus then Some(now + BonusLife + RandInt(0, BonusExtraLife, extra)) else None;
    Food(pos, kind, now, expires)
  }

  /** `spawnFood` on the free list `free`, with the draws of its `Math.random()` calls. */
  function Spawn(slot: FoodSlot, now: int, free: seq<Cell>, force: Option<FoodKind>, roll: RandomValue, pick: RandomValue, extra: RandomValue): FoodSlot {
    if slot.food.Some? || now - slot.lastClearedAt < FoodCooldown || |free| == 0 then slot
    else FoodSlot(Some(NewFood(free, now, PickKind(force, roll), pick, extra)), 0)
  }

  /**
   * Nothing happens while food is present, during the cooldown or on a full board; otherwise
   * a well-formed food of the picked kind appears on a free cell and the cooldown mark is reset to 0.
   */
  lemma SpawnSpec(slot: FoodSlot, now: int, free: seq<Cell>, force: Option<FoodKind>, roll: RandomValue, pick: RandomValue, extra: RandomValue)
    ensures var r := Spawn(slot, now, free, force, roll, pick, extra);
            && (slot.food.Some? ==> r == slot)
            && (now - slot.lastClearedAt < FoodCooldown ==> r == slot)
            && (|free| == 0 ==> r == slot)
            && (slot.food.None? && now - slot.lastClearedAt >= FoodCooldown && |free| > 0 ==>
                  && r.food.Some?
                  && r.food.value.pos in free
                  && r.food.value.kind == PickKind(force, roll)
                  && r.food.value.created == now
                  && WellFormed(r.food.value)
                  && r.lastClearedAt == 0)
  {
  }

  /** `clearFood` at time `now`: the slot empties and the cooldown starts. */
  function Cleared(now: int): FoodSlot {
    FoodSlot(None, now)
  }

  /** The expiry step of a tick: food with an expiry time strictly before `now` is cleared. */
  function Expire(slot: FoodSlot, now: int): FoodSlot {
    if slot.food.Some? && slot.food.value.expires.Some? && now > slot.food.value.expires.value
    then Cleared(now)
    else slot
  }

  /** Normal food is never removed by expiry. */
  lemma NormalFoodNeverExpires(slot: FoodSlot, now: int)
    requires slot.food.Some? && slot.food.value.kind == Normal && WellFormed(slot.food.value)
    ensures Expire(slot, now) == slot
  {
  }

  /** Bonus food survives every check up to 3000 ms after creation and is gone at any check after 5200 ms. */
  lemma BonusExpiryWindow(slot: FoodSlot, now: int)
    requires slot.food.Some? && slot.food.value.kind == Bonus && WellFormed(slot.food.value)
    ensures now <= slot.food.value.created + BonusLife ==> Expire(slot, now) == slot
    ensures now > slot.food.value.created + BonusLife + BonusExtraLife ==> Expire(slot, now) == Cleared(now)
  {
  }

  /** Right after food was cleared at `now`, a spawn at the same instant is held back by the cooldown. */
  lemma CooldownBlocksImmediateRespawn(now: int, free: seq<Cell>, force: Option<FoodKind>, roll: RandomValue, pick: RandomValue, extra: RandomValue, t: int)
    requires now <= t < now + FoodCooldown
    ensures Spawn(Cleared(now), t, free, force, roll, pick, extra) == Cleared(now)
  {
  }

}
