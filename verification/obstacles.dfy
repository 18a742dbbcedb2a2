/**
 * The obstacle generator: rejection sampling of interior cells with a hard cap of 5000 tries.
 * Try t draws its x from `rand(2 t)` and its y from `rand(2 t + 1)`.
 */
module Obstacles {
  import opened Wrappers
  import opened Random
  import opened Grid
  import opened Food

  /** The hard cap on sampling attempts. */
  const MaxTries: nat := 5000

  /** `Math.floor(cols * rows / 6)`: at most one obstacle per six cells of the board. */
  function ObstacleLimit(cols: nat, rows: nat): nat {
    (cols * rows) / 6
  }

  /** `Math.min(count, limit)`: the number of obstacles a call asks for. */
  function Cap(count: nat, limit: nat): nat {
    if count < limit then count else limit
  }

  predicate FoodAt(food: Option<Food>, c: Cell) {
    food.Some? && food.value.pos == c
  }

  /** The candidate cell of try t: `randInt(1, cols - 2)`, `randInt(1, rows - 2)`. */
  function Draw(rand: nat -> RandomValue, t: nat, cols: nat, rows: nat): (c: Cell)
    requires cols >= 3 && rows >= 3
    ensures Interior(c, cols, rows)
  {
    Cell(RandInt(1, cols - 2, rand(2 * t)), RandInt(1, rows - 2, rand(2 * t + 1)))
  }

  /**
   * The `while` loop of `generateObstacles` from the state (tries, acc): a candidate on the
   * snake, already taken, or under the food is rejected; any other is appended.
   */
  function Sample(cols: nat, rows: nat, max: int, snake: seq<Cell>, food: Option<Food>, rand: nat -> RandomValue,
                  tries: nat, acc: seq<Cell>): seq<Cell>
    requires cols >= 3 && rows >= 3
    decreases MaxTries - tries
  {
    if |acc| >= max || tries >= MaxTries then acc
    else
      var c := Draw(rand, tries, cols, rows);
      if InCells(snake, c) || InCells(acc, c) || FoodAt(food, c) then
        Sample(cols, rows, max, snake, food, rand, tries + 1, acc)
      else
        Sample(cols, rows, max, snake, food, rand, tries + 1, acc + [c])
  }

  /** The obstacle list `generateObstacles(count)` builds from the draws `rand`, with `limit` = `ObstacleLimit(cols, rows)`. */
  function Generated(count: nat, limit: nat, cols: nat, rows: nat, snake: seq<Cell>, food: Option<Food>, rand: nat -> RandomValue): seq<Cell>
    requires cols >= 3 && rows >= 3
  {
    Sample(cols, rows, Cap(count, limit), snake, food, rand, 0, [])
  }

  /** Interior, pairwise distinct, off the snake and off the food cell. */
  predicate Placeable(obs: seq<Cell>, cols: nat, rows: nat, snake: seq<Cell>, food: Option<Food>) {
    && Distinct(obs)
    && (forall c | c in obs :: Interior(c, cols, rows) && c !in snake && !FoodAt(food, c))
  }

  lemma {:induction false} SampleValid(cols: nat, rows: nat, max: int, snake: seq<Cell>, food: Option<Food>,
                                       rand: nat -> RandomValue, tries: nat, acc: seq<Cell>)
    requires cols >= 3 && rows >= 3
    requires Placeable(acc, cols, rows, snake, food) && |acc| <= max
    ensures var r := Sample(cols, rows, max, snake, food, rand, tries, acc);
            Placeable(r, cols, rows, snake, food) && |r| <= max && acc <= r
    decreases MaxTries - tries
  {
    if |acc| >= max || tries >= MaxTries {
    } else {
      var c := Draw(rand, tries, cols, rows);
      InCellsIsMembership(snake, c);
      InCellsIsMembership(acc, c);
      if InCells(snake, c) || InCells(acc, c) || FoodAt(food, c) {
        SampleValid(cols, rows, max, snake, food, rand, tries + 1, acc);
      } else {
        DistinctAppend(acc, c);
        SampleValid(cols, rows, max, snake, food, rand, tries + 1, acc + [c]);
      }
    }
  }

  /**
   * Whatever the draws, `generateObstacles(count)` yields at most min(count, limit)
   * pairwise distinct interior cells, none on the snake and none on the food.
   */
  lemma GeneratedValid(count: nat, limit: nat, cols: nat, rows: nat, snake: seq<Cell>, food: Option<Food>, rand: nat -> RandomValue)
    requires cols >= 3 && rows >= 3
    ensures var r := Generated(count, limit, cols, rows, snake, food, rand);
            && Placeable(r, cols, rows, snake, food)
            && |r| <= count
            && |r| <= limit
  {
    assert Placeable([], cols, rows, snake, food);
    SampleValid(cols, rows, Cap(count, limit), snake, food, rand, 0, []);
  }

  /** The candidate cells of n consecutive tries starting at try t. */
  function Candidates(rand: nat -> RandomValue, t: nat, n: nat, cols: nat, rows: nat): seq<Cell>
    requires cols >= 3 && rows >= 3
    decreases n
  {
    if n == 0 then [] else [Draw(rand, t, cols, rows)] + Candidates(rand, t + 1, n - 1, cols, rows)
  }

  /**
   * When no candidate is rejected, the loop keeps exactly the first `max - |acc|` candidates,
   * in draw order.
   */
  lemma {:induction false} SampleTakesFreshDraws(cols: nat, rows: nat, max: int, snake: seq<Cell>, food: Option<Food>,
                                                 rand: nat -> RandomValue, tries: nat, acc: seq<Cell>)
    requires cols >= 3 && rows >= 3
    requires 0 <= max - |acc| <= MaxTries - tries
    requires Distinct(acc + Candidates(rand, tries, max - |acc|, cols, rows))
    requires forall c | c in Candidates(rand, tries, max - |acc|, cols, rows) :: c !in snake && !FoodAt(food, c)
    ensures Sample(cols, rows, max, snake, food, rand, tries, acc) == acc + Candidates(rand, tries, max - |acc|, cols, rows)
    decreases MaxTries - tries
  {
    var n := max - |acc|;
    if n > 0 {
      var c := Draw(rand, tries, cols, rows);
      var rest := Candidates(rand, tries + 1, n - 1, cols, rows);
      assert acc + Candidates(rand, tries, n, cols, rows) == (acc + [c]) + rest;
      InCellsIsMembership(snake, c);
      InCellsIsMembership(acc, c);
      assert (acc + [c] + rest)[|acc|] == c;
      forall i | 0 <= i < |acc| ensures acc[i] != c {
        assert (acc + [c] + rest)[i] == acc[i];
      }
      assert c in Candidates(rand, tries, n, cols, rows);
      SampleTakesFreshDraws(cols, rows, max, snake, food, rand, tries + 1, acc + [c]);
    }
  }

}
