/**
 * The board: cells, directions and the coordinate arithmetic of one step,
 * including JavaScript's truncating `%` used by wrap mode.
 */
module Grid {
  import opened Wrappers

  /** Cells per side of the board (`GRID`). */
  const GRID: int := 20

  /** A board position `{x, y}`. */
  datatype Cell = Cell(x: int, y: int)

  /** A displacement `{x, y}` as used for `dir` and `nextDir`. */
  datatype Vec = Vec(dx: int, dy: int)

  predicate IsUnit(v: Vec) {
    (v.dx == 0 && (v.dy == 1 || v.dy == -1)) || (v.dy == 0 && (v.dx == 1 || v.dx == -1))
  }

  /** The four directions the input handlers can produce. */
  type Dir = v: Vec | IsUnit(v) witness Vec(1, 0)

  const Up: Dir := Vec(0, -1)
  const Down: Dir := Vec(0, 1)
  const Left: Dir := Vec(-1, 0)
  const Right: Dir := Vec(1, 0)

  function Reverse(d: Dir): (r: Dir)
    ensures r != d && IsUnit(r)
  {
    Vec(-d.dx, -d.dy)
  }

  predicate InGrid(c: Cell, cols: int, rows: int) {
    0 <= c.x < cols && 0 <= c.y < rows
  }

  /** Not on the outermost ring: the cells obstacles are drawn from. */
  predicate Interior(c: Cell, cols: int, rows: int) {
    1 <= c.x <= cols - 2 && 1 <= c.y <= rows - 2
  }

  predicate Distinct(s: seq<Cell>) {
    forall i, j :: 0 <= i < j < |s| ==> s[i] != s[j]
  }

  /** `inSnake` / `inObstacles`: `cells.some(c => c.x === x && c.y === y)`. */
  function InCells(cells: seq<Cell>, c: Cell): (b: bool)
    ensures b <==> exists i :: 0 <= i < |cells| && cells[i].x == c.x && cells[i].y == c.y
  {
    if |cells| == 0 then false
    else
      var rest := InCells(cells[1..], c);
      assert rest <==> exists i :: 1 <= i < |cells| && cells[i].x == c.x && cells[i].y == c.y by {
        forall i | 1 <= i < |cells| ensures cells[i] == cells[1..][i - 1] { }
        forall i | 0 <= i < |cells| - 1 ensures cells[1..][i] == cells[i + 1] { }
      }
      (cells[0].x == c.x && cells[0].y == c.y) || rest
  }

  lemma InCellsIsMembership(cells: seq<Cell>, c: Cell)
    ensures InCells(cells, c) <==> c in cells
  {
    if c in cells {
      var i :| 0 <= i < |cells| && cells[i] == c;
      assert cells[i].x == c.x && cells[i].y == c.y;
    }
  }

  /** JavaScript's `a % m` for a positive modulus: the remainder truncated toward zero. */
  function JsRem(a: int, m: int): (r: int)
    requires m > 0
    ensures -m < r < m
    ensures a >= 0 ==> 0 <= r
    ensures a <= 0 ==> r <= 0
    ensures a >= 0 ==> r == a % m
    ensures (a - r) % m == 0
  {
    if a >= 0 then
      assert a - a % m == m * (a / m);
      MultipleRem(m, a / m);
      a % m
    else
      assert a + (-a) % m == m * -((-a) / m);
      MultipleRem(m, -((-a) / m));
      -((-a) % m)
  }

  /** A multiple of m leaves no remainder. */
  lemma MultipleRem(m: int, k: int)
    requires m > 0
    ensures (m * k) % m == 0
  {
    var x := m * k;
    var q, r := x / m, x % m;
    var d := k - q;
    assert m * d == r by {
      assert x == m * q + r;
      assert m * d == m * k - m * q;
    }
  }

  /**
   * The pending-direction rule of a tick: the buffered direction replaces `dir`
   * unless it is its exact reverse; a rejected reversal is dropped.
   */
  function NextDir(dir: Dir, pending: Option<Dir>): (r: Dir)
    ensures r != Reverse(dir)
    ensures pending == None ==> r == dir
    ensures pending.Some? && pending.value == Reverse(dir) ==> r == dir
    ensures pending.Some? && pending.value != Reverse(dir) ==> r == pending.value
  {
    match pending
    case None => dir
    case Some(p) => if p == Reverse(dir) then dir else p
  }

  /**
   * The cell a step from `head` in direction `d` lands on: in wrap mode each coordinate
   * is `(v + n) % n`, otherwise the raw neighbour (which may lie off the board).
   */
  function NextHead(head: Cell, d: Dir, wrap: bool, cols: int, rows: int): (r: Cell)
    requires cols > 0 && rows > 0
    ensures !wrap ==> r == Cell(head.x + d.dx, head.y + d.dy)
    ensures wrap && InGrid(head, cols, rows) ==>
              && InGrid(r, cols, rows)
              && r.x == Wrapped(head.x + d.dx, cols)
              && r.y == Wrapped(head.y + d.dy, rows)
  {
    var x, y := head.x + d.dx, head.y + d.dy;
    if wrap then
      WrapReentersOppositeEdge(x, cols); WrapReentersOppositeEdge(y, rows);
      Cell(JsRem(x + cols, cols), JsRem(y + rows, rows))
    else
      Cell(x, y)
  }

  /** Crossing an edge re-enters at the opposite edge; any other coordinate is kept. */
  function Wrapped(v: int, n: int): int {
    if v == -1 then n - 1 else if v == n then 0 else v
  }

  /**
   * For a coordinate one step off an in-range value, `(v + n) % n` is the torus position,
   * and it coincides with the mathematical modulo.
   */
  lemma WrapReentersOppositeEdge(v: int, n: int)
    requires n > 0
    ensures -1 <= v <= n ==> JsRem(v + n, n) == Wrapped(v, n) == v % n
  {
    if -1 <= v <= n {
      if v == -1 {
        assert (n - 1) % n == n - 1;
        assert (-1) % n == n - 1 by { if n > 1 { } }
      } else if v == n {
        assert (n + n) % n == 0;
        assert n % n == 0;
      } else {
        assert (v + n) % n == v;
        assert v % n == v;
      }
    }
  }

  /** A step in wall mode leaves the board exactly when the neighbour has a coordinate outside it. */
  lemma WallStepLeavesBoard(head: Cell, d: Dir, cols: int, rows: int)
    requires cols > 0 && rows > 0
    requires InGrid(head, cols, rows)
    ensures !InGrid(NextHead(head, d, false, cols, rows), cols, rows) <==>
              (d == Left && head.x == 0) || (d == Right && head.x == cols - 1) ||
              (d == Up && head.y == 0) || (d == Down && head.y == rows - 1)
  {
  }

  /** The wrap scenario: on a 20 x 20 board a head at x = 19 moving right re-enters at x = 0. */
  lemma WrapScenario(y: int)
    requires 0 <= y < GRID
    ensures NextHead(Cell(GRID - 1, y), Right, true, GRID, GRID) == Cell(0, y)
  {
  }

  lemma DistinctAppend(s: seq<Cell>, h: Cell)
    requires Distinct(s) && h !in s
    ensures Distinct(s + [h])
  {
  }

  lemma DistinctDropFirst(s: seq<Cell>)
    requires Distinct(s) && |s| > 0
    ensures Distinct(s[1..])
  {
  }

}
