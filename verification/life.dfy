/**
 * The rules of the next generation: which positions are a cell's
 * neighbours, how many of them are alive, and the transition rule. All of it
 * reads a single grid, the one before the step.
 */
module Life {
  import opened CellState
  import opened Grids

  datatype Option<T> = None | Some(value: T)

  /** `n.checked_sub(1)`: absent below zero. */
  function CheckedSub1(n: nat): (r: Option<nat>)
    ensures r.Some? <==> n > 0
    ensures r.Some? ==> r.value + 1 == n
  {
    if n == 0 then None else Some(n - 1)
  }

  /**
   * `n.checked_add(1)`. Indices are below a vector's length, which stays
   * below `usize::MAX`, so the addition never overflows.
   */
  function CheckedAdd1(n: nat): (r: Option<nat>)
    ensures r.Some? && CheckedSub1(r.value) == Some(n)
  {
    Some(n + 1)
  }

  /** `Option::zip`: a position exists only when both coordinates do. */
  function Zip(row: Option<nat>, col: Option<nat>): (r: Option<(nat, nat)>)
    ensures r.Some? <==> row.Some? && col.Some?
    ensures r.Some? ==> r.value.0 == row.value && r.value.1 == col.value
  {
    if row.Some? && col.Some? then Some((row.value, col.value)) else None
  }

  /** The eight positions around `(y, x)`, clockwise from the one above. */
  function Neighbourhood(y: nat, x: nat): (ps: seq<Option<(nat, nat)>>)
    ensures |ps| == 8
  {
    var prevRow, nextRow := CheckedSub1(y), CheckedAdd1(y);
    var prevCol, nextCol := CheckedSub1(x), CheckedAdd1(x);
    [ Zip(prevRow, Some(x)), Zip(prevRow, nextCol), Zip(Some(y), nextCol), Zip(nextRow, nextCol),
      Zip(nextRow, Some(x)), Zip(nextRow, prevCol), Zip(Some(y), prevCol), Zip(prevRow, prevCol) ]
  }

  /**
   * Each present neighbour position is within one row and one column of
   * `(y, x)` and is not `(y, x)` itself, no position appears twice, and a
   * position is absent only when it would lie above row 0 or left of column 0.
   */
  lemma NeighbourhoodShape(y: nat, x: nat)
    ensures var ps := Neighbourhood(y, x);
      forall k :: 0 <= k < 8 && ps[k].Some? ==>
        y - 1 <= ps[k].value.0 <= y + 1 && x - 1 <= ps[k].value.1 <= x + 1 && ps[k].value != (y, x)
    ensures var ps := Neighbourhood(y, x);
      forall k, l :: 0 <= k < l < 8 && ps[k].Some? && ps[l].Some? ==> ps[k].value != ps[l].value
    ensures var ps := Neighbourhood(y, x);
      forall k :: 0 <= k < 8 ==> (ps[k].None? <==> (y == 0 && k in {0, 1, 7}) || (x == 0 && k in {5, 6, 7}))
  {
  }

  /** `state.get(y).and_then(|row| row.get(x))`: absent outside the grid. */
  function Get(g: Grid, pos: Option<(nat, nat)>): (c: Option<State>)
    ensures c.Some? <==> pos.Some? && pos.value.0 < |g| && pos.value.1 < |g[pos.value.0]|
    ensures c.Some? ==> c.value == g[pos.value.0][pos.value.1]
  {
    match pos
    case None => None
    case Some((i, j)) => if i < |g| && j < |g[i]| then Some(g[i][j]) else None
  }

  /** How many of `cells` are present and alive (`filter_map`, `filter`, `count`). */
  function CountAlive(cells: seq<Option<State>>): (n: nat)
    ensures n <= |cells|
  {
    if |cells| == 0 then 0
    else AliveCount(cells[0]) + CountAlive(cells[1..])
  }

  /** The cell at each position, where there is one (`filter_map` with `get`). */
  function Lookups(g: Grid, ps: seq<Option<(nat, nat)>>): (cells: seq<Option<State>>)
    ensures |cells| == |ps|
  {
    seq(|ps|, k requires 0 <= k < |ps| => Get(g, ps[k]))
  }

  /** The live-neighbour count of `(y, x)`, taken from `g`. */
  function LiveNeighbours(g: Grid, y: nat, x: nat): (n: nat)
    ensures n <= 8
  {
    CountAlive(Lookups(g, Neighbourhood(y, x)))
  }

  /** 1 when `(i, j)` lies inside `g` and holds a live cell, else 0. */
  function LiveAt(g: Grid, i: int, j: int): nat {
    if 0 <= i < |g| && 0 <= j < |g[i]| && g[i][j] == Alive then 1 else 0
  }

  /**
   * Reference count: the live cells of the 3-by-3 window around `(y, x)`,
   * centre excluded, with positions off the grid counting nothing.
   */
  function WindowCount(g: Grid, y: int, x: int): nat {
    LiveAt(g, y - 1, x - 1) + LiveAt(g, y - 1, x) + LiveAt(g, y - 1, x + 1) +
    LiveAt(g, y, x - 1) + LiveAt(g, y, x + 1) +
    LiveAt(g, y + 1, x - 1) + LiveAt(g, y + 1, x) + LiveAt(g, y + 1, x + 1)
  }

  /** 1 for a present live cell, else 0. */
  function AliveCount(cell: Option<State>): nat {
    if cell == Some(Alive) then 1 else 0
  }

  /** Counting from position `k` on is the count at `k` plus the count after it. */
  lemma CountAliveFrom(cells: seq<Option<State>>, k: nat)
    requires k < |cells|
    ensures CountAlive(cells[k..]) == AliveCount(cells[k]) + CountAlive(cells[k + 1..])
  {
    assert cells[k..][1..] == cells[k + 1..];
  }

  /** The count over eight cells is the sum of their contributions, in any order. */
  lemma CountAliveEight(cells: seq<Option<State>>)
    requires |cells| == 8
    ensures CountAlive(cells) ==
      AliveCount(cells[0]) + AliveCount(cells[1]) + AliveCount(cells[2]) + AliveCount(cells[3]) +
      AliveCount(cells[4]) + AliveCount(cells[5]) + AliveCount(cells[6]) + AliveCount(cells[7])
  {
    assert cells[0..] == cells && cells[8..] == [];
    CountAliveFrom(cells, 0); CountAliveFrom(cells, 1); CountAliveFrom(cells, 2); CountAliveFrom(cells, 3);
    CountAliveFrom(cells, 4); CountAliveFrom(cells, 5); CountAliveFrom(cells, 6); CountAliveFrom(cells, 7);
  }

  /**
   * Each clockwise neighbour, looked up with `checked_sub` and `get`, is live
   * exactly when the corresponding window position is on the grid and live.
   */
  lemma NeighbourLookups(g: Grid, y: nat, x: nat)
    ensures var cells := Lookups(g, Neighbourhood(y, x));
      AliveCount(cells[0]) == LiveAt(g, y - 1, x) &&
      AliveCount(cells[1]) == LiveAt(g, y - 1, x + 1) &&
      AliveCount(cells[2]) == LiveAt(g, y, x + 1) &&
      AliveCount(cells[3]) == LiveAt(g, y + 1, x + 1) &&
      AliveCount(cells[4]) == LiveAt(g, y + 1, x) &&
      AliveCount(cells[5]) == LiveAt(g, y + 1, x - 1) &&
      AliveCount(cells[6]) == LiveAt(g, y, x - 1) &&
      AliveCount(cells[7]) == LiveAt(g, y - 1, x - 1)
  {
  }

  /**
   * The clockwise count with absent positions equals the window count:
   * only in-bounds positions count, nothing wraps around, and the order of
   * the neighbours does not matter.
   */
  lemma LiveNeighboursIsWindowCount(g: Grid, y: nat, x: nat)
    ensures LiveNeighbours(g, y, x) == WindowCount(g, y, x)
  {
    CountAliveEight(Lookups(g, Neighbourhood(y, x)));
    NeighbourLookups(g, y, x);
  }

  /** 1, 2 or 3: how many rows (or columns) of a window around `i` fit in `0 .. n`. */
  function Span(i: nat, n: nat): nat {
    (if 0 < i then 1 else 0) + 1 + (if i + 1 < n then 1 else 0)
  }

  /**
   * Edges and corners have fewer neighbours: on a rectangular grid of height
   * `h` and width `w` the count is at most the number of in-bounds positions
   * around the cell (8 inside, 5 on an edge, 3 in a corner).
   */
  lemma NeighboursWithinBounds(g: Grid, y: nat, x: nat)
    requires Rectangular(g) && y < |g| && x < |g[y]|
    ensures LiveNeighbours(g, y, x) <= Span(y, |g|) * Span(x, |g[y]|) - 1
  {
    LiveNeighboursIsWindowCount(g, y, x);
    var w := |g[y]|;
    assert forall i :: 0 <= i < |g| ==> |g[i]| == w by {
      forall i | 0 <= i < |g| ensures |g[i]| == w {
        if i < y { assert |g[i]| == |g[y]|; } else if y < i { assert |g[y]| == |g[i]|; }
      }
    }
    var rows, cols := Span(y, |g|), Span(x, w);
    if y == 0 { assert LiveAt(g, y - 1, x - 1) + LiveAt(g, y - 1, x) + LiveAt(g, y - 1, x + 1) == 0; }
    if y + 1 >= |g| { assert LiveAt(g, y + 1, x - 1) + LiveAt(g, y + 1, x) + LiveAt(g, y + 1, x + 1) == 0; }
    if x == 0 { assert LiveAt(g, y - 1, x - 1) + LiveAt(g, y, x - 1) + LiveAt(g, y + 1, x - 1) == 0; }
    if x + 1 >= w { assert LiveAt(g, y - 1, x + 1) + LiveAt(g, y, x + 1) + LiveAt(g, y + 1, x + 1) == 0; }
  }

  /**
   * The count depends on the eight positions around `(y, x)` and on nothing
   * else: not the cell itself, not the far edge of the grid.
   */
  lemma NeighboursLocal(g: Grid, h: Grid, y: nat, x: nat)
    requires forall i: int, j: int :: y - 1 <= i <= y + 1 && x - 1 <= j <= x + 1 && (i != y || j != x) ==>
      LiveAt(g, i, j) == LiveAt(h, i, j)
    ensures LiveNeighbours(g, y, x) == LiveNeighbours(h, y, x)
  {
    LiveNeighboursIsWindowCount(g, y, x);
    LiveNeighboursIsWindowCount(h, y, x);
    assert LiveAt(g, y - 1, x - 1) == LiveAt(h, y - 1, x - 1);
    assert LiveAt(g, y - 1, x) == LiveAt(h, y - 1, x);
    assert LiveAt(g, y - 1, x + 1) == LiveAt(h, y - 1, x + 1);
    assert LiveAt(g, y, x - 1) == LiveAt(h, y, x - 1);
    assert LiveAt(g, y, x + 1) == LiveAt(h, y, x + 1);
    assert LiveAt(g, y + 1, x - 1) == LiveAt(h, y + 1, x - 1);
    assert LiveAt(g, y + 1, x) == LiveAt(h, y + 1, x);
    assert LiveAt(g, y + 1, x + 1) == LiveAt(h, y + 1, x + 1);
  }

  /**
   * The transition rule: a live cell with fewer than 2 or more than 3 live
   * neighbours dies, a dead cell with exactly 3 comes alive, every other
   * cell keeps its state. Equivalently: the cell is alive afterwards exactly
   * when it has 3 live neighbours, or 2 and was alive.
   */
  function Rule(s: State, n: nat): (r: State)
    ensures r == Alive <==> n == 3 || (s == Alive && n == 2)
  {
    match s
    case Alive => if n == 0 || n == 1 || n > 3 then Dead else s
    case Dead => if n == 3 then Alive else s
  }

  /**
   * The next generation: every cell gets the rule applied to its own state
   * and its live-neighbour count, both read from `g`. The grid keeps its
   * height and every row its length.
   */
  function NextGrid(g: Grid): (r: Grid)
    ensures |r| == |g|
    ensures forall y :: 0 <= y < |g| ==> |r[y]| == |g[y]|
    ensures Rectangular(g) ==> Rectangular(r)
  {
    seq(|g|, y requires 0 <= y < |g| =>
      seq(|g[y]|, x requires 0 <= x < |g[y]| => Rule(g[y][x], LiveNeighbours(g, y, x))))
  }

  /**
   * A cell of the next generation is alive exactly when the window around
   * it in the old grid holds 3 live cells, or 2 and the cell was alive.
   */
  lemma NextCell(g: Grid, y: nat, x: nat)
    requires y < |g| && x < |g[y]|
    ensures NextGrid(g)[y][x] == Alive <==>
      WindowCount(g, y, x) == 3 || (g[y][x] == Alive && WindowCount(g, y, x) == 2)
  {
    LiveNeighboursIsWindowCount(g, y, x);
  }

  /** Reference next generation: the rule applied to the window counts. */
  function WindowNext(g: Grid): Grid {
    seq(|g|, y requires 0 <= y < |g| =>
      seq(|g[y]|, x requires 0 <= x < |g[y]| => Rule(g[y][x], WindowCount(g, y, x))))
  }

  /** The next generation equals the one computed from window counts. */
  lemma NextGridIsWindowNext(g: Grid)
    ensures NextGrid(g) == WindowNext(g)
  {
    forall y | 0 <= y < |g|
      ensures NextGrid(g)[y] == WindowNext(g)[y]
    {
      forall x | 0 <= x < |g[y]|
        ensures NextGrid(g)[y][x] == WindowNext(g)[y][x]
      {
        LiveNeighboursIsWindowCount(g, y, x);
      }
    }
  }

  /** A grid with no live cell (a fresh board, or one with no rows or columns) stays as it is. */
  lemma NextAllDead(g: Grid)
    requires forall y, x :: 0 <= y < |g| && 0 <= x < |g[y]| ==> g[y][x] == Dead
    ensures NextGrid(g) == g
  {
    forall y | 0 <= y < |g|
      ensures NextGrid(g)[y] == g[y]
    {
      forall x | 0 <= x < |g[y]|
        ensures NextGrid(g)[y][x] == g[y][x]
      {
        LiveNeighboursIsWindowCount(g, y, x);
      }
    }
  }
}
