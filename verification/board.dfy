/**
 * The board object: a grid of cells that `random_state` overwrites in
 * place, that `next_board_state` reads to build the next generation on a
 * clone, and that `Display` writes out row by row.
 */
module Boards {
  import opened CellState
  import opened Grids
  import opened Life

  class Board {
    var state: Grid

    /** The board is rectangular. */
    ghost predicate Valid()
      reads this
    {
      Rectangular(state)
    }

    /** `Board::new(w, h)`: `h` rows of `w` dead cells. */
    constructor New(w: nat, h: nat)
      ensures Valid()
      ensures |state| == h
      ensures forall y :: 0 <= y < h ==> |state[y]| == w
      ensures forall y, x :: 0 <= y < h && 0 <= x < |state[y]| ==> state[y][x] == Dead
    {
      var row := seq(w, _ => Dead);
      state := seq(h, _ => row);
    }

    /**
     * `From<[[bool; W]; H]>`: the matrix is rectangular by its type; the
     * board has a live cell exactly where the matrix holds `true`.
     */
    constructor FromBools(m: seq<seq<bool>>)
      requires Rectangular(m)
      ensures Valid()
      ensures |state| == |m|
      ensures forall y :: 0 <= y < |m| ==> |state[y]| == |m[y]|
      ensures forall y, x :: 0 <= y < |m| && 0 <= x < |m[y]| ==> (state[y][x] == Alive <==> m[y][x])
    {
      state := seq(|m|, y requires 0 <= y < |m| =>
        seq(|m[y]|, x requires 0 <= x < |m[y]| => FromBool(m[y][x])));
    }

    /** `self.clone()`: a new board with the same cells. */
    constructor Clone(source: Board)
      requires source.Valid()
      ensures Valid() && state == source.state
    {
      state := source.state;
    }

    /**
     * `TryFrom<&str>`: fails when two lines of `text` differ in length,
     * otherwise gives a new board holding the parsed grid.
     */
    static method TryFrom(text: seq<byte>) returns (r: Result<Board>)
      ensures r.Err? <==> !Rectangular(TextLines.Lines(text))
      ensures r.Ok? ==> fresh(r.value) && r.value.Valid() && Parse(text) == Ok(r.value.state)
    {
      var parsed := Parse(text);
      if parsed.Err? {
        return Err(parsed.error);
      }
      var board := new Board.FromGrid(parsed.value);
      r := Ok(board);
    }

    /** A board holding a given rectangular grid. */
    constructor FromGrid(g: Grid)
      requires Rectangular(g)
      ensures Valid() && state == g
    {
      state := g;
    }

    /** `width()`: 0 without rows, else the first row's length, which every row has. */
    function Width(): (w: nat)
      reads this
      ensures |state| == 0 ==> w == 0
      ensures Valid() ==> forall y :: 0 <= y < |state| ==> |state[y]| == w
    {
      if |state| == 0 then 0 else |state[0]|
    }

    /** `height()`: the number of rows. */
    function Height(): (h: nat)
      reads this
      ensures h == |state|
    {
      |state|
    }

    /**
     * `random_state`: overwrites every cell, row by row, with the next value
     * drawn from the random source, given here as one draw per cell.
     */
    method RandomState(draws: Grid)
      requires Valid()
      requires |draws| == |state|
      requires forall y :: 0 <= y < |state| ==> |draws[y]| == |state[y]|
      modifies this
      ensures Valid()
      ensures state == draws
    {
      for y := 0 to |state|
        invariant |state| == |draws|
        invariant forall i :: 0 <= i < |state| ==> |state[i]| == |draws[i]|
        invariant forall i :: 0 <= i < y ==> state[i] == draws[i]
      {
        for x := 0 to |state[y]|
          invariant |state| == |draws|
          invariant forall i :: 0 <= i < |state| ==> |state[i]| == |draws[i]|
          invariant forall i :: 0 <= i < y ==> state[i] == draws[i]
          invariant forall j :: 0 <= j < x ==> state[y][j] == draws[y][j]
        {
          state := state[y := state[y][x := draws[y][x]]];
        }
      }
      assert Rectangular(draws) by {
        assert forall i, j :: 0 <= i < j < |draws| ==> |draws[i]| == |old(state)[i]| == |old(state)[j]| == |draws[j]|;
      }
    }

    /**
     * `next_board_state`: a new board of the same height and width whose
     * cells are the next generation of this one. Every neighbour count is
     * read from this board, which stays unchanged, while the clone is
     * updated cell by cell.
     */
    method NextBoardState() returns (next: Board)
      requires Valid()
      ensures fresh(next) && next.Valid() && unchanged(this)
      ensures next.state == NextGrid(state)
      ensures next.Height() == Height() && next.Width() == Width()
    {
      next := new Board.Clone(this);
      var current := state;
      ghost var target := NextGrid(current);
      for y := 0 to Height()
        invariant |next.state| == |current|
        invariant forall i :: 0 <= i < y ==> next.state[i] == target[i]
        invariant forall i :: y <= i < |current| ==> next.state[i] == current[i]
      {
        next.NextRow(current, y, Width());
      }
      assert next.state == target;
    }

    /**
     * The inner loop of `next_board_state`, run on the clone: each cell of
     * row `y` is set from its state and live-neighbour count in `current`,
     * the grid before the step, never from the cells already updated.
     */
    method NextRow(current: Grid, y: nat, w: nat)
      requires y < |current| == |state| && state[y] == current[y]
      requires Rectangular(current) && |current[y]| == w
      modifies this
      ensures state == old(state)[y := NextGrid(current)[y]]
    {
      ghost var target := NextGrid(current)[y];
      for x := 0 to w
        invariant |state| == |current| && |state[y]| == w
        invariant forall i :: 0 <= i < |state| && i != y ==> state[i] == old(state)[i]
        invariant forall j :: 0 <= j < x ==> state[y][j] == target[j]
        invariant forall j :: x <= j < w ==> state[y][j] == current[y][j]
      {
        StepCell(current, y, x);
      }
      assert state[y] == target;
    }

    /**
     * The body of the inner loop: the cell at `(y, x)` of the clone, still
     * equal to the old one, becomes what the rule makes of the old cell and
     * its live-neighbour count in `current`.
     */
    method StepCell(current: Grid, y: nat, x: nat)
      requires y < |current| == |state| && x < |current[y]| == |state[y]|
      requires state[y][x] == current[y][x]
      modifies this
      ensures state == old(state)[y := old(state)[y][x := Rule(current[y][x], LiveNeighbours(current, y, x))]]
    {
      // Leaving the cell as it is is the same as writing back the old cell.
      assert state[y][x := current[y][x]] == state[y];
      assert state[y := state[y]] == state;
      var liveCounts := LiveNeighbours(current, y, x);
      match current[y][x]
      case Alive =>
        // 0 or 1 live neighbours: underpopulation; more than 3: overpopulation.
        if liveCounts == 0 || liveCounts == 1 || liveCounts > 3 {
          SetCell(y, x, Dead);
        }
      case Dead =>
        // Exactly 3 live neighbours: reproduction.
        if liveCounts == 3 {
          SetCell(y, x, Alive);
        }
    }

    /** `state[y][x] = s`: replaces one cell and leaves every other as it was. */
    method SetCell(y: nat, x: nat, s: State)
      requires y < |state| && x < |state[y]|
      modifies this
      ensures state == old(state)[y := old(state)[y][x := s]]
    {
      state := state[y := state[y][x := s]];
    }

    /** `Display for Board`: writes each row's cells and then `\n`, row by row. */
    method Display() returns (out: seq<byte>)
      ensures out == Render(state)
    {
      out := [];
      for y := 0 to |state|
        invariant out == Render(state[..y])
      {
        var row := state[y];
        ghost var before := out;
        for x := 0 to |row|
          invariant out == before + RowText(row[..x])
        {
          out := out + [ToByte(row[x])];
          assert RowText(row[..x + 1]) == RowText(row[..x]) + [ToByte(row[x])];
        }
        out := out + [NEWLINE];
        assert row[..|row|] == row;
        RenderSnoc(state, y);
      }
      assert state[..|state|] == state;
    }
  }
}
