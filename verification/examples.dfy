/**
 * The board's unit tests, stated as facts about the model.
 */
module Examples {
  import opened CellState
  import opened TextLines
  import opened Grids
  import opened Life
  import opened Boards

  /** The bytes of an ASCII string. */
  function Ascii(s: string): seq<byte>
    requires forall i :: 0 <= i < |s| ==> s[i] as int < 256
  {
    seq(|s|, i requires 0 <= i < |s| => s[i] as int as byte)
  }

  /** Two short sequences are equal when they agree position by position. */
  lemma EqualUpToFive<X>(s: seq<X>, t: seq<X>)
    requires |s| == |t| <= 5
    requires 0 < |s| ==> s[0] == t[0]
    requires 1 < |s| ==> s[1] == t[1]
    requires 2 < |s| ==> s[2] == t[2]
    requires 3 < |s| ==> s[3] == t[3]
    requires 4 < |s| ==> s[4] == t[4]
    ensures s == t
  {
  }

  /** `"#.\n.#"` parses to the diagonal board. */
  lemma ParseDiagonal(text: seq<byte>)
    requires text == Ascii("#.\n.#")
    ensures Parse(text) == Ok([[Alive, Dead], [Dead, Alive]])
  {
    assert text == [HASH, DOT] + [NEWLINE] + [DOT, HASH];
    LinesCons([HASH, DOT], [DOT, HASH]);
    assert LineEnd([DOT, HASH]) == 2;
    assert Lines(text) == [[HASH, DOT], [DOT, HASH]];
    var g := Parse(text).value;
    assert g[0] == [Alive, Dead];
    assert g[1] == [Dead, Alive];
    assert g == [[Alive, Dead], [Dead, Alive]];
  }

  /** The diagonal board renders as `"#.\n.#\n"`. */
  lemma RenderDiagonal(g: Grid)
    requires g == [[Alive, Dead], [Dead, Alive]]
    ensures Render(g) == Ascii("#.\n.#\n")
  {
    assert Render(g[1..]) == RowText([Dead, Alive]) + [NEWLINE];
  }

  /** Lines of 7, 3 and 7 bytes are rejected. */
  lemma ParseRaggedFails(text: seq<byte>)
    requires text == Ascii("#.....#\n#..\n#.....#\n")
    ensures Parse(text).Err?
  {
    var long, short := [HASH, DOT, DOT, DOT, DOT, DOT, HASH], [HASH, DOT, DOT];
    var rest := short + [NEWLINE] + long + [NEWLINE];
    assert text == long + [NEWLINE] + rest;
    LinesCons(long, rest);
    assert Lines(text)[1] == short by {
      LinesCons(short, long + [NEWLINE]);
      assert rest == short + [NEWLINE] + (long + [NEWLINE]);
    }
    assert |Lines(text)[0]| != |Lines(text)[1]|;
  }

  /** A single live cell has no neighbours and dies. */
  lemma SingleCellDies(g: Grid)
    requires g == [[Alive]]
    ensures NextGrid(g) == [[Dead]]
  {
    var next := WindowNext(g);
    assert next == [[Dead]] by {
      assert next[0][0] == Dead;
      EqualUpToFive(next[0], [Dead]);
      EqualUpToFive(next, [[Dead]]);
    }
    NextGridIsWindowNext(g);
  }

  /** Two live cells in a column both die of underpopulation. */
  lemma Underpopulation(g: Grid)
    requires g == [[Dead, Dead, Dead],
                   [Alive, Dead, Dead],
                   [Alive, Dead, Dead],
                   [Dead, Dead, Dead]]
    ensures NextGrid(g) == [[Dead, Dead, Dead],
                            [Dead, Dead, Dead],
                            [Dead, Dead, Dead],
                            [Dead, Dead, Dead]]
  {
    var next := WindowNext(g);
    assert next == [[Dead, Dead, Dead],
                   [Dead, Dead, Dead],
                   [Dead, Dead, Dead],
                   [Dead, Dead, Dead]] by {
      assert next[0][0] == Dead && next[0][1] == Dead && next[0][2] == Dead;
      EqualUpToFive(next[0], [Dead, Dead, Dead]);
      assert next[1][0] == Dead && next[1][1] == Dead && next[1][2] == Dead;
      EqualUpToFive(next[1], [Dead, Dead, Dead]);
      assert next[2][0] == Dead && next[2][1] == Dead && next[2][2] == Dead;
      EqualUpToFive(next[2], [Dead, Dead, Dead]);
      assert next[3][0] == Dead && next[3][1] == Dead && next[3][2] == Dead;
      EqualUpToFive(next[3], [Dead, Dead, Dead]);
      EqualUpToFive(next, [[Dead, Dead, Dead],
                           [Dead, Dead, Dead],
                           [Dead, Dead, Dead],
                           [Dead, Dead, Dead]]);
    }
    NextGridIsWindowNext(g);
  }

  /** The 2-by-2 block is a still life. */
  lemma BlockIsStill(g: Grid)
    requires g == [[Dead, Dead, Dead],
                   [Alive, Alive, Dead],
                   [Alive, Alive, Dead],
                   [Dead, Dead, Dead]]
    ensures NextGrid(g) == g
  {
    var next := WindowNext(g);
    assert next == g by {
      assert next[0][0] == Dead && next[0][1] == Dead && next[0][2] == Dead;
      EqualUpToFive(next[0], [Dead, Dead, Dead]);
      assert next[1][0] == Alive && next[1][1] == Alive && next[1][2] == Dead;
      EqualUpToFive(next[1], [Alive, Alive, Dead]);
      assert next[2][0] == Alive && next[2][1] == Alive && next[2][2] == Dead;
      EqualUpToFive(next[2], [Alive, Alive, Dead]);
      assert next[3][0] == Dead && next[3][1] == Dead && next[3][2] == Dead;
      EqualUpToFive(next[3], [Dead, Dead, Dead]);
      EqualUpToFive(next, g);
    }
    NextGridIsWindowNext(g);
  }

  /** `#.#/###/#.#` becomes `#.#/#.#/#.#`: the crowded middle cells die. */
  lemma Overpopulation(g: Grid)
    requires g == [[Alive, Dead, Alive],
                   [Alive, Alive, Alive],
                   [Alive, Dead, Alive]]
    ensures NextGrid(g) == [[Alive, Dead, Alive],
                            [Alive, Dead, Alive],
                            [Alive, Dead, Alive]]
  {
    var next := WindowNext(g);
    assert next == [[Alive, Dead, Alive],
                   [Alive, Dead, Alive],
                   [Alive, Dead, Alive]] by {
      assert next[0][0] == Alive && next[0][1] == Dead && next[0][2] == Alive;
      EqualUpToFive(next[0], [Alive, Dead, Alive]);
      assert next[1][0] == Alive && next[1][1] == Dead && next[1][2] == Alive;
      EqualUpToFive(next[1], [Alive, Dead, Alive]);
      assert next[2][0] == Alive && next[2][1] == Dead && next[2][2] == Alive;
      EqualUpToFive(next[2], [Alive, Dead, Alive]);
      EqualUpToFive(next, [[Alive, Dead, Alive],
                           [Alive, Dead, Alive],
                           [Alive, Dead, Alive]]);
    }
    NextGridIsWindowNext(g);
  }

  /** Two dead cells with three live neighbours each come alive. */
  lemma Reproduction(g: Grid)
    requires g == [[Dead, Dead, Dead, Dead, Dead],
                   [Dead, Dead, Dead, Dead, Dead],
                   [Alive, Alive, Dead, Alive, Alive],
                   [Alive, Dead, Alive, Dead, Alive],
                   [Dead, Dead, Dead, Dead, Dead]]
    ensures NextGrid(g) == [[Dead, Dead, Dead, Dead, Dead],
                            [Dead, Dead, Dead, Dead, Dead],
                            [Alive, Alive, Alive, Alive, Alive],
                            [Alive, Dead, Alive, Dead, Alive],
                            [Dead, Dead, Dead, Dead, Dead]]
  {
    var next := WindowNext(g);
    assert next == [[Dead, Dead, Dead, Dead, Dead],
                   [Dead, Dead, Dead, Dead, Dead],
                   [Alive, Alive, Alive, Alive, Alive],
                   [Alive, Dead, Alive, Dead, Alive],
                   [Dead, Dead, Dead, Dead, Dead]] by {
      assert next[0][0] == Dead && next[0][1] == Dead && next[0][2] == Dead && next[0][3] == Dead && next[0][4] == Dead;
      EqualUpToFive(next[0], [Dead, Dead, Dead, Dead, Dead]);
      assert next[1][0] == Dead && next[1][1] == Dead && next[1][2] == Dead && next[1][3] == Dead && next[1][4] == Dead;
      EqualUpToFive(next[1], [Dead, Dead, Dead, Dead, Dead]);
      assert next[2][0] == Alive && next[2][1] == Alive && next[2][2] == Alive && next[2][3] == Alive && next[2][4] == Alive;
      EqualUpToFive(next[2], [Alive, Alive, Alive, Alive, Alive]);
      assert next[3][0] == Alive && next[3][1] == Dead && next[3][2] == Alive && next[3][3] == Dead && next[3][4] == Alive;
      EqualUpToFive(next[3], [Alive, Dead, Alive, Dead, Alive]);
      assert next[4][0] == Dead && next[4][1] == Dead && next[4][2] == Dead && next[4][3] == Dead && next[4][4] == Dead;
      EqualUpToFive(next[4], [Dead, Dead, Dead, Dead, Dead]);
      EqualUpToFive(next, [[Dead, Dead, Dead, Dead, Dead],
                           [Dead, Dead, Dead, Dead, Dead],
                           [Alive, Alive, Alive, Alive, Alive],
                           [Alive, Dead, Alive, Dead, Alive],
                           [Dead, Dead, Dead, Dead, Dead]]);
    }
    NextGridIsWindowNext(g);
  }

  /** Each cell of the diagonal has one live neighbour, so both live cells die. */
  lemma DiagonalDies(g: Grid)
    requires g == [[Alive, Dead], [Dead, Alive]]
    ensures NextGrid(g) == [[Dead, Dead], [Dead, Dead]]
  {
    var next := WindowNext(g);
    assert next == [[Dead, Dead], [Dead, Dead]] by {
      assert next[0][0] == Dead && next[0][1] == Dead;
      assert next[1][0] == Dead && next[1][1] == Dead;
      EqualUpToFive(next[0], [Dead, Dead]);
      EqualUpToFive(next[1], [Dead, Dead]);
      EqualUpToFive(next, [[Dead, Dead], [Dead, Dead]]);
    }
    NextGridIsWindowNext(g);
  }

  /** `Board::new(1, 1)` holds a single dead cell. */
  method NewSingleCell() returns (cells: Grid)
    ensures cells == [[Dead]]
  {
    var board := new Board.New(1, 1);
    assert board.state[0] == [Dead];
    cells := board.state;
  }

  /** The boolean diagonal converts to the alive/dead diagonal. */
  method BoolDiagonal() returns (cells: Grid)
    ensures cells == [[Alive, Dead], [Dead, Alive]]
  {
    var board := new Board.FromBools([[true, false], [false, true]]);
    assert board.state[0] == [Alive, Dead] && board.state[1] == [Dead, Alive];
    cells := board.state;
  }

  /**
   * The objects behave as the values say: the diagonal board built from
   * booleans displays as `"#.\n.#\n"`; stepping it gives a new board of dead
   * cells and leaves the board itself as it was.
   */
  method BoardScenario() returns (text: seq<byte>, kept: Grid, stepped: Grid)
    ensures text == Ascii("#.\n.#\n")
    ensures kept == [[Alive, Dead], [Dead, Alive]]
    ensures stepped == [[Dead, Dead], [Dead, Dead]]
  {
    var board := new Board.FromBools([[true, false], [false, true]]);
    assert board.state[0] == [Alive, Dead] && board.state[1] == [Dead, Alive];
    text := board.Display();
    RenderDiagonal(board.state);
    var next := board.NextBoardState();
    DiagonalDies(board.state);
    kept, stepped := board.state, next.state;
  }
}
