# Game of Life board, modelled in Dafny

This project models the board of a terminal Game of Life (`src/board.rs`).
A board is a rectangular grid of cells, each alive or dead. It can be
built empty, from a matrix of booleans, or by parsing text in which `.` and
`0` are dead cells and every other byte is a live one. It renders as `#`/`.`
per cell with a newline after every row. It steps to the next generation by
Conway's rules, with neighbourhoods clipped at the edges.

Modules:

- `CellState` (`state.dfy`): the cell state, bytes, and the three
  conversions (from a boolean, from a byte, to a display byte).
- `TextLines` (`lines.dfy`): splitting text into lines as `str::lines` does.
- `Grids` (`grid.dfy`): the grid as a value. It covers rectangularity,
  parsing (`TryFrom<&str>`), rendering (`Display for Board`) and the round
  trip between them.
- `Life` (`life.dfy`): the clockwise neighbour positions built with
  `checked_sub`/`checked_add`/`zip`/`get`, the live-neighbour count, a
  reference window count, the transition rule, and the next generation as a
  pure function of the old grid.
- `Boards` (`board.dfy`): `class Board` with its `state` field.
  - Constructors and `width`/`height`.
  - The imperative operations as loops: `random_state`, `next_board_state`
    (clone, then update the clone cell by cell) and `Display`.
  - Rectangularity is the class invariant `Valid()`.
  - `NextBoardState` is proved equal to the pure `Life.NextGrid` of the old
    grid, and so every count is read from the grid before the step.
- `Examples` (`examples.dfy`): the unit tests of `src/board.rs` stated as
  lemmas about the model.

The round trip `Parse(Render(g)) == Ok(g)` holds for every rectangular grid,
including grids of rows with no cells, which render as empty lines.

## Model

| member | source | states |
|---|---|---|
| CellState.FromBool | src/board.rs:14-22 | The state is alive exactly when the boolean is `true`. |
| CellState.FromByte | src/board.rs:24-31 | A byte gives a dead cell exactly when it is `.` or `0`, and `#` gives a live one. |
| CellState.ToByte | src/board.rs:24-44 | A live cell is displayed as a byte other than `\n`/`\r` that reads back as live, a dead one as a byte that reads back as dead. Converting a state to a boolean and back gives it again. |
| TextLines.LineEnd | src/board.rs:143 | The index found is the first `\n` of the text, or the text's length when there is none. |
| TextLines.StripCarriageReturn | src/board.rs:143 | A line ended by `\n` loses exactly one trailing `\r` when it has one, and is kept whole otherwise. |
| TextLines.Lines | src/board.rs:143 | No line holds a `\n`; the text has lines exactly when it is not empty. The three lemmas below pin down each way a line ends. |
| TextLines.LinesCons | src/board.rs:143 | A line without `\n` and not ending in `\r`, followed by `\n`, is split off unchanged as the first line. |
| TextLines.LinesCrLf | src/board.rs:143 | A line without `\n` followed by `\r\n` is split off as the first line without its `\r`. |
| TextLines.LinesLast | src/board.rs:143 | Non-empty text without a `\n` is one line kept as it is, a final `\r` included. |
| Grids.Ragged | src/board.rs:144 | When some two adjacent lines differ in length, there are at least two lines and they are not rectangular. The converse is `RaggedIffNotRectangular`. |
| Grids.RaggedIffNotRectangular | src/board.rs:144 | Checking only adjacent lines (`windows(2).any`) detects exactly the non-rectangular line lists. |
| Grids.Parse | src/board.rs:139-152 | Parsing fails exactly when two lines differ in length. On success the grid is rectangular, with one row per line and one cell per byte, each cell being that byte's state. |
| Grids.ParseLine | src/board.rs:149 | One cell per byte of the line, dead exactly where the byte is `.` or `0`. |
| Grids.RowText | src/board.rs:157-160 | One byte per cell, each reading back as its cell. |
| Grids.Render | src/board.rs:155-165 | The text is empty exactly when there are no rows, and otherwise ends in `\n`, after the last row too. Its lines, its length and the round trip are the lemmas below. |
| Grids.RenderAppend | src/board.rs:155-165 | Rendering stacked rows is the concatenation of their renderings. |
| Grids.RenderSnoc | src/board.rs:157-162 | Each pass of the row loop appends that row's text and a `\n`. |
| Grids.RenderLength | src/board.rs:155-165 | `h` rows of `w` cells render to `h * (w + 1)` bytes. |
| Grids.RowTextIsOneLine | src/board.rs:33-44 | A row's text holds no `\n` and does not end in `\r`. |
| Grids.RenderLines | src/board.rs:139-165 | The lines of the rendered text are exactly the rows' texts, one per row. |
| Grids.ParseRender | src/board.rs:139-165 | Parsing the rendered text gives back the grid cell for cell when the grid is rectangular. Otherwise it fails. |
| Life.CheckedSub1 | src/board.rs:94-96 | `checked_sub(1)` is absent exactly at 0, and otherwise gives the predecessor. |
| Life.CheckedAdd1 | src/board.rs:95-97 | `checked_add(1)` is always present and is undone by `checked_sub(1)`. |
| Life.Zip | src/board.rs:99-108 | A position is present exactly when both coordinates are, and then it pairs them. |
| Life.Neighbourhood | src/board.rs:94-108 | There are exactly 8 candidate positions. |
| Life.NeighbourhoodShape | src/board.rs:94-108 | Each present position is one of the 8 cells around `(y, x)`, never the cell itself, and none appears twice. A position is absent exactly when it would be above row 0 or left of column 0. |
| Life.Get | src/board.rs:112 | The lookup is present exactly when the position is present and inside the grid (its row exists and is long enough), and it then holds that cell. |
| Life.CountAlive | src/board.rs:109-115 | The count of present live cells is at most the number of positions. |
| Life.Lookups | src/board.rs:111-113 | One lookup per position. |
| Life.LiveNeighbours | src/board.rs:94-115 | A cell has at most 8 live neighbours. |
| Life.CountAliveFrom | src/board.rs:109-115 | Counting splits at any position. |
| Life.CountAliveEight | src/board.rs:109-115 | The count over the 8 neighbours is the sum of their separate contributions. |
| Life.NeighbourLookups | src/board.rs:94-112 | Each clockwise position from `checked_sub`/`zip`/`get` is live exactly when the matching window position is on the grid and alive: no wrap-around at the edges. |
| Life.LiveNeighboursIsWindowCount | src/board.rs:94-115 | The clockwise count equals the number of live cells in the 3-by-3 window around the cell, centre excluded, with off-grid positions counting nothing. |
| Life.NeighboursWithinBounds | src/board.rs:94-115 | On a rectangular grid, the count is at most the number of in-bounds neighbours: 8 inside, 5 on an edge, 3 in a corner. |
| Life.NeighboursLocal | src/board.rs:94-115 | Two grids that agree on the 8 positions around a cell give it the same count, whatever the cell itself or the rest holds. |
| Life.Rule | src/board.rs:86-121 | A cell is alive after the step exactly when it has 3 live neighbours, or has 2 and was alive. So a live cell with 0, 1 or more than 3 dies, a dead cell with exactly 3 is born, and every other cell keeps its state. |
| Life.NextGrid | src/board.rs:85-125 | The next generation has the same height and row lengths, and it is rectangular when the old grid is. |
| Life.NextCell | src/board.rs:85-125 | A cell of the next generation is alive exactly when its window in the old grid holds 3 live cells, or 2 and it was alive. |
| Life.NextGridIsWindowNext | src/board.rs:85-125 | The next generation equals the rule applied to window counts over the old grid. |
| Life.NextAllDead | src/board.rs:85-125 | A grid with no live cell steps to itself. |
| Boards.Board.Clone | src/board.rs:55-58 | `self.clone()` gives a valid board with the same cells. |
| Boards.Board.FromGrid | src/board.rs:147-151 | A valid board holding a given rectangular grid, as `try_from` builds it. |
| Boards.Board.New | src/board.rs:61-65 | `new(w, h)` gives a rectangular board of exactly `h` rows of `w` dead cells. |
| Boards.Board.Width | src/board.rs:67-69 | The width is 0 without rows and, on a valid board, the length of every row. |
| Boards.Board.Height | src/board.rs:71-73 | The height is the number of rows. |
| Boards.Board.RandomState | src/board.rs:75-83 | Every cell is overwritten, in place, by its draw; the board stays rectangular and keeps its shape. |
| Boards.Board.NextBoardState | src/board.rs:85-125 | The result is a new valid board of the same height and width, equal to the next generation of the old grid. The board stepped is left unchanged. |
| Boards.Board.NextRow | src/board.rs:93-122 | The inner loop turns row `y` of the clone into the next generation of row `y`, reading counts only from the old grid. Every other row is left as it was. |
| Boards.Board.StepCell | src/board.rs:116-121 | The `match` on the old cell and its count from the old grid writes exactly what the rule gives into that one cell of the clone, and changes nothing else. |
| Boards.Board.SetCell | src/board.rs:117-119 | Assigning one cell changes that cell and nothing else. |
| Boards.Board.FromBools | src/board.rs:128-137 | The boolean matrix gives a rectangular board of the same shape, alive exactly where the matrix holds `true`. |
| Boards.Board.TryFrom | src/board.rs:139-152 | Fails exactly when the lines are not all the same length. Otherwise gives a new valid board holding the parsed grid. |
| Boards.Board.Display | src/board.rs:155-165 | The row-by-row loop writes exactly the rendering of the grid. |
| Examples.ParseDiagonal | src/board.rs:202-213 | `"#.\n.#"` parses to the alive/dead diagonal. |
| Examples.ParseRaggedFails | src/board.rs:216-223 | Lines of 7, 3 and 7 bytes are rejected. |
| Examples.RenderDiagonal | src/board.rs:226-229 | The diagonal board renders as `"#.\n.#\n"`. |
| Examples.SingleCellDies | src/board.rs:232-236 | A 1-by-1 live board steps to a dead one. |
| Examples.Underpopulation | src/board.rs:239-252 | Two vertically adjacent live cells both die. |
| Examples.BlockIsStill | src/board.rs:255-268 | The 2-by-2 block is a still life. |
| Examples.Overpopulation | src/board.rs:271-282 | `#.#/###/#.#` steps to `#.#/#.#/#.#`. |
| Examples.Reproduction | src/board.rs:285-300 | The 5-by-5 reproduction snapshot is reproduced. |
| Examples.DiagonalDies | src/board.rs:86-90 | Each live cell of the diagonal has one live neighbour, so the diagonal steps to all dead. |
| Examples.NewSingleCell | src/board.rs:174-177 | `Board::new(1, 1)` holds a single dead cell. |
| Examples.BoolDiagonal | src/board.rs:190-199 | The boolean diagonal converts to the alive/dead diagonal. |
| Examples.BoardScenario | src/board.rs:226-229 | The board built from the boolean diagonal displays as `"#.
.#
"`. Stepping it gives a new board of dead cells and leaves the board itself as it was. |

## Left out

- The `rand` thread RNG in `random_state` and `Distribution<State>` (src/board.rs:46-53). The random source is nondeterministic. `RandomState` takes the drawn states as a parameter `draws`, one per cell, and does not model how a draw maps `0`/`1` to a state.
- `src/main.rs` is not part of this model. It is the terminal driver: clearing the screen, printing, sleeping and looping forever.
- The `fmt::Formatter` plumbing, `fmt::Result` and the boxed error type. Rendering is a pure function to bytes, and failure is the single `ParseError.RaggedLines`.
- The `insta` snapshot machinery. The expected snapshots are stated directly in the example lemmas.
- Life.CheckedAdd1: always `Some`. An index below a vector's length cannot be `usize::MAX`, so the `None` case of `checked_add` cannot arise and is not modelled.
- Text is modelled as bytes. `try_from` compares line lengths in bytes and converts each byte, so no UTF-8 decoding is modelled. A multi-byte character becomes several live cells, as in the source.
- TextLines.Lines: follows the current `str::lines`. A `\r` is dropped only when it precedes a `\n`, and a final line without `\n` keeps its trailing `\r`. Older Rust releases also dropped that final `\r`.
- Life.NextGrid: iterates over each row's own length, where `next_board_state` iterates over `width()` (the first row's length). The two agree on every valid board, and `NextBoardState` requires validity.
- Aliasing between boards: a clone copies the grid value, so two boards never share rows. This also holds for `Vec` clones in the source.
