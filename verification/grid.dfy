/**
 * The board's grid as a value: rectangularity, parsing from text
 * (`TryFrom<&str>`) and rendering to text (`Display for Board`).
 */
module Grids {
  import opened CellState
  import opened TextLines

  /** Rows of cells, top row first; `g[y][x]` is the cell in row `y`, column `x`. */
  type Grid = seq<seq<State>>

  /** Every row has the same length as every other row. */
  predicate Rectangular<T>(m: seq<seq<T>>) {
    forall i, j :: 0 <= i < j < |m| ==> |m[i]| == |m[j]|
  }

  /** Some two adjacent rows differ in length (`windows(2).any(..)`). */
  predicate Ragged<T>(m: seq<seq<T>>): (b: bool)
    ensures b ==> 2 <= |m| && !Rectangular(m)
  {
    exists i :: 0 <= i < |m| - 1 && |m[i]| != |m[i + 1]|
  }

  /** Checking adjacent pairs only is enough: it finds every ragged matrix. */
  lemma {:induction false} RaggedIffNotRectangular<T>(m: seq<seq<T>>)
    ensures Ragged(m) <==> !Rectangular(m)
  {
    if !Ragged(m) && |m| > 1 {
      var tail := m[1..];
      forall i | 0 <= i < |tail| - 1
        ensures |tail[i]| == |tail[i + 1]|
      {
        assert |m[i + 1]| == |m[i + 2]|;
      }
      RaggedIffNotRectangular(tail);
      forall i, j | 0 <= i < j < |m|
        ensures |m[i]| == |m[j]|
      {
        assert |m[0]| == |m[1]|;
        if 0 < i {
          assert m[i] == tail[i - 1] && m[j] == tail[j - 1];
        } else if 1 < j {
          assert m[1] == tail[0] && m[j] == tail[j - 1];
        }
      }
    }
  }

  /** The only way parsing fails: lines of unequal length. */
  datatype ParseError = RaggedLines

  datatype Result<T> = Ok(value: T) | Err(error: ParseError)

  /** One row per line: one cell per byte, dead exactly for `.` and `0`. */
  function ParseLine(line: seq<byte>): (row: seq<State>)
    ensures |row| == |line|
    ensures forall j :: 0 <= j < |line| ==> (row[j] == Dead <==> line[j] == DOT || line[j] == ZERO)
  {
    seq(|line|, j requires 0 <= j < |line| => FromByte(line[j]))
  }

  /**
   * `TryFrom<&str>`: fails exactly when two lines differ in length;
   * otherwise gives a rectangular grid with one row per line and, in each,
   * the state of each byte.
   */
  function Parse(text: seq<byte>): (r: Result<Grid>)
    ensures r.Err? <==> !Rectangular(Lines(text))
    ensures r.Ok? ==> Rectangular(r.value) && |r.value| == |Lines(text)|
    ensures r.Ok? ==> forall y :: 0 <= y < |r.value| ==>
      |r.value[y]| == |Lines(text)[y]| &&
      forall x :: 0 <= x < |r.value[y]| ==> r.value[y][x] == FromByte(Lines(text)[y][x])
  {
    var lines := Lines(text);
    RaggedIffNotRectangular(lines);
    if Ragged(lines) then Err(RaggedLines)
    else Ok(seq(|lines|, y requires 0 <= y < |lines| => ParseLine(lines[y])))
  }

  /** The text of one row, one byte per cell, each reading back as its cell. */
  function RowText(row: seq<State>): (text: seq<byte>)
    ensures |text| == |row|
    ensures forall j :: 0 <= j < |row| ==> FromByte(text[j]) == row[j]
  {
    seq(|row|, j requires 0 <= j < |row| => ToByte(row[j]))
  }

  /** `Display for Board`: every row's cells followed by `\n`, the last row included. */
  function Render(g: Grid): (text: seq<byte>)
    ensures |text| == 0 <==> |g| == 0
    ensures |g| > 0 ==> text[|text| - 1] == NEWLINE
  {
    if |g| == 0 then [] else RowText(g[0]) + [NEWLINE] + Render(g[1..])
  }

  /** Rendering distributes over stacking rows. */
  lemma {:induction false} RenderAppend(a: Grid, b: Grid)
    ensures Render(a + b) == Render(a) + Render(b)
  {
    if |a| > 0 {
      assert (a + b)[1..] == a[1..] + b;
      RenderAppend(a[1..], b);
    } else {
      assert a + b == b;
    }
  }

  /** Rendering the first `y + 1` rows adds row `y` and a newline to the first `y`. */
  lemma RenderSnoc(g: Grid, y: nat)
    requires y < |g|
    ensures Render(g[..y + 1]) == Render(g[..y]) + RowText(g[y]) + [NEWLINE]
  {
    assert g[..y + 1] == g[..y] + [g[y]];
    RenderAppend(g[..y], [g[y]]);
    assert [g[y]][1..] == [];
  }

  /** A board of `h` rows of `w` cells renders to `h * (w + 1)` bytes. */
  lemma {:induction false} RenderLength(g: Grid, w: nat)
    requires forall y :: 0 <= y < |g| ==> |g[y]| == w
    ensures |Render(g)| == |g| * (w + 1)
  {
    if |g| > 0 {
      RenderLength(g[1..], w);
      assert |g| * (w + 1) == (|g| - 1) * (w + 1) + w + 1;
    }
  }

  /** A row's text never ends a line early: no `\n`, and no `\r` at its end. */
  lemma RowTextIsOneLine(row: seq<State>)
    ensures NEWLINE !in RowText(row)
    ensures |row| == 0 || RowText(row)[|row| - 1] != CARRIAGE_RETURN
  {
    var text := RowText(row);
    assert forall j :: 0 <= j < |text| ==> text[j] == ToByte(row[j]);
  }

  /** The lines of a rendered grid are its rows' texts. */
  lemma {:induction false} RenderLines(g: Grid)
    ensures |Lines(Render(g))| == |g|
    ensures forall y :: 0 <= y < |g| ==> Lines(Render(g))[y] == RowText(g[y])
  {
    if |g| > 0 {
      var row, rest := RowText(g[0]), Render(g[1..]);
      assert Render(g) == row + [NEWLINE] + rest;
      RowTextIsOneLine(g[0]);
      LinesCons(row, rest);
      RenderLines(g[1..]);
      var ls := Lines(Render(g));
      assert ls == [row] + Lines(rest);
      forall y | 0 < y < |g|
        ensures ls[y] == RowText(g[y])
      {
        assert ls[y] == Lines(rest)[y - 1];
        assert g[y] == g[1..][y - 1];
      }
    }
  }

  /**
   * Parsing the rendered text gives back the grid cell for cell when the grid
   * is rectangular, and fails otherwise.
   */
  lemma ParseRender(g: Grid)
    ensures Parse(Render(g)) == if Rectangular(g) then Ok(g) else Err(RaggedLines)
  {
    var lines := Lines(Render(g));
    RenderLines(g);
    assert forall y :: 0 <= y < |g| ==> |lines[y]| == |g[y]|;
    assert Rectangular(lines) <==> Rectangular(g) by {
      if Rectangular(g) {
        assert forall i, j :: 0 <= i < j < |lines| ==> |lines[i]| == |g[i]| == |g[j]| == |lines[j]|;
      }
      if Rectangular(lines) {
        assert forall i, j :: 0 <= i < j < |g| ==> |g[i]| == |lines[i]| == |lines[j]| == |g[j]|;
      }
    }
    if Rectangular(g) {
      var r := Parse(Render(g));
      assert r.Ok?;
      forall y | 0 <= y < |g|
        ensures r.value[y] == g[y]
      {
        assert |r.value[y]| == |g[y]|;
        forall x | 0 <= x < |g[y]|
          ensures r.value[y][x] == g[y][x]
        {
          assert lines[y][x] == ToByte(g[y][x]);
        }
      }
      assert r.value == g;
    }
  }
}
