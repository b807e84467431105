/**
 * Splitting text into lines the way Rust's `str::lines` does: lines end at
 * `\n`, a line ended by `\r\n` loses its `\r` as well, and a trailing `\n`
 * does not give an extra empty line.
 */
module TextLines {
  import opened CellState

  /** The index of the first `\n` in `s`, or `|s|` when there is none. */
  function LineEnd(s: seq<byte>): (i: nat)
    ensures i <= |s|
    ensures i < |s| ==> s[i] == NEWLINE
    ensures forall k :: 0 <= k < i ==> s[k] != NEWLINE
  {
    if |s| == 0 || s[0] == NEWLINE then 0 else 1 + LineEnd(s[1..])
  }

  /**
   * Drops one trailing `\r` from a line that was ended by `\n`: the `\r`
   * of a `\r\n` always goes, and a line without it is kept whole.
   */
  function StripCarriageReturn(line: seq<byte>): (r: seq<byte>)
    ensures r + [CARRIAGE_RETURN] == line ||
      (r == line && (|line| == 0 || line[|line| - 1] != CARRIAGE_RETURN))
  {
    if |line| > 0 && line[|line| - 1] == CARRIAGE_RETURN then line[..|line| - 1] else line
  }

  /**
   * The lines of `s`. No line holds a `\n`; text that is not empty has at
   * least one line.
   */
  function Lines(s: seq<byte>): (ls: seq<seq<byte>>)
    ensures forall i :: 0 <= i < |ls| ==> NEWLINE !in ls[i]
    ensures |ls| == 0 <==> |s| == 0
    decreases |s|
  {
    if |s| == 0 then []
    else
      var i := LineEnd(s);
      if i == |s| then [s]
      else
        var line := StripCarriageReturn(s[..i]);
        assert NEWLINE !in s[..i];
        assert NEWLINE !in line;
        [line] + Lines(s[i + 1..])
  }

  /**
   * A line without `\n` that does not end in `\r`, followed by `\n`, comes
   * back unchanged as the first line.
   */
  lemma LinesCons(line: seq<byte>, rest: seq<byte>)
    requires NEWLINE !in line
    requires |line| == 0 || line[|line| - 1] != CARRIAGE_RETURN
    ensures Lines(line + [NEWLINE] + rest) == [line] + Lines(rest)
  {
    var s := line + [NEWLINE] + rest;
    var i := LineEnd(s);
    assert s[|line|] == NEWLINE;
    assert i == |line|;
    assert s[..i] == line;
    assert s[i + 1..] == rest;
  }

  /** A line ended by `\r\n` comes back as the first line without its `\r`. */
  lemma LinesCrLf(line: seq<byte>, rest: seq<byte>)
    requires NEWLINE !in line
    ensures Lines(line + [CARRIAGE_RETURN, NEWLINE] + rest) == [line] + Lines(rest)
  {
    var s := line + [CARRIAGE_RETURN, NEWLINE] + rest;
    var i := LineEnd(s);
    assert s[|line|] == CARRIAGE_RETURN && s[|line| + 1] == NEWLINE;
    assert i == |line| + 1;
    assert s[..i] == line + [CARRIAGE_RETURN];
    assert s[i + 1..] == rest;
  }

  /**
   * Text without a `\n` is a single line, kept as it is: a final `\r` stays,
   * since no `\n` follows it.
   */
  lemma LinesLast(s: seq<byte>)
    requires |s| > 0 && NEWLINE !in s
    ensures Lines(s) == [s]
  {
    assert LineEnd(s) == |s|;
  }
}
