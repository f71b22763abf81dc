/**
  The cell emitter: a sprite row becomes a sequence of glyph-cell writes.
  A space is transparent and is never written; a cell at a negative row or
  column is dropped, never clamped or wrapped. Each written cell is encoded
  as a cursor move, the white colour, the glyph and an attribute reset.
 */
module Emitter {
  import opened Ansi

  /** One glyph written at a screen position. */
  datatype Cell = Cell(row: int, col: int, ch: char)

  /** A cell that can appear on screen: neither coordinate is negative. */
  predicate OnScreen(c: Cell) {
    c.row >= 0 && c.col >= 0
  }

  predicate AllOnScreen(cells: seq<Cell>) {
    forall i :: 0 <= i < |cells| ==> OnScreen(cells[i])
  }

  lemma OnScreenAppend(a: seq<Cell>, b: seq<Cell>)
    ensures AllOnScreen(a + b) <==> AllOnScreen(a) && AllOnScreen(b)
  {
    if AllOnScreen(a + b) {
      forall i | 0 <= i < |a|
        ensures OnScreen(a[i])
      {
        assert a[i] == (a + b)[i];
      }
      forall i | 0 <= i < |b|
        ensures OnScreen(b[i])
      {
        assert b[i] == (a + b)[|a| + i];
      }
    }
    if AllOnScreen(a) && AllOnScreen(b) {
      forall i | 0 <= i < |a + b|
        ensures OnScreen((a + b)[i])
      {
        if i >= |a| {
          assert (a + b)[i] == b[i - |a|];
        }
      }
    }
  }

  /**
    `c` is a glyph of `line` placed with its first character at
    (`row`, `col`): on that row, within the line, not a space.
   */
  predicate LineGlyph(row: int, col: int, line: string, c: Cell) {
    c.row == row && col <= c.col < col + |line| && c.ch == line[c.col - col] && c.ch != ' '
  }

  /** Number of non-space characters of `line`. */
  function NonSpaceCount(line: string): nat {
    |line| - multiset(line)[' ']
  }

  /** The write for one glyph: nothing for a space or an off-screen position. */
  function DrawChar(row: int, col: int, ch: char): (r: seq<Cell>)
    ensures |r| <= 1
    ensures r == [] <==> ch == ' ' || row < 0 || col < 0
    ensures forall c :: c in r ==> c == Cell(row, col, ch)
  {
    if ch != ' ' && row >= 0 && col >= 0 then [Cell(row, col, ch)] else []
  }

  /**
    The writes for `line` placed with its first character at (`row`, `col`),
    in left-to-right order: one cell for each non-space character whose
    column is not negative, on a row that is not negative.
   */
  function DrawLine(row: int, col: int, line: string): (r: seq<Cell>)
    ensures AllOnScreen(r)
    ensures row < 0 ==> r == []
    ensures forall c :: c in r ==> LineGlyph(row, col, line, c)
    decreases |line|
  {
    if |line| == 0 then []
    else
      var n := |line| - 1;
      DrawLine(row, col, line[..n]) + DrawChar(row, col + n, line[n])
  }

  /**
    A line writes at most one cell per non-space character, and exactly one
    when its start is on screen.
   */
  lemma {:induction false} DrawLineCount(row: int, col: int, line: string)
    ensures |DrawLine(row, col, line)| <= NonSpaceCount(line)
    ensures row >= 0 && col >= 0 ==> |DrawLine(row, col, line)| == NonSpaceCount(line)
    decreases |line|
  {
    if |line| > 0 {
      var n := |line| - 1;
      DrawLineCount(row, col, line[..n]);
      assert line == line[..n] + [line[n]];
      assert multiset(line) == multiset(line[..n]) + multiset{line[n]};
    }
  }

  predicate ColumnsIncrease(cells: seq<Cell>) {
    forall j, k :: 0 <= j < k < |cells| ==> cells[j].col < cells[k].col
  }

  /** The cells of a line are written left to right, one per column. */
  lemma {:induction false} DrawLineOrdered(row: int, col: int, line: string)
    ensures ColumnsIncrease(DrawLine(row, col, line))
    decreases |line|
  {
    if |line| > 0 {
      var n := |line| - 1;
      var prefix := DrawLine(row, col, line[..n]);
      var last := DrawChar(row, col + n, line[n]);
      var r := DrawLine(row, col, line);
      assert r == prefix + last;
      DrawLineOrdered(row, col, line[..n]);
      forall j, k | 0 <= j < k < |r|
        ensures r[j].col < r[k].col
      {
        assert r[j] == prefix[j] && prefix[j] in prefix;
        assert LineGlyph(row, col, line[..n], prefix[j]);
        if k >= |prefix| {
          assert r[k] == last[k - |prefix|] && r[k] in last;
          assert r[k].col == col + n;
        } else {
          assert r[k] == prefix[k];
        }
      }
    }
  }

  lemma DrawLineStep(row: int, col: int, line: string, i: nat)
    requires i < |line|
    ensures DrawLine(row, col, line[..i + 1]) == DrawLine(row, col, line[..i]) + DrawChar(row, col + i, line[i])
  {
    assert line[..i + 1][..i] == line[..i];
  }

  /** Every visible non-space character of a line is written. */
  lemma {:induction false} DrawLineComplete(row: int, col: int, line: string, i: int)
    requires 0 <= i < |line|
    requires line[i] != ' ' && row >= 0 && col + i >= 0
    ensures Cell(row, col + i, line[i]) in DrawLine(row, col, line)
    decreases |line|
  {
    var n := |line| - 1;
    if i < n {
      DrawLineComplete(row, col, line[..n], i);
    }
  }

  /** Every non-space character of `line` at a non-negative column, placed at (`row`, `col`), is in `cells`. */
  predicate Covers(row: int, col: int, line: string, cells: seq<Cell>) {
    forall i :: 0 <= i < |line| && line[i] != ' ' && col + i >= 0 ==> Cell(row, col + i, line[i]) in cells
  }

  /** Every visible non-space character of a line is written, stated for all characters at once. */
  lemma DrawLineCovers(row: int, col: int, line: string)
    ensures row >= 0 ==> Covers(row, col, line, DrawLine(row, col, line))
  {
    forall i | 0 <= i < |line| && line[i] != ' ' && col + i >= 0 && row >= 0
      ensures Cell(row, col + i, line[i]) in DrawLine(row, col, line)
    {
      DrawLineComplete(row, col, line, i);
    }
  }

  /** A line whose last column is left of the screen writes nothing. */
  lemma DrawLineOffLeft(row: int, col: int, line: string)
    requires col + |line| <= 0
    ensures DrawLine(row, col, line) == []
  {
  }

  /** The text of one written cell. */
  function CellText(c: Cell): string {
    MoveCursor(c.row, c.col) + WHITE + [c.ch] + RESET
  }

  /** The text of a sequence of written cells, in order. */
  function Render(cells: seq<Cell>): string
    decreases |cells|
  {
    if |cells| == 0 then "" else CellText(cells[0]) + Render(cells[1..])
  }

  lemma {:induction false} RenderAppend(a: seq<Cell>, b: seq<Cell>)
    ensures Render(a + b) == Render(a) + Render(b)
    decreases |a|
  {
    if |a| == 0 {
      assert a + b == b;
    } else {
      assert (a + b)[1..] == a[1..] + b;
      RenderAppend(a[1..], b);
    }
  }

  /**
    The text written for one glyph: empty for a space or a negative
    position, otherwise the cursor move, white, the glyph and the reset.
   */
  function DrawCharText(row: int, col: int, ch: char): (s: string)
    ensures s == Render(DrawChar(row, col, ch))
    ensures s == "" <==> ch == ' ' || row < 0 || col < 0
    ensures s != "" ==> s == [ESC, '['] + IntToDecimal(row) + [';'] + IntToDecimal(col) + ['H'] + WHITE + [ch] + RESET
  {
    var cells := DrawChar(row, col, ch);
    if cells == [] then "" else
      assert cells[1..] == [];
      Render(cells)
  }

  lemma EmitStep(row: int, col: int, line: string, i: nat)
    requires i < |line|
    ensures Render(DrawLine(row, col, line[..i + 1]))
         == Render(DrawLine(row, col, line[..i])) + (if line[i] != ' ' then DrawCharText(row, col + i, line[i]) else "")
  {
    var cells := DrawChar(row, col + i, line[i]);
    DrawLineStep(row, col, line, i);
    RenderAppend(DrawLine(row, col, line[..i]), cells);
    if line[i] == ' ' {
      assert Render(cells) == "";
    }
  }

  /**
    The text written for a line, built character by character as the
    emitter does it; the result is the rendering of `DrawLine`.
   */
  method EmitLine(row: int, col: int, line: string) returns (output: string)
    ensures output == Render(DrawLine(row, col, line))
  {
    output := "";
    var i := 0;
    assert line[..0] == [];
    while i < |line|
      invariant 0 <= i <= |line|
      invariant output == Render(DrawLine(row, col, line[..i]))
    {
      EmitStep(row, col, line, i);
      if line[i] != ' ' {
        output := output + DrawCharText(row, col + i, line[i]);
      }
      i := i + 1;
    }
    assert line[..i] == line;
  }
}
