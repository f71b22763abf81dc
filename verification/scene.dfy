/**
  Placing the train's sprites. A sprite is a list of rows; placed with its
  top-left corner at (`row`, `col`), row `i` is drawn as a line at
  (`row + i`, `col`). The locomotive and the wheels skip a row whose last
  column is left of the screen; the coal car is skipped as a whole unless
  its left edge is right of column 0.
 */
module Scene {
  import opened Sprites
  import opened Emitter

  const WHEEL_ROW_OFFSET: int := 7
  const COAL_ROW_OFFSET: int := 2
  const COAL_COL_OFFSET: int := 53

  /** Total number of non-space characters over all rows of a sprite. */
  function SpriteNonSpace(lines: seq<string>): nat
    decreases |lines|
  {
    if |lines| == 0 then 0 else SpriteNonSpace(lines[..|lines| - 1]) + NonSpaceCount(lines[|lines| - 1])
  }

  /** `c` is a glyph of the sprite `lines` placed with its top-left corner at (`row`, `col`). */
  predicate SpriteGlyph(lines: seq<string>, row: int, col: int, c: Cell) {
    row <= c.row < row + |lines| && LineGlyph(c.row, col, lines[c.row - row], c)
  }

  /** A sprite placed with its top-left corner at (`row`, `col`), top row first, with no cull. */
  function Stack(lines: seq<string>, row: int, col: int): seq<Cell>
    decreases |lines|
  {
    if |lines| == 0 then []
    else
      var n := |lines| - 1;
      Stack(lines[..n], row, col) + DrawLine(row + n, col, lines[n])
  }

  /** A glyph of the top `n` rows of a sprite is a glyph of the whole sprite. */
  lemma GlyphOfTopRows(lines: seq<string>, n: int, row: int, col: int, c: Cell)
    requires 0 <= n <= |lines|
    requires SpriteGlyph(lines[..n], row, col, c)
    ensures SpriteGlyph(lines, row, col, c)
  {
    assert lines[..n][c.row - row] == lines[c.row - row];
  }

  /** A placed sprite writes only on screen. */
  lemma {:induction false} StackOnScreen(lines: seq<string>, row: int, col: int)
    ensures AllOnScreen(Stack(lines, row, col))
    decreases |lines|
  {
    if |lines| > 0 {
      var n := |lines| - 1;
      StackOnScreen(lines[..n], row, col);
      OnScreenAppend(Stack(lines[..n], row, col), DrawLine(row + n, col, lines[n]));
    }
  }

  /** A placed sprite writes only its own non-space glyphs, at their places. */
  lemma {:induction false} StackGlyphs(lines: seq<string>, row: int, col: int)
    ensures forall c :: c in Stack(lines, row, col) ==> SpriteGlyph(lines, row, col, c)
    decreases |lines|
  {
    if |lines| > 0 {
      var n := |lines| - 1;
      var above := Stack(lines[..n], row, col);
      var line := DrawLine(row + n, col, lines[n]);
      StackGlyphs(lines[..n], row, col);
      forall c | c in above + line
        ensures SpriteGlyph(lines, row, col, c)
      {
        if c in above {
          GlyphOfTopRows(lines, n, row, col, c);
        } else {
          assert LineGlyph(row + n, col, lines[n], c);
        }
      }
    }
  }

  /** A placed sprite writes only its own non-space glyphs, and only on screen. */
  lemma StackSound(lines: seq<string>, row: int, col: int)
    ensures AllOnScreen(Stack(lines, row, col))
    ensures forall c :: c in Stack(lines, row, col) ==> SpriteGlyph(lines, row, col, c)
  {
    StackOnScreen(lines, row, col);
    StackGlyphs(lines, row, col);
  }

  /** With its corner on screen, a placed sprite writes one cell per non-space glyph. */
  lemma {:induction false} StackCount(lines: seq<string>, row: int, col: int)
    ensures |Stack(lines, row, col)| <= SpriteNonSpace(lines)
    ensures row >= 0 && col >= 0 ==> |Stack(lines, row, col)| == SpriteNonSpace(lines)
    decreases |lines|
  {
    if |lines| > 0 {
      var n := |lines| - 1;
      StackCount(lines[..n], row, col);
      DrawLineCount(row + n, col, lines[n]);
    }
  }

  /** Every on-screen non-space glyph of a placed sprite is written. */
  lemma {:induction false} StackComplete(lines: seq<string>, row: int, col: int, i: int, j: int)
    requires 0 <= i < |lines| && 0 <= j < |lines[i]|
    requires lines[i][j] != ' ' && row + i >= 0 && col + j >= 0
    ensures Cell(row + i, col + j, lines[i][j]) in Stack(lines, row, col)
    decreases |lines|
  {
    var n := |lines| - 1;
    if i < n {
      assert lines[..n][i] == lines[i];
      StackComplete(lines[..n], row, col, i, j);
    } else {
      DrawLineComplete(row + n, col, lines[n], j);
    }
  }

  /** One sprite row, skipped when its last column is left of the screen. */
  function CulledRow(row: int, col: int, line: string): seq<Cell> {
    if col + |line| > 0 then DrawLine(row, col, line) else []
  }

  /** A placed sprite whose rows are culled one by one, as the locomotive and the wheels are. */
  function CulledStack(lines: seq<string>, row: int, col: int): seq<Cell>
    decreases |lines|
  {
    if |lines| == 0 then []
    else
      var n := |lines| - 1;
      CulledStack(lines[..n], row, col) + CulledRow(row + n, col, lines[n])
  }

  /** The per-row cull hides nothing: a culled row would have written no cell. */
  lemma {:induction false} CullHidesNothing(lines: seq<string>, row: int, col: int)
    ensures CulledStack(lines, row, col) == Stack(lines, row, col)
    decreases |lines|
  {
    if |lines| > 0 {
      var n := |lines| - 1;
      CullHidesNothing(lines[..n], row, col);
      if col + |lines[n]| <= 0 {
        DrawLineOffLeft(row + n, col, lines[n]);
      }
    }
  }

  /** Every on-screen non-space glyph of a sprite culled row by row is written. */
  lemma CulledStackComplete(lines: seq<string>, row: int, col: int, i: int, j: int)
    requires 0 <= i < |lines| && 0 <= j < |lines[i]|
    requires lines[i][j] != ' ' && row + i >= 0 && col + j >= 0
    ensures Cell(row + i, col + j, lines[i][j]) in CulledStack(lines, row, col)
  {
    StackComplete(lines, row, col, i, j);
    CullHidesNothing(lines, row, col);
  }

  /** When every row is left of the screen, the per-row cull skips them all. */
  lemma {:induction false} CulledStackOffLeft(lines: seq<string>, row: int, col: int, width: int)
    requires forall i :: 0 <= i < |lines| ==> |lines[i]| == width
    requires col + width <= 0
    ensures CulledStack(lines, row, col) == []
    decreases |lines|
  {
    if |lines| > 0 {
      var n := |lines| - 1;
      assert forall i :: 0 <= i < n ==> lines[..n][i] == lines[i];
      CulledStackOffLeft(lines[..n], row, col, width);
    }
  }

  /**
    A sprite of rows all `width` wide, culled row by row, writes exactly the
    on-screen glyphs of the sprite, and nothing once it is off the left.
   */
  lemma CulledPlacement(lines: seq<string>, row: int, col: int, width: int)
    requires forall i :: 0 <= i < |lines| ==> |lines[i]| == width
    ensures CulledStack(lines, row, col) == Stack(lines, row, col)
    ensures AllOnScreen(CulledStack(lines, row, col))
    ensures forall c :: c in CulledStack(lines, row, col) ==> SpriteGlyph(lines, row, col, c)
    ensures col + width <= 0 ==> CulledStack(lines, row, col) == []
  {
    CullHidesNothing(lines, row, col);
    StackSound(lines, row, col);
    if col + width <= 0 {
      CulledStackOffLeft(lines, row, col, width);
    }
  }

  /** The locomotive body at offset `x`, its top row on `baseRow`. */
  function LocoCells(x: int, baseRow: int): seq<Cell> {
    CulledStack(D51_LINES, baseRow, x)
  }

  /**
    The locomotive writes exactly the on-screen glyphs of its body: its
    cells are those of the unculled body, each is a non-space glyph of the
    body at its place, and nothing is written once the body is off the left.
   */
  lemma LocoPlacement(x: int, baseRow: int)
    ensures LocoCells(x, baseRow) == Stack(D51_LINES, baseRow, x)
    ensures AllOnScreen(LocoCells(x, baseRow))
    ensures forall c :: c in LocoCells(x, baseRow) ==> SpriteGlyph(D51_LINES, baseRow, x, c)
    ensures x + 54 <= 0 ==> LocoCells(x, baseRow) == []
  {
    Dimensions();
    CulledPlacement(D51_LINES, baseRow, x, 54);
  }

  /** With its corner on screen, the locomotive writes every non-space glyph of its body. */
  lemma LocoCellCount(x: int, baseRow: int)
    requires x >= 0 && baseRow >= 0
    ensures |LocoCells(x, baseRow)| == SpriteNonSpace(D51_LINES)
  {
    CullHidesNothing(D51_LINES, baseRow, x);
    StackCount(D51_LINES, baseRow, x);
  }

  /** The wheel phase of frame number `frame`. */
  function WheelPhase(frame: nat): (p: nat)
    ensures p < |WHEEL_PATTERNS|
  {
    Dimensions();
    frame % 2
  }

  /** Consecutive frames show different wheel phases; every second frame repeats one. */
  lemma WheelPhaseAlternates(frame: nat)
    ensures WheelPhase(frame + 1) != WheelPhase(frame)
    ensures WheelPhase(frame + 2) == WheelPhase(frame)
    ensures WheelPhase(frame) == 0 <==> frame % 2 == 0
  {
  }

  /** The wheels of frame `frame` at offset `x`, seven rows below `baseRow`. */
  function WheelCells(x: int, baseRow: int, frame: nat): seq<Cell> {
    CulledStack(WHEEL_PATTERNS[WheelPhase(frame)], baseRow + WHEEL_ROW_OFFSET, x)
  }

  /**
    The wheels write exactly the on-screen glyphs of the frame's phase,
    seven rows below the base row, and nothing once they are off the left.
   */
  lemma WheelPlacement(x: int, baseRow: int, frame: nat)
    ensures var rows := WHEEL_PATTERNS[WheelPhase(frame)];
      WheelCells(x, baseRow, frame) == Stack(rows, baseRow + WHEEL_ROW_OFFSET, x)
      && AllOnScreen(WheelCells(x, baseRow, frame))
      && (forall c :: c in WheelCells(x, baseRow, frame) ==> SpriteGlyph(rows, baseRow + WHEEL_ROW_OFFSET, x, c))
    ensures x + 54 <= 0 ==> WheelCells(x, baseRow, frame) == []
  {
    var rows := WHEEL_PATTERNS[WheelPhase(frame)];
    Dimensions();
    CulledPlacement(rows, baseRow + WHEEL_ROW_OFFSET, x, 54);
  }

  /**
    The coal car exactly as the source culls it: the whole car is skipped
    unless `x + 53 > 0`, and otherwise drawn with its top-left corner at
    (`baseRow + 2`, `x + 53`).
   */
  function CoalCellsAsWritten(x: int, baseRow: int): seq<Cell> {
    if x + COAL_COL_OFFSET > 0 then Stack(COAL_LINES, baseRow + COAL_ROW_OFFSET, x + COAL_COL_OFFSET) else []
  }

  /** The coal car culled row by row on its right edge, like the locomotive. */
  function CoalCells(x: int, baseRow: int): seq<Cell> {
    CulledStack(COAL_LINES, baseRow + COAL_ROW_OFFSET, x + COAL_COL_OFFSET)
  }

  /**
    The corrected coal car writes exactly the on-screen glyphs of the car
    placed at (`baseRow + 2`, `x + 53`), and nothing once it is off the left.
   */
  lemma CoalPlacement(x: int, baseRow: int)
    ensures CoalCells(x, baseRow) == Stack(COAL_LINES, baseRow + COAL_ROW_OFFSET, x + COAL_COL_OFFSET)
    ensures AllOnScreen(CoalCells(x, baseRow))
    ensures forall c :: c in CoalCells(x, baseRow) ==>
      SpriteGlyph(COAL_LINES, baseRow + COAL_ROW_OFFSET, x + COAL_COL_OFFSET, c)
    ensures x + COAL_COL_OFFSET + 30 <= 0 ==> CoalCells(x, baseRow) == []
  {
    Dimensions();
    CulledPlacement(COAL_LINES, baseRow + COAL_ROW_OFFSET, x + COAL_COL_OFFSET, 30);
  }

  /**
    Where the car's left edge is right of column 0 both culls write the
    same cells; where it is not, the source's cull writes nothing.
   */
  lemma CoalCullsAgree(x: int, baseRow: int)
    ensures x + COAL_COL_OFFSET > 0 ==> CoalCellsAsWritten(x, baseRow) == CoalCells(x, baseRow)
    ensures x + COAL_COL_OFFSET <= 0 ==> CoalCellsAsWritten(x, baseRow) == []
  {
    CullHidesNothing(COAL_LINES, baseRow + COAL_ROW_OFFSET, x + COAL_COL_OFFSET);
  }

  /**
    The coal car as the source culls it writes only on-screen glyphs of the
    car placed at (`baseRow + 2`, `x + 53`), and nothing unless `x + 53 > 0`.
   */
  lemma CoalAsWrittenPlacement(x: int, baseRow: int)
    ensures AllOnScreen(CoalCellsAsWritten(x, baseRow))
    ensures forall c :: c in CoalCellsAsWritten(x, baseRow) ==>
      SpriteGlyph(COAL_LINES, baseRow + COAL_ROW_OFFSET, x + COAL_COL_OFFSET, c)
    ensures x + COAL_COL_OFFSET <= 0 ==> CoalCellsAsWritten(x, baseRow) == []
  {
    StackSound(COAL_LINES, baseRow + COAL_ROW_OFFSET, x + COAL_COL_OFFSET);
  }

  /** The fifth row of the coal car has no space in its first 29 columns. */
  lemma CoalRowFiveSolid(j: int)
    requires 0 <= j < 29
    ensures |COAL_LINES| > 4 && |COAL_LINES[4]| == 30
    ensures COAL_LINES[4][j] != ' '
  {
    var line := "__|________________________|_ ";
    assert COAL_LINES[4] == line;
    assert line[j] == '_' || line[j] == '|';
  }

  /** The coal car culled row by row writes every on-screen glyph of the first 29 columns of its fifth row. */
  lemma CoalRowFiveDrawn(row: int, col: int, j: int)
    requires 0 <= j < 29 && row + 4 >= 0 && col + j >= 0
    ensures |COAL_LINES| > 4 && |COAL_LINES[4]| == 30
    ensures Cell(row + 4, col + j, COAL_LINES[4][j]) in CulledStack(COAL_LINES, row, col)
  {
    CoalRowFiveSolid(j);
    CulledStackComplete(COAL_LINES, row, col, 4, j);
  }

  lemma InCoalCells(x: int, baseRow: int, c: Cell)
    requires c in CulledStack(COAL_LINES, baseRow + COAL_ROW_OFFSET, x + COAL_COL_OFFSET)
    ensures c in CoalCells(x, baseRow)
  {
  }

  /**
    For `-81 <= x <= -53` the source's cull skips the whole coal car,
    although the glyph of its fifth row that falls on column 0 is on screen
    and the corrected car writes it.
   */
  lemma CoalCullHidesVisibleGlyph(x: int, baseRow: int)
    requires -81 <= x <= -53 && baseRow >= -6
    ensures CoalCellsAsWritten(x, baseRow) == []
    ensures |COAL_LINES| > 4 && |COAL_LINES[4]| == 30
    ensures Cell(baseRow + 6, 0, COAL_LINES[4][-(x + 53)]) in CoalCells(x, baseRow)
  {
    var j := -(x + COAL_COL_OFFSET);
    CoalRowFiveDrawn(baseRow + COAL_ROW_OFFSET, x + COAL_COL_OFFSET, j);
    InCoalCells(x, baseRow, Cell(baseRow + 6, 0, COAL_LINES[4][j]));
  }
}
