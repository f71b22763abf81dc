# sl frame engine in Dafny

A model of the frame engine of `sl.py`, the steam locomotive that crosses a
terminal. The program's I/O is removed. What is left is three parts.

- **Cell emitter** (`move_cursor`, `draw_char`, `draw_line`). A sprite row
  becomes a sequence of glyph cells `Cell(row, col, ch)`. A space is
  transparent. A cell at a negative row or column is dropped, never clamped
  or wrapped. Each cell is written as `ESC [ row ; col H`, the white colour,
  the glyph and an attribute reset.
- **Smoke puffs** (class `Smoke`). A puff is spawned with stage 0. Each
  update advances its stage by one and raises it one row on every second
  update. It is drawn from the smoke table until its stage runs past the
  table.
- **Frames and the pass** (the loop in `main`). One frame draws:
  - the locomotive at offset `x`;
  - the wheel phase `frame % 2`, seven rows lower;
  - the coal car two rows lower and 53 columns right;
  - on even frames while `x >= 0`, a new puff at the funnel;
  - then every puff, which is drawn, updated and dropped once expired.

  A pass runs from `x = cols - 1` down to `x = -89`.

Modules, one per component:
- `Sprites`: the four sprite tables, with their dimensions.
- `Ansi`: the escape sequences, decimal numerals, and their parser.
- `Emitter`: cells, `DrawChar`, `DrawLine`, the text rendering, and the
  character-by-character `EmitLine` loop.
- `Codec`: a decoder for the emitted text, the inverse of the rendering.
- `SmokeParticle`: the puff state machine.
- `Scene`: sprite placement and culling.
- `Frame`: one frame, a pass as a reference function, and the `Animate` loop.

Some facts about `sl.py` that shape the model:
- The wheel phase is `frame % 2`, so there are two phases. It does not depend on the offset.
- Puffs have no eraser patterns and do not drift sideways.
- The new puff is appended before the puffs are drawn, so it is drawn in the frame that spawns it.
- The program makes one pass and then ends. There is no option to repeat it.
- Cursor coordinates are written exactly as computed, starting at 0. They are not shifted to the terminal's 1-based positions.
- The coal car is skipped as a whole unless `x + 53 > 0`. The frame models that test as written (see Findings).

## Model

| member | source | states |
|---|---|---|
| Emitter.DrawChar | sl.py:62-65 | at most one cell; no cell exactly when the glyph is a space or either coordinate is negative; otherwise the cell is the glyph at that position |
| Emitter.DrawCharText | sl.py:58-65 | the text for one glyph is empty exactly when it is a space or off screen, and otherwise is `ESC [`, the decimal row, `;`, the decimal column, `H`, white, the glyph and the reset; it is the rendering of `DrawChar` |
| Emitter.DrawLine | sl.py:68-74 | every cell of a line is on screen and is a non-space glyph of the line at its own column on the line's row; a line on a negative row writes nothing |
| Emitter.DrawLineComplete | sl.py:71-73 | conversely, every non-space glyph of a line at a non-negative position is written |
| Emitter.DrawLineCovers | sl.py:71-73 | a line on a non-negative row writes every non-space glyph whose column is not negative, at that column |
| Emitter.DrawLineCount | sl.py:68-74 | a line writes at most one cell per non-space character, and exactly one per non-space character when its start is on screen |
| Emitter.DrawLineOrdered | sl.py:71-73 | the cells of a line come left to right, with strictly increasing columns |
| Emitter.DrawLineStep | sl.py:71-73 | the cells of a line's first `i + 1` characters are those of its first `i`, followed by the cell of character `i` |
| Emitter.RenderAppend | sl.py:70-73 | the text of two runs of cells, one after the other, is the concatenation of their texts |
| Emitter.EmitLine | sl.py:68-74 | building the text character by character, skipping spaces, gives exactly the rendering of the line's cells |
| Ansi.NatToDecimal | sl.py:58-59 | the numeral of a natural number is non-empty, all digits, and has no leading zero |
| Ansi.IntToDecimal | sl.py:58-59 | a numeral starts with a minus sign exactly when the number is negative |
| Ansi.ParseIntRoundTrip | sl.py:58-59 | reading back a written row or column returns that number and the text after it, when that text does not start with a digit |
| Codec.DecodeCellText | sl.py:58-65 | the text of one cell decodes to that cell, whatever text follows it |
| Codec.DecodeRender | sl.py:68-74 | the text of any sequence of cells decodes to exactly those cells: cursor-addressed writes can be split apart without separators |
| Frame.FrameText | sl.py:119-150 | a frame's text, a screen clear followed by its cells' texts, decodes back to exactly its cells |
| SmokeParticle.Update | sl.py:85-90 | an update raises stage and update count by one, keeps the column, and moves the puff up one row exactly when the new update count is even |
| SmokeParticle.UpdatesAfterSpawn | sl.py:79-90 | `n` updates after its spawn at row `y0`, a puff is at stage `n`, row `y0 - n / 2`, and its spawn column |
| SmokeParticle.Draw | sl.py:92-102 | nothing once the stage is past the table or the column is negative; otherwise only on-screen non-space glyphs of the current stage, on the puff's row from its column; a live puff at a non-negative column writes exactly as many cells as its stage has non-space glyphs |
| SmokeParticle.DrawComplete | sl.py:97-102 | conversely, a live puff at a non-negative column writes every non-space glyph of its stage at its own column, and any puff writes its cells left to right |
| SmokeParticle.LifetimeAfterUpdates | sl.py:144-148 | after `k` of its frames a puff spawned on row `y0` has the rest of its lifetime left |
| SmokeParticle.PuffLifetime | sl.py:144-148 | counting one draw and one update per frame, a puff spawned on row `y0` lasts exactly `min(max(2 * y0 + 2, 1), 14)` frames, at stage `k` in its `k`-th frame, which is always a valid index into the smoke table; it lasts all 14 stages exactly when spawned on row 6 or lower (`Frame.LonePuff` states the same for the loop's own puff step) |
| Scene.StackSound | sl.py:124-136 | a placed sprite writes only its own non-space glyphs, at their places, and only on screen |
| Scene.StackCount | sl.py:124-136 | a placed sprite writes at most one cell per non-space glyph, and exactly one per glyph when its corner is on screen |
| Scene.StackComplete | sl.py:124-136 | every on-screen non-space glyph of a placed sprite is written |
| Scene.CullHidesNothing | sl.py:125-126 | skipping a row whose last column is left of the screen changes nothing: such a row writes no cell |
| Scene.CulledStackComplete | sl.py:124-131 | a sprite culled row by row still writes every on-screen non-space glyph |
| Scene.CulledStackOffLeft | sl.py:124-131 | a sprite whose rows all end left of the screen writes nothing |
| Scene.CulledPlacement | sl.py:124-131 | a sprite whose rows share one width, culled row by row, writes exactly the cells of the unculled sprite, all on screen and each a non-space glyph at its place, and nothing once its right edge is off the left |
| Scene.LocoPlacement | sl.py:124-126 | the locomotive writes exactly the on-screen glyphs of its body placed at (`base_row`, `x`), and nothing once `x + 54 <= 0` |
| Scene.LocoCellCount | sl.py:124-126 | with its corner on screen the locomotive writes one cell per non-space glyph of its body |
| Scene.WheelPhase | sl.py:123 | the wheel phase is always a valid index into the wheel table |
| Scene.WheelPhaseAlternates | sl.py:123 | consecutive frames show different wheel phases, frames two apart the same one, phase 0 on even frames |
| Scene.WheelPlacement | sl.py:129-131 | the wheels write exactly the on-screen glyphs of the frame's phase placed at (`base_row + 7`, `x`), and nothing once `x + 54 <= 0` |
| Scene.CoalPlacement | sl.py:134-136 | the coal car, culled row by row, writes exactly the on-screen glyphs of the car placed at (`base_row + 2`, `x + 53`), and nothing once `x + 83 <= 0` |
| Scene.CoalCullsAgree | sl.py:134-136 | while `x + 53 > 0` the source's whole-car cull and the row cull write the same cells; otherwise the source's cull writes none |
| Scene.CoalAsWrittenPlacement | sl.py:134-136 | the coal car as the loop culls it writes only on-screen glyphs of the car placed at (`base_row + 2`, `x + 53`), and nothing unless `x + 53 > 0` |
| Scene.CoalRowFiveSolid | sl.py:27 | the fifth coal row has a glyph in each of its first 29 columns |
| Scene.CoalRowFiveDrawn | sl.py:134-136 | the row-culled car writes each on-screen glyph of those 29 columns |
| Scene.CoalCullHidesVisibleGlyph | sl.py:134 | for `-81 <= x <= -53` the source's cull writes no coal cell although a coal glyph falls on column 0 of an on-screen row |
| Frame.SpawnStep | sl.py:139-141 | the puffs are kept in order, and one puff at (`base_row - 1`, `x + 7`) is appended exactly when the frame is even and `x >= 0` |
| Frame.FrameDrawsValidStages | sl.py:139-145 | every puff a frame draws is at a valid stage, provided the puffs it starts with have not expired |
| Frame.StepPuffsSound | sl.py:144-148 | after the puff step the puffs left are exactly the updated puffs that have not expired, never more than went in; every cell written is a cell of some puff's drawing, and all are on screen |
| Frame.StepPuffsComplete | sl.py:144-145 | conversely, every cell of every puff's drawing is written by the puff step |
| Frame.StepPuffsConcatCells | sl.py:144-148 | puffs do not interact: stepping two runs of puffs one after the other writes the cells of the first run and then those of the second |
| Frame.StepPuffsConcat | sl.py:144-148 | and it leaves the survivors of the first run followed by those of the second |
| Frame.PuffStepsConcat | sl.py:144-148 | over any number of frames without spawns, a run of puffs evolves as each of its parts does on its own |
| Frame.IterateLone | sl.py:144-148 | under any puff step that drops the empty run and keeps a lone puff's update exactly when it has not expired, a puff spawned on row `y0` is there, at `k` updates, in exactly the first `SpawnLifetime(y0)` steps, and gone afterwards |
| Frame.LoneStep | sl.py:144-148 | the puff step on a single puff writes exactly its drawing and keeps its update exactly when that has not expired |
| Frame.LonePuff | sl.py:144-148 | iterating the loop's own puff step on one puff spawned on row `y0`: for `k < SpawnLifetime(y0)` (at most 14) it is the puff after `k` updates and the step writes exactly its drawing; from step `SpawnLifetime(y0)` on no puff is left and nothing is written |
| Frame.FramePuffs | sl.py:139-148 | the puffs a frame hands on are the survivors of those it started with, followed by the survivor of the puff it spawned, if it spawned one |
| Frame.StepPuffsAppend | sl.py:144-148 | the puffs left after stepping `smokes + [p]` are those of `smokes`, followed by the updated `p` unless it expired |
| Frame.SpawnSurvives | sl.py:139-148 | when every incoming puff has been updated before, a stage-1 puff leaves the frame exactly when one was spawned and the funnel row is on screen; the spawned puff is then the last one, after one update |
| Frame.FrameSpawn | sl.py:119-148 | the same, stated for a whole frame |
| Frame.FrameSound | sl.py:119-148 | a frame writes only on-screen cells, hands on only unexpired puffs, and at most one more than it started with |
| Frame.BaseRow | sl.py:108 | the base row `b` is the floor of half the rows minus 4: `2 * (b + 4) <= rows < 2 * (b + 4) + 2` |
| Frame.PassShape | sl.py:117-154 | a pass of `count` frames has `count` steps, the `i`-th at offset `x - i` and frame number `frame + i` |
| Frame.PassFrames | sl.py:118-154 | each frame of a pass is the frame step applied to the puffs the previous frame left, and the pass ends with the puffs the last frame left |
| Frame.FrameAtSound | sl.py:119-148 | the animation's frame step keeps cells on screen and puffs unexpired, whatever the offset and frame number |
| Frame.PassSound | sl.py:117-154 | from unexpired puffs, every frame of a pass writes only on-screen cells and starts from unexpired puffs, and the pass ends with unexpired puffs |
| Frame.Animate | sl.py:117-154 | the loop runs `cols + 89` frames (none when `cols <= -89`); frame `i` is at offset `cols - 1 - i` with frame number `i`; the last is at offset -89; the frames are those of the reference pass from no puffs |
| Frame.RunPass | sl.py:106-154 | a whole pass on a `cols` by `rows` terminal with base row `rows // 2 - 4`: `cols + 89` frames, all cells on screen, every frame starting from unexpired puffs |

## Left out

- Terminal I/O: `sys.stdout.write` and `flush`, `time.sleep(0.04)` and
  `shutil.get_terminal_size`. `cols` and `rows` are parameters, and a pass
  returns the cells of each frame instead of writing them.
- The `try`/`except KeyboardInterrupt`/`finally` around the loop, with the
  cursor hide/show and the final screen clear. This is process and terminal
  lifecycle. An interrupted pass is a prefix of the modelled one.
- What the escape sequences do on a terminal. Only the text written is
  modelled. The glyph art of the tables is copied exactly, but only its
  dimensions and the fifth coal row are used in proofs.
- Object identity. `smokes.remove(smoke)` removes the very object that was
  just updated. The model drops that puff from a sequence in the same
  position, which is the same result.
- SmokeParticle.Draw: the source's per-glyph test `abs_x + i >= 0` is not a
  separate branch. It always holds once `abs_x >= 0`, so `Draw` applies
  `DrawLine`'s own test instead.
- The spawn of a new puff every second frame is not followed through a whole
  pass as one statement. Its effect is stated in parts: `Frame.FramePuffs`
  splits a frame's puffs into old and new, `Frame.PuffStepsConcat` keeps
  runs of puffs independent, and `Frame.LonePuff` gives the life of each
  new puff.

## Findings

| source | as written | input that shows it | evidently intended | confidence | as-written member | corrected member |
|---|---|---|---|---|---|---|
| sl.py:134 | the coal car is drawn only when `x + 53 > 0`, which tests the car's left edge | `x = -53` on a 24-row terminal (`base_row = 8`): the car spans columns 0 to 29, fully on screen, yet nothing of it is drawn; for every `x` from -81 to -53 the glyph of its fifth row at column 0 is hidden | cull on the right edge, row by row, as the locomotive and wheels do, so that the car scrolls off the left edge; the loop's end at `x > -90` lets the car's last column (`x + 82`) leave the screen | high, not executed | Scene.CoalCellsAsWritten, Scene.CoalCullHidesVisibleGlyph | Scene.CoalCells, Scene.CoalPlacement |

`Frame.Frame` draws the coal car with the cull as written, so the frames and
passes of the model are those of the program. The corrected cull
`Scene.CoalCells` and its placement lemma `Scene.CoalPlacement` stand beside
it, and `Scene.CoalCullsAgree` shows that the two culls agree whenever
`x + 53 > 0`.
