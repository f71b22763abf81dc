/**
  One frame of the animation and one pass of the train across the screen.
  A frame places the locomotive at horizontal offset `x` on the base row,
  the wheel phase chosen by the frame number seven rows below it, and the
  coal car two rows below and 53 columns to the right; it spawns a puff at
  the funnel on even frames while `x` is not negative, and then draws,
  updates and drops every puff in order. A pass starts at `x = cols - 1`
  and moves one column left per frame while `x > -90`.
 */
module Frame {
  import opened Sprites
  import opened Ansi
  import opened Emitter
  import opened SmokeParticle
  import opened Scene
  import Codec

  const FUNNEL_COL_OFFSET: int := 7
  /** A pass continues while the offset is greater than this. */
  const END_OFFSET: int := -90

  /** The puffs of a frame after the spawn step: one new puff at the funnel on even frames while `x >= 0`. */
  function SpawnStep(x: int, frame: nat, baseRow: int, smokes: seq<Smoke>): (r: seq<Smoke>)
    ensures |r| == |smokes| + (if frame % 2 == 0 && x >= 0 then 1 else 0)
    ensures r[..|smokes|] == smokes
    ensures |r| > |smokes| ==> r[|smokes|] == Spawn(baseRow - 1, x + FUNNEL_COL_OFFSET)
  {
    if frame % 2 == 0 && x >= 0 then smokes + [Spawn(baseRow - 1, x + FUNNEL_COL_OFFSET)] else smokes
  }

  /** What a frame produces: its cells, and the puffs that live on. */
  datatype FrameOutput = FrameOutput(cells: seq<Cell>, smokes: seq<Smoke>)

  /**
    Draws, updates and filters the puffs in order: each puff's current
    stage is drawn, then it is updated, and the updated puff is kept unless
    it has expired.
   */
  function StepPuffs(smokes: seq<Smoke>): FrameOutput
    decreases |smokes|
  {
    if |smokes| == 0 then FrameOutput([], [])
    else
      var rest := StepPuffs(smokes[1..]);
      var next := Update(smokes[0]);
      FrameOutput(Draw(smokes[0]) + rest.cells, (if Expired(next) then [] else [next]) + rest.smokes)
  }

  /**
    The puffs that live on are exactly the updated puffs that have not
    expired, never more than went in; every cell written is a cell of some
    puff's drawing, and all of them are on screen.
   */
  lemma {:induction false} StepPuffsSound(smokes: seq<Smoke>)
    ensures var r := StepPuffs(smokes);
      AllOnScreen(r.cells)
      && |r.smokes| <= |smokes|
      && (forall u :: u in r.smokes ==> !Expired(u))
      && (forall u :: u in r.smokes <==> exists s :: s in smokes && u == Update(s) && !Expired(u))
      && (forall c :: c in r.cells ==> exists s :: s in smokes && c in Draw(s))
    decreases |smokes|
  {
    if |smokes| > 0 {
      var s := smokes[0];
      var rest := StepPuffs(smokes[1..]);
      var next := Update(s);
      var kept := if Expired(next) then [] else [next];
      var r := StepPuffs(smokes);
      assert r == FrameOutput(Draw(s) + rest.cells, kept + rest.smokes);
      StepPuffsSound(smokes[1..]);
      OnScreenAppend(Draw(s), rest.cells);
      assert forall t :: t in smokes[1..] ==> t in smokes;
      assert forall t :: t in smokes ==> t == s || t in smokes[1..];
      forall u | u in r.smokes
        ensures exists t :: t in smokes && u == Update(t) && !Expired(u)
      {
        if u in kept {
          assert s in smokes;
        } else {
          var t :| t in smokes[1..] && u == Update(t) && !Expired(u);
          assert t in smokes;
        }
      }
      forall c | c in r.cells
        ensures exists t :: t in smokes && c in Draw(t)
      {
        if c in Draw(s) {
          assert s in smokes;
        } else {
          var t :| t in smokes[1..] && c in Draw(t);
          assert t in smokes;
        }
      }
    }
  }

  /**
    One iteration of the animation loop at offset `x`, frame number
    `frame`, with the puffs `smokes` that survived the previous frame: the
    locomotive, the wheels, the coal car (culled as a whole, as the loop
    does), then the puffs after the spawn.
   */
  function Frame(x: int, frame: nat, baseRow: int, smokes: seq<Smoke>): FrameOutput {
    var puffs := StepPuffs(SpawnStep(x, frame, baseRow, smokes));
    FrameOutput(LocoCells(x, baseRow) + WheelCells(x, baseRow, frame) + CoalCellsAsWritten(x, baseRow) + puffs.cells,
                puffs.smokes)
  }

  /**
    A frame writes only on-screen cells, and the puffs it hands to the next
    frame have not expired; at most one more than it started with.
   */
  lemma FrameSound(x: int, frame: nat, baseRow: int, smokes: seq<Smoke>)
    ensures AllOnScreen(Frame(x, frame, baseRow, smokes).cells)
    ensures forall u :: u in Frame(x, frame, baseRow, smokes).smokes ==> !Expired(u)
    ensures |Frame(x, frame, baseRow, smokes).smokes| <= |smokes| + 1
  {
    var live := SpawnStep(x, frame, baseRow, smokes);
    var loco := LocoCells(x, baseRow);
    var wheels := WheelCells(x, baseRow, frame);
    var coal := CoalCellsAsWritten(x, baseRow);
    var puffs := StepPuffs(live);
    LocoPlacement(x, baseRow);
    WheelPlacement(x, baseRow, frame);
    CoalAsWrittenPlacement(x, baseRow);
    StepPuffsSound(live);
    OnScreenAppend(loco, wheels);
    OnScreenAppend(loco + wheels, coal);
    OnScreenAppend(loco + wheels + coal, puffs.cells);
  }

  /**
    Every puff a frame draws is at a valid stage, provided the puffs it
    starts with have not expired: they come from the previous frame's
    survivors, or are the new puff at stage 0.
   */
  lemma FrameDrawsValidStages(x: int, frame: nat, baseRow: int, smokes: seq<Smoke>)
    requires forall s :: s in smokes ==> !Expired(s)
    ensures forall s :: s in SpawnStep(x, frame, baseRow, smokes) ==> s.pattern < |SMOKE_PATTERNS|
  {
    var live := SpawnStep(x, frame, baseRow, smokes);
    forall s | s in live
      ensures s.pattern < |SMOKE_PATTERNS|
    {
      var i :| 0 <= i < |live| && live[i] == s;
      if i < |smokes| {
        assert live[..|smokes|][i] == s;
      }
    }
  }

  /**
    The puff step's new puff: on an even frame with `x >= 0` a puff is spawned
    at (`baseRow - 1`, `x + 7`); if the funnel row is on screen, it survives
    the frame as the last puff, after its first update. When every puff the
    frame starts with has been updated at least once, a puff at stage 1
    comes out of the frame exactly when one was spawned and survived.
   */
  lemma SpawnSurvives(x: int, frame: nat, baseRow: int, smokes: seq<Smoke>)
    requires forall s :: s in smokes ==> s.pattern >= 1
    ensures var r := StepPuffs(SpawnStep(x, frame, baseRow, smokes));
      (exists u :: u in r.smokes && u.pattern == 1) <==> frame % 2 == 0 && x >= 0 && baseRow >= 1
    ensures var r := StepPuffs(SpawnStep(x, frame, baseRow, smokes));
      frame % 2 == 0 && x >= 0 && baseRow >= 1 ==>
        |r.smokes| > 0 && r.smokes[|r.smokes| - 1] == Update(Spawn(baseRow - 1, x + FUNNEL_COL_OFFSET))
  {
    var live := SpawnStep(x, frame, baseRow, smokes);
    var out := StepPuffs(live).smokes;
    var p := Spawn(baseRow - 1, x + FUNNEL_COL_OFFSET);
    var spawned := frame % 2 == 0 && x >= 0;
    StepPuffsSound(live);
    if spawned {
      assert live == smokes + [p];
      StepPuffsAppend(smokes, p);
    } else {
      assert live == smokes;
    }
    forall u | u in out && u.pattern == 1
      ensures spawned && baseRow >= 1
    {
      var t :| t in live && u == Update(t) && !Expired(u);
      assert t in smokes || (spawned && t == p);
    }
    if spawned && baseRow >= 1 {
      assert out[|out| - 1] == Update(p);
      assert Update(p) in out;
    }
  }

  /** The same, stated for the frame: the frame hands on the puffs of its puff step. */
  lemma FrameSpawn(x: int, frame: nat, baseRow: int, smokes: seq<Smoke>)
    requires forall s :: s in smokes ==> s.pattern >= 1
    ensures var r := Frame(x, frame, baseRow, smokes);
      (exists u :: u in r.smokes && u.pattern == 1) <==> frame % 2 == 0 && x >= 0 && baseRow >= 1
    ensures var r := Frame(x, frame, baseRow, smokes);
      frame % 2 == 0 && x >= 0 && baseRow >= 1 ==>
        |r.smokes| > 0 && r.smokes[|r.smokes| - 1] == Update(Spawn(baseRow - 1, x + FUNNEL_COL_OFFSET))
  {
    SpawnSurvives(x, frame, baseRow, smokes);
    assert Frame(x, frame, baseRow, smokes).smokes == StepPuffs(SpawnStep(x, frame, baseRow, smokes)).smokes;
  }

  lemma StepPuffsAppend(smokes: seq<Smoke>, p: Smoke)
    ensures StepPuffs(smokes + [p]).smokes
         == StepPuffs(smokes).smokes + (if Expired(Update(p)) then [] else [Update(p)])
  {
    StepPuffsConcat(smokes, [p]);
    LoneStep(p);
  }

  /** Every cell of every puff's drawing is written by the puff step. */
  lemma {:induction false} StepPuffsComplete(smokes: seq<Smoke>)
    ensures forall s, c :: s in smokes && c in Draw(s) ==> c in StepPuffs(smokes).cells
    decreases |smokes|
  {
    if |smokes| > 0 {
      StepPuffsComplete(smokes[1..]);
      forall s, c | s in smokes && c in Draw(s)
        ensures c in StepPuffs(smokes).cells
      {
        if s != smokes[0] {
          assert s in smokes[1..];
        }
      }
    }
  }

  /**
    Puffs do not interact: stepping two runs of puffs one after the other
    writes the cells of the first run, then those of the second.
   */
  lemma {:induction false} StepPuffsConcatCells(a: seq<Smoke>, b: seq<Smoke>)
    ensures StepPuffs(a + b).cells == StepPuffs(a).cells + StepPuffs(b).cells
    decreases |a|
  {
    if |a| == 0 {
      assert a + b == b;
    } else {
      assert (a + b)[0] == a[0];
      assert (a + b)[1..] == a[1..] + b;
      StepPuffsConcatCells(a[1..], b);
    }
  }

  /** ... and leaves the survivors of the first run followed by those of the second. */
  lemma {:induction false} StepPuffsConcat(a: seq<Smoke>, b: seq<Smoke>)
    ensures StepPuffs(a + b).smokes == StepPuffs(a).smokes + StepPuffs(b).smokes
    decreases |a|
  {
    if |a| == 0 {
      assert a + b == b;
    } else {
      assert (a + b)[0] == a[0];
      assert (a + b)[1..] == a[1..] + b;
      StepPuffsConcat(a[1..], b);
    }
  }

  /** What one puff step leaves, as a function of the puffs it starts with. */
  type PuffStep = seq<Smoke> -> seq<Smoke>

  /** The puffs left after `k` applications of `step`. */
  function Iterate(step: PuffStep, smokes: seq<Smoke>, k: nat): seq<Smoke>
    decreases k
  {
    if k == 0 then smokes else step(Iterate(step, smokes, k - 1))
  }

  /** A step that treats two runs of puffs independently. */
  ghost predicate Splits(step: PuffStep) {
    forall a: seq<Smoke>, b: seq<Smoke> :: step(a + b) == step(a) + step(b)
  }

  /** Runs of puffs stay independent over any number of independent steps. */
  lemma {:induction false} IterateConcat(step: PuffStep, a: seq<Smoke>, b: seq<Smoke>, k: nat)
    requires Splits(step)
    ensures Iterate(step, a + b, k) == Iterate(step, a, k) + Iterate(step, b, k)
    decreases k
  {
    if k > 0 {
      IterateConcat(step, a, b, k - 1);
    }
  }

  /** The puffs the loop's puff step leaves. */
  function Survivors(smokes: seq<Smoke>): seq<Smoke> {
    StepPuffs(smokes).smokes
  }

  /** The puffs left after `k` frames' puff steps, with no spawns in between. */
  function PuffSteps(smokes: seq<Smoke>, k: nat): seq<Smoke> {
    Iterate(Survivors, smokes, k)
  }

  /** The loop's puff step treats runs of puffs independently. */
  lemma SurvivorsSplit()
    ensures Splits(Survivors)
  {
    forall a: seq<Smoke>, b: seq<Smoke>
      ensures Survivors(a + b) == Survivors(a) + Survivors(b)
    {
      StepPuffsConcat(a, b);
    }
  }

  /** So a run of puffs evolves as each of its parts does on its own. */
  lemma PuffStepsConcat(a: seq<Smoke>, b: seq<Smoke>, k: nat)
    ensures PuffSteps(a + b, k) == PuffSteps(a, k) + PuffSteps(b, k)
  {
    SurvivorsSplit();
    IterateConcat(Survivors, a, b, k);
  }

  /**
    The frames of one puff spawned on row `y0`: in each of the first
    `SpawnLifetime(y0)` steps (never more than the number of smoke stages)
    it is still there, at stage `k` in step `k`, and the step writes exactly
    its drawing; from then on it is gone and nothing of it is written.
   */
  lemma LonePuff(y0: int, x0: int, k: nat)
    ensures SpawnLifetime(y0) <= |SMOKE_PATTERNS|
    ensures PuffSteps([Spawn(y0, x0)], k) == if k < SpawnLifetime(y0) then [Updates(Spawn(y0, x0), k)] else []
    ensures StepPuffs(PuffSteps([Spawn(y0, x0)], k)).cells
         == if k < SpawnLifetime(y0) then Draw(Updates(Spawn(y0, x0), k)) else []
  {
    LonePuffSurvives(y0, x0, k);
    if k < SpawnLifetime(y0) {
      LoneStep(Updates(Spawn(y0, x0), k));
    }
  }

  /** A step that drops the empty run, and keeps a lone puff's update exactly when it has not expired. */
  ghost predicate LoneRule(step: PuffStep) {
    step([]) == [] && forall u: Smoke :: step([u]) == if Expired(Update(u)) then [] else [Update(u)]
  }

  /** Under such a step, a puff spawned on row `y0` is there in exactly the first `SpawnLifetime(y0)` steps. */
  lemma {:induction false} IterateLone(step: PuffStep, y0: int, x0: int, k: nat)
    requires LoneRule(step)
    ensures Iterate(step, [Spawn(y0, x0)], k) == if k < SpawnLifetime(y0) then [Updates(Spawn(y0, x0), k)] else []
    decreases k
  {
    var p := Spawn(y0, x0);
    if k > 0 {
      IterateLone(step, y0, x0, k - 1);
      if k - 1 < SpawnLifetime(y0) {
        var u := Updates(p, k - 1);
        assert step([u]) == if Expired(Update(u)) then [] else [Update(u)];
        UpdatesAfterSpawn(y0, x0, k);
        assert Expired(Updates(p, k)) <==> k >= SpawnLifetime(y0);
      }
    }
  }

  /** The loop's puff step follows that rule. */
  lemma SurvivorsLone()
    ensures LoneRule(Survivors)
  {
    forall u: Smoke
      ensures Survivors([u]) == if Expired(Update(u)) then [] else [Update(u)]
    {
      LoneStep(u);
    }
  }

  lemma LonePuffSurvives(y0: int, x0: int, k: nat)
    ensures PuffSteps([Spawn(y0, x0)], k) == if k < SpawnLifetime(y0) then [Updates(Spawn(y0, x0), k)] else []
  {
    SurvivorsLone();
    IterateLone(Survivors, y0, x0, k);
  }

  /** The puff step on a single puff draws it and keeps its update unless that expired. */
  lemma LoneStep(u: Smoke)
    ensures StepPuffs([u]).cells == Draw(u)
    ensures Survivors([u]) == if Expired(Update(u)) then [] else [Update(u)]
  {
    assert [u][1..] == [];
    assert Draw(u) + [] == Draw(u);
  }

  /**
    The puffs a frame hands on are the survivors of the puffs it started
    with, followed by the survivor of the puff it spawned, if any.
   */
  lemma FramePuffs(x: int, frame: nat, baseRow: int, smokes: seq<Smoke>)
    ensures Frame(x, frame, baseRow, smokes).smokes
         == StepPuffs(smokes).smokes
          + (if frame % 2 == 0 && x >= 0 then StepPuffs([Spawn(baseRow - 1, x + FUNNEL_COL_OFFSET)]).smokes else [])
  {
    var p := Spawn(baseRow - 1, x + FUNNEL_COL_OFFSET);
    if frame % 2 == 0 && x >= 0 {
      StepPuffsConcat(smokes, [p]);
    } else {
      assert StepPuffs(SpawnStep(x, frame, baseRow, smokes)) == StepPuffs(smokes);
    }
    assert Frame(x, frame, baseRow, smokes).smokes == StepPuffs(SpawnStep(x, frame, baseRow, smokes)).smokes;
  }

  /** The text a frame writes: a screen clear, then every cell in order. */
  function FrameText(cells: seq<Cell>): (s: string)
    ensures Codec.DecodeFrame(s) == Some(cells)
  {
    var text := CLEAR_SCREEN + Render(cells);
    Codec.DecodeRender(cells);
    assert Codec.StripPrefix(CLEAR_SCREEN, text) == Some(Render(cells)) by {
      assert text[|CLEAR_SCREEN|..] == Render(cells);
    }
    text
  }

  /** The terminal row of the top of the locomotive for a terminal of `rows` rows. */
  function BaseRow(rows: int): (b: int)
    ensures 2 * (b + 4) <= rows < 2 * (b + 4) + 2
  {
    rows / 2 - 4
  }

  /** One frame of a pass, as the loop saw it: offset, frame number, puffs on entry, cells written. */
  datatype Step = Step(x: int, frame: nat, puffs: seq<Smoke>, cells: seq<Cell>)

  /** The frames of a pass, and the puffs left after the last one. */
  datatype Run = Run(steps: seq<Step>, smokes: seq<Smoke>)

  /** What one frame does, given its offset, its frame number and the puffs it starts with. */
  type FrameStep = (int, nat, seq<Smoke>) -> FrameOutput

  /** The frame of the animation on a terminal whose base row is `baseRow`. */
  function FrameAt(baseRow: int): FrameStep {
    (x: int, frame: nat, smokes: seq<Smoke>) => Frame(x, frame, baseRow, smokes)
  }

  /**
    `count` consecutive frames of `step` starting at offset `x` and frame
    number `frame` with the puffs `smokes`: each frame moves one column
    left, counts one frame up, and takes the puffs the previous frame left.
   */
  function Pass(step: FrameStep, x: int, frame: nat, smokes: seq<Smoke>, count: nat): Run
    decreases count
  {
    if count == 0 then Run([], smokes)
    else
      var out := step(x, frame, smokes);
      var rest := Pass(step, x - 1, frame + 1, out.smokes, count - 1);
      Run([Step(x, frame, smokes, out.cells)] + rest.steps, rest.smokes)
  }

  /** The number of frames the loop still shows once the offset is `x`. */
  function FramesLeft(x: int): nat {
    if x > END_OFFSET then x - END_OFFSET else 0
  }

  /**
    The shape of a pass: `count` frames, the `i`-th at offset `x - i` and
    frame number `frame + i`, the first starting from `smokes`.
   */
  lemma {:induction false} PassShape(step: FrameStep, x: int, frame: nat, smokes: seq<Smoke>, count: nat)
    ensures var r := Pass(step, x, frame, smokes, count);
      |r.steps| == count
      && (forall i :: 0 <= i < count ==> r.steps[i].x == x - i && r.steps[i].frame == frame + i)
      && (count > 0 ==> r.steps[0].puffs == smokes)
    decreases count
  {
    if count > 0 {
      var out := step(x, frame, smokes);
      var rest := Pass(step, x - 1, frame + 1, out.smokes, count - 1);
      PassShape(step, x - 1, frame + 1, out.smokes, count - 1);
      var r := Pass(step, x, frame, smokes, count);
      forall i | 1 <= i < count
        ensures r.steps[i] == rest.steps[i - 1]
      {
      }
    }
  }

  /**
    The frames of a pass are chained: each is written by `step` from the
    puffs the previous frame left, and the pass ends with the puffs the
    last frame left.
   */
  lemma {:induction false} PassFrames(step: FrameStep, x: int, frame: nat, smokes: seq<Smoke>, count: nat)
    ensures var r := Pass(step, x, frame, smokes, count);
      |r.steps| == count
      && (forall i :: 0 <= i < count ==>
            r.steps[i].cells == step(r.steps[i].x, r.steps[i].frame, r.steps[i].puffs).cells)
      && (forall i :: 0 <= i < count - 1 ==>
            r.steps[i + 1].puffs == step(r.steps[i].x, r.steps[i].frame, r.steps[i].puffs).smokes)
      && (count == 0 ==> r.smokes == smokes)
      && (count > 0 ==> var last := r.steps[count - 1];
            r.smokes == step(last.x, last.frame, last.puffs).smokes)
    decreases count
  {
    if count > 0 {
      var out := step(x, frame, smokes);
      var rest := Pass(step, x - 1, frame + 1, out.smokes, count - 1);
      PassFrames(step, x - 1, frame + 1, out.smokes, count - 1);
      var r := Pass(step, x, frame, smokes, count);
      forall i | 1 <= i < count
        ensures r.steps[i] == rest.steps[i - 1]
      {
      }
    }
  }

  /** None of the puffs has expired. */
  predicate Live(smokes: seq<Smoke>) {
    forall u :: u in smokes ==> !Expired(u)
  }

  /** A frame step that, from live puffs, writes only on-screen cells and leaves live puffs. */
  ghost predicate KeepsSound(step: FrameStep) {
    forall x: int, frame: nat, smokes: seq<Smoke> ::
      Live(smokes) ==> AllOnScreen(step(x, frame, smokes).cells) && Live(step(x, frame, smokes).smokes)
  }

  /** The animation's frame keeps the screen and the puffs sound. */
  lemma FrameAtSound(baseRow: int)
    ensures KeepsSound(FrameAt(baseRow))
  {
    forall x: int, frame: nat, smokes: seq<Smoke> | Live(smokes)
      ensures AllOnScreen(FrameAt(baseRow)(x, frame, smokes).cells)
      ensures Live(FrameAt(baseRow)(x, frame, smokes).smokes)
    {
      FrameSound(x, frame, baseRow, smokes);
    }
  }

  /**
    Starting from live puffs, every frame of a pass of a sound frame step
    writes only on-screen cells and starts from live puffs, and the puffs
    left at the end are live.
   */
  lemma {:induction false} PassSound(step: FrameStep, x: int, frame: nat, smokes: seq<Smoke>, count: nat)
    requires KeepsSound(step)
    requires Live(smokes)
    ensures var r := Pass(step, x, frame, smokes, count);
      (forall i :: 0 <= i < |r.steps| ==> AllOnScreen(r.steps[i].cells) && Live(r.steps[i].puffs))
      && Live(r.smokes)
    decreases count
  {
    if count > 0 {
      var out := step(x, frame, smokes);
      var rest := Pass(step, x - 1, frame + 1, out.smokes, count - 1);
      var r := Pass(step, x, frame, smokes, count);
      PassSound(step, x - 1, frame + 1, out.smokes, count - 1);
      forall i | 1 <= i < |r.steps|
        ensures r.steps[i] == rest.steps[i - 1]
      {
      }
    }
  }

  /**
    The animation loop for the frame step `step`: the offset starts at
    `cols - 1` and falls by one per frame while it is greater than -90, so
    there are `cols + 89` frames, the last at offset -89; the frame number
    counts the frames already shown; the frames are those of `Pass` from no
    puffs, and the puffs returned are the ones the last frame left.
   */
  method Animate(step: FrameStep, cols: int) returns (trace: seq<Step>, smokes: seq<Smoke>)
    ensures |trace| == if cols + 89 > 0 then cols + 89 else 0
    ensures forall i :: 0 <= i < |trace| ==> trace[i].x == cols - 1 - i && trace[i].frame == i
    ensures |trace| > 0 ==> trace[|trace| - 1].x == END_OFFSET + 1
    ensures Run(trace, smokes) == Pass(step, cols - 1, 0, [], FramesLeft(cols - 1))
  {
    ghost var total := FramesLeft(cols - 1);
    trace := [];
    smokes := [];
    var frame: nat := 0;
    var x := cols - 1;
    while x > END_OFFSET
      invariant frame == cols - 1 - x
      invariant x >= END_OFFSET || frame == 0
      invariant var rest := Pass(step, x, frame, smokes, FramesLeft(x));
        Pass(step, cols - 1, 0, [], total) == Run(trace + rest.steps, rest.smokes)
      decreases x - END_OFFSET
    {
      var out := step(x, frame, smokes);
      ghost var rest := Pass(step, x - 1, frame + 1, out.smokes, FramesLeft(x - 1));
      var st := Step(x, frame, smokes, out.cells);
      assert trace + ([st] + rest.steps) == (trace + [st]) + rest.steps;
      trace := trace + [st];
      smokes := out.smokes;
      frame := frame + 1;
      x := x - 1;
    }
    assert trace + [] == trace;
    PassShape(step, cols - 1, 0, [], total);
  }

  /**
    One pass of the train across a terminal of `cols` columns and `rows`
    rows: the animation loop run with the frame of the base row
    `rows / 2 - 4`. Every frame writes only on-screen cells and starts
    from puffs that have not expired.
   */
  method RunPass(cols: int, rows: int) returns (trace: seq<Step>, smokes: seq<Smoke>)
    ensures |trace| == if cols + 89 > 0 then cols + 89 else 0
    ensures forall i :: 0 <= i < |trace| ==> trace[i].x == cols - 1 - i && trace[i].frame == i
    ensures Run(trace, smokes) == Pass(FrameAt(BaseRow(rows)), cols - 1, 0, [], FramesLeft(cols - 1))
    ensures forall i :: 0 <= i < |trace| ==> AllOnScreen(trace[i].cells) && Live(trace[i].puffs)
    ensures Live(smokes)
  {
    trace, smokes := Animate(FrameAt(BaseRow(rows)), cols);
    FrameAtSound(BaseRow(rows));
    PassSound(FrameAt(BaseRow(rows)), cols - 1, 0, [], FramesLeft(cols - 1));
  }
}
