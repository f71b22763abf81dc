/**
  One smoke puff. It is spawned at a fixed screen position with stage 0,
  advances one stage per update, and rises one row on every second update;
  it stays at the column where it was spawned. Once its stage runs past
  the smoke table, or its row goes above the screen, the frame loop drops it.
 */
module SmokeParticle {
  import opened Sprites
  import opened Emitter

  /** A puff: its row, its absolute column, its stage and its update count. */
  datatype Smoke = Smoke(y: int, absX: int, pattern: nat, moveCounter: nat)

  /** A new puff at (`y`, `absX`) with stage and update count zero. */
  function Spawn(y: int, absX: int): (s: Smoke)
    ensures s.pattern == 0 && s.moveCounter == 0
    ensures s.y == y && s.absX == absX
  {
    Smoke(y, absX, 0, 0)
  }

  /**
    One update: the update count and the stage each go up by one, the
    column stays, and the row goes up by one exactly when the new update
    count is even.
   */
  function Update(s: Smoke): (r: Smoke)
    ensures r.pattern == s.pattern + 1
    ensures r.moveCounter == s.moveCounter + 1
    ensures r.absX == s.absX
    ensures r.y == s.y - 1 <==> r.moveCounter % 2 == 0
    ensures r.y == s.y <==> r.moveCounter % 2 != 0
  {
    var counter := s.moveCounter + 1;
    var y := if counter % 2 == 0 then s.y - 1 else s.y;
    Smoke(y, s.absX, s.pattern + 1, counter)
  }

  /** `n` successive updates of `s`. */
  function Updates(s: Smoke, n: nat): Smoke
    decreases n
  {
    if n == 0 then s else Update(Updates(s, n - 1))
  }

  /**
    A puff `n` updates after its spawn is at stage `n`, has risen `n / 2`
    rows, and has not moved sideways.
   */
  lemma {:induction false} UpdatesAfterSpawn(y0: int, x0: int, n: nat)
    ensures Updates(Spawn(y0, x0), n) == Smoke(y0 - n / 2, x0, n, n)
    decreases n
  {
    if n > 0 {
      UpdatesAfterSpawn(y0, x0, n - 1);
    }
  }

  /** Whether the frame loop drops a puff after updating it. */
  predicate Expired(s: Smoke) {
    s.pattern >= |SMOKE_PATTERNS| || s.y < 0
  }

  /**
    The cells of a puff's current stage: nothing once the stage is past the
    table or the column is negative, otherwise the stage's non-space glyphs
    on row `y` starting at column `absX`.
   */
  function Draw(s: Smoke): (r: seq<Cell>)
    ensures s.pattern >= |SMOKE_PATTERNS| || s.absX < 0 || s.y < 0 ==> r == []
    ensures AllOnScreen(r)
    ensures s.pattern < |SMOKE_PATTERNS| ==>
      forall c :: c in r ==> LineGlyph(s.y, s.absX, SMOKE_PATTERNS[s.pattern], c)
    ensures !Expired(s) && s.absX >= 0 ==> |r| == NonSpaceCount(SMOKE_PATTERNS[s.pattern])
  {
    if s.pattern >= |SMOKE_PATTERNS| then []
    else if s.absX < 0 then []
    else
      // The per-glyph test `abs_x + i >= 0` of the source always holds here,
      // since `absX` is not negative; `DrawLine` applies it anyway.
      DrawLineCount(s.y, s.absX, SMOKE_PATTERNS[s.pattern]);
      DrawLine(s.y, s.absX, SMOKE_PATTERNS[s.pattern])
  }

  /**
    A live puff at a non-negative column writes every non-space glyph of
    its current stage, and any puff writes its glyphs left to right.
   */
  lemma DrawComplete(s: Smoke)
    ensures !Expired(s) && s.absX >= 0 ==> Covers(s.y, s.absX, SMOKE_PATTERNS[s.pattern], Draw(s))
    ensures ColumnsIncrease(Draw(s))
  {
    if s.pattern < |SMOKE_PATTERNS| && s.absX >= 0 {
      DrawLineCovers(s.y, s.absX, SMOKE_PATTERNS[s.pattern]);
      DrawLineOrdered(s.y, s.absX, SMOKE_PATTERNS[s.pattern]);
    }
  }

  /**
    The number of frames a puff is drawn for, starting from `s`: in each
    frame it is drawn and then updated, and it is dropped after the update
    that expires it.
   */
  function Lifetime(s: Smoke): (n: nat)
    ensures n >= 1
    decreases if s.pattern < |SMOKE_PATTERNS| then |SMOKE_PATTERNS| - s.pattern else 0
  {
    var next := Update(s);
    if Expired(next) then 1 else 1 + Lifetime(next)
  }

  /** The number of frames a puff spawned on row `y0` is drawn for. */
  function SpawnLifetime(y0: int): nat {
    if y0 < 0 then 1
    else if 2 * y0 + 2 < |SMOKE_PATTERNS| then 2 * y0 + 2
    else |SMOKE_PATTERNS|
  }

  lemma {:induction false} LifetimeAfterUpdates(y0: int, x0: int, k: nat)
    requires k < SpawnLifetime(y0)
    ensures Lifetime(Updates(Spawn(y0, x0), k)) == SpawnLifetime(y0) - k
    decreases SpawnLifetime(y0) - k
  {
    UpdatesAfterSpawn(y0, x0, k);
    UpdatesAfterSpawn(y0, x0, k + 1);
    var next := Updates(Spawn(y0, x0), k + 1);
    assert Expired(next) <==> k + 1 >= SpawnLifetime(y0);
    if k + 1 < SpawnLifetime(y0) {
      LifetimeAfterUpdates(y0, x0, k + 1);
    }
  }

  /**
    A puff spawned on row `y0` is drawn in exactly `SpawnLifetime(y0)`
    frames, never more than the number of smoke stages; in the `k`-th of
    them its stage is `k`, always a valid index into the smoke table.
   */
  lemma PuffLifetime(y0: int, x0: int)
    ensures Lifetime(Spawn(y0, x0)) == SpawnLifetime(y0)
    ensures 1 <= Lifetime(Spawn(y0, x0)) <= |SMOKE_PATTERNS|
    ensures y0 >= 6 <==> Lifetime(Spawn(y0, x0)) == |SMOKE_PATTERNS|
    ensures forall k :: 0 <= k < Lifetime(Spawn(y0, x0)) ==>
      Updates(Spawn(y0, x0), k).pattern == k < |SMOKE_PATTERNS|
  {
    LifetimeAfterUpdates(y0, x0, 0);
    forall k | 0 <= k < Lifetime(Spawn(y0, x0))
      ensures Updates(Spawn(y0, x0), k).pattern == k < |SMOKE_PATTERNS|
    {
      UpdatesAfterSpawn(y0, x0, k);
    }
  }
}
