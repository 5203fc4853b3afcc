/** Properties of the states the game can reach from its initial state or
    from a restart, and of runs of many ticks. */
module Reachable {
  import opened GameState
  import opened Scroll
  import opened Frame

  /** The invariant of reachable states: every pillar spawned so far has
      either been scored or is still listed, pillars are in spawn order and
      all listed ones lie between the drop line and the spawn position, with
      a gap offset the random source can give. */
  predicate Good(g: Game) {
    && g.frameCount >= 0
    && g.score >= 0
    && g.score + |g.pillars| == g.frameCount / SpawnInterval
    && Ascending(g.pillars)
    && forall i :: 0 <= i < |g.pillars| ==> InBounds(g.pillars[i], ScreenWidth - PillarSpeed)
  }

  /** Not yet dropped, not right of `maxX`, and with a gap offset the random
      source can give. */
  predicate InBounds(p: Pillar, maxX: int) {
    -PillarWidth <= p.x <= maxX && 0 <= p.y < OffsetRange
  }

  /** Both the process's initial state and every restarted state satisfy
      the invariant. */
  lemma GoodStart(g: Game)
    ensures Good(InitialGame())
    ensures Good(Reset(g))
  {
  }

  /** One more frame moves the quotient by SpawnInterval up by one exactly
      when the new count is a multiple of it. */
  lemma SpawnArithmetic(f: int)
    ensures (f + 1) / SpawnInterval == f / SpawnInterval + (if (f + 1) % SpawnInterval == 0 then 1 else 0)
  {
    var q := f / SpawnInterval;
    var m := f % SpawnInterval;
    DivMod(f, q, m);
    if m == SpawnInterval - 1 {
      DivMod(f + 1, q + 1, 0);
    } else {
      DivMod(f + 1, q, m + 1);
    }
  }

  lemma DivMod(f: int, q: int, m: int)
    requires f == SpawnInterval * q + m && 0 <= m < SpawnInterval
    ensures f / SpawnInterval == q && f % SpawnInterval == m
  {
    assert SpawnInterval == 213;
  }

  /** The snapshot of a good state is in spawn order and in bounds. */
  lemma SnapshotGood(g: Game, input: Input)
    requires Good(g)
    ensures Ascending(Snapshot(g, input))
    ensures forall i :: 0 <= i < |Snapshot(g, input)| ==> InBounds(Snapshot(g, input)[i], ScreenWidth)
  {
    var ps := Snapshot(g, input);
    if SpawnsNext(g) {
      NewPillarUnclamped(input.draw);
      assert ps[|ps| - 1] == NewPillar(input.draw);
      forall i | 0 <= i < |ps| ensures InBounds(ps[i], ScreenWidth) {
        if i < |g.pillars| { assert ps[i] == g.pillars[i]; }
      }
      forall i, j | 0 <= i < j < |ps| ensures ps[i].x < ps[j].x {
        if j < |g.pillars| {
          assert ps[i] == g.pillars[i] && ps[j] == g.pillars[j];
        } else {
          assert ps[i] == g.pillars[i];
        }
      }
    }
  }

  /** Scrolling an ordered, in-bounds snapshot keeps exactly pillars that
      are ordered and in bounds for the next tick. */
  lemma KeptGood(ps: seq<Pillar>)
    requires Ascending(ps)
    requires forall i :: 0 <= i < |ps| ==> InBounds(ps[i], ScreenWidth)
    ensures var ms := MoveAll(ps);
            var kept := ms[DropCount(ms)..];
            && Ascending(kept)
            && forall i :: 0 <= i < |kept| ==> InBounds(kept[i], ScreenWidth - PillarSpeed)
  {
    var ms := MoveAll(ps);
    var d := DropCount(ms);
    MoveAllAscending(ps);
    AscendingDropIsExact(ms);
    var kept := ms[d..];
    forall i | 0 <= i < |kept| ensures InBounds(kept[i], ScreenWidth - PillarSpeed) {
      assert kept[i] == ms[d + i] == Move(ps[d + i]);
      assert !OffScreen(ms[d + i]);
    }
    forall i, j | 0 <= i < j < |kept| ensures kept[i].x < kept[j].x {
      assert kept[i] == ms[d + i] && kept[j] == ms[d + j];
    }
  }

  /** Every tick keeps the invariant. */
  lemma GoodStep(g: Game, input: Input)
    requires Good(g)
    ensures Good(Step(g, input))
  {
    if IsPlayingTick(g, input) {
      var ps := Snapshot(g, input);
      var ms := MoveAll(ps);
      var d := DropCount(ms);
      var r := Step(g, input);
      PlayingTick(g, input);
      if r != Reset(g) {
        assert r.pillars == ms[d..] && r.score == g.score + d && r.frameCount == g.frameCount + 1;
        SnapshotGood(g, input);
        KeptGood(ps);
        SpawnArithmetic(g.frameCount);
      }
    }
  }

  /** In spawn order, a moved pillar collides exactly when one that the
      front drop keeps collides. */
  lemma CollisionKept(ms: seq<Pillar>, y: real)
    requires Ascending(ms)
    ensures AnyCollides(ms, y) <==> exists p :: p in ms[DropCount(ms)..] && Collides(p, y)
  {
    var d := DropCount(ms);
    AscendingDropIsExact(ms);
    if AnyCollides(ms, y) {
      var i :| 0 <= i < |ms| && Collides(ms[i], y);
      assert !OffScreen(ms[i]);
      assert ms[i] == ms[d..][i - d];
    }
    if exists p :: p in ms[d..] && Collides(p, y) {
      var p :| p in ms[d..] && Collides(p, y);
      var i :| 0 <= i < |ms[d..]| && ms[d..][i] == p;
      assert ms[d + i] == p;
    }
  }

  /** In a playing tick from a good state, the game is over afterwards
      exactly when one of the pillars still listed collides with the bird
      where it now is: a pillar dropped this tick is never the cause. */
  lemma GameOverCause(g: Game, input: Input)
    requires Good(g) && IsPlayingTick(g, input)
    ensures var r := Step(g, input);
            r.isGameOver <==> exists p :: p in r.pillars && Collides(p, r.birdY)
  {
    var ps := Snapshot(g, input);
    var ms := MoveAll(ps);
    var r := Step(g, input);
    PlayingTick(g, input);
    if r != Reset(g) {
      assert r.pillars == ms[DropCount(ms)..] && r.isGameOver == AnyCollides(ms, r.birdY);
      SnapshotGood(g, input);
      MoveAllAscending(ps);
      CollisionKept(ms, r.birdY);
    }
  }

  /** The state after feeding `ins` to the game one tick at a time. */
  function Run(g: Game, ins: seq<Input>): Game
    decreases |ins|
  {
    if |ins| == 0 then g else Run(Step(g, ins[0]), ins[1..])
  }

  /** How many ticks of the run execute the playing logic. */
  function PlayingTicks(g: Game, ins: seq<Input>): nat
    decreases |ins|
  {
    if |ins| == 0 then 0
    else (if IsPlayingTick(g, ins[0]) then 1 else 0) + PlayingTicks(Step(g, ins[0]), ins[1..])
  }

  /** How many ticks of the run spawn a pillar. */
  function Spawns(g: Game, ins: seq<Input>): nat
    decreases |ins|
  {
    if |ins| == 0 then 0
    else (if IsPlayingTick(g, ins[0]) && SpawnsNext(g) then 1 else 0) + Spawns(Step(g, ins[0]), ins[1..])
  }

  /** No tick of the run ends in a restart. */
  predicate NoRestart(g: Game, ins: seq<Input>)
    decreases |ins|
  {
    |ins| == 0 || (!Restarts(g, ins[0]) && NoRestart(Step(g, ins[0]), ins[1..]))
  }

  /** Every reachable state satisfies the invariant. */
  lemma {:induction false} RunGood(g: Game, ins: seq<Input>)
    requires Good(g)
    ensures Good(Run(g, ins))
    decreases |ins|
  {
    if |ins| > 0 {
      GoodStep(g, ins[0]);
      RunGood(Step(g, ins[0]), ins[1..]);
    }
  }

  /** Without a restart, the frame counter counts the playing ticks, and
      pillars are spawned exactly once per SpawnInterval frames. */
  lemma {:induction false} RunCadence(g: Game, ins: seq<Input>)
    requires NoRestart(g, ins)
    ensures Run(g, ins).frameCount == g.frameCount + PlayingTicks(g, ins)
    ensures Spawns(g, ins) == Run(g, ins).frameCount / SpawnInterval - g.frameCount / SpawnInterval
    decreases |ins|
  {
    if |ins| > 0 {
      var g' := Step(g, ins[0]);
      RunCadence(g', ins[1..]);
      if IsPlayingTick(g, ins[0]) {
        PlayingTick(g, ins[0]);
        SpawnArithmetic(g.frameCount);
        assert g'.frameCount == g.frameCount + 1;
      } else {
        RestartExactly(g, ins[0]);
      }
    }
  }

  /** From a restart, with no restart along the way, after n playing ticks
      exactly n / SpawnInterval pillars have been spawned, and each of them
      has been scored or is still listed. */
  lemma CadenceFromReset(g: Game, ins: seq<Input>)
    requires NoRestart(Reset(g), ins)
    ensures Spawns(Reset(g), ins) == PlayingTicks(Reset(g), ins) / SpawnInterval
    ensures Run(Reset(g), ins).score + |Run(Reset(g), ins).pillars| == Spawns(Reset(g), ins)
  {
    RunCadence(Reset(g), ins);
    GoodStart(g);
    RunGood(Reset(g), ins);
  }

  /** The same cadence for the first session, which starts from the
      process's initial state (bird at 0) rather than from a restart. */
  lemma CadenceFromStart(ins: seq<Input>)
    requires NoRestart(InitialGame(), ins)
    ensures Spawns(InitialGame(), ins) == PlayingTicks(InitialGame(), ins) / SpawnInterval
    ensures Run(InitialGame(), ins).score + |Run(InitialGame(), ins).pillars| == Spawns(InitialGame(), ins)
  {
    RunCadence(InitialGame(), ins);
    GoodStart(InitialGame());
    RunGood(InitialGame(), ins);
  }
}
