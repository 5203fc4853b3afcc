/** One call of the game's per-frame update: start on a jump while waiting,
    run the playing logic while started and not over, and restart on Enter
    once over. Key presses and the random gap offset arrive in an Input. */
module Frame {
  import opened GameState
  import opened Scroll

  /** A tick that runs the playing logic: the game is not over, and either
      it had started or a jump starts it now. */
  predicate IsPlayingTick(g: Game, input: Input) {
    !g.isGameOver && (g.started || input.jump)
  }

  /** Whether the next playing tick spawns: the incremented frame counter is
      a multiple of SpawnInterval. */
  predicate SpawnsNext(g: Game) {
    (g.frameCount + 1) % SpawnInterval == 0
  }

  /** The list the pillar loop ranges over: the pillars, plus a new one at
      the end when this tick spawns. */
  function Snapshot(g: Game, input: Input): (ps: seq<Pillar>)
    ensures |ps| == |g.pillars| + (if SpawnsNext(g) then 1 else 0)
    ensures ps[..|g.pillars|] == g.pillars
    ensures SpawnsNext(g) ==> ps[|g.pillars|] == NewPillar(input.draw)
  {
    if SpawnsNext(g) then g.pillars + [NewPillar(input.draw)] else g.pillars
  }

  /** Gravity first; a held jump then overrides it. */
  function NextVelocity(dy: real, jump: bool): real {
    var falling := dy + Gravity;
    if jump then JumpVelocity else falling
  }

  /** The playing logic: velocity and position, frame count and spawn, then
      the pillar loop. */
  function Play(g: Game, input: Input): (r: Outcome<Game>)
    ensures r.Ok? ==> r.value.frameCount == g.frameCount + 1 && r.value.started == g.started
    ensures r.Ok? ==> r.value.score - g.score == |Snapshot(g, input)| - |r.value.pillars|
    ensures r.Ok? && g.isGameOver ==> r.value.isGameOver
  {
    var dy := NextVelocity(g.birdDY, input.jump);
    var y := g.birdY + dy;
    var ps := Snapshot(g, input);
    match ScrollPillars(ps, g.score, g.isGameOver, y)
    case Panicked => Panicked
    case Ok(s) =>
      Ok(g.(birdY := y, birdDY := dy, pillars := s.arr[s.front..],
            frameCount := g.frameCount + 1, score := s.score, isGameOver := s.over))
  }

  /** The update as written, including the panic a drop from an empty list
      would raise. */
  function Update(g: Game, input: Input): (r: Outcome<Game>)
    ensures !IsPlayingTick(g, input) ==> r == Ok(if g.isGameOver && input.enter then Reset(g) else g)
    ensures r.Ok? && input.enter ==> !r.value.isGameOver
    ensures r.Ok? && IsPlayingTick(g, input) && !Restarts(g, input) ==>
              r.value.started && r.value.frameCount == g.frameCount + 1
    ensures r.Ok? && Restarts(g, input) ==> r.value == Reset(g)
  {
    var g1 := if !g.isGameOver && !g.started && input.jump then g.(started := true) else g;
    assert Snapshot(g1, input) == Snapshot(g, input);
    ScrollMeaning(Snapshot(g, input), g1.score, g1.isGameOver, g1.birdY + NextVelocity(g1.birdDY, input.jump));
    var g2 := if g1.started && !g1.isGameOver then Play(g1, input) else Ok(g1);
    match g2
    case Panicked => Panicked
    case Ok(h) => Ok(if h.isGameOver && input.enter then Reset(h) else h)
  }

  /** No state and no input makes the update panic. */
  lemma UpdateNeverPanics(g: Game, input: Input)
    ensures Update(g, input).Ok?
  {
    var g1 := if !g.isGameOver && !g.started && input.jump then g.(started := true) else g;
    ScrollMeaning(Snapshot(g1, input), g1.score, g1.isGameOver, g1.birdY + NextVelocity(g1.birdDY, input.jump));
  }

  /** Whether a tick ends in a restart: Enter is held and the game is over
      by the end of the playing logic, either from before or because a
      moved pillar collides with the bird at its new position. */
  predicate Restarts(g: Game, input: Input) {
    && input.enter
    && (|| g.isGameOver
        || (IsPlayingTick(g, input)
            && AnyCollides(MoveAll(Snapshot(g, input)), g.birdY + NextVelocity(g.birdDY, input.jump))))
  }

  /** One tick. Outside a playing tick only a restart changes anything; a
      playing tick leaves the game started and counts one frame unless it
      restarts; the game is never left over after a tick with Enter held. */
  function Step(g: Game, input: Input): (r: Game)
    ensures PhaseOf(g) == Waiting && !input.jump ==> r == g
    ensures PhaseOf(g) == Over && !input.enter ==> r == g
    ensures PhaseOf(g) == Over && input.enter ==> r == Reset(g)
    ensures IsPlayingTick(g, input) && !Restarts(g, input) ==> r.started && r.frameCount == g.frameCount + 1
    ensures Restarts(g, input) ==> r == Reset(g)
    ensures input.enter ==> !r.isGameOver
  {
    UpdateNeverPanics(g, input);
    Update(g, input).value
  }

  /** A playing tick against an independent description: the velocity is
      the jump velocity or the old one plus gravity, the bird moves by the
      new velocity, the frame count grows by one, every pillar of the
      snapshot moves left by PillarSpeed, the front loses one element per
      pillar now off screen, the score grows by that number, and the game
      is over exactly when a moved pillar collides with the bird; if that
      happens with Enter held, the tick ends in a restart. */
  lemma PlayingTick(g: Game, input: Input)
    requires IsPlayingTick(g, input)
    ensures var dy := if input.jump then JumpVelocity else g.birdDY + Gravity;
            var y := g.birdY + dy;
            var ms := MoveAll(Snapshot(g, input));
            var d := DropCount(ms);
            var over := AnyCollides(ms, y);
            Step(g, input)
              == if over && input.enter then Reset(g)
                 else g.(started := true, birdY := y, birdDY := dy, frameCount := g.frameCount + 1,
                         pillars := ms[d..], score := g.score + d, isGameOver := over)
  {
    var g1 := g.(started := true);
    var y := g.birdY + NextVelocity(g.birdDY, input.jump);
    assert Snapshot(g1, input) == Snapshot(g, input);
    ScrollMeaning(Snapshot(g, input), g.score, false, y);
  }

  /** A tick restarts exactly when Restarts says so; otherwise the playing
      logic's result stands. */
  lemma RestartExactly(g: Game, input: Input)
    ensures Restarts(g, input) ==> Step(g, input) == Reset(g)
    ensures !Restarts(g, input) && !IsPlayingTick(g, input) ==> Step(g, input) == g
    ensures !Restarts(g, input) && IsPlayingTick(g, input) ==> Step(g, input).started
  {
    if IsPlayingTick(g, input) {
      PlayingTick(g, input);
    }
  }

  /** The vertical motion of a playing tick that does not restart. */
  lemma FlightLaw(g: Game, input: Input)
    requires IsPlayingTick(g, input)
    requires !Restarts(g, input)
    ensures input.jump ==> Step(g, input).birdDY == JumpVelocity
    ensures !input.jump ==> Step(g, input).birdDY == g.birdDY + Gravity
    ensures Step(g, input).birdY == g.birdY + Step(g, input).birdDY
  {
    PlayingTick(g, input);
  }

  /** A playing tick that does not restart adds one pillar exactly when the
      new frame count is a multiple of SpawnInterval, scores exactly the
      pillars it removes, and moves every pillar it keeps left by exactly
      PillarSpeed. */
  lemma SpawnAndScroll(g: Game, input: Input)
    requires IsPlayingTick(g, input)
    requires !Restarts(g, input)
    ensures var r := Step(g, input);
            && r.frameCount == g.frameCount + 1
            && (SpawnsNext(g) <==> r.frameCount % SpawnInterval == 0)
            && r.score - g.score == |g.pillars| + (if SpawnsNext(g) then 1 else 0) - |r.pillars|
            && |r.pillars| <= |Snapshot(g, input)|
            && var d := |Snapshot(g, input)| - |r.pillars|;
               forall i :: 0 <= i < |r.pillars| ==> r.pillars[i] == Move(Snapshot(g, input)[d + i])
  {
    PlayingTick(g, input);
  }

  /** A pillar spawned by a playing tick is listed last at the end of that
      tick, already moved left once, with the drawn gap offset. */
  lemma SpawnedPillarMoves(g: Game, input: Input)
    requires IsPlayingTick(g, input) && SpawnsNext(g)
    requires !Restarts(g, input)
    ensures var r := Step(g, input);
            |r.pillars| > 0 && r.pillars[|r.pillars| - 1] == Pillar(ScreenWidth - PillarSpeed, input.draw)
  {
    PlayingTick(g, input);
    var ms := MoveAll(Snapshot(g, input));
    assert ms[|ms| - 1] == Move(NewPillar(input.draw));
    LastNotDropped(ms);
  }
}
