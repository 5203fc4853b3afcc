/** The game's state, its constants, and the two helpers that build state from
    nothing: a freshly spawned pillar and the state after a restart. */
module GameState {

  /** Logical canvas and sprite geometry, in pixels. */
  const ScreenWidth := 640
  const ScreenHeight := 630
  const BirdSize := 40
  const PillarWidth := 200
  const PillarGap := 200
  /** Pixels every pillar moves left per playing tick. */
  const PillarSpeed := 3

  /** Ticks between two spawns: the integer quotient 640 / 3 = 213. */
  const SpawnInterval := ScreenWidth / PillarSpeed
  /** Exclusive upper bound of the random gap offset: 630 - 200 - 200 = 230. */
  const OffsetRange := ScreenHeight - PillarGap - PillarWidth

  /** Added to the bird's velocity every playing tick. */
  const Gravity: real := 0.1
  /** The velocity a jump sets (negative is upwards). */
  const JumpVelocity: real := -2.0

  /** A value the random source can produce for a gap offset: an integer in
      [0, OffsetRange), the range of a uniform draw below OffsetRange. */
  type GapOffset = d: int | 0 <= d < OffsetRange

  /** One pillar pair: horizontal position of its left edge and the top of
      its gap. */
  datatype Pillar = Pillar(x: int, y: int)

  /** What one tick reads from outside: whether a jump key (Space or Up) is
      held, whether Enter is held, and the random offset a spawn would use. */
  datatype Input = Input(jump: bool, enter: bool, draw: GapOffset)

  /** The whole game state; `pillars` is in spawn order. */
  datatype Game = Game(
    birdY: real,
    birdDY: real,
    pillars: seq<Pillar>,
    frameCount: int,
    isGameOver: bool,
    score: int,
    started: bool)

  datatype Phase = Waiting | Playing | Over

  function PhaseOf(g: Game): Phase {
    if g.isGameOver then Over
    else if g.started then Playing
    else Waiting
  }

  /** What a tick can end in: a new state, or the runtime panic that slicing
      an empty list raises. */
  datatype Outcome<T> = Ok(value: T) | Panicked

  /** A pillar entering at the right edge with gap offset `draw`, a negative
      offset being clamped to the top. */
  function NewPillar(draw: int): (p: Pillar)
    ensures p.x == ScreenWidth
    ensures 0 <= p.y
    ensures draw < 0 ==> p.y == 0
    ensures 0 <= draw ==> p.y == draw
  {
    var y := if draw < 0 then 0 else draw;
    Pillar(ScreenWidth, y)
  }

  /** Every offset the random source can give passes through the clamp
      unchanged, and the gap it opens lies on the screen. */
  lemma NewPillarUnclamped(draw: GapOffset)
    ensures NewPillar(draw).y == draw
    ensures 0 <= NewPillar(draw).y < OffsetRange
    ensures NewPillar(draw).y + PillarGap < ScreenHeight
  {
  }

  /** The state after a restart. None of the old state survives. */
  function Reset(g: Game): (r: Game)
    ensures PhaseOf(r) == Waiting && !r.started
    ensures 2.0 * r.birdY == ScreenHeight as real && r.birdDY == 0.0
    ensures r.pillars == [] && r.frameCount == 0 && r.score == 0
  {
    Game(
      birdY := (ScreenHeight / 2) as real,
      birdDY := 0.0,
      pillars := [],
      frameCount := 0,
      isGameOver := false,
      score := 0,
      started := false)
  }

  /** Restarting a restarted game changes nothing, and what a restart
      yields does not depend on the game it is applied to. */
  lemma ResetIdempotent(g: Game, h: Game)
    ensures Reset(Reset(g)) == Reset(g)
    ensures Reset(g) == Reset(h)
  {
  }

  /** The state the process starts in: every field at its zero value, so the
      bird starts at the top edge rather than at mid-screen. */
  function InitialGame(): (r: Game)
    ensures PhaseOf(r) == Waiting
    ensures r == Reset(r).(birdY := 0.0)
    ensures r.birdY != Reset(r).birdY
  {
    Game(0.0, 0.0, [], 0, false, 0, false)
  }
}
