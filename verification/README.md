# Flappy-bird update loop, modelled in Dafny

This project models the per-frame state transition of a small Go "Flappy
Bird" game (`main.go`). One bird falls under constant gravity and jumps on
Space or Up. Pillar pairs with a gap enter at the right edge every 213
frames, scroll left 3 pixels per frame and leave at the left edge, scoring
a point each. A pillar in the bird's column whose gap misses the bird ends
the game, and Enter restarts it.

The game has three phases: waiting (not started, not over), playing
(started, not over) and over. `Frame.Step(g, input)` is one call of
`(*Game).Update`. Keyboard reads and the random gap offset arrive in an
`Input`. The offset is a `GapOffset`, an integer in [0, 230): the range of
`rand.Intn(630 - 200 - 200)`.

Modules:

- `GameState` (game_state.dfy): the constants, the `Pillar`, `Input` and
  `Game` datatypes, `NewPillar`, `Reset` and the process's initial state.
- `Scroll` (scroll.dfy): the `for _, pillar := range g.pillars` loop, written
  the way Go runs it. The range expression is evaluated once. `g.pillars =
  g.pillars[1:]` reslices the same backing array, and the pillars are
  pointers, so a move made through the loop variable shows in the list.
  The loop therefore works on one array of pillars (`Scan.arr`) plus the
  offset where the current list starts in it (`Scan.front`). Every element
  of the array is moved, while the list is `arr[front..]`. Slicing an empty
  list panics in Go, and the model keeps that as an `Outcome.Panicked`
  result. `ScanFaithful` proves the panic never happens and relates the loop
  to a plain description: move every pillar, drop as many from the front as
  are now off screen, and score that many.
- `Frame` (frame.dfy): the playing logic (`Play`), the whole update as
  written (`Update`, which may in principle panic), the total `Step`, and
  lemmas that describe a playing tick field by field.
- `Reachable` (reachable.dfy): the invariant `Good` of every state reachable
  from the initial state or a restart, and runs of many ticks (`Run`). Under
  `Good`, pillars stay in spawn order. So the front drop removes exactly the
  pillars that left the screen, and a game over is always caused by a
  pillar that is still listed. The lemmas also prove the spawn cadence over
  whole runs.

Facts about the code that the model makes explicit:

- The clamp at main.go:141-143 never fires. `rand.Intn(230)` at main.go:140
  returns 0 to 229, so the offset is kept unchanged
  (`GameState.NewPillarUnclamped`).
- main.go:75 drops the list's front, not the pillar that crossed the left
  edge. The two are the same only while pillars stay in spawn order, which
  every reachable state does (`Scroll.AscendingDropIsExact`,
  `Reachable.GoodStep`).
- Enter restarts the game only when it is over by main.go:88. Enter held
  during a playing tick without a collision changes nothing
  (`Frame.Restarts`, `Frame.RestartExactly`).
- The process starts with the bird at position 0 (main.go:161-163), not at
  mid-screen. Only `Reset` puts it at 315 (`GameState.InitialGame`).

## Model

| member | source | states |
|---|---|---|
| `GameState.NewPillar` | main.go:138-145 | A new pillar's left edge is at the screen width (640). Its gap offset is never negative: a negative draw becomes 0 and any other draw is kept. |
| `GameState.NewPillarUnclamped` | main.go:140-143 | Every offset the random source can give (0 to 229) passes the clamp unchanged. The gap it opens lies on the screen. |
| `GameState.Reset` | main.go:148-156 | After a restart the game is waiting and not started. The bird is at rest at half the screen height. There are no pillars, and frame count and score are 0. |
| `GameState.ResetIdempotent` | main.go:148-156 | Restarting twice equals restarting once. The restarted state does not depend on the game it was applied to. |
| `GameState.InitialGame` | main.go:161-163 | The process's initial state is waiting. It equals the restarted state except that the bird is at 0, not 315. |
| `Scroll.Collides` | main.go:80-83 | A pillar collides exactly when it overlaps the bird's column (-200 < x < 40) and the bird is not within the closed gap band [y, y + 200]. A colliding pillar is never off screen. |
| `Scroll.ScanFrom` | main.go:72-85 | The loop as written. If it does not panic, the array keeps its length and the list start stays inside it. The score grows by exactly the number of front drops. A game-over flag once set stays set. |
| `Scroll.ScanFaithful` | main.go:72-85 | The loop from any iteration never panics, as long as the list has lost no more elements than iterations have run. Every remaining pillar moves left by exactly 3. The front drop and the score each grow once per pillar that ends off screen. The flag is set exactly when some moved pillar collides. |
| `Scroll.ScrollMeaning` | main.go:72-85 | For the whole list, the loop never drops from an empty list. It leaves every pillar moved left by 3, removes one front element and adds one point per pillar now off screen, and ends the game exactly when some moved pillar collides. |
| `Scroll.OffScreenNeverCollides` | main.go:74-84 | The pillar whose move triggers a drop (x below -200) never passes the collision test in the same iteration. |
| `Scroll.LastNotDropped` | main.go:74-76 | In any order, a last pillar still on screen is not counted as a drop, so the front drop never reaches it. |
| `Scroll.MoveAllAscending` | main.go:72-73 | Moving every pillar by the same amount keeps the spawn order. |
| `Scroll.AscendingDropIsExact` | main.go:74-76 | In spawn order, the off-screen pillars form a prefix as long as the drop count. Dropping that many from the front removes exactly them. |
| `Frame.Snapshot` | main.go:66-69 | The list the loop ranges over is the old list, plus one new pillar at the end exactly when the incremented frame count is a multiple of 213. |
| `Frame.Play` | main.go:55-86 | The playing logic as written. If it does not panic, it adds one frame and leaves `started` alone. The score grows by the number of pillars the loop's list lost. A game over that was already set stays set. |
| `Frame.Update` | main.go:48-93 | The update as written. Outside a playing tick it changes nothing except a restart when the game is over and Enter is held. After a tick with Enter held the game is never over. A tick ends in `Reset` whenever `Restarts` holds. A playing tick for which `Restarts` does not hold leaves the game started with one more frame. |
| `Frame.UpdateNeverPanics` | main.go:48-93 | No state and no input make the update slice an empty list. |
| `Frame.Step` | main.go:48-93 | A waiting game without a jump is unchanged. An over game is unchanged without Enter and restarted with Enter. A tick for which `Restarts` holds ends in `Reset`. A playing tick for which it does not leaves the game started with one more frame. After a tick with Enter held the game is never over, even if that tick ended it. |
| `Frame.PlayingTick` | main.go:49-90 | A playing tick, including the tick a jump starts the game, matches a plain description. It sets the new velocity and position, adds one frame and scrolls the snapshot. It drops as many front pillars as are off screen and scores that many. Game over is set exactly when a moved pillar collides, and with Enter held that tick ends in a restart. |
| `Frame.RestartExactly` | main.go:88-90 | A tick ends in `Reset` exactly when `Restarts` holds: Enter is held and the game was over, or this playing tick sets it over. Without a restart, a non-playing tick changes nothing and a playing tick leaves the game started. |
| `Frame.FlightLaw` | main.go:56-63 | In a playing tick that does not restart (Enter may be held) the velocity becomes -2 on a jump and the old velocity plus 0.1 otherwise. The position moves by the new velocity. |
| `Frame.SpawnAndScroll` | main.go:66-77 | A playing tick that does not restart adds 1 to the frame count. It spawns exactly when the new count is a multiple of 213. The score grows by exactly the number of pillars removed. Each kept pillar is its snapshot pillar moved left by exactly 3. |
| `Frame.SpawnedPillarMoves` | main.go:66-75 | Unless the tick restarts, a pillar spawned this tick is listed last at the tick's end, already moved to x = 637, with the drawn offset. |
| `Reachable.GoodStart` | main.go:148-163 | The initial and the restarted states satisfy the reachable-state invariant. |
| `Reachable.SnapshotGood` | main.go:66-69 | From a good state the loop's list is in spawn order. Every pillar in it is on screen, with an offset in range. |
| `Reachable.KeptGood` | main.go:72-77 | Scrolling an ordered, in-bounds list keeps only pillars that are ordered, at or right of -200 and at or left of 637. |
| `Reachable.GoodStep` | main.go:48-93 | Every tick keeps the invariant: each spawned pillar is either scored or still listed (score + length = frame count / 213), and the list stays ordered and in bounds. |
| `Reachable.CollisionKept` | main.go:74-84 | In spawn order, some moved pillar collides exactly when some pillar kept by the front drop collides. |
| `Reachable.GameOverCause` | main.go:72-85 | From a reachable state, a playing tick ends the game exactly when a pillar still listed collides with the bird's new position. A pillar dropped that tick is never the cause. |
| `Reachable.RunGood` | main.go:48-93 | Every state reached by any sequence of ticks from a good state is good. |
| `Reachable.RunCadence` | main.go:66-69 | Over a run in which no tick restarts (Enter may be held), the frame count grows by exactly the number of playing ticks. The number of spawns is the growth of frame count / 213. |
| `Reachable.CadenceFromReset` | main.go:66-69 | After n playing ticks from a restart, in a run in which no tick restarts, exactly n / 213 pillars have been spawned. Each has been scored or is still listed. |
| `Reachable.CadenceFromStart` | main.go:66-69 | The same cadence from the process's initial state (main.go:161-163), in a run in which no tick restarts: exactly n / 213 pillars spawned after n playing ticks, each scored or still listed. |

## Left out

- Rendering (`(*Game).Draw`, main.go:96-130) reads the state and makes no decisions. `Layout` (main.go:133-135) returns a constant.
- `main` (main.go:158-192) seeds the random source, loads images, starts the HTTP file server and runs the engine. All of it is I/O or calls into libraries.
- The mutex (main.go:37) is taken only by `(*Game).Draw`. It plays no part in the transition.
- Key reads and `rand.Intn` are foreign calls. They are inputs here: `Input.jump`, `Input.enter` and `Input.draw`. main.go:50 and main.go:60 each read the jump keys, and the model uses one `Input.jump` for both reads. The engine samples key state once per tick, so both reads in one tick see the same keys.
- The bird's position and velocity are Go `float64`. They are modelled as exact reals, so no claim is made about rounding (0.1 is not exact in binary).
- `frameCount` and `score` are Go `int`, 32 or 64 bits wide depending on the platform. They are modelled as unbounded integers. Wrap-around would need at least 2^31 frames, more than a year at 60 frames a second.
