# Reindeer Chase (CandyCaneRun): a Dafny model of the game core

Reindeer Chase is a browser endless runner built on Phaser. The player
jumps over candy-cane obstacles that scroll in from the right. Each obstacle
that leaves the screen on the left scores a point. Behind the play field a
range of mountain peaks scrolls slowly and recycles itself.

This project models the game logic in `game.js`:

- **Difficulty** (`difficulty.dfy`): `getCurrentSpeed`, the obstacle speed
  `min(150 + 15·score, 500)`, and `getRandomSpawnDelay`, a delay drawn
  from [1500, 2200] ms.
- **Obstacle pool** (`obstacles.dfy`): the ten-slot pool behind
  `this.obstacles`. The specification functions say which slot a spawn
  takes, what a spawned obstacle looks like, and what one `update` does to
  each slot and to the score. `FindFreeSlot` is the scan that
  `group.get` performs.
- **Run state** (`game_scene.dfy`): class `GameScene` with the score, the
  game-over flag, the pool array, the spawn-timer handle, the collider and
  physics flags, and the pending move to the game-over scene. Its methods
  are `create`, `scheduleNextObstacle`, the spawn timer firing,
  `spawnObstacle`, `update` and `hitObstacle`.
- **Scene flow** (`scenes.dfy`): menu → game (play), game → game over (the
  delayed call of the first hit, carrying the score) and game over → game
  (try again). It also models `GameOverScene.init`.
- **Mountain recycler** (`mountains.dfy`): class `BackgroundScene` with the
  `mountainPeaks` array and the `lastPeakEndX` tracker. It models
  `createMountains`, the placement part of `recyclePeak`, and `update`.
  The range invariant holds after `createMountains` and after every frame
  of `update`. It has three parts:
  - the tracker is the rightmost right edge;
  - every point of (-800, tracker] lies under some peak, so there is no gap;
  - every width lies in [400, 800].

Every `Math.random()` result is a parameter `r` with `0 <= r < 1`. Timers
are explicit handles: `spawnEvent` is `NoTimer`, `Pending(delay)` or
`Removed(delay)`, and the game-over move is an optional score.
Screen positions are `real`. The score is a `nat`.

Two kinds of member carry the properties. The first kind states the source
in place: the class methods, which are proved against the specification
functions. The second kind is the lemmas about those functions.

## Model

| member | source | states |
|---|---|---|
| `Difficulty.CurrentSpeed` | game.js:677-680 | the speed lies in [150, 500] and is the smaller of `150 + 15·score` and 500 |
| `Difficulty.SpeedMonotone` | game.js:677-680 | a higher score never gives a lower speed |
| `Difficulty.SpeedSaturation` | game.js:26-28 | up to score 23 the speed is `150 + 15·score` < 500; from 24 on it is exactly 500 |
| `Difficulty.SpeedSamples` | game.js:26-28 | speeds 150, 300, 495, 500, 500 at scores 0, 10, 23, 24, 100 |
| `Difficulty.SpawnDelay` | game.js:553-556 | the delay lies in [1500, 2200] for every draw in [0, 1) |
| `Difficulty.SpawnDelayInverse` | game.js:553-556 | the draw is recovered from the delay, so the delay determines its draw |
| `Difficulty.SpawnDelaySurjective` | game.js:24-25 | every delay in [1500, 2200) comes from some draw |
| `ObstaclePool.ObstacleHeight` | game.js:655-656 | the rolled height lies in [40, 90] |
| `ObstaclePool.NewObstacle` | game.js:658-674 | a spawned obstacle is active, sits at `width + 50`, has its centre half its height above the ground line and velocity `-speed`, and has collision height in [40, 90] with `scaleY = h/90 <= 1` |
| `ObstaclePool.FirstFree` | game.js:662 | the slot handed out is free and every slot before it is active; it is the capacity when none is free |
| `ObstaclePool.FindFreeSlot` | game.js:545-549 | the scan returns nothing exactly when all slots are active, and otherwise the first free slot |
| `ObstaclePool.SpawnedActiveCount` | game.js:662-665 | a spawn with a free slot activates exactly one more obstacle; with every slot active the pool is unchanged |
| `ObstaclePool.Resynced` | game.js:749-756 | a free slot is unchanged; an active one gets velocity `-speed` and stays active iff it is not left of -50; position and shape are kept |
| `ObstaclePool.ResyncedPool` | game.js:747-758 | every slot after `update` is its own slot resynchronised at the one speed read before the loop |
| `ObstaclePool.UpdateDeactivatesPassed` | game.js:748-757 | the active count drops by exactly the number of obstacles that scored |
| `ObstaclePool.UpdateLeavesNothingPassed` | game.js:752-756 | after `update` no active obstacle is left of -50, so a recycled obstacle cannot score again until it is respawned |
| `ObstaclePool.ResyncedPoolInvariant` | game.js:748-757 | `update` keeps every active obstacle's height in range and its scale matching |
| `Run.Cancel` | game.js:693-695 | removing the spawn timer leaves no pending timer, keeps its delay, and does nothing without a handle |
| `Run.GameScene.constructor` | game.js:491-511 | a new run has score 0, no game over, ten free slots and one pending spawn timer with a drawn delay |
| `Run.GameScene.Create` | game.js:491-511 | restarting the scene resets score, game-over flag, pool, collider, physics and timer the same way |
| `Run.GameScene.ScheduleNextObstacle` | game.js:558-566 | the spawn handle becomes one pending timer with a delay from `getRandomSpawnDelay` |
| `Run.GameScene.SpawnObstacle` | game.js:654-675 | the pool becomes the first-free-slot spawn of the new obstacle at the current speed, or stays as it was when full |
| `Run.GameScene.FireSpawnTimer` | game.js:561-564 | a firing spawns once, re-arms exactly one pending timer, and changes nothing else |
| `Run.GameScene.Update` | game.js:745-759 | the pool is resynchronised at the speed of the score before the loop, and the score rises by exactly the number of active obstacles left of -50; there is no game-over guard |
| `Run.GameScene.ResyncObstacles` | game.js:749-758 | the loop over the pool: each slot becomes its resynchronised form and the score rises by the number of passed obstacles |
| `Run.GameScene.HitObstacle` | game.js:682-712 | the first hit sets game over, destroys the collider, removes the spawn timer, pauses physics and schedules the game-over scene with the score of that moment; a later hit changes nothing |
| `Run.GameScene.GameOverScore` | game.js:707-711 | the delayed call hands over the score captured at the first hit, which is never above the current score: later updates only raise it |
| `Scenes.GameOverInit` | game.js:448-450 | the game-over scene shows the score it was given, or 0 without one |
| `Scenes.Next` | game.js:435-480 | only play in the menu and try again in the game-over scene lead to the game scene; only the delayed call leads from the game to the game-over scene, carrying its score; on the game-over screen only try again changes the scene |
| `Scenes.MenuNeverReturns` | game.js:435-437 | once the menu is left, no sequence of events returns to it |
| `Scenes.GameOverScoreFromCall` | game.js:707-711 | the score on the game-over screen is one that a delayed game-over call carried |
| `Mountains.Spacing` | game.js:370-371 | the spacing lies in [-150, -50) and is always negative, so neighbouring peaks overlap |
| `Mountains.RecyclePeak` | game.js:238-276 | the peak starts at the given x and gets a width in [400, 800] |
| `Mountains.PlaceAfter` | game.js:231-233 | a peak placed after tracker `t` starts in [t - 150, t) and ends at least `t + 250` |
| `Mountains.EffectiveSpacing` | game.js:220-221 | the count's spacing is the larger of average width - 150 and half the average width |
| `Mountains.PeakCount` | game.js:220-223 | the count minus 3 is the least number of effective spacings that span the screen and both buffers |
| `Mountains.PeakCountSamples` | game.js:220-223 | the effective spacing is 450; screens 0, 800 and 2560 wide get 7, 9 and 13 peaks |
| `Mountains.Chain` | game.js:210-235 | the built range has one peak per draw, satisfies the range invariant, and its tracker is at least `-800 + 250·count` |
| `Mountains.AppendKeepsInvariant` | game.js:231-233 | adding a peak that starts left of the tracker and ends right of it keeps the invariant |
| `Mountains.ChainAt` | game.js:225-234 | peak `i` is placed one spacing after the tracker left by the peaks before it, and the tracker becomes its right edge |
| `Mountains.ChainOfShortestDraws` | game.js:231-233 | with the smallest spacing and width each peak moves the tracker by exactly 250 |
| `Mountains.WideScreenRightGap` | game.js:211-223 | on a 2560-wide screen the 13 peaks from the shortest draws end at 2450, leaving x = 2500 uncovered |
| `Mountains.Scrolled` | game.js:361-363 | every peak moves left by exactly 0.5 and keeps its width |
| `Mountains.RecycleUpTo` | game.js:367-378 | the recycle pass keeps the number of peaks and leaves peaks it has not reached untouched |
| `Mountains.Scroll` | game.js:357-379 | a frame never changes the number of peaks |
| `Mountains.ReplaceKeepsInvariant` | game.js:368-377 | replacing a peak wholly left of -800 by one placed after the tracker keeps the invariant |
| `Mountains.RecycleUpToKeepsInvariant` | game.js:366-378 | each step of the recycle pass keeps the invariant |
| `Mountains.ScrolledKeepsInvariant` | game.js:360-364 | moving every peak and the tracker by 0.5 keeps the invariant |
| `Mountains.ScrollKeepsInvariant` | game.js:357-379 | a whole frame keeps the invariant |
| `Mountains.RecycleUpToAt` | game.js:367-378 | a peak is re-placed iff its right edge is left of -800, at the tracker of that moment plus the spacing, and the tracker becomes its new right edge |
| `Mountains.ScrollAt` | game.js:357-379 | after a frame, a peak is moved left by 0.5 unless its moved right edge is left of -800, and then it is re-placed after the tracker |
| `Mountains.ScrollWithoutRecycle` | game.js:357-379 | a frame in which no peak crosses -800 only moves all peaks and the tracker left by 0.5 |
| `Mountains.RecycleThresholdSamples` | game.js:368 | a peak ending at -320 stays and a peak ending at -810 is recycled |
| `Mountains.BackgroundScene.constructor` | game.js:165-176 | the scene starts with the range `createMountains` builds |
| `Mountains.BackgroundScene.CreateMountains` | game.js:210-235 | a fresh array of `PeakCount` peaks (none if negative) equal to the chain of placements, with the invariant established |
| `Mountains.BackgroundScene.Update` | game.js:357-379 | the peaks and tracker become one frame of scrolling and recycling, and the invariant is kept |
| `Mountains.BackgroundScene.ScrollPeaks` | game.js:360-364 | the first pass moves every peak and the tracker left by 0.5 |
| `Mountains.BackgroundScene.RecyclePeaks` | game.js:366-378 | the second pass visits every peak once, in order, re-placing those off the screen on the left |

## Behaviour worth knowing

- **No clamp on the spacing.** Spacing is drawn from [-150, -50) and used
  as it is. Peaks always overlap their predecessor. The only `max` is in
  the count formula (game.js:221). The model follows the code.
- **No guaranteed coverage of the right buffer.** The comment at
  game.js:211 says `createMountains` makes exactly enough peaks to cover the
  screen width plus the buffer. The count assumes average widths and
  spacings. The range is gap-free from -800 to the tracker
  (`Mountains.ScrollKeepsInvariant`). But the tracker after
  `createMountains` is only guaranteed to be at least `-800 + 250·count`.
  On a 2560-pixel screen this can fall short of the right edge of the
  screen (`Mountains.WideScreenRightGap`).
- **`update` keeps running after a hit.** It has no game-over guard. Physics
  is paused, so the engine moves no obstacle (the model has no engine step
  at all; see "## Left out"). The first `update` after the hit can
  still score obstacles that were already left of -50. Every later
  `update` scores nothing (`ObstaclePool.UpdateLeavesNothingPassed`).
  The game-over scene shows the score captured at the first hit.

## Left out

- Floating point: positions, delays, heights and widths are exact reals,
  not IEEE doubles. Rounding of `min + r·(max - min)` can reach the upper
  end for the largest `Math.random()` value, so the delay, height and width
  ranges are stated closed ([1500, 2200], [40, 90], [400, 800]). No other
  rounding effect is modelled.

- `audio-manager.js`, `initAudio`, `shutdown` and the sounds in
  `hitObstacle` and `jump`: audio calls into Tone.js and Phaser with no
  game state of their own.
- Presentation: `UIHelpers`, the menu and game-over layouts, moon,
  reindeer, ground, snow, score text, the candy-cane texture and the page
  bootstrap. These are rendering calls only.
- The peak silhouette in `recyclePeak`: the height draw and the sine
  polyline only draw pixels. The value `recyclePeak` returns is left out
  because both callers ignore it.
- Arcade physics: velocity integration, gravity, `jump`, the floor collider
  and overlap detection. Obstacle positions are whatever the engine has made
  them when `update` runs. A hit is an input event that calls `HitObstacle`.
  `physicsPaused` records `physics.pause()` and nothing in the model reads
  it, because there is no engine step for it to stop. The model assumes a
  restarted scene runs unpaused.
- `GameScene.resize` and `BackgroundScene.resize`: engine repositioning.
  The mountain rebuild on resize is `CreateMountains`, which is modelled.
- The timer service: only which timers are pending is modelled, not when
  they fire. The 100 ms game-over delay is the pending move itself.
- Random-draw order: each recycle or placement takes its spacing and width
  from its own pair of draws. `update` gets one pair per peak and uses only
  the pairs of recycled peaks. The interleaving with the unused height and
  return-value draws is not reproduced.
- Phaser's `group.get`: a slot never created behaves like a free one. The
  pool is therefore ten slots that start free, and a spawn takes the first
  free slot.
