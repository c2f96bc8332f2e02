/** Difficulty curve and spawn timing of a run: the obstacle speed as a
    function of the score, and the random delay before the next obstacle. */
module Difficulty {

  const ObstacleStartSpeed: int := 150
  const ObstacleMaxSpeed: int := 500
  const ObstacleSpeedPerPoint: int := 15
  const SpawnDelayMin: real := 1500.0
  const SpawnDelayMax: real := 2200.0

  /** A value returned by `Math.random()`. */
  predicate IsUnitDraw(r: real) {
    0.0 <= r < 1.0
  }

  /** `GameScene.getCurrentSpeed`: the start speed plus a fixed increment per
      point, capped at the maximum speed. The result is the smaller of the
      uncapped speed and the cap. */
  function CurrentSpeed(score: nat): (speed: int)
    ensures ObstacleStartSpeed <= speed <= ObstacleMaxSpeed
    ensures speed <= ObstacleStartSpeed + score * ObstacleSpeedPerPoint
    ensures speed == ObstacleMaxSpeed || speed == ObstacleStartSpeed + score * ObstacleSpeedPerPoint
  {
    var uncapped := ObstacleStartSpeed + score * ObstacleSpeedPerPoint;
    if uncapped < ObstacleMaxSpeed then uncapped else ObstacleMaxSpeed
  }

  /** A higher score never slows the obstacles down. */
  lemma SpeedMonotone(low: nat, high: nat)
    requires low <= high
    ensures CurrentSpeed(low) <= CurrentSpeed(high)
  {
  }

  /** Below 24 points the speed grows by 15 per point and has not reached
      the cap; from 24 points on it is saturated at 500. */
  lemma SpeedSaturation(score: nat)
    ensures score <= 23 ==> CurrentSpeed(score) == 150 + 15 * score < 500
    ensures score >= 24 ==> CurrentSpeed(score) == 500
  {
  }

  /** The concrete points of the difficulty curve. */
  lemma SpeedSamples()
    ensures CurrentSpeed(0) == 150
    ensures CurrentSpeed(10) == 300
    ensures CurrentSpeed(23) == 495
    ensures CurrentSpeed(24) == 500
    ensures CurrentSpeed(100) == 500
  {
  }

  /** `GameScene.getRandomSpawnDelay`: a uniform draw from
      [SpawnDelayMin, SpawnDelayMax), independent of the score. */
  function SpawnDelay(r: real): (delayMs: real)
    requires IsUnitDraw(r)
    ensures SpawnDelayMin <= delayMs <= SpawnDelayMax
  {
    SpawnDelayMin + r * (SpawnDelayMax - SpawnDelayMin)
  }

  /** The delay determines the draw it came from, so distinct draws give
      distinct delays and the draw maps onto the whole interval. */
  lemma SpawnDelayInverse(r: real)
    requires IsUnitDraw(r)
    ensures (SpawnDelay(r) - SpawnDelayMin) / (SpawnDelayMax - SpawnDelayMin) == r
  {
  }

  /** Every delay in [SpawnDelayMin, SpawnDelayMax) is reached by some draw. */
  lemma SpawnDelaySurjective(delayMs: real)
    requires SpawnDelayMin <= delayMs < SpawnDelayMax
    ensures exists r :: IsUnitDraw(r) && SpawnDelay(r) == delayMs
  {
    var r := (delayMs - SpawnDelayMin) / (SpawnDelayMax - SpawnDelayMin);
    assert SpawnDelay(r) == delayMs;
  }
}
