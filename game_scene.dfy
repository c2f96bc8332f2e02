/** The run state of `GameScene`: score, game-over flag, the obstacle pool,
    the pending spawn timer and the delayed move to the game-over scene. */
module Run {
  import opened Difficulty
  import opened ObstaclePool
  import opened Wrappers

  /** The handle in `spawnEvent`: none yet, a pending one-shot timer with
      its delay, or one that was removed before it fired. */
  datatype SpawnTimer = NoTimer | Pending(delayMs: real) | Removed(delayMs: real)

  /** `spawnEvent.remove()` when there is a handle; nothing otherwise. */
  function Cancel(t: SpawnTimer): (c: SpawnTimer)
    ensures !c.Pending?
    ensures t.NoTimer? <==> c.NoTimer?
    ensures !t.NoTimer? ==> c.delayMs == t.delayMs
  {
    match t
    case NoTimer => NoTimer
    case Pending(d) => Removed(d)
    case Removed(d) => Removed(d)
  }

  class GameScene {
    var screenWidth: real
    var screenHeight: real
    var groundHeight: real
    var score: nat
    var isGameOver: bool
    var obstacles: array<Obstacle>
    var spawnEvent: SpawnTimer
    /** The player-versus-obstacles overlap collider still exists. */
    var colliderActive: bool
    var physicsPaused: bool
    /** The 100 ms delayed call that starts the game-over scene, with the
        score it carries. */
    var gameOverTransition: Option<nat>

    ghost predicate Valid()
      reads this, obstacles
    {
      && PoolInvariant(obstacles[..])
      && groundHeight == screenHeight * GroundHeightRatio
      && (!isGameOver <==> spawnEvent.Pending?)
      && (!isGameOver <==> colliderActive)
      && (!isGameOver <==> !physicsPaused)
      && (!isGameOver <==> gameOverTransition.None?)
      && (gameOverTransition.Some? ==> gameOverTransition.value <= score)
    }

    /** `create`: a fresh run with score 0 and an empty pool, and the first
        spawn timer armed with delay drawn from `rDelay`. */
    constructor (width: real, height: real, rDelay: real)
      requires IsUnitDraw(rDelay)
      ensures Valid() && fresh(obstacles)
      ensures score == 0 && !isGameOver
      ensures forall i :: 0 <= i < obstacles.Length ==> !obstacles[i].active
      ensures spawnEvent == Pending(SpawnDelay(rDelay))
      ensures screenWidth == width && screenHeight == height
    {
      screenWidth, screenHeight, groundHeight := 0.0, 0.0, 0.0;
      score, isGameOver := 0, false;
      obstacles := new Obstacle[0];
      spawnEvent, colliderActive, physicsPaused, gameOverTransition := NoTimer, false, false, None;
      new;
      Create(width, height, rDelay);
    }

    /** `create` when the scene is started again (after a game over): the
        same reset, on the existing scene object. */
    method Create(width: real, height: real, rDelay: real)
      requires IsUnitDraw(rDelay)
      modifies this
      ensures Valid() && fresh(obstacles)
      ensures score == 0 && !isGameOver
      ensures forall i :: 0 <= i < obstacles.Length ==> !obstacles[i].active
      ensures spawnEvent == Pending(SpawnDelay(rDelay))
      ensures screenWidth == width && screenHeight == height
    {
      screenWidth, screenHeight := width, height;
      groundHeight := height * GroundHeightRatio;
      score := 0;
      isGameOver := false;
      obstacles := new Obstacle[PoolCapacity](_ => FreeSlot);
      colliderActive, physicsPaused := true, false;
      gameOverTransition := None;
      ScheduleNextObstacle(rDelay);
    }

    /** `scheduleNextObstacle`: arm the spawn timer with a fresh random
        delay. */
    method ScheduleNextObstacle(rDelay: real)
      requires IsUnitDraw(rDelay)
      modifies this`spawnEvent
      ensures spawnEvent == Pending(SpawnDelay(rDelay))
    {
      spawnEvent := Pending(SpawnDelay(rDelay));
    }

    /** `spawnObstacle`: roll a height, then take the first free slot, or
        drop the spawn silently when all ten slots are active. */
    method SpawnObstacle(rHeight: real)
      requires Valid() && IsUnitDraw(rHeight)
      modifies obstacles
      ensures Valid()
      ensures obstacles[..] == Spawned(old(obstacles[..]),
        NewObstacle(screenWidth, screenHeight, groundHeight, rHeight, CurrentSpeed(score)))
    {
      var o := NewObstacle(screenWidth, screenHeight, groundHeight, rHeight, CurrentSpeed(score));
      var slot := FindFreeSlot(obstacles);
      if slot.Some? {
        obstacles[slot.value] := o;
      }
      SpawnedInvariant(old(obstacles[..]), o);
    }

    /** The spawn timer fires: one obstacle is spawned (or dropped) and
        exactly one new timer is armed. Only a pending timer fires, so this
        never happens after a game over. */
    method FireSpawnTimer(rHeight: real, rDelay: real)
      requires Valid() && spawnEvent.Pending?
      requires IsUnitDraw(rHeight) && IsUnitDraw(rDelay)
      modifies this, obstacles
      ensures Valid() && obstacles == old(obstacles)
      ensures obstacles[..] == Spawned(old(obstacles[..]),
        NewObstacle(screenWidth, screenHeight, groundHeight, rHeight, CurrentSpeed(score)))
      ensures spawnEvent == Pending(SpawnDelay(rDelay))
      ensures score == old(score) && !isGameOver
      ensures screenWidth == old(screenWidth) && screenHeight == old(screenHeight)
      ensures colliderActive == old(colliderActive) && physicsPaused == old(physicsPaused)
      ensures gameOverTransition == old(gameOverTransition)
    {
      SpawnObstacle(rHeight);
      ScheduleNextObstacle(rDelay);
    }

    /** `update`: the speed is read once from the score at the start of the
        frame; every active obstacle gets that velocity and each one past
        the recycle line is deactivated and scores one point. There is no
        game-over guard. */
    method Update()
      requires Valid()
      modifies this`score, obstacles
      ensures Valid()
      ensures obstacles[..] == ResyncedPool(old(obstacles[..]), CurrentSpeed(old(score)))
      ensures score == old(score) + PassedCount(old(obstacles[..]))
    {
      var currentSpeed := CurrentSpeed(score);
      ResyncObstacles(currentSpeed);
      ResyncedPoolInvariant(old(obstacles[..]), currentSpeed);
    }

    /** The loop of `update`: every active obstacle gets velocity `-speed`,
        and each one past the recycle line is deactivated and scores one
        point. */
    method ResyncObstacles(speed: int)
      modifies this`score, obstacles
      ensures obstacles[..] == ResyncedPool(old(obstacles[..]), speed)
      ensures score == old(score) + PassedCount(old(obstacles[..]))
    {
      ghost var pool0 := obstacles[..];
      var i := 0;
      while i < obstacles.Length
        invariant 0 <= i <= obstacles.Length
        invariant forall j :: 0 <= j < i ==> obstacles[j] == Resynced(pool0[j], speed)
        invariant forall j :: i <= j < obstacles.Length ==> obstacles[j] == pool0[j]
        invariant score == old(score) + PassedCount(pool0[..i])
      {
        var o := obstacles[i];
        assert pool0[..i + 1] == pool0[..i] + [o];
        CountsSnoc(pool0[..i], o);
        if o.active {
          o := o.(velocityX := -(speed as real));
          if o.x < RecycleX {
            o := o.(active := false);
            score := score + 1;
          }
          obstacles[i] := o;
        }
        assert obstacles[i] == Resynced(pool0[i], speed);
        i := i + 1;
      }
      assert pool0[..i] == pool0;
      assert obstacles[..] == ResyncedPool(pool0, speed);
    }

    /** `hitObstacle`: the first hit ends the run (collider destroyed, spawn
        timer removed, physics paused, and the game-over scene scheduled with
        the score of that moment); every later hit returns at once. */
    method HitObstacle()
      requires Valid()
      modifies this
      ensures Valid() && isGameOver
      ensures old(isGameOver) ==> unchanged(this)
      ensures !old(isGameOver) ==>
        && spawnEvent == Cancel(old(spawnEvent))
        && !colliderActive && physicsPaused
        && gameOverTransition == Some(old(score))
      ensures score == old(score) && obstacles == old(obstacles)
      ensures screenWidth == old(screenWidth) && screenHeight == old(screenHeight)
      ensures groundHeight == old(groundHeight)
    {
      if isGameOver {
        return;
      }
      isGameOver := true;
      colliderActive := false;
      spawnEvent := Cancel(spawnEvent);
      physicsPaused := true;
      var finalScore := score;
      gameOverTransition := Some(finalScore);
    }

    /** The delayed call fires: the score it hands to the game-over scene is
        the one captured at the first hit, never above the current score
        (updates after the hit can only raise `score`). */
    method GameOverScore() returns (finalScore: nat)
      requires Valid() && gameOverTransition.Some?
      ensures finalScore == gameOverTransition.value
      ensures finalScore <= score
    {
      finalScore := gameOverTransition.value;
    }
  }

  const GroundHeightRatio: real := 0.15

  /** A run that is hit twice ends once, keeps the score of the first hit,
      and has no spawn timer left to fire. */
  method DoubleHitScenario(rDelay: real, rHeight: real)
    requires IsUnitDraw(rDelay) && IsUnitDraw(rHeight)
  {
    var game := new GameScene(800.0, 600.0, rDelay);
    game.FireSpawnTimer(rHeight, rDelay);
    assert game.obstacles[0].active;
    game.HitObstacle();
    game.HitObstacle();
    assert game.score == 0 && game.isGameOver && !game.spawnEvent.Pending?;
    // `update` keeps running until the scene changes; with physics paused
    // nothing moves, so only the first frame can score.
    ghost var frozen, before := game.obstacles[..], game.score;
    game.Update();
    UpdateLeavesNothingPassed(frozen, CurrentSpeed(before));
    var s := game.score;
    game.Update();
    assert game.score == s;
    var shown := game.GameOverScore();
    assert shown == 0;
  }
}
