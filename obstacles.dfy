/** The obstacle pool of `GameScene`: ten slots, each either active (a
    visible, colliding candy cane) or free. A slot the engine has not created
    yet behaves exactly like a free one, so the pool is modelled as ten slots
    that all start free. */
module ObstaclePool {
  import opened Difficulty
  import opened Wrappers

  const PoolCapacity: nat := 10
  const ObstacleMinHeight: real := 40.0
  const ObstacleMaxHeight: real := 90.0
  const SpawnOffsetX: real := 50.0
  /** An obstacle left of this x has been passed by the player. */
  const RecycleX: real := -50.0

  datatype Obstacle = Obstacle(
    active: bool,
    x: real,
    y: real,
    velocityX: real,
    bodyHeight: real,  // height of the collision body: the rolled height
    scaleY: real       // vertical scale of the 90-pixel sprite
  )

  /** A slot that never held an obstacle. */
  const FreeSlot: Obstacle := Obstacle(false, 0.0, 0.0, 0.0, 0.0, 1.0)

  /** What an active obstacle always satisfies: its rolled height is within
      range and its sprite scale matches it. */
  ghost predicate WellShaped(o: Obstacle) {
    ObstacleMinHeight <= o.bodyHeight <= ObstacleMaxHeight
    && o.scaleY == o.bodyHeight / ObstacleMaxHeight
  }

  ghost predicate PoolInvariant(pool: seq<Obstacle>) {
    |pool| == PoolCapacity
    && forall i :: 0 <= i < |pool| && pool[i].active ==> WellShaped(pool[i])
  }

  /** The height rolled for a new obstacle. */
  function ObstacleHeight(r: real): (h: real)
    requires IsUnitDraw(r)
    ensures ObstacleMinHeight <= h <= ObstacleMaxHeight
  {
    ObstacleMinHeight + r * (ObstacleMaxHeight - ObstacleMinHeight)
  }

  /** The obstacle `spawnObstacle` puts into a slot: just off the right edge
      of a screen `screenWidth` wide, standing on the ground with its centre
      half its height above the ground line, moving left at `speed`. */
  function NewObstacle(screenWidth: real, screenHeight: real, groundHeight: real, r: real, speed: int): (o: Obstacle)
    requires IsUnitDraw(r)
    ensures o.active && WellShaped(o)
    ensures o.scaleY <= 1.0
    ensures o.x == screenWidth + SpawnOffsetX
    ensures o.y + o.bodyHeight / 2.0 == screenHeight - groundHeight
    ensures o.velocityX == -(speed as real)
  {
    var h := ObstacleHeight(r);
    Obstacle(true, screenWidth + SpawnOffsetX, screenHeight - groundHeight - h / 2.0,
             -(speed as real), h, h / ObstacleMaxHeight)
  }

  /** The slot `group.get` hands out: the first free one, or |pool| when
      every slot is active. */
  function FirstFree(pool: seq<Obstacle>): (k: nat)
    ensures k <= |pool|
    ensures k < |pool| ==> !pool[k].active
    ensures forall j :: 0 <= j < k ==> pool[j].active
  {
    if pool == [] then 0
    else if !pool[0].active then 0
    else 1 + FirstFree(pool[1..])
  }

  /** The scan behind `group.get`: the index of the first free slot, or
      None when the pool is exhausted. */
  method FindFreeSlot(pool: array<Obstacle>) returns (slot: Option<nat>)
    ensures slot.None? <==> forall j :: 0 <= j < pool.Length ==> pool[j].active
    ensures slot.Some? ==> slot.value == FirstFree(pool[..])
  {
    var i := 0;
    while i < pool.Length
      invariant 0 <= i <= pool.Length
      invariant forall j :: 0 <= j < i ==> pool[j].active
    {
      if !pool[i].active {
        FirstFreeIsFirst(pool[..], i);
        return Some(i);
      }
      i := i + 1;
    }
    return None;
  }

  /** FirstFree is determined by its two properties. */
  lemma FirstFreeIsFirst(pool: seq<Obstacle>, k: nat)
    requires k < |pool| && !pool[k].active
    requires forall j :: 0 <= j < k ==> pool[j].active
    ensures FirstFree(pool) == k
  {
  }

  /** The pool after `spawnObstacle`: unchanged when every slot is active,
      otherwise the first free slot holds the new obstacle. */
  function Spawned(pool: seq<Obstacle>, o: Obstacle): (p: seq<Obstacle>)
    ensures |p| == |pool|
  {
    var k := FirstFree(pool);
    if k == |pool| then pool else pool[k := o]
  }

  /** The number of active obstacles. */
  function ActiveCount(pool: seq<Obstacle>): (n: nat)
    ensures n <= |pool|
  {
    if pool == [] then 0
    else ActiveCount(pool[..|pool| - 1]) + (if pool[|pool| - 1].active then 1 else 0)
  }

  /** An active obstacle that has moved past the left recycle line. */
  predicate Passed(o: Obstacle) {
    o.active && o.x < RecycleX
  }

  /** The number of obstacles that the next `update` will recycle. */
  function PassedCount(pool: seq<Obstacle>): (n: nat)
    ensures n <= ActiveCount(pool)
  {
    if pool == [] then 0
    else PassedCount(pool[..|pool| - 1]) + (if Passed(pool[|pool| - 1]) then 1 else 0)
  }

  /** One slot after `update` at `speed`: an active obstacle has its velocity
      resynchronised, and is deactivated once it has passed the recycle line;
      a free slot is left alone. */
  function Resynced(o: Obstacle, speed: int): (r: Obstacle)
    ensures !o.active ==> r == o
    ensures o.active ==> r.velocityX == -(speed as real)
    ensures r.active <==> o.active && !Passed(o)
    ensures r.x == o.x && r.y == o.y && r.bodyHeight == o.bodyHeight && r.scaleY == o.scaleY
  {
    if o.active then
      var moving := o.(velocityX := -(speed as real));
      if o.x < RecycleX then moving.(active := false) else moving
    else o
  }

  /** The whole pool after `update` at `speed`. */
  function ResyncedPool(pool: seq<Obstacle>, speed: int): (p: seq<Obstacle>)
    ensures |p| == |pool|
    ensures forall i :: 0 <= i < |pool| ==> p[i] == Resynced(pool[i], speed)
  {
    seq(|pool|, i requires 0 <= i < |pool| => Resynced(pool[i], speed))
  }

  /** Counting the last slot separately agrees with the counts. */
  lemma {:induction false} CountsSnoc(pool: seq<Obstacle>, o: Obstacle)
    ensures ActiveCount(pool + [o]) == ActiveCount(pool) + (if o.active then 1 else 0)
    ensures PassedCount(pool + [o]) == PassedCount(pool) + (if Passed(o) then 1 else 0)
  {
    assert (pool + [o])[..|pool|] == pool;
  }

  /** Each obstacle that `update` recycles leaves the active set: the active
      count drops by exactly the number of points scored. */
  lemma {:induction false} UpdateDeactivatesPassed(pool: seq<Obstacle>, speed: int)
    ensures ActiveCount(ResyncedPool(pool, speed)) + PassedCount(pool) == ActiveCount(pool)
  {
    if pool != [] {
      var n := |pool| - 1;
      var p := ResyncedPool(pool, speed);
      assert p[..n] == ResyncedPool(pool[..n], speed);
      UpdateDeactivatesPassed(pool[..n], speed);
    }
  }

  /** After `update` no active obstacle is past the recycle line, so another
      `update` before anything moves scores nothing: a recycled obstacle
      cannot score again until it is spawned anew. */
  lemma {:induction false} UpdateLeavesNothingPassed(pool: seq<Obstacle>, speed: int)
    ensures PassedCount(ResyncedPool(pool, speed)) == 0
  {
    if pool != [] {
      var n := |pool| - 1;
      var p := ResyncedPool(pool, speed);
      assert p[..n] == ResyncedPool(pool[..n], speed);
      UpdateLeavesNothingPassed(pool[..n], speed);
    }
  }

  /** `update` keeps every active obstacle well shaped. */
  lemma ResyncedPoolInvariant(pool: seq<Obstacle>, speed: int)
    requires PoolInvariant(pool)
    ensures PoolInvariant(ResyncedPool(pool, speed))
  {
  }

  /** Spawning into a pool with a free slot activates exactly one more
      obstacle; spawning into a full pool changes nothing. */
  lemma {:induction false} SpawnedActiveCount(pool: seq<Obstacle>, o: Obstacle)
    requires o.active
    ensures FirstFree(pool) < |pool| ==> ActiveCount(Spawned(pool, o)) == ActiveCount(pool) + 1
    ensures FirstFree(pool) == |pool| ==> Spawned(pool, o) == pool && ActiveCount(pool) == |pool|
  {
    if pool != [] {
      var n := |pool| - 1;
      var k := FirstFree(pool);
      if k < n {
        FirstFreeIsFirst(pool[..n], k);
        assert Spawned(pool, o)[..n] == Spawned(pool[..n], o);
        SpawnedActiveCount(pool[..n], o);
      } else if k == n {
        assert Spawned(pool, o)[..n] == pool[..n];
        AllActiveCount(pool[..n]);
      } else {
        AllActiveCount(pool);
      }
    }
  }

  /** A pool whose slots are all active has every slot counted. */
  lemma {:induction false} AllActiveCount(pool: seq<Obstacle>)
    requires forall j :: 0 <= j < |pool| ==> pool[j].active
    ensures ActiveCount(pool) == |pool|
  {
    if pool != [] {
      AllActiveCount(pool[..|pool| - 1]);
    }
  }

  /** A spawned obstacle is well shaped, so the pool invariant survives. */
  lemma SpawnedInvariant(pool: seq<Obstacle>, o: Obstacle)
    requires PoolInvariant(pool) && WellShaped(o)
    ensures PoolInvariant(Spawned(pool, o))
  {
  }
}
