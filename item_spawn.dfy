/**
  The item-spawn area: while an item scene and a circular collision shape are
  both present and fewer than the maximum number of items have been spawned,
  each processed frame adds the frame's duration to a timer; when the timer
  reaches the spawn interval it is reset and one item is spawned.
*/
module ItemSpawning {
  const DefaultSpawnInterval: real := 1.5
  const DefaultMaxItems: int := 30

  datatype SpawnerConfig = SpawnerConfig(hasItemScene: bool, hasCircleShape: bool, spawnInterval: real, maxItems: int)

  datatype SpawnerState = SpawnerState(timer: real, spawnedCount: int)

  /** Both dependencies are present. */
  predicate Armed(c: SpawnerConfig) {
    c.hasItemScene && c.hasCircleShape
  }

  /** The most items a spawner can reach from none: `MaxItems`, or none when it is negative. */
  function Cap(c: SpawnerConfig): nat {
    if c.maxItems < 0 then 0 else c.maxItems
  }

  /** One `_Process` call with a frame of `delta` seconds. */
  function Tick(c: SpawnerConfig, s: SpawnerState, delta: real): (r: SpawnerState)
    ensures !Armed(c) || c.maxItems <= s.spawnedCount ==> r == s
    ensures r.spawnedCount == s.spawnedCount || r.spawnedCount == s.spawnedCount + 1
    ensures r.spawnedCount == s.spawnedCount + 1 <==>
      Armed(c) && s.spawnedCount < c.maxItems && c.spawnInterval <= s.timer + delta
    ensures r.spawnedCount == s.spawnedCount + 1 ==> r.timer == 0.0
    ensures Armed(c) && s.spawnedCount < c.maxItems && s.timer + delta < c.spawnInterval ==>
      r == SpawnerState(s.timer + delta, s.spawnedCount)
  {
    if !Armed(c) then s
    else if s.spawnedCount >= c.maxItems then s
    else
      var timer := s.timer + delta;
      if timer >= c.spawnInterval then SpawnerState(0.0, s.spawnedCount + 1)
      else SpawnerState(timer, s.spawnedCount)
  }

  /**
    The state after a sequence of frames, the first frame first: the count
    never goes down, and each frame adds at most one item.
  */
  function Run(c: SpawnerConfig, s: SpawnerState, deltas: seq<real>): (r: SpawnerState)
    ensures s.spawnedCount <= r.spawnedCount <= s.spawnedCount + |deltas|
    decreases |deltas|
  {
    if deltas == [] then s else Run(c, Tick(c, s, deltas[0]), deltas[1..])
  }

  /** Without an item scene or a circle shape, no number of frames changes anything. */
  lemma {:induction false} DisarmedRunIsIdle(c: SpawnerConfig, s: SpawnerState, deltas: seq<real>)
    requires !Armed(c)
    ensures Run(c, s, deltas) == s
    decreases |deltas|
  {
    if deltas != [] {
      DisarmedRunIsIdle(c, Tick(c, s, deltas[0]), deltas[1..]);
    }
  }

  /** The count never leaves the range from zero to the cap, whatever the frames. */
  lemma {:induction false} CountStaysWithinCap(c: SpawnerConfig, s: SpawnerState, deltas: seq<real>)
    requires 0 <= s.spawnedCount <= Cap(c)
    ensures 0 <= Run(c, s, deltas).spawnedCount <= Cap(c)
    decreases |deltas|
  {
    if deltas != [] {
      CountStaysWithinCap(c, Tick(c, s, deltas[0]), deltas[1..]);
    }
  }

  /** Every frame at least as long as the interval. */
  predicate LongFrames(c: SpawnerConfig, deltas: seq<real>) {
    forall i :: 0 <= i < |deltas| ==> c.spawnInterval <= deltas[i]
  }

  /**
    When the spawner is armed, its timer is not negative and every frame lasts
    at least the interval, each frame spawns one item until the cap is reached.
  */
  lemma {:induction false} LongFramesSpawnEveryFrame(c: SpawnerConfig, s: SpawnerState, deltas: seq<real>)
    requires Armed(c) && 0.0 <= s.timer && LongFrames(c, deltas)
    ensures var r := Run(c, s, deltas);
      0.0 <= r.timer &&
      r.spawnedCount == if c.maxItems <= s.spawnedCount then s.spawnedCount
                        else if s.spawnedCount + |deltas| < c.maxItems then s.spawnedCount + |deltas|
                        else c.maxItems
    decreases |deltas|
  {
    if deltas != [] {
      assert c.spawnInterval <= deltas[0];
      assert LongFrames(c, deltas[1..]) by {
        forall i | 0 <= i < |deltas[1..]|
          ensures c.spawnInterval <= deltas[1..][i]
        {
          assert deltas[1..][i] == deltas[i + 1];
        }
      }
      LongFramesSpawnEveryFrame(c, Tick(c, s, deltas[0]), deltas[1..]);
    }
  }

  /** From a fresh spawner, `n` long frames spawn `n` items, or the cap when that is smaller. */
  lemma FreshSpawnerWithLongFrames(c: SpawnerConfig, deltas: seq<real>)
    requires Armed(c) && LongFrames(c, deltas)
    ensures Run(c, SpawnerState(0.0, 0), deltas).spawnedCount == if |deltas| < Cap(c) then |deltas| else Cap(c)
  {
    LongFramesSpawnEveryFrame(c, SpawnerState(0.0, 0), deltas);
  }

  /** The `ItemSpawnArea` node. */
  class ItemSpawnArea {
    /** Whether `ItemScene` is set. */
    var hasItemScene: bool
    var spawnInterval: real
    var maxItems: int
    /** Whether the collision shape is a `CircleShape2D`. */
    var hasCircleShape: bool
    var timer: real
    var spawnedCount: int

    function Config(): SpawnerConfig
      reads this
    {
      SpawnerConfig(hasItemScene, hasCircleShape, spawnInterval, maxItems)
    }

    function State(): SpawnerState
      reads this
    {
      SpawnerState(timer, spawnedCount)
    }

    /** The field defaults, with or without an item scene. */
    constructor (itemSceneSet: bool)
      ensures Config() == SpawnerConfig(itemSceneSet, false, DefaultSpawnInterval, DefaultMaxItems)
      ensures State() == SpawnerState(0.0, 0)
    {
      hasItemScene, hasCircleShape := itemSceneSet, false;
      spawnInterval, maxItems := DefaultSpawnInterval, DefaultMaxItems;
      timer, spawnedCount := 0.0, 0;
    }

    /** `_Ready`: remember whether the collision shape is a circle. */
    method Ready(shapeIsCircle: bool)
      modifies this`hasCircleShape
      ensures hasCircleShape == shapeIsCircle
    {
      hasCircleShape := shapeIsCircle;
    }

    /** `_Process`: one frame of `delta` seconds. */
    method Process(delta: real)
      modifies this`timer, this`spawnedCount
      ensures State() == Tick(Config(), old(State()), delta)
    {
      if !hasItemScene || !hasCircleShape {
        return;
      }
      if spawnedCount >= maxItems {
        return;
      }
      timer := timer + delta;
      if timer >= spawnInterval {
        timer := 0.0;
        SpawnItemInRadius();
      }
    }

    /** `SpawnItemInRadius`: one more item; where it is placed is not modelled. */
    method SpawnItemInRadius()
      requires Armed(Config())
      modifies this`spawnedCount
      ensures spawnedCount == old(spawnedCount) + 1
    {
      spawnedCount := spawnedCount + 1;
    }
  }
}
