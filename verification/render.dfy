/**
 * One animation frame: spawn new particles in proportion to the elapsed
 * time, age and retire the live ones, then draw them.
 */
module Render {
  import Settings
  import Ring
  import Ageing
  import opened Particles
  import opened Pool

  /** Particles spawned per second: a full pool's worth per particle lifetime. */
  const ParticleRate: real := (Settings.Length as real) / Settings.Duration

  /**
   * How many times the spawn loop runs for a fractional `amount`: the loop
   * counter starts at 0 and continues while it is below `amount`, so the
   * count is the least natural number not below `amount` (its ceiling).
   */
  function SpawnCount(amount: real): (n: nat)
    ensures amount <= n as real
    ensures n == 0 || ((n - 1) as real) < amount
  {
    if amount <= 0.0 then 0 else -((-amount).Floor)
  }

  /** The count rounds up: a frame of 4 ms asks for one particle, and so does a frame of 3 ms. */
  lemma SpawnCountExamples()
    ensures SpawnCount(0.0) == 0 && SpawnCount(-1.5) == 0
    ensures SpawnCount(0.75) == 1 && SpawnCount(1.0) == 1
    ensures SpawnCount(ParticleRate * 0.004) == 1
    ensures SpawnCount(ParticleRate * 0.003) == 1
    ensures SpawnCount(ParticleRate * 0.016) == 4
    ensures SpawnCount(ParticleRate * 0.017) == 5
  {
  }

  /** Where the `i`-th particle of a frame is spawned and how fast it moves. */
  datatype Spawn = Spawn(x: real, y: real, dx: real, dy: real)

  /**
   * The slot states after the first `k` adds of a frame, starting from
   * `states` and cursors `c`: the `i`-th add re-initialises the slot that is
   * free after the first `i` adds, from `spawn(i)`.
   */
  ghost function SpawnedStates(states: seq<Kinematics>, c: Ring.Cursors, k: nat, spawn: nat -> Spawn): (r: seq<Kinematics>)
    requires c.Valid() && |states| == c.length
    ensures |r| == |states|
    decreases k
  {
    if k == 0 then states
    else
      var s := spawn(k - 1);
      SpawnedStates(states, c, k - 1, spawn)[Ring.AddMany(c, k - 1).firstFree := Initialized(s.x, s.y, s.dx, s.dy)]
  }

  /**
   * One pass of the spawn loop body: `add` at the position and velocity of
   * `s`, seen through the cursors, the slot states and the age order only.
   */
  method SpawnOne(pool: ParticlePool, s: Spawn)
    requires pool.Valid()
    modifies pool, pool.Slots
    ensures pool.Valid()
    ensures pool.Cursors() == old(pool.Cursors()).Add()
    ensures pool.States() == old(pool.States())[old(pool.firstFree) := Initialized(s.x, s.y, s.dx, s.dy)]
    ensures old(pool.Ordered()) ==> pool.Ordered()
  {
    pool.Add(s.x, s.y, s.dx, s.dy);
  }

  /**
   * The spawn loop of a frame: calls `add` `SpawnCount(amount)` times, the
   * `i`-th time with the position and velocity `spawn(i)`, so the cursors
   * end where that many adds take them.
   */
  method SpawnParticles(pool: ParticlePool, amount: real, spawn: nat -> Spawn) returns (added: nat)
    requires pool.Valid()
    modifies pool, pool.Slots
    ensures added == SpawnCount(amount)
    ensures pool.Valid()
    ensures pool.Cursors() == Ring.AddMany(old(pool.Cursors()), added)
    ensures pool.States() == SpawnedStates(old(pool.States()), old(pool.Cursors()), added, spawn)
    ensures old(pool.Ordered()) ==> pool.Ordered()
  {
    ghost var c0, st0 := pool.Cursors(), pool.States();
    ghost var cur := c0;
    added := 0;
    while (added as real) < amount
      invariant pool.Valid()
      invariant added <= SpawnCount(amount)
      invariant pool.Cursors() == cur && cur == Ring.AddMany(c0, added)
      invariant pool.States() == SpawnedStates(st0, c0, added, spawn)
      invariant old(pool.Ordered()) ==> pool.Ordered()
      decreases SpawnCount(amount) - added
    {
      var s := spawn(added);
      SpawnOne(pool, s);
      cur := cur.Add();
      added := added + 1;
    }
  }

  /**
   * The live count after the spawn loop: it grows by the number of adds,
   * capped at `length - 1`; below the cap no particle is evicted.
   */
  twostate lemma SpawnedCount(pool: ParticlePool, added: nat)
    requires old(pool.Valid()) && pool.Valid()
    requires pool.Cursors() == Ring.AddMany(old(pool.Cursors()), added)
    ensures |pool.Active()| == if |old(pool.Active())| + added < pool.particles.Length then |old(pool.Active())| + added
                               else pool.particles.Length - 1
  {
    Ring.AddManyCount(old(pool.Cursors()), added);
  }

  /**
   * Particles that are ordered and all younger than the duration draw
   * visible sprites no larger than the particle image.
   */
  lemma VisibleSprites(states: seq<Kinematics>, w: seq<nat>)
    requires forall j :: 0 <= j < |w| ==> w[j] < |states|
    requires Ageing.OldestFirst(LiveAges(states, w))
    requires forall j :: 0 <= j < |w| ==> LiveAges(states, w)[j] < Settings.Duration
    ensures forall j :: 0 <= j < |w| ==>
      0.0 < Drawn(states[w[j]], Settings.Size).alpha <= 1.0 && 0.0 <= Drawn(states[w[j]], Settings.Size).size <= Settings.Size
  {
    forall j | 0 <= j < |w|
      ensures 0.0 <= states[w[j]].age < Settings.Duration
    {
      assert LiveAges(states, w)[j] == states[w[j]].age;
    }
  }

  /**
   * A live slot whose aged age reached the duration holds, after the ageing
   * loops, a particle that has reached the duration.
   */
  lemma RetiredExpired(states: seq<Kinematics>, c: Ring.Cursors, deltaTime: real, retired: nat)
    requires c.Valid() && |states| == c.length && retired <= c.Count()
    requires forall j :: 0 <= j < retired ==> Ageing.Aged(LiveAges(states, c.Window()), deltaTime)[j] >= Settings.Duration
    ensures forall j :: 0 <= j < retired ==> StepInRange(states, c, deltaTime)[c.Window()[j]].age >= Settings.Duration
  {
    forall j | 0 <= j < retired
      ensures StepInRange(states, c, deltaTime)[c.Window()[j]].age >= Settings.Duration
    {
      Ring.WindowMembers(c, c.Window()[j]);
      assert Ageing.Aged(LiveAges(states, c.Window()), deltaTime)[j] == states[c.Window()[j]].age + deltaTime;
    }
  }

  /**
   * A frame `deltaTime` seconds after the previous one. Starting from an
   * ordered pool and a non-negative step, the pool stays ordered and every
   * sprite drawn is visible and no larger than the particle image.
   */
  method Frame(pool: ParticlePool, deltaTime: real, spawn: nat -> Spawn) returns (sprites: seq<Sprite>, ghost retired: nat)
    requires pool.Valid()
    modifies pool, pool.Slots
    ensures pool.Valid()
    ensures var spawned := Ring.AddMany(old(pool.Cursors()), SpawnCount(ParticleRate * deltaTime));
      pool.States() == StepInRange(SpawnedStates(old(pool.States()), old(pool.Cursors()), SpawnCount(ParticleRate * deltaTime), spawn),
                                   spawned, deltaTime)
    ensures var spawned := Ring.AddMany(old(pool.Cursors()), SpawnCount(ParticleRate * deltaTime));
      retired <= spawned.Count() && pool.Active() == spawned.Window()[retired..] &&
      forall j :: 0 <= j < retired ==> pool.States()[spawned.Window()[j]].age >= Settings.Duration
    ensures pool.firstFree == Ring.AddMany(old(pool.Cursors()), SpawnCount(ParticleRate * deltaTime)).firstFree
    ensures pool.Ages() != [] ==> pool.Ages()[0] < Settings.Duration
    ensures |sprites| == |pool.Active()|
    ensures forall j :: 0 <= j < |sprites| ==> sprites[j] == Drawn(pool.States()[pool.Active()[j]], Settings.Size)
    ensures old(pool.Ordered()) && deltaTime >= 0.0 ==> pool.Ordered()
    ensures old(pool.Ordered()) && deltaTime >= 0.0 ==>
      forall j :: 0 <= j < |sprites| ==> 0.0 < sprites[j].alpha <= 1.0 && 0.0 <= sprites[j].size <= Settings.Size
  {
    ghost var ordered := pool.Ordered() && deltaTime >= 0.0;
    var amount := ParticleRate * deltaTime;
    var added := SpawnParticles(pool, amount, spawn);
    assert ordered ==> pool.Ordered();
    ghost var c1, w1, st1 := pool.Cursors(), pool.Active(), pool.States();
    assert c1 == Ring.AddMany(old(pool.Cursors()), SpawnCount(amount));
    assert w1 == c1.Window() && |st1| == c1.length;
    retired := pool.Update(deltaTime);
    assert ordered ==> pool.Ordered();
    assert pool.States() == StepInRange(st1, c1, deltaTime);
    assert retired <= |w1| && pool.Active() == w1[retired..];
    RetiredExpired(st1, c1, deltaTime, retired);
    if ordered {
      VisibleSprites(pool.States(), pool.Active());
    }
    sprites := pool.Draw(Settings.Size);
  }
}
