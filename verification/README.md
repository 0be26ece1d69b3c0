# Heart particle effect: verified model of the particle pool

The effect in `script.js` animates a heart of small sprites on a canvas. Every frame it does four things:

- spawns particles in proportion to the elapsed time;
- moves and ages the live ones;
- retires the ones that have outlived the configured duration;
- draws the rest, each scaled by an easing curve and faded with age.

The particles live in a fixed-capacity pool. The pool is a ring buffer of `length` particle objects, allocated once and recycled in place. Two cursors mark the live range: `firstActive` (the oldest live slot) and `firstFree` (the next slot to overwrite).

This project models that core in Dafny:

- `settings.dfy` (module `Settings`): the `settings.particles` constants.
- `easing.dfy` (module `Easing`): the cubic `ease` curve and the opacity ramp.
- `particles.dfy` (module `Particles`):
  - the kinematic state of a particle as a value;
  - the `Particle` class whose `Initialize` and `Update` overwrite its fields in place;
  - the sprite a particle draws.
- `ring.dfy` (module `Ring`): the cursor arithmetic of the ring buffer, as a pure value `Cursors`.
  - `Window` is the live range, oldest first.
  - `Add` and `Retire` are the cursor updates of `add` and of one retirement step.
  - Lemmas tie these to the source's one-or-two linear loops and to addition modulo `length`.
- `ageing.dfy` (module `Ageing`): the ordering discipline on the live ages. Ages are non-negative and non-increasing from oldest to newest. This is why retiring from the front alone retires every expired particle.
- `pool.dfy` (module `Pool`): the `ParticlePool` class, over an `array<Particle>` and the two cursors.
  - `Add`, `Update` and `Draw` follow the source statement by statement.
  - `Update`'s two blocks are the methods `StepActive` and `RetireExpired`.
  - Each method is specified against the ghost views `Cursors()`, `Active()` (the live slots), `States()` (a snapshot of every slot) and `Ages()` (the live ages, oldest first).
  - The class invariant `Valid()` keeps both cursors inside the array and keeps the particle objects distinct.
- `render.dfy` (module `Render`): the per-frame spawn count and spawn loop, and one frame of `render`. Spawn positions and velocities come from a parameter.

Three behaviours of the code are worth knowing when reading the model:

- `ease(t)` is `(t - 1)^3 + 1`, because `--t` decrements `t` before the product. So `ease(0) = 0` and `ease(1) = 1`, and a particle grows from nothing to full size over its life.
- The spawn loop `for (i = 0; i < amount; i++)` runs `ceil(amount)` times for a positive fractional `amount`, not `floor(amount)` times.
- `add` never lets `firstFree` catch up with `firstActive`. The pool therefore holds at most `length - 1` live particles, and a pool of one slot is always empty.

## Model

| member | source | states |
|---|---|---|
| Easing.Ease | script.js:96-98 | ease(0) = 0 and ease(1) = 1; ease(t) <= 1 for t <= 1 and ease(t) >= 1 for t >= 1 |
| Easing.EaseMonotonic | script.js:96-98 | ease is monotonically non-decreasing on all reals |
| Easing.EaseUnit | script.js:96-98 | ease maps [0, 1] into [0, 1] |
| Easing.ScaledEase | script.js:99 | the sprite size `width * ease(t)` lies in [0, width] for t in [0, 1] |
| Easing.Opacity | script.js:100 | the alpha is 1 at age 0 and 0 at age = duration; it lies in (0, 1] while 0 <= age < duration and is <= 0 once age >= duration |
| Particles.Drawn | script.js:95-101 | the sprite `Particle.Draw` produces (it is `Drawn` of the particle's state) is centred on the particle's position; at age 0 it has size 0 and alpha 1; at age = duration it has full image width and alpha 0; between those ages its size stays within the image width; before the duration its alpha lies in (0, 1] |
| Particles.Particle.constructor | script.js:73-78 | a new particle is at rest at the origin with age 0 |
| Particles.Particle.Initialize | script.js:79-87 | the particle gets the given position and velocity, acceleration = velocity * effect, and age 0 |
| Particles.Particle.Update | script.js:88-94 | the position moves by the old velocity times deltaTime; then the velocity moves by the acceleration times deltaTime and the age grows by deltaTime |
| Particles.InitializedAlong | script.js:79-87 | the initial velocity is exactly (dx, dy), that is factor 1 along the spawn direction, and the acceleration is effect times (dx, dy) |
| Particles.Braking | script.js:88-94 | each update keeps the velocity on the spawn direction; it changes its factor by effect * deltaTime, advances the position by the pre-step velocity and adds deltaTime to the age |
| Ring.SlotModulo | script.js:124-125 | stepping a cursor with increment-and-reset-at-length is addition modulo length |
| Ring.Cursors.Add | script.js:124-127 | the cursor update of `add` keeps both cursors inside [0, length) |
| Ring.Cursors.Retire | script.js:142-143 | one retirement step keeps both cursors inside [0, length) and leaves firstFree alone |
| Ring.CursorSteps | script.js:124-127 | `add` sets firstFree to (firstFree + 1) mod length and advances firstActive by one (mod length) exactly when the new firstFree equals it; a retirement step advances only firstActive, mod length |
| Ring.Cursors.Window | script.js:133-138 | the live range holds Count() slots, each inside [0, length) |
| Ring.WindowRuns | script.js:133-137 | the live range, oldest first, is the run [firstActive, firstFree) when the cursors are ordered; otherwise it is [firstActive, length) followed by [0, firstFree); it is empty when they are equal |
| Ring.WindowMembers | script.js:133-138 | a slot is in the live range if and only if the loops of `update` and `draw` visit it |
| Ring.WindowDistinct | script.js:133-138 | no live slot is listed twice, and the free slot is never live |
| Ring.AddWindow | script.js:124-127 | after `add` the count is min(count + 1, length - 1); the live range is the old one with the old free slot appended, dropping the oldest slot exactly when the ring was full |
| Ring.AddManyCount | script.js:124-127 | k adds raise the count by k, capped at length - 1; below the cap nothing is evicted |
| Ring.RetireWindow | script.js:141-144 | one retirement step drops the oldest live slot and keeps the others in order |
| Ring.RetireMany | script.js:141-144 | r retirement steps move firstActive r slots on, keep firstFree, and reduce the count by r |
| Ring.RetireManyWindow | script.js:141-144 | after r retirement steps the live range is the old one without its r oldest slots |
| Ring.WrapExample | script.js:120-128 | on five slots: four adds, two retirements, then three adds leave cursors (3, 2) and live slots [3, 4, 0, 1], because the third add evicts slot 2 |
| Ageing.Aged | script.js:93 | every live age grows by exactly deltaTime |
| Ageing.Born | script.js:86 | `add` appends a newborn of age 0 behind the others, dropping the oldest when evicting |
| Ageing.BornOldestFirst | script.js:86 | appending a newborn (and evicting the oldest) keeps the ages ordered oldest first |
| Ageing.AgedSuffix | script.js:141-144 | ageing all by a non-negative step and retiring a prefix keeps the ages ordered; if the new front is below the duration, every live age is |
| Pool.AddAges | script.js:120-127 | re-initialising the free slot and advancing the cursors appends age 0 to the live ages, dropping the oldest one when the ring was full |
| Pool.StepInRangeAges | script.js:132-138 | after the ageing loops the live ages, oldest first, are the old live ages each increased by deltaTime |
| Pool.ParticlePool.constructor | script.js:115-119 | a pool of `length >= 1` fresh, distinct particles, all at rest, with both cursors at 0 and nothing live |
| Pool.ParticlePool.Add | script.js:120-128 | only the old firstFree slot changes, to the initialised state, and the cursors move as `Ring.Cursors.Add`; the count becomes min(count + 1, length - 1); the live range gains the old free slot at the back and loses the oldest when full; the newborn age 0 is appended and the age order is preserved |
| Pool.ParticlePool.Update | script.js:129-145 | the live slots are stepped and every other slot is kept; a prefix of the live range is retired, each of whose aged members had reached the duration; firstFree does not move; the new front is below the duration; from an ordered pool with deltaTime >= 0 the ages stay ordered and every live age is below the duration |
| Pool.ParticlePool.StepActive | script.js:132-138 | exactly the slots of the live range are stepped, each once; the others are unchanged |
| Pool.ParticlePool.RetireExpired | script.js:140-144 | the loop stops after at most count (< length) steps and never moves firstFree; the retired slots are the oldest live ones, each with age >= duration; on exit the pool is empty or its front has age < duration |
| Pool.ParticlePool.Draw | script.js:146-154 | yields one sprite per live slot, oldest first, each drawn from that slot's state; no pool state changes |
| Render.SpawnCount | script.js:272-273 | the spawn loop's count is the least natural number n with n >= amount |
| Render.SpawnCountExamples | script.js:272-273 | 0 adds for amount 0, 1 for 0.75 and for 1.0; at 250 particles per second a 3 ms and a 4 ms frame each add 1, a 16 ms frame adds 4 and a 17 ms frame adds 5 |
| Render.SpawnParticles | script.js:272-277 | the loop runs SpawnCount(amount) times and its `add` calls move the cursors exactly as that many adds (`Ring.AddMany`) do; the slot states are those of `SpawnedStates`: the i-th add re-initialises, from spawn(i), the slot free after i adds, overwriting the oldest live particle once the pool is full; the age order is preserved |
| Render.SpawnOne | script.js:276 | one `add` call seen through the pool's cursors, slot states and age order: the cursors move as `Ring.Cursors.Add`, only the old free slot changes, to the initialised state, and the order is kept |
| Render.SpawnedCount | script.js:272-277 | after the spawn loop the live count has grown by the number of adds, capped at length - 1 |
| Render.VisibleSprites | script.js:95-100 | ordered live particles younger than the duration draw sprites with alpha in (0, 1] and size within the image |
| Render.RetiredExpired | script.js:132-144 | a live slot whose aged age reached the duration holds, after the ageing loops, a particle that has reached the duration |
| Render.Frame | script.js:259-282 | one frame keeps the pool valid; every slot ends in the state the spawn loop and then the ageing loops give it (`StepInRange` of `SpawnedStates`); the live range after the frame is the range after SpawnCount(250 * deltaTime) adds (`Ring.AddMany`) without a prefix of retired slots, each holding a particle that reached the duration; firstFree stays where those adds left it, even when the frame leaves the pool empty; the new oldest live particle is below the duration; the sprites are, oldest first, exactly `Drawn` of each live slot's state at the image size; from an ordered pool with deltaTime >= 0 the pool stays ordered, and every sprite has alpha in (0, 1] and size in [0, 30] |

## Left out

- The requestAnimationFrame polyfill (script.js:17-40) is left out: it is browser scheduling with timers.
- The `Heart` class (script.js:161-206) is left out: it is canvas path drawing that the animation loop never uses.
- Sprite rasterisation (script.js:226-256) and the canvas calls (`clearRect`, `drawImage`, `globalAlpha`) are left out. A drawn particle is modelled as a `Sprite` value holding the arguments of its `drawImage` call and its alpha.
- A pool of length 0 is not modelled: the constructor requires `length >= 1`. The source builds an empty array without complaint (script.js:117-118), but its first `add` or `update` then reads a slot that does not exist (lines 121 and 141).
- `pointOnHeart` and `Point.length`/`normalize` (script.js:53-65, 218-223) are trigonometry and square roots. Spawn positions and velocities are arbitrary inputs (`Render.Spawn`) instead.
- The wall clock, `Math.random` and the focus/blur/resize/load handlers (script.js:259-270, 274, 284-311) are left out. `deltaTime` is an input to `Render.Frame`.
- Arithmetic is on unbounded reals, not IEEE doubles: rounding, overflow and NaN are not modelled.
- The source keeps `particles`, `firstActive` and `firstFree` in variables shared by every `ParticlePool` object. Its constructor resets only `particles`, so a second pool would inherit the cursors of the first. The program builds exactly one pool, and the model gives each pool its own cursors, starting at 0.
- Points are values: the source mutates each particle's own `Point` objects field by field, and no point is shared between particles.
- `draw` in the source uses an undeclared global `i`. The model uses a local loop index.
- The age-order and below-duration guarantees of `Pool.ParticlePool.Update` and `Render.Frame` assume `deltaTime >= 0`. The source takes `deltaTime` from `Date`, which is not modelled, so a clock that moves backwards is not covered.
