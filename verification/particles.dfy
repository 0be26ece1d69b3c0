/** One particle: its kinematic state, its per-frame integration step and its sprite. */
module Particles {
  import Settings
  import Easing

  /** A 2D point or vector. */
  datatype Point = Point(x: real, y: real)

  /** Everything a particle carries: where it is, how it moves, how old it is (seconds). */
  datatype Kinematics = Kinematics(position: Point, velocity: Point, acceleration: Point, age: real)

  /** The state of a newly constructed particle: at rest at the origin, age 0. */
  const AtRest: Kinematics := Kinematics(Point(0.0, 0.0), Point(0.0, 0.0), Point(0.0, 0.0), 0.0)

  /** The state `initialize(x, y, dx, dy)` gives a particle. */
  function Initialized(x: real, y: real, dx: real, dy: real): (k: Kinematics) {
    Kinematics(Point(x, y), Point(dx, dy), Point(dx * Settings.Effect, dy * Settings.Effect), 0.0)
  }

  /**
   * The state after `update(deltaTime)`: the position moves by the velocity
   * held before the step, then the velocity moves by the acceleration.
   */
  function Step(k: Kinematics, deltaTime: real): (r: Kinematics) {
    Kinematics(
      Point(k.position.x + k.velocity.x * deltaTime, k.position.y + k.velocity.y * deltaTime),
      Point(k.velocity.x + k.acceleration.x * deltaTime, k.velocity.y + k.acceleration.y * deltaTime),
      k.acceleration,
      k.age + deltaTime)
  }

  /**
   * The particle moves along the spawn direction (dx, dy): its velocity is
   * `factor` times that direction and its acceleration `Effect` times it.
   */
  predicate Along(k: Kinematics, dx: real, dy: real, factor: real) {
    k.velocity == Point(dx * factor, dy * factor) && k.acceleration == Point(dx * Settings.Effect, dy * Settings.Effect)
  }

  /** A particle starts out with velocity exactly (dx, dy): factor 1 along its spawn direction. */
  lemma InitializedAlong(x: real, y: real, dx: real, dy: real)
    ensures Along(Initialized(x, y, dx, dy), dx, dy, 1.0)
  {
  }

  /**
   * Each step keeps the velocity on the spawn direction and changes its
   * factor by `Effect * deltaTime` (braking, as `Effect` is negative), while
   * the position advances by the velocity held before the step.
   */
  lemma Braking(k: Kinematics, dx: real, dy: real, factor: real, deltaTime: real)
    requires Along(k, dx, dy, factor)
    ensures Along(Step(k, deltaTime), dx, dy, factor + Settings.Effect * deltaTime)
    ensures Step(k, deltaTime).position == Point(k.position.x + dx * factor * deltaTime, k.position.y + dy * factor * deltaTime)
    ensures Step(k, deltaTime).age == k.age + deltaTime
  {
    assert dx * factor + dx * Settings.Effect * deltaTime == dx * (factor + Settings.Effect * deltaTime);
    assert dy * factor + dy * Settings.Effect * deltaTime == dy * (factor + Settings.Effect * deltaTime);
  }

  /** One `drawImage(image, x, y, size, size)` call made with `globalAlpha` set to `alpha`. */
  datatype Sprite = Sprite(x: real, y: real, size: real, alpha: real)

  /**
   * The sprite a particle in state `k` draws from an image `imageWidth`
   * pixels wide: centred on the position, scaled by the ease of
   * age / duration, and faded linearly with age.
   */
  function Drawn(k: Kinematics, imageWidth: real): (s: Sprite)
    ensures s.x + s.size / 2.0 == k.position.x && s.y + s.size / 2.0 == k.position.y
    ensures k.age == 0.0 ==> s.size == 0.0 && s.alpha == 1.0
    ensures k.age == Settings.Duration ==> s.size == imageWidth && s.alpha == 0.0
    ensures 0.0 <= k.age <= Settings.Duration && 0.0 <= imageWidth ==> 0.0 <= s.size <= imageWidth
    ensures 0.0 <= k.age < Settings.Duration ==> 0.0 < s.alpha <= 1.0
  {
    var t := k.age / Settings.Duration;
    var size := imageWidth * Easing.Ease(t);
    Easing.ScaledEase(imageWidth, t);
    Sprite(k.position.x - size / 2.0, k.position.y - size / 2.0, size, Easing.Opacity(k.age))
  }

  class Particle {
    var position: Point
    var velocity: Point
    var acceleration: Point
    var age: real

    function State(): (k: Kinematics)
      reads this
    {
      Kinematics(position, velocity, acceleration, age)
    }

    constructor ()
      ensures State() == AtRest
    {
      position := Point(0.0, 0.0);
      velocity := Point(0.0, 0.0);
      acceleration := Point(0.0, 0.0);
      age := 0.0;
    }

    /** Re-initialises this particle in place for reuse by the pool. */
    method Initialize(x: real, y: real, dx: real, dy: real)
      modifies this
      ensures State() == Initialized(x, y, dx, dy)
    {
      position := Point(x, y);
      velocity := Point(dx, dy);
      acceleration := Point(dx * Settings.Effect, dy * Settings.Effect);
      age := 0.0;
    }

    /** Advances this particle by `deltaTime` seconds. */
    method Update(deltaTime: real)
      modifies this
      ensures State() == Step(old(State()), deltaTime)
    {
      position := Point(position.x + velocity.x * deltaTime, position.y + velocity.y * deltaTime);
      velocity := Point(velocity.x + acceleration.x * deltaTime, velocity.y + acceleration.y * deltaTime);
      age := age + deltaTime;
    }

    /** The sprite this particle draws from an image `imageWidth` pixels wide. */
    function Draw(imageWidth: real): (s: Sprite)
      reads this
    {
      Drawn(State(), imageWidth)
    }
  }
}
