/** The static configuration of the effect (the `settings.particles` object). */
module Settings {
  /** Capacity of the particle pool (number of slots). */
  const Length: nat := 500
  /** Lifetime of a particle, in seconds. */
  const Duration: real := 2.0
  /**
   * Speed given to a freshly spawned particle, in pixels per second. The model
   * takes spawn velocities from `Render.Spawn`, so it does not use this value.
   */
  const Velocity: real := 100.0
  /** Factor turning a particle's initial velocity into its constant acceleration. */
  const Effect: real := -0.75
  /** Side of the square sprite image, in pixels. */
  const Size: real := 30.0
}
