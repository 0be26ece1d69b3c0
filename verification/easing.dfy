/** The scale and opacity curves applied when a particle is drawn. */
module Easing {
  import Settings

  /**
   * The cubic ease-out of `Particle.draw`. The source writes `--t * t * t + 1`:
   * the pre-decrement happens before the products, so this is (t - 1)^3 + 1.
   */
  function Ease(t: real): (e: real)
    ensures t == 0.0 ==> e == 0.0
    ensures t == 1.0 ==> e == 1.0
    ensures t <= 1.0 ==> e <= 1.0
    ensures t >= 1.0 ==> e >= 1.0
  {
    CubeSign(t - 1.0);
    (t - 1.0) * (t - 1.0) * (t - 1.0) + 1.0
  }

  /** A cube has the sign of its base. */
  lemma CubeSign(u: real)
    ensures u <= 0.0 ==> u * u * u <= 0.0
    ensures u >= 0.0 ==> u * u * u >= 0.0
  {
    assert u * u >= 0.0;
  }

  /** Cubing is monotonic on the reals. */
  lemma CubeMonotonic(a: real, b: real)
    requires a <= b
    ensures a * a * a <= b * b * b
  {
    // b^3 - a^3 = (b - a) * (a^2 + a*b + b^2), and the second factor is a sum of squares.
    var q := a * a + a * b + b * b;
    assert 4.0 * q == (2.0 * a + b) * (2.0 * a + b) + 3.0 * b * b;
    assert (2.0 * a + b) * (2.0 * a + b) >= 0.0;
    assert b * b >= 0.0;
    assert q >= 0.0;
    assert b * b * b - a * a * a == (b - a) * q;
    assert (b - a) * q >= 0.0;
  }

  /** The scale curve never shrinks as a particle ages. */
  lemma EaseMonotonic(s: real, t: real)
    requires s <= t
    ensures Ease(s) <= Ease(t)
  {
    CubeMonotonic(s - 1.0, t - 1.0);
  }

  /** Over a particle's lifetime, t = age / duration in [0, 1], the scale stays in [0, 1]. */
  lemma EaseUnit(t: real)
    requires 0.0 <= t <= 1.0
    ensures 0.0 <= Ease(t) <= 1.0
  {
    EaseMonotonic(0.0, t);
  }

  /** A sprite of width `w` scaled by the ease of t in [0, 1] is between 0 and `w` wide. */
  lemma ScaledEase(w: real, t: real)
    ensures 0.0 <= t <= 1.0 && 0.0 <= w ==> 0.0 <= w * Ease(t) <= w
  {
    if 0.0 <= t <= 1.0 && 0.0 <= w {
      EaseUnit(t);
      assert w * Ease(t) <= w * 1.0;
    }
  }

  /** The `globalAlpha` of `Particle.draw`: 1 - age / duration, with the configured duration. */
  function Opacity(age: real): (a: real)
    ensures age == 0.0 ==> a == 1.0
    ensures age == Settings.Duration ==> a == 0.0
    ensures 0.0 <= age < Settings.Duration ==> 0.0 < a <= 1.0
    ensures age >= Settings.Duration ==> a <= 0.0
  {
    1.0 - age / Settings.Duration
  }
}
