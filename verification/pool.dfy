/**
 * The fixed-capacity particle pool: a ring of `length` particle slots that
 * are allocated once and recycled in place. New particles overwrite the slot
 * at `firstFree`; old ones are retired from `firstActive` once their age
 * reaches the configured duration.
 */
module Pool {
  import Settings
  import Ring
  import Ageing
  import opened Particles

  /** The ages found in the slots `w` of a snapshot of slot states, in the order of `w`. */
  function LiveAges(states: seq<Kinematics>, w: seq<nat>): (a: seq<real>)
    requires forall j :: 0 <= j < |w| ==> w[j] < |states|
    ensures |a| == |w|
  {
    seq(|w|, j requires 0 <= j < |w| => states[w[j]].age)
  }

  /** Retiring a prefix of the live slots retires the same prefix of the live ages. */
  lemma LiveAgesSuffix(states: seq<Kinematics>, w: seq<nat>, r: nat)
    requires forall j :: 0 <= j < |w| ==> w[j] < |states|
    requires r <= |w|
    ensures LiveAges(states, w[r..]) == LiveAges(states, w)[r..]
  {
  }

  /** Slot states after the ageing loops of `update`: the slots in range are stepped, the others kept. */
  function StepInRange(states: seq<Kinematics>, c: Ring.Cursors, deltaTime: real): (r: seq<Kinematics>)
    requires c.Valid() && |states| == c.length
    ensures |r| == |states|
  {
    seq(|states|, k requires 0 <= k < |states| => if c.InRange(k) then Step(states[k], deltaTime) else states[k])
  }

  /**
   * Re-initialising the free slot and advancing the cursors appends a
   * newborn to the live ages and, when the ring was full, drops the oldest.
   */
  lemma AddAges(states: seq<Kinematics>, c: Ring.Cursors, born: Kinematics)
    requires c.Valid() && |states| == c.length && born.age == 0.0
    ensures LiveAges(states[c.firstFree := born], c.Add().Window())
         == Ageing.Born(LiveAges(states, c.Window()), c.Count() + 1 == c.length)
  {
    Ring.AddWindow(c);
    Ring.WindowDistinct(c);
    var w0, f := c.Window(), c.firstFree;
    var e := if c.Count() + 1 < c.length then 0 else 1;
    var a0 := LiveAges(states, w0);
    var a := Ageing.Born(a0, c.Count() + 1 == c.length);
    var r := LiveAges(states[f := born], c.Add().Window());
    assert |r| == |a|;
    forall j | 0 <= j < |r|
      ensures r[j] == a[j]
    {
      var k := c.Add().Window()[j];
      assert k == (w0 + [f])[j + e];
      if j + e < |w0| {
        assert k == w0[j + e] && k != f;
        assert a[j] == a0[j + e];
      }
    }
  }

  /** The ageing loops add `deltaTime` to every live age, in place. */
  lemma StepInRangeAges(states: seq<Kinematics>, c: Ring.Cursors, deltaTime: real)
    requires c.Valid() && |states| == c.length
    ensures LiveAges(StepInRange(states, c, deltaTime), c.Window())
         == Ageing.Aged(LiveAges(states, c.Window()), deltaTime)
  {
    var w := c.Window();
    var r := LiveAges(StepInRange(states, c, deltaTime), w);
    var a := Ageing.Aged(LiveAges(states, w), deltaTime);
    forall j | 0 <= j < |w|
      ensures r[j] == a[j]
    {
      Ring.WindowMembers(c, w[j]);
    }
  }

  class ParticlePool {
    /** The slots. Neither the array nor the particle object in each slot is ever replaced. */
    const particles: array<Particle>
    /** The oldest live slot. */
    var firstActive: nat
    /** The slot the next `Add` overwrites; never live. */
    var firstFree: nat
    /** Age, in seconds, at which a particle is retired. */
    const duration: real := Settings.Duration
    /** The particle objects the pool owns, one per slot. */
    ghost const Slots: set<Particle>

    /** The two cursors, as a value. */
    ghost function Cursors(): (c: Ring.Cursors)
      reads this
    {
      Ring.Cursors(firstActive, firstFree, particles.Length)
    }

    /** Each slot holds its own particle, drawn from `Slots`: no particle sits in two slots. */
    ghost predicate Owned()
      reads particles
    {
      (forall k :: 0 <= k < particles.Length ==> particles[k] in Slots) &&
      forall i, j :: 0 <= i < particles.Length && 0 <= j < particles.Length && i != j ==> particles[i] != particles[j]
    }

    /** The cursors are valid indices of a non-empty array, and each slot holds its own particle. */
    ghost predicate Valid()
      reads this, particles
    {
      Cursors().Valid() && Owned()
    }

    /** The live slots, oldest first. */
    ghost function Active(): (w: seq<nat>)
      reads this, particles
      requires Valid()
      ensures forall j :: 0 <= j < |w| ==> w[j] < particles.Length
    {
      Cursors().Window()
    }

    /** The state of every slot. */
    ghost function States(): (s: seq<Kinematics>)
      reads particles, Slots
      requires Owned()
      ensures |s| == particles.Length
      ensures forall k :: 0 <= k < |s| ==> s[k] == particles[k].State()
    {
      seq(particles.Length, k reads particles, Slots requires 0 <= k < particles.Length && particles[k] in Slots
            => particles[k].State())
    }

    /** The ages of the live particles, oldest first. */
    ghost function Ages(): (a: seq<real>)
      reads this, particles, Slots
      requires Valid()
    {
      LiveAges(States(), Active())
    }

    /**
     * The ageing invariant: live ages are non-negative and never increase
     * from the oldest live slot to the newest, so the front particle is
     * always the first to expire.
     */
    ghost predicate Ordered()
      reads this, particles, Slots
      requires Valid()
    {
      Ageing.OldestFirst(Ages())
    }

    /** Allocates `length` resting particles; the pool starts empty. */
    constructor (length: nat)
      requires length >= 1
      ensures Valid() && Ordered()
      ensures particles.Length == length && firstActive == 0 && firstFree == 0
      ensures Active() == []
      ensures fresh(particles) && fresh(Slots)
      ensures forall k :: 0 <= k < length ==> particles[k].State() == AtRest
    {
      var ps: seq<Particle> := [];
      while |ps| < length
        invariant |ps| <= length
        invariant forall i :: 0 <= i < |ps| ==> fresh(ps[i]) && ps[i].State() == AtRest
        invariant forall i, j :: 0 <= i < j < |ps| ==> ps[i] != ps[j]
      {
        var p := new Particle();
        ps := ps + [p];
      }
      particles := new Particle[length](k requires 0 <= k < length => ps[k]);
      Slots := set k | 0 <= k < length :: ps[k];
      firstActive := 0;
      firstFree := 0;
    }

    /**
     * Re-initialises the particle in the free slot and advances the cursors.
     * When the ring is full the oldest live particle is evicted, so one slot
     * always stays free.
     */
    method Add(x: real, y: real, dx: real, dy: real)
      requires Valid()
      modifies this, particles[firstFree]
      ensures Valid()
      ensures Cursors() == old(Cursors()).Add()
      ensures |Active()| == if |old(Active())| + 1 < particles.Length then |old(Active())| + 1 else particles.Length - 1
      ensures Active() == (old(Active()) + [old(firstFree)])[if |old(Active())| + 1 < particles.Length then 0 else 1..]
      ensures States() == old(States())[old(firstFree) := Initialized(x, y, dx, dy)]
      ensures Ages() == Ageing.Born(old(Ages()), |old(Active())| + 1 == particles.Length)
      ensures old(Ordered()) ==> Ordered()
    {
      particles[firstFree].Initialize(x, y, dx, dy);
      assert States() == old(States())[firstFree := Initialized(x, y, dx, dy)];

      firstFree := firstFree + 1;
      if firstFree == particles.Length {
        firstFree := 0;
      }
      if firstActive == firstFree {
        firstActive := firstActive + 1;
      }
      if firstActive == particles.Length {
        firstActive := 0;
      }

      ghost var c0, st := old(Cursors()), old(States())[old(firstFree) := Initialized(x, y, dx, dy)];
      assert Cursors() == c0.Add() && States() == st;
      Ring.AddWindow(c0);
      AddAges(old(States()), c0, Initialized(x, y, dx, dy));
      assert Ages() == LiveAges(st, c0.Add().Window());
      if old(Ordered()) {
        Ageing.BornOldestFirst(old(Ages()), |old(Active())| + 1 == particles.Length);
      }
    }

    /**
     * Ages every live particle by `deltaTime`, then retires particles from
     * the front of the live range while the front one has reached the
     * duration.
     */
    method Update(deltaTime: real) returns (ghost retired: nat)
      requires Valid()
      modifies this, Slots
      ensures Valid() && firstFree == old(firstFree)
      ensures States() == StepInRange(old(States()), old(Cursors()), deltaTime)
      ensures retired <= |old(Active())| && Active() == old(Active())[retired..]
      ensures Ages() == Ageing.Aged(old(Ages()), deltaTime)[retired..]
      ensures forall j :: 0 <= j < retired ==> Ageing.Aged(old(Ages()), deltaTime)[j] >= duration
      ensures Ages() != [] ==> Ages()[0] < duration
      ensures old(Ordered()) && deltaTime >= 0.0 ==> Ordered()
      ensures old(Ordered()) && deltaTime >= 0.0 ==> forall j :: 0 <= j < |Ages()| ==> Ages()[j] < duration
    {
      StepActive(deltaTime);
      StepInRangeAges(old(States()), old(Cursors()), deltaTime);
      ghost var a0, w0, st := Ages(), Active(), States();
      assert w0 == old(Active()) && a0 == Ageing.Aged(old(Ages()), deltaTime);
      retired := RetireExpired();
      assert States() == st;
      LiveAgesSuffix(st, w0, retired);
      assert Ages() == a0[retired..];
      if old(Ordered()) && deltaTime >= 0.0 {
        Ageing.AgedSuffix(old(Ages()), deltaTime, retired, duration);
      }
    }

    /** The first block of `update`: steps the particle in every live slot, as one or two linear runs. */
    method StepActive(deltaTime: real)
      requires Valid()
      modifies Slots
      ensures Valid()
      ensures States() == StepInRange(old(States()), Cursors(), deltaTime)
    {
      var n := particles.Length;
      if firstActive < firstFree {
        var i := firstActive;
        while i < firstFree
          invariant firstActive <= i <= firstFree
          invariant forall k :: 0 <= k < n ==>
            particles[k].State() ==
              if firstActive <= k < i then Step(old(particles[k].State()), deltaTime) else old(particles[k].State())
        {
          particles[i].Update(deltaTime);
          i := i + 1;
        }
      } else if firstFree < firstActive {
        var i := firstActive;
        while i < n
          invariant firstActive <= i <= n
          invariant forall k :: 0 <= k < n ==>
            particles[k].State() ==
              if firstActive <= k < i then Step(old(particles[k].State()), deltaTime) else old(particles[k].State())
        {
          particles[i].Update(deltaTime);
          i := i + 1;
        }
        i := 0;
        while i < firstFree
          invariant 0 <= i <= firstFree
          invariant forall k :: 0 <= k < n ==>
            particles[k].State() ==
              if firstActive <= k < n || k < i then Step(old(particles[k].State()), deltaTime) else old(particles[k].State())
        {
          particles[i].Update(deltaTime);
          i := i + 1;
        }
      }
    }

    /**
     * The second block of `update`: retires from the front while the front
     * particle has reached the duration and the range is not empty.
     */
    method RetireExpired() returns (ghost retired: nat)
      requires Valid()
      modifies this
      ensures Valid() && firstFree == old(firstFree)
      ensures retired <= |old(Active())| && Active() == old(Active())[retired..]
      ensures forall j :: 0 <= j < retired ==> particles[old(Active())[j]].age >= duration
      ensures Active() != [] ==> particles[Active()[0]].age < duration
    {
      ghost var c0, w0 := Cursors(), Active();
      retired := 0;
      while particles[firstActive].age >= duration && firstActive != firstFree
        invariant retired <= c0.Count() && firstFree == c0.firstFree
        invariant firstActive == Ring.Slot(c0.firstActive, retired, c0.length)
        invariant forall j :: 0 <= j < retired ==> particles[w0[j]].age >= duration
        decreases c0.Count() - retired
      {
        firstActive := firstActive + 1;
        if firstActive == particles.Length {
          firstActive := 0;
        }
        retired := retired + 1;
      }
      assert Cursors() == Ring.RetireMany(c0, retired);
      Ring.RetireManyWindow(c0, retired);
    }

    /** The sprites of the live particles, oldest first; nothing in the pool changes. */
    method Draw(imageWidth: real) returns (sprites: seq<Sprite>)
      requires Valid()
      ensures |sprites| == |Active()|
      ensures forall j :: 0 <= j < |sprites| ==> sprites[j] == Drawn(States()[Active()[j]], imageWidth)
    {
      var n := particles.Length;
      ghost var w, st := Active(), States();
      Ring.WindowRuns(Cursors());
      sprites := [];
      if firstActive < firstFree {
        var i := firstActive;
        while i < firstFree
          invariant firstActive <= i <= firstFree
          invariant |sprites| == i - firstActive
          invariant forall j :: 0 <= j < |sprites| ==> sprites[j] == Drawn(st[w[j]], imageWidth)
        {
          sprites := sprites + [particles[i].Draw(imageWidth)];
          i := i + 1;
        }
      } else if firstFree < firstActive {
        var i := firstActive;
        while i < n
          invariant firstActive <= i <= n
          invariant |sprites| == i - firstActive
          invariant forall j :: 0 <= j < |sprites| ==> sprites[j] == Drawn(st[w[j]], imageWidth)
        {
          sprites := sprites + [particles[i].Draw(imageWidth)];
          i := i + 1;
        }
        i := 0;
        while i < firstFree
          invariant 0 <= i <= firstFree
          invariant |sprites| == n - firstActive + i
          invariant forall j :: 0 <= j < |sprites| ==> sprites[j] == Drawn(st[w[j]], imageWidth)
        {
          sprites := sprites + [particles[i].Draw(imageWidth)];
          i := i + 1;
        }
      }
    }
  }
}
