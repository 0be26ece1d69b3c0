/**
 * The ageing discipline of the live range, stated on the sequence of live
 * ages listed oldest first. Because every live particle ages by the same
 * step and new particles are born at age 0 at the back, ages never increase
 * from front to back; retiring from the front alone therefore retires every
 * expired particle.
 */
module Ageing {

  /** Ages are non-negative and non-increasing from the oldest particle to the newest. */
  predicate OldestFirst(ages: seq<real>) {
    (forall j :: 0 <= j < |ages| ==> ages[j] >= 0.0) &&
    (forall i, j :: 0 <= i < j < |ages| ==> ages[i] >= ages[j])
  }

  /** Every age advanced by the same step. */
  function Aged(ages: seq<real>, deltaTime: real): (r: seq<real>)
    ensures |r| == |ages|
    ensures forall j :: 0 <= j < |r| ==> r[j] - ages[j] == deltaTime
  {
    seq(|ages|, j requires 0 <= j < |ages| => ages[j] + deltaTime)
  }

  /**
   * A newborn (age 0) appended at the back, with the front dropped when
   * `evict` holds (in a ring of one slot the newborn itself is dropped).
   */
  function Born(ages: seq<real>, evict: bool): (r: seq<real>)
    ensures |r| == if evict then |ages| else |ages| + 1
    ensures r != [] ==> r[|r| - 1] == 0.0
    ensures forall j :: 0 <= j < |r| - 1 ==> r[j] == ages[if evict then j + 1 else j]
  {
    (ages + [0.0])[if evict then 1 else 0..]
  }

  /** Adding a newborn keeps the order. */
  lemma BornOldestFirst(ages: seq<real>, evict: bool)
    requires OldestFirst(ages)
    ensures OldestFirst(Born(ages, evict))
  {
    var r := Born(ages, evict);
    var e := if evict then 1 else 0;
    forall i, j | 0 <= i < j < |r|
      ensures r[i] >= r[j]
    {
      if j < |r| - 1 {
        assert r[i] == ages[i + e] && r[j] == ages[j + e];
      }
    }
  }

  /**
   * Ageing everyone by a non-negative step and then retiring the `r` oldest
   * keeps the order; when the new front is below `limit`, so is every age.
   */
  lemma AgedSuffix(ages: seq<real>, deltaTime: real, r: nat, limit: real)
    requires OldestFirst(ages) && deltaTime >= 0.0 && r <= |ages|
    requires r < |ages| ==> Aged(ages, deltaTime)[r] < limit
    ensures OldestFirst(Aged(ages, deltaTime)[r..])
    ensures forall j :: 0 <= j < |ages| - r ==> Aged(ages, deltaTime)[r..][j] < limit
  {
    var a := Aged(ages, deltaTime)[r..];
    forall j | 0 <= j < |a|
      ensures a[j] == ages[r + j] + deltaTime
    {
    }
  }
}
