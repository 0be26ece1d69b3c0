/**
 * The index arithmetic of the particle pool's circular buffer: two cursors,
 * `firstActive` and `firstFree`, into a ring of `length` slots. The live
 * particles are the slots from `firstActive` (inclusive) to `firstFree`
 * (exclusive), walking forward and wrapping past the last slot to slot 0.
 */
module Ring {

  /** The slot after `i`, written as the source does: increment, and reset to 0 on reaching `n`. */
  function Next(i: nat, n: nat): (r: nat)
    requires i < n
    ensures r < n
  {
    if i + 1 == n then 0 else i + 1
  }

  /** The `j`-th slot after `first`, going round the ring of `n` slots. */
  function Slot(first: nat, j: nat, n: nat): (k: nat)
    requires first < n && j <= n
    ensures k < n
  {
    if first + j < n then first + j else first + j - n
  }

  lemma ModSmall(x: int, n: int)
    requires 0 <= x < n
    ensures x % n == x
  {
  }

  lemma ModWrap(x: int, n: int)
    requires n <= x < 2 * n
    ensures x % n == x - n
  {
    ModSmall(x - n, n);
    assert x == (x - n) + 1 * n;
  }

  /** `Next` and `Slot` are addition modulo the ring's length. */
  lemma SlotModulo(first: nat, j: nat, n: nat)
    requires first < n && j <= n
    ensures Slot(first, j, n) == (first + j) % n
    ensures j == 1 ==> Next(first, n) == (first + 1) % n
  {
    if first + j < n {
      ModSmall(first + j, n);
    } else {
      ModWrap(first + j, n);
    }
  }

  /** The increasing run of indices lo, lo + 1, ..., hi - 1: one `for` loop of the source. */
  function Range(lo: nat, hi: nat): (s: seq<nat>)
    requires lo <= hi
    ensures |s| == hi - lo
    ensures forall j :: 0 <= j < |s| ==> s[j] == lo + j
  {
    seq(hi - lo, j requires 0 <= j < hi - lo => lo + j)
  }

  datatype Cursors = Cursors(firstActive: nat, firstFree: nat, length: nat) {

    /** Both cursors are valid indices of a non-empty ring. */
    predicate Valid() {
      1 <= length && firstActive < length && firstFree < length
    }

    /** Number of live slots. */
    function Count(): (c: nat)
      requires Valid()
      ensures c < length
      ensures c == 0 <==> firstActive == firstFree
      ensures Slot(firstActive, c, length) == firstFree
    {
      if firstActive <= firstFree then firstFree - firstActive else length - firstActive + firstFree
    }

    /** Whether slot `k` is visited by the loops of `update` and `draw`. */
    predicate InRange(k: nat)
      requires Valid()
    {
      if firstActive < firstFree then firstActive <= k < firstFree
      else if firstFree < firstActive then firstActive <= k < length || k < firstFree
      else false
    }

    /** The live slots, oldest first: the `j`-th is `j` slots after `firstActive`. */
    function Window(): (w: seq<nat>)
      requires Valid()
      ensures |w| == Count()
      ensures forall j :: 0 <= j < |w| ==> w[j] < length
    {
      seq(Count(), j requires 0 <= j < Count() => Slot(firstActive, j, length))
    }

    /** The cursors after `add`: `firstFree` moves on; if it lands on `firstActive`, so does that. */
    function Add(): (c: Cursors)
      requires Valid()
      ensures c.Valid() && c.length == length
    {
      var free := Next(firstFree, length);
      var first := if firstActive == free then Next(firstActive, length) else firstActive;
      Cursors(first, free, length)
    }

    /** The cursors after one step of the retirement loop: `firstActive` moves on. */
    function Retire(): (c: Cursors)
      requires Valid()
      ensures c.Valid() && c.length == length && c.firstFree == firstFree
    {
      Cursors(Next(firstActive, length), firstFree, length)
    }
  }

  /**
   * `add` moves `firstFree` one slot on modulo the length, and moves
   * `firstActive` on too exactly when the new `firstFree` has caught up with it;
   * a retirement step moves only `firstActive` one slot on.
   */
  lemma CursorSteps(c: Cursors)
    requires c.Valid()
    ensures c.Add().firstFree == (c.firstFree + 1) % c.length
    ensures c.Add().firstActive == if c.Add().firstFree == c.firstActive then (c.firstActive + 1) % c.length else c.firstActive
    ensures c.Retire().firstFree == c.firstFree
    ensures c.Retire().firstActive == (c.firstActive + 1) % c.length
  {
    SlotModulo(c.firstFree, 1, c.length);
    SlotModulo(c.firstActive, 1, c.length);
  }

  /** `k` successive adds. */
  function AddMany(c: Cursors, k: nat): (d: Cursors)
    requires c.Valid()
    ensures d.Valid() && d.length == c.length
    decreases k
  {
    if k == 0 then c else AddMany(c, k - 1).Add()
  }

  /** `r` successive retirement steps: `firstActive` moves `r` slots on. */
  function RetireMany(c: Cursors, r: nat): (d: Cursors)
    requires c.Valid() && r <= c.Count()
    ensures d.Valid() && d.length == c.length && d.firstFree == c.firstFree
    ensures d.firstActive == Slot(c.firstActive, r, c.length)
    ensures d.Count() == c.Count() - r
    decreases r
  {
    if r == 0 then c else RetireMany(c, r - 1).Retire()
  }

  /** After `r` retirement steps the live range is the old one without its `r` oldest slots. */
  lemma {:induction false} RetireManyWindow(c: Cursors, r: nat)
    requires c.Valid() && r <= c.Count()
    ensures RetireMany(c, r).Window() == c.Window()[r..]
    decreases r
  {
    if r > 0 {
      RetireManyWindow(c, r - 1);
      RetireWindow(RetireMany(c, r - 1));
    }
  }

  /**
   * The loops of `update` and `draw` visit the live slots oldest first: one
   * linear run when the range does not wrap, else the run up to the end of
   * the ring followed by the run from slot 0.
   */
  lemma WindowRuns(c: Cursors)
    requires c.Valid()
    ensures c.Window() == if c.firstActive < c.firstFree then Range(c.firstActive, c.firstFree)
                          else if c.firstFree < c.firstActive then Range(c.firstActive, c.length) + Range(0, c.firstFree)
                          else []
  {
    if c.firstFree < c.firstActive {
      var w, v := c.Window(), Range(c.firstActive, c.length) + Range(0, c.firstFree);
      forall j | 0 <= j < |w|
        ensures w[j] == v[j]
      {
      }
    }
  }

  /** The slots the loops of `update` and `draw` visit are exactly the window's slots. */
  lemma WindowMembers(c: Cursors, k: nat)
    requires c.Valid() && k < c.length
    ensures k in c.Window() <==> c.InRange(k)
  {
    var w := c.Window();
    if c.InRange(k) {
      var j := if c.firstActive <= k then k - c.firstActive else c.length - c.firstActive + k;
      assert w[j] == k;
    }
  }

  /** No slot is visited twice, and the free slot is never visited. */
  lemma WindowDistinct(c: Cursors)
    requires c.Valid()
    ensures forall i, j :: 0 <= i < j < |c.Window()| ==> c.Window()[i] != c.Window()[j]
    ensures c.firstFree !in c.Window()
  {
    WindowMembers(c, c.firstFree);
  }

  /**
   * `add` appends the free slot to the live range; when the range already
   * held `length - 1` slots, it also drops the oldest one, so the count is
   * min(count + 1, length - 1).
   */
  lemma AddWindow(c: Cursors)
    requires c.Valid()
    ensures c.Add().Count() == if c.Count() + 1 < c.length then c.Count() + 1 else c.length - 1
    ensures c.Add().Window() == (c.Window() + [c.firstFree])[if c.Count() + 1 < c.length then 0 else 1..]
  {
    var d := c.Add();
    var e := if c.Count() + 1 < c.length then 0 else 1;
    var w := c.Window() + [c.firstFree];
    assert d.Count() == c.Count() + 1 - e;
    assert d.firstActive == Slot(c.firstActive, e, c.length);
    forall j | 0 <= j < d.Count()
      ensures d.Window()[j] == w[e..][j]
    {
      assert w[e..][j] == Slot(c.firstActive, j + e, c.length);
    }
  }

  /** One retirement step drops the oldest live slot and keeps the others in order. */
  lemma RetireWindow(c: Cursors)
    requires c.Valid() && c.firstActive != c.firstFree
    ensures c.Retire().Count() == c.Count() - 1
    ensures c.Retire().Window() == c.Window()[1..]
  {
    var d := c.Retire();
    forall j | 0 <= j < d.Count()
      ensures d.Window()[j] == c.Window()[1..][j]
    {
    }
  }

  /**
   * Below capacity no particle is evicted: `k` adds raise the count by `k`,
   * up to the ceiling of `length - 1` live slots.
   */
  lemma {:induction false} AddManyCount(c: Cursors, k: nat)
    requires c.Valid()
    ensures AddMany(c, k).Count() == if c.Count() + k < c.length then c.Count() + k else c.length - 1
    decreases k
  {
    if k > 0 {
      AddManyCount(c, k - 1);
      AddWindow(AddMany(c, k - 1));
    }
  }

  /**
   * A worked case with wraparound: five slots, four adds, two retirements,
   * three more adds. Only four particles can be live: the third add of the
   * second batch fills the ring, so it evicts the oldest
   * live particle (slot 2), and the live range wraps through slot 0.
   */
  lemma WrapExample()
    ensures AddMany(AddMany(Cursors(0, 0, 5), 4).Retire().Retire(), 3) == Cursors(3, 2, 5)
    ensures Cursors(3, 2, 5).Window() == [3, 4, 0, 1]
  {
  }
}
