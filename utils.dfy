// A model of `sampleDiscrete` from utils.py: drawing an index from an
// unnormalised discrete distribution by (generalised) inverse-CDF sampling.
//
// Weights are exact reals rather than IEEE doubles, the uniform random number
// that the source takes from numpy's global generator is a parameter, and the
// IndexError the source raises when it indexes past the end of the weight
// vector is an explicit error result.

module Utils {

  /** The optional `ran` argument: Python's `None`, or a given number. */
  datatype Option<T> = None | Some(value: T)

  /** The one exception the sampler can raise: reading `p` past its end. */
  datatype Error = IndexError

  datatype Result<T> = Ok(value: T) | Err(error: Error)

  /** Every weight is at least zero. */
  predicate NonNegative(p: seq<real>)
  {
    forall k :: 0 <= k < |p| ==> p[k] >= 0.0
  }

  /** The sum of a sequence of weights, added from the left. */
  function Sum(s: seq<real>): (total: real)
    ensures NonNegative(s) ==> total >= 0.0
  {
    if s == [] then 0.0 else Sum(s[..|s| - 1]) + s[|s| - 1]
  }

  /**
   * `normalization_constant = np.sum(p)`: the total mass of the weights.
   * Contracts about the target speak of it rather than of the recursive Sum.
   */
  function Normalization(p: seq<real>): real
  {
    Sum(p)
  }

  /** The cumulative mass p[0] + ... + p[i], through index i inclusive. */
  function Prefix(p: seq<real>, i: nat): real
    requires i < |p|
  {
    Sum(p[..i + 1])
  }

  /**
   * The uniform number the sampler actually uses: `ran or np.random.rand()`.
   * `rand` stands for the fresh number the global generator would return.
   * Python's `or` takes a given 0 for "absent", so an explicit draw of 0 is
   * not honoured: the fresh random number is used in its place.
   */
  function UniformNumber(ran: Option<real>, rand: real): (u: real)
    ensures ran.Some? && ran.value != 0.0 ==> u == ran.value
    ensures ran == None || ran == Some(0.0) ==> u == rand
  {
    match ran
    case Some(x) => if x != 0.0 then x else rand
    case None => rand
  }

  /**
   * The point of the cumulative distribution to invert:
   * `uniform_number * normalization_constant`, the draw scaled by the total
   * mass. A draw of 0 or a total of 0 puts it at 0, a draw of 1 at the total;
   * TargetInRange states where the draws in between put it.
   */
  function Target(p: seq<real>, u: real): (r: real)
    ensures u == 0.0 || Normalization(p) == 0.0 ==> r == 0.0
    ensures u == 1.0 ==> r == Normalization(p)
  {
    u * Normalization(p)
  }

  /** Some cumulative mass reaches r, so the walk stops inside the vector. */
  predicate Reaches(p: seq<real>, r: real)
  {
    exists i :: 0 <= i < |p| && Prefix(p, i) >= r
  }

  /**
   * i is the generalised inverse CDF of p at r: the least index whose
   * cumulative mass reaches r.
   */
  predicate IsInverseCdf(p: seq<real>, r: real, i: nat)
  {
    i < |p| && Prefix(p, i) >= r &&
    forall j :: 0 <= j < i ==> Prefix(p, j) < r
  }

  /**
   * sampleDiscrete(p, ran). The uniform number is scaled by the sum of the
   * weights, and the running sum is walked from index 0 until it first
   * reaches that target. The source checks nothing: on an empty vector
   * `p[0]` raises, and when no cumulative mass reaches the target the walk
   * raises at `p[len(p)]`.
   */
  method SampleDiscrete(p: seq<real>, ran: Option<real>, rand: real) returns (res: Result<nat>)
    ensures res.Ok? <==> Reaches(p, Target(p, UniformNumber(ran, rand)))
    ensures res.Ok? ==> IsInverseCdf(p, Target(p, UniformNumber(ran, rand)), res.value)
    ensures Normalization(p) > 0.0 && UniformNumber(ran, rand) <= 1.0 ==> res.Ok? && res.value < |p|
  {
    var uniformNumber := UniformNumber(ran, rand);
    var r := Target(p, uniformNumber);
    if Normalization(p) > 0.0 && uniformNumber <= 1.0 {
      TargetReached(p, uniformNumber);
    }
    if |p| == 0 {
      return Err(IndexError);
    }
    var a := p[0];
    var i := 0;
    PrefixFirst(p);
    while a < r
      invariant 0 <= i < |p|
      invariant a == Prefix(p, i)
      invariant forall j :: 0 <= j < i ==> Prefix(p, j) < r
      decreases |p| - 1 - i
    {
      i := i + 1;
      if i == |p| {
        assert forall j :: 0 <= j < |p| ==> Prefix(p, j) < r;
        return Err(IndexError);
      }
      PrefixStep(p, i - 1);
      a := a + p[i];
    }
    return Ok(i);
  }

  /** The cumulative mass through index 0 is the first weight. */
  lemma PrefixFirst(p: seq<real>)
    requires |p| > 0
    ensures Prefix(p, 0) == p[0]
  {
    var q := p[..1];
    assert q[..0] == [];
    assert Sum(q) == Sum(q[..0]) + q[0];
  }

  /** Advancing the walk by one index adds that index's weight to the running sum. */
  lemma PrefixStep(p: seq<real>, i: nat)
    requires i + 1 < |p|
    ensures Prefix(p, i + 1) == Prefix(p, i) + p[i + 1]
  {
    assert p[..i + 2][..i + 1] == p[..i + 1];
  }

  /** The cumulative mass through the last index is the normalisation constant. */
  lemma PrefixLast(p: seq<real>)
    requires |p| > 0
    ensures Prefix(p, |p| - 1) == Normalization(p)
  {
    assert p[..|p|] == p;
  }

  /** With non-negative weights the cumulative mass never decreases along the vector. */
  lemma {:induction false} PrefixMonotone(p: seq<real>, j: nat, i: nat)
    requires NonNegative(p)
    requires j <= i < |p|
    ensures Prefix(p, j) <= Prefix(p, i)
  {
    if j < i {
      PrefixMonotone(p, j, i - 1);
      PrefixStep(p, i - 1);
    }
  }

  /**
   * With a positive total and a draw of at most 1 the target never exceeds
   * the total mass, so the last index always reaches it and the walk never
   * reads past the end.
   */
  lemma TargetReached(p: seq<real>, u: real)
    requires Normalization(p) > 0.0
    requires u <= 1.0
    ensures Target(p, u) <= Normalization(p)
    ensures Reaches(p, Target(p, u))
  {
    assert |p| > 0;
    TargetMonotone(p, u, 1.0);
    PrefixLast(p);
  }

  /** With a positive total, a draw in [0, 1) gives a target in [0, Normalization(p)). */
  lemma TargetInRange(p: seq<real>, u: real)
    requires Normalization(p) > 0.0
    requires 0.0 <= u < 1.0
    ensures 0.0 <= Target(p, u) < Normalization(p)
  {
    // Binding the total first keeps this proof stable across solver seeds.
    var n := Normalization(p);
    ScaleUnit(u, n);
    assert Target(p, u) == u * n;
  }

  /** Helper for MonotoneInDraw: with a non-negative total, a larger draw gives a larger target. */
  lemma TargetMonotone(p: seq<real>, u1: real, u2: real)
    requires Normalization(p) >= 0.0
    requires u1 <= u2
    ensures Target(p, u1) <= Target(p, u2)
  {
    ScaleOrder(u1, u2, Normalization(p));
  }

  /**
   * Scaling a positive total by a factor in [0, 1) stays in [0, total).
   * This and ScaleOrder keep the products out of the larger proofs that use
   * them; they are there for solver stability across seeds.
   */
  lemma ScaleUnit(u: real, n: real)
    requires n > 0.0
    requires 0.0 <= u < 1.0
    ensures 0.0 <= u * n < n
  {
    assert n - u * n == (1.0 - u) * n;
  }

  /** Multiplying by a non-negative factor preserves order. */
  lemma ScaleOrder(u1: real, u2: real, s: real)
    requires s >= 0.0
    requires u1 <= u2
    ensures u1 * s <= u2 * s
  {
    assert u2 * s - u1 * s == (u2 - u1) * s;
  }

  /**
   * With non-negative weights index i is selected exactly when the target
   * is at most Prefix(p, i) and, for i > 0, above Prefix(p, i - 1): an
   * interval of length p[i]. For i == 0 the interval has no lower end.
   */
  lemma SelectedIffInInterval(p: seq<real>, r: real, i: nat)
    requires NonNegative(p)
    requires i < |p|
    ensures IsInverseCdf(p, r, i) <==> (i == 0 || Prefix(p, i - 1) < r) && r <= Prefix(p, i)
    ensures i == 0 ==> Prefix(p, 0) == p[0]
    ensures i > 0 ==> Prefix(p, i) - Prefix(p, i - 1) == p[i]
  {
    PrefixFirst(p);
    if i > 0 {
      PrefixStep(p, i - 1);
      if Prefix(p, i - 1) < r && r <= Prefix(p, i) {
        forall j | 0 <= j < i
          ensures Prefix(p, j) < r
        {
          PrefixMonotone(p, j, i - 1);
        }
      }
    }
  }

  /**
   * For a draw in [0, 1) and non-negative weights with a positive total, the
   * target lies in [0, Normalization(p)); index 0 is selected exactly for targets in
   * [0, p[0]] and index i > 0 exactly for targets in (Prefix(p, i - 1),
   * Prefix(p, i)]. Each interval has length p[i], so index i is drawn with
   * probability p[i] / Normalization(p) when the draw is uniform.
   */
  lemma DrawSelectsInterval(p: seq<real>, u: real, i: nat)
    requires NonNegative(p)
    requires Normalization(p) > 0.0
    requires 0.0 <= u < 1.0
    requires i < |p|
    ensures 0.0 <= Target(p, u) < Normalization(p)
    ensures i == 0 ==> (IsInverseCdf(p, Target(p, u), 0) <==> 0.0 <= Target(p, u) <= p[0])
    ensures i > 0 ==> (IsInverseCdf(p, Target(p, u), i) <==> Prefix(p, i - 1) < Target(p, u) <= Prefix(p, i))
  {
    TargetInRange(p, u);
    SelectedIffInInterval(p, Target(p, u), i);
  }

  /** The inverse CDF is unique, so the sample is determined by the weights and the draw. */
  lemma InverseCdfUnique(p: seq<real>, r: real, i: nat, k: nat)
    requires IsInverseCdf(p, r, i)
    requires IsInverseCdf(p, r, k)
    ensures i == k
  {
  }

  /** Whenever the target is at most the first weight, index 0 is returned. */
  lemma FirstWeightCoversTarget(p: seq<real>, r: real)
    requires |p| > 0
    requires r <= p[0]
    ensures IsInverseCdf(p, r, 0)
  {
  }

  /** A single-element vector with positive weight always yields index 0. */
  lemma SingleElementSelectsZero(p: seq<real>, u: real)
    requires |p| == 1
    requires p[0] > 0.0
    requires u <= 1.0
    ensures IsInverseCdf(p, Target(p, u), 0)
  {
  }

  /**
   * Non-negative weights that all are zero are not rejected: the target is
   * 0, the first weight reaches it, and index 0 is returned.
   */
  lemma ZeroMassSelectsFirst(p: seq<real>, u: real)
    requires |p| > 0
    requires NonNegative(p)
    requires Normalization(p) == 0.0
    ensures IsInverseCdf(p, Target(p, u), 0)
  {
    assert Target(p, u) == 0.0;  // solver stability only
  }

  /**
   * An index after the first whose weight is zero is never selected: its
   * cumulative mass equals the previous one, which fell short of the target.
   */
  lemma ZeroWeightNeverSelected(p: seq<real>, r: real, i: nat)
    requires 0 < i < |p|
    requires p[i] == 0.0
    ensures !IsInverseCdf(p, r, i)
  {
    PrefixStep(p, i - 1);
  }

  /** A larger target never yields a smaller index. */
  lemma MonotoneInTarget(p: seq<real>, r1: real, r2: real, i1: nat, i2: nat)
    requires r1 <= r2
    requires IsInverseCdf(p, r1, i1)
    requires IsInverseCdf(p, r2, i2)
    ensures i1 <= i2
  {
  }

  /** For fixed weights with non-negative total, a larger draw never yields a smaller index. */
  lemma MonotoneInDraw(p: seq<real>, u1: real, u2: real, i1: nat, i2: nat)
    requires Normalization(p) >= 0.0
    requires u1 <= u2
    requires IsInverseCdf(p, Target(p, u1), i1)
    requires IsInverseCdf(p, Target(p, u2), i2)
    ensures i1 <= i2
  {
    TargetMonotone(p, u1, u2);
    MonotoneInTarget(p, Target(p, u1), Target(p, u2), i1, i2);
  }
}
