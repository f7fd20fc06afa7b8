/** The `kalman` block: a scalar filter whose covariance and gain are unchecked Q16 integers. */
module Kalman {
  import opened Common
  import opened CheckedMath
  import opened FixedPoint

  const VAR_MAX: int := 0xFFFF_FFFF
  const START: int := 65536
  /** Bound of the covariance over every run. */
  const COV_MAX: int := 0x2_0000_0000

  predicate ValidVar(v: int) {
    1 <= v <= VAR_MAX
  }

  datatype Filter = Filter(q: int, r: int, p: int, x: Option<int>)

  predicate Valid(f: Filter) {
    ValidVar(f.q) && ValidVar(f.r) && 0 <= f.p <= COV_MAX
  }

  function Denominator(f: Filter): int {
    f.p + f.q + f.r
  }

  function Gain(f: Filter): int
    requires Denominator(f) != 0
  {
    Quot((f.p + f.q) * ONE, Denominator(f))
  }

  function Updated(f: Filter): int
    requires Denominator(f) != 0
  {
    Quot((ONE - Gain(f)) * (f.p + f.q), ONE)
  }

  /** One sample: the first one is taken as is, later ones are blended in with the current gain. */
  function Step(f: Filter, z: int): Result<Filter, Errno> {
    if f.x.None? then Ok(f.(x := Some(z)))
    else if Denominator(f) == 0 then Err(EDOM)
    else Ok(f.(p := Updated(f), x := Some(Blend(f.x.value, z, Gain(f)))))
  }

  /** Every 64-bit product and sum of the step is defined. */
  predicate StepDefined(f: Filter, z: int) {
    f.x.Some? && Denominator(f) != 0 ==>
      && Fits(f.p + f.q) && Fits(Denominator(f))
      && Fits((f.p + f.q) * ONE)
      && Fits((ONE - Gain(f)) * (f.p + f.q))
      && BlendDefined(f.x.value, z, Gain(f))
  }

  class KalmanBlock {
    var qQ16: int64
    var rQ16: int64
    var x: int64
    var pQ16: int64
    var hasValue: bool

    function State(): Filter
      reads this
    {
      Filter(qQ16, rQ16, pQ16, if hasValue then Some(x) else None)
    }

    constructor (q: int64, r: int64)
      requires ValidVar(q) && ValidVar(r)
      ensures State() == Filter(q, r, START, None) && Valid(State()) && pQ16 == 65536
    {
      qQ16, rQ16, x, pQ16, hasValue := q, r, 0, 65536, false;
    }

    method Reset()
      requires Valid(State())
      modifies this`x, this`pQ16, this`hasValue
      ensures State() == Filter(old(qQ16), old(rQ16), START, None) && Valid(State()) && pQ16 == 65536
    {
      x := 0;
      pQ16 := 65536;
      hasValue := false;
    }

    method Process(input: Option<Value>) returns (r: Result<int64, Errno>)
      requires Valid(State())
      requires input.Some? && hasValue ==>
                 BlendDefined(x, AsI64(input.value), Gain(State()))
      modifies this`x, this`pQ16, this`hasValue
      ensures Valid(State())
      ensures input.None? ==> r == Err(EINVAL) && State() == old(State())
      ensures input.Some? ==>
                Step(old(State()), AsI64(input.value)) == Ok(State()) && hasValue && r == Ok(x)
      ensures input.Some? ==> Posterior(old(State()), AsI64(input.value), State())
    {
      if input.None? {
        return Err(EINVAL);
      }
      var z := AsI64(input.value);
      StepIsPosterior(State(), z);
      if !hasValue {
        x := z;
        hasValue := true;
      } else {
        CovarianceStep(State());
        pQ16 := pQ16 + qQ16;
        var denom: int64 := pQ16 + rQ16;
        if denom == 0 {
          return Err(EDOM);
        }
        var scaled: int64 := pQ16 * 65536;
        var gainQ16: int64 := Quot(scaled, denom);
        var gap: int64 := z - x;
        var moved: int64 := gap * gainQ16;
        x := x + Quot(moved, 65536);
        var kept: int64 := (65536 - gainQ16) * pQ16;
        pQ16 := Quot(kept, 65536);
      }
      r := Ok(x);
    }
  }

  // ----- one step, without its divisions

  /**
   With prior variance P = p + q and D = P + r: the new covariance is the posterior variance P * r / D,
   less at most one and plus at most P / 65536.
   */
  predicate PosteriorVariance(prior: int, r: int, posterior: int) {
    && prior * r < (posterior + 1) * (prior + r)
    && posterior * (prior + r) * 65536 <= prior * r * 65536 + prior * (prior + r)
  }

  /** The estimate moves toward the sample by P / D of the gap, short of it by at most one and gap / 65536. */
  predicate PosteriorEstimate(prior: int, r: int, x: int, z: int, x': int) {
    && Abs(x' - x) * (prior + r) <= Abs(z - x) * prior
    && Abs(z - x) * prior * 65536 <= ((Abs(x' - x) + 1) * 65536 + Abs(z - x)) * (prior + r)
    && (x' > x ==> z > x) && (x' < x ==> z < x)
  }

  /** What one sample makes of a filter: the first is taken as is, later ones update estimate and covariance. */
  predicate Posterior(f: Filter, z: int, f': Filter) {
    && f'.q == f.q && f'.r == f.r
    && (f.x.None? ==> f'.x == Some(z) && f'.p == f.p)
    && (f.x.Some? ==>
          && f'.x.Some? && PosteriorVariance(f.p + f.q, f.r, f'.p)
          && PosteriorEstimate(f.p + f.q, f.r, f.x.value, z, f'.x.value))
  }

  /** `k` is the truncated share of `p` in `d`, and `u` what it leaves of `p`. */
  lemma VarianceBounds(p: nat, r: nat, k: nat, u: nat)
    requires p + r > 0 && k * (p + r) <= p * 65536 < k * (p + r) + (p + r)
    requires u * 65536 <= (65536 - k) * p < u * 65536 + 65536
    ensures PosteriorVariance(p, r, u)
  {
    var d := p + r;
    ScaledLess((65536 - k) * p, u * 65536 + 65536, d);
    MulMonotone(u * 65536, (65536 - k) * p, d);
    MulMonotone(k * d, p * 65536, p);
    MulMonotone(p * 65536 - d, k * d, p);
    KeptOfPrior(p, r, k);
    Rescale(u, d);
  }

  lemma KeptOfPrior(p: nat, r: nat, k: nat)
    ensures (65536 - k) * p * (p + r) == 65536 * p * (p + r) - k * (p + r) * p
    ensures 65536 * p * (p + r) - p * 65536 * p == p * r * 65536
    ensures (p * 65536 - (p + r)) * p == p * 65536 * p - p * (p + r)
  {
  }

  lemma Rescale(u: nat, d: nat)
    ensures (u * 65536 + 65536) * d == (u + 1) * d * 65536
    ensures u * 65536 * d == u * d * 65536
  {
  }

  lemma ScaledLess(a: int, b: int, d: nat)
    requires a < b && d > 0
    ensures a * d < b * d
  {
    MulMonotone(a + 1, b, d);
    assert (a + 1) * d == a * d + d;
  }

  lemma EstimateBounds(p: nat, r: nat, k: nat, x: int, z: int, x': int)
    requires p + r > 0 && k * (p + r) <= p * 65536 < k * (p + r) + (p + r)
    requires MovesByShare(x, z, k, x')
    ensures PosteriorEstimate(p, r, x, z, x')
  {
    var d, g, m := p + r, Abs(z - x), Abs(x' - x);
    MulMonotone(m * 65536, g * k, d);
    ScaledLess(g * k, m * 65536 + 65536, d);
    MulMonotone(k * d, p * 65536, g);
    MulMonotone(p * 65536 - d, k * d, g);
    EstimateProducts(d, g, m, p, k);
  }

  lemma EstimateProducts(d: nat, g: nat, m: nat, p: nat, k: nat)
    ensures m * 65536 * d == m * d * 65536 && g * k * d == k * d * g
    ensures p * 65536 * g == g * p * 65536
    ensures (p * 65536 - d) * g == g * p * 65536 - d * g
    ensures (m * 65536 + 65536) * d + d * g == ((m + 1) * 65536 + g) * d
  {
  }

  /** The block's step computes the posterior, whatever its truncations do. */
  lemma StepIsPosterior(f: Filter, z: int)
    requires Valid(f)
    ensures Step(f, z).Ok? && Posterior(f, z, Step(f, z).value)
  {
    hide Quot, PosteriorVariance, PosteriorEstimate, MovesByShare;
    CovarianceStep(f);
    if f.x.Some? {
      BlendMovesByShare(f.x.value, z, Gain(f));
      VarianceBounds(f.p + f.q, f.r, Gain(f), Updated(f));
      EstimateBounds(f.p + f.q, f.r, Gain(f), f.x.value, z, Blend(f.x.value, z, Gain(f)));
    }
  }

  // ----- the covariance, over every run

  lemma GainBounds(p: nat, r: nat)
    requires 1 <= r && p + r <= COV_MAX + 2 * VAR_MAX
    ensures var k := Quot(p * ONE, p + r);
            && 0 <= k < ONE && (ONE - k) * p <= ONE * r + p
            && k * (p + r) <= p * ONE < k * (p + r) + (p + r)
  {
    var d := p + r;
    var k := Quot(p * ONE, d);
    QuotIsTruncation(p * ONE, d);
    QuotSign(p * ONE, d);
    assert k >= 0;
    assert k * d <= p * ONE < k * d + d;
    if k >= ONE {
      MulMonotone(ONE, k, d);
    }
    KeptShare(p, r, k);
  }

  /** `k` is the truncated share of `p` in `p + r`; what it leaves of `p` is about `r`. */
  lemma KeptShare(p: nat, r: nat, k: nat)
    requires k * (p + r) <= p * ONE < k * (p + r) + (p + r)
    requires k < ONE
    ensures (ONE - k) * p <= ONE * r + p
  {
    assert k * (p + r) == k * p + k * r;
    assert (ONE - k) * p == ONE * p - k * p;
    MulMonotone(k, ONE - 1, r);
    assert (ONE - 1) * r == ONE * r - r;
  }

  /**
   The invariant of every run. One update keeps the covariance in range, the gain is a proper
   fraction (the truncated share of the prior variance), the denominator is positive, the covariance
   products fit 64 bits; and the update leaves at most the measurement variance and a 65536th of what it started from.
   */
  lemma CovarianceStep(f: Filter)
    requires Valid(f)
    ensures Denominator(f) > 0 && 0 <= Gain(f) < ONE
    ensures var (k, d) := (Gain(f), Denominator(f)); k * d <= (f.p + f.q) * ONE < k * d + d
    ensures 0 <= Updated(f) <= COV_MAX && Updated(f) <= f.p + f.q
    ensures Updated(f) * ONE <= f.r * ONE + f.p + f.q
    ensures var kept := (ONE - Gain(f)) * (f.p + f.q); Updated(f) * ONE <= kept < Updated(f) * ONE + ONE
    ensures Fits(Denominator(f)) && Fits((f.p + f.q) * ONE) && Fits((ONE - Gain(f)) * (f.p + f.q))
  {
    var p := f.p + f.q;
    GainBounds(p, f.r);
    var k := Gain(f);
    var kept := (ONE - k) * p;
    MulMonotone(ONE - k, ONE, p);
    assert 0 <= kept <= ONE * p by {
      SignedProduct(ONE - k, p);
    }
    QuotIsTruncation(kept, ONE);
    QuotSign(kept, ONE);
  }

  function Run(f: Filter, zs: seq<int>): Result<Filter, Errno>
    decreases |zs|
  {
    if zs == [] then Ok(f)
    else match Step(f, zs[0])
      case Err(e) => Err(e)
      case Ok(f') => Run(f', zs[1..])
  }

  predicate RunDefined(f: Filter, zs: seq<int>)
    decreases |zs|
  {
    zs == []
    || (StepDefined(f, zs[0]) && (Step(f, zs[0]).Ok? ==> RunDefined(Step(f, zs[0]).value, zs[1..])))
  }

  /** Over every run: no error, the covariance stays valid, the estimate stays in the range of the samples. */
  lemma {:induction false} RunInvariant(f: Filter, zs: seq<int>, lo: int, hi: int)
    requires Valid(f) && (f.x.Some? ==> InRange(f.x.value, lo, hi))
    requires forall i :: 0 <= i < |zs| ==> InRange(zs[i], lo, hi)
    ensures Run(f, zs).Ok?
    ensures var g := Run(f, zs).value;
            Valid(g) && g.q == f.q && g.r == f.r && (g.x.Some? ==> InRange(g.x.value, lo, hi))
    decreases |zs|
  {
    if zs != [] {
      CovarianceStep(f);
      if f.x.Some? {
        BlendStaysBetween(f.x.value, zs[0], Gain(f), lo, hi);
      }
      RunInvariant(Step(f, zs[0]).value, zs[1..], lo, hi);
    }
  }

  lemma BoundedStepIsDefined(f: Filter, z: int, m: int)
    requires m >= 0 && Valid(f) && -m <= z <= m && 2 * m * (ONE - 1) <= I64_MAX
    requires f.x.Some? ==> -m <= f.x.value <= m
    ensures StepDefined(f, z) && Step(f, z).Ok?
    ensures var f' := Step(f, z).value; Valid(f') && f'.x.Some? && -m <= f'.x.value <= m
  {
    CovarianceStep(f);
    if f.x.Some? {
      BlendIsDefined(f.x.value, z, Gain(f), m, ONE - 1);
      BlendStaysBetween(f.x.value, z, Gain(f), -m, m);
    }
  }

  lemma {:induction false} BoundedRunIsDefined(f: Filter, zs: seq<int>, m: int)
    requires m >= 0 && Valid(f) && Bounded(m, zs) && 2 * m * (ONE - 1) <= I64_MAX
    requires f.x.Some? ==> -m <= f.x.value <= m
    ensures RunDefined(f, zs)
    decreases |zs|
  {
    if zs != [] {
      BoundedStepIsDefined(f, zs[0], m);
      BoundedRunIsDefined(Step(f, zs[0]).value, zs[1..], m);
    }
  }

  function Start(q: int, r: int): Filter {
    Filter(q, r, START, None)
  }

  ghost predicate SafeFor(m: int) {
    forall q: int, r: int, zs: seq<int> | ValidVar(q) && ValidVar(r) && Bounded(m, zs) ::
      RunDefined(Start(q, r), zs)
  }

  /** The exact sample magnitude up to which no configuration and no run can overflow. */
  lemma OverflowThreshold(m: int)
    requires 0 <= m <= I64_MAX
    ensures SafeFor(m) <==> 2 * m * 65535 <= I64_MAX
  {
    if 2 * m * 65535 <= I64_MAX {
      forall q: int, r: int, zs: seq<int> | ValidVar(q) && ValidVar(r) && Bounded(m, zs)
        ensures RunDefined(Start(q, r), zs)
      {
        BoundedRunIsDefined(Start(q, r), zs, m);
      }
    } else {
      StrongestGainOverflows(m);
    }
  }

  lemma StrongestGainOverflows(m: int)
    requires 0 <= m <= I64_MAX && 2 * m * 65535 > I64_MAX
    ensures !SafeFor(m)
  {
    var zs: seq<int> := [-m, m];
    var f := Start(VAR_MAX, 1);
    assert Bounded(m, zs) && ValidVar(VAR_MAX) && ValidVar(1);
    var g := f.(x := Some(-m));
    assert Step(f, zs[0]) == Ok(g);
    assert Gain(g) == 65535;
    assert !StepDefined(g, m);
    assert zs[1..] == [m];
    assert !RunDefined(f, zs);
  }
}
