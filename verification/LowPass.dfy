/** The `low_pass` block: a first-order filter in Q16 arithmetic with unchecked 64-bit products. */
module LowPass {
  import opened Common
  import opened CheckedMath
  import opened FixedPoint

  predicate ValidAlpha(alpha: int) {
    1 <= alpha <= ONE
  }

  function Next(alpha: int, y: Option<int>, z: int): int {
    if y.None? then z else Blend(y.value, z, alpha)
  }

  predicate StepDefined(alpha: int, y: Option<int>, z: int) {
    y.Some? ==> BlendDefined(y.value, z, alpha)
  }

  /** The filter value after a run of samples. */
  function Filtered(alpha: int, y: Option<int>, zs: seq<int>): Option<int>
    decreases |zs|
  {
    if zs == [] then y else Filtered(alpha, Some(Next(alpha, y, zs[0])), zs[1..])
  }

  /** No step of the run leaves int64, where C gives it no meaning. */
  predicate RunDefined(alpha: int, y: Option<int>, zs: seq<int>)
    decreases |zs|
  {
    zs == [] || (StepDefined(alpha, y, zs[0]) && RunDefined(alpha, Some(Next(alpha, y, zs[0])), zs[1..]))
  }

  class LowPassBlock {
    var alphaQ16: int64
    var filtered: int64
    var hasValue: bool

    function Output(): Option<int>
      reads this
    {
      if hasValue then Some(filtered) else None
    }

    constructor (alpha: int64)
      requires ValidAlpha(alpha)
      ensures alphaQ16 == alpha && Output() == None
    {
      alphaQ16, filtered, hasValue := alpha, 0, false;
    }

    method Reset()
      modifies this`filtered, this`hasValue
      ensures Output() == None
    {
      filtered := 0;
      hasValue := false;
    }

    method Process(input: Option<Value>) returns (r: Result<int64, Errno>)
      requires input.Some? ==> StepDefined(alphaQ16, Output(), AsI64(input.value))
      modifies this`filtered, this`hasValue
      ensures input.None? ==> r == Err(EINVAL) && Output() == old(Output())
      ensures input.Some? ==>
                var y := Next(alphaQ16, old(Output()), AsI64(input.value));
                r == Ok(y) && Output() == Some(y)
    {
      if input.None? {
        return Err(EINVAL);
      }
      var sample := AsI64(input.value);
      if !hasValue {
        filtered := sample;
        hasValue := true;
      } else {
        var delta: int64 := sample - filtered;
        var scaled: int64 := delta * alphaQ16;
        filtered := filtered + Quot(scaled, 65536);
      }
      r := Ok(filtered);
    }
  }

  /** One sample: taken as is at first, later a move by exactly the share alpha of the gap. */
  lemma NextMovesByShare(alpha: int, y: Option<int>, z: int)
    requires ValidAlpha(alpha)
    ensures if y.None? then Next(alpha, y, z) == z else MovesByShare(y.value, z, alpha, Next(alpha, y, z))
  {
    if y.Some? {
      BlendMovesByShare(y.value, z, alpha);
    }
  }

  // ----- range

  /** The estimate never leaves the range spanned by its start and the samples seen. */
  lemma {:induction false} FilteredStaysInRange(alpha: int, y: Option<int>, zs: seq<int>, lo: int, hi: int)
    requires ValidAlpha(alpha) && (y.Some? ==> InRange(y.value, lo, hi))
    requires forall i :: 0 <= i < |zs| ==> InRange(zs[i], lo, hi)
    ensures Filtered(alpha, y, zs).Some? ==> InRange(Filtered(alpha, y, zs).value, lo, hi)
    decreases |zs|
  {
    if zs != [] {
      if y.Some? {
        BlendStaysBetween(y.value, zs[0], alpha, lo, hi);
      }
      FilteredStaysInRange(alpha, Some(Next(alpha, y, zs[0])), zs[1..], lo, hi);
    }
  }

  lemma {:induction false} BoundedRunIsDefined(alpha: int, y: Option<int>, zs: seq<int>, m: int)
    requires m >= 0 && ValidAlpha(alpha) && Bounded(m, zs) && 2 * m * alpha <= I64_MAX
    requires y.Some? ==> -m <= y.value <= m
    ensures RunDefined(alpha, y, zs)
    decreases |zs|
  {
    if zs != [] {
      if y.Some? {
        BlendIsDefined(y.value, zs[0], alpha, m, alpha);
        BlendStaysBetween(y.value, zs[0], alpha, -m, m);
      }
      BoundedRunIsDefined(alpha, Some(Next(alpha, y, zs[0])), zs[1..], m);
    }
  }

  /** The exact magnitude up to which no run of samples can overflow. */
  lemma OverflowThreshold(alpha: int, m: int)
    requires ValidAlpha(alpha) && 0 <= m <= I64_MAX
    ensures (forall zs: seq<int> | Bounded(m, zs) :: RunDefined(alpha, None, zs)) <==> 2 * m * alpha <= I64_MAX
  {
    if 2 * m * alpha <= I64_MAX {
      forall zs: seq<int> | Bounded(m, zs)
        ensures RunDefined(alpha, None, zs)
      {
        BoundedRunIsDefined(alpha, None, zs, m);
      }
    } else {
      var zs: seq<int> := [-m, m];
      assert Bounded(m, zs);
      assert zs[1..] == [m];
      assert !StepDefined(alpha, Some(-m), m);
    }
  }

  /** In particular magnitudes below 2^46 are safe for every coefficient. */
  lemma SafeMagnitude(alpha: int, zs: seq<int>)
    requires ValidAlpha(alpha) && Bounded(0x3FFF_FFFF_FFFF, zs)
    ensures RunDefined(alpha, None, zs)
  {
    MulMonotone(alpha, ONE, 2 * 0x3FFF_FFFF_FFFF);
    BoundedRunIsDefined(alpha, None, zs, 0x3FFF_FFFF_FFFF);
  }

  // ----- settling under a constant input

  function Iterate(alpha: int, y: int, c: int, n: nat): int
    decreases n
  {
    if n == 0 then y else Iterate(alpha, Blend(y, c, alpha), c, n - 1)
  }

  /** The gap is too small for the truncated product to move the output. */
  predicate Settled(alpha: int, y: int, c: int) {
    Abs(c - y) * alpha < ONE
  }

  /** One step keeps the gap's side and strictly shrinks it, unless settled, and then nothing moves. */
  lemma GapStep(alpha: int, y: int, c: int)
    requires ValidAlpha(alpha)
    ensures var y' := Blend(y, c, alpha);
            && (c >= y ==> c >= y') && (c <= y ==> c <= y')
            && (Settled(alpha, y, c) ==> y' == y)
            && (!Settled(alpha, y, c) ==> Abs(c - y') < Abs(c - y))
  {
    StepOfGap(c - y, alpha);
  }

  lemma {:induction false} SettledStays(alpha: int, y: int, c: int, n: nat)
    requires ValidAlpha(alpha) && Settled(alpha, y, c)
    ensures Iterate(alpha, y, c, n) == y
    decreases n
  {
    if n > 0 {
      GapStep(alpha, y, c);
      SettledStays(alpha, y, c, n - 1);
    }
  }

  /** After at most as many samples as the initial gap, the filter has settled, on the same side of the input. */
  lemma {:induction false} Settles(alpha: int, y: int, c: int, n: nat)
    requires ValidAlpha(alpha) && n >= Abs(c - y)
    ensures var end := Iterate(alpha, y, c, n);
            && Settled(alpha, end, c)
            && (c >= y ==> y <= end <= c) && (c <= y ==> c <= end <= y)
            && (forall k: nat :: Iterate(alpha, end, c, k) == end)
    decreases n
  {
    GapStep(alpha, y, c);
    if Settled(alpha, y, c) {
      SettledStays(alpha, y, c, n);
      forall k: nat ensures Iterate(alpha, y, c, k) == y {
        SettledStays(alpha, y, c, k);
      }
    } else {
      Settles(alpha, Blend(y, c, alpha), c, n - 1);
    }
  }

  // ----- how fast

  function Pow(b: nat, n: nat): (r: nat)
    ensures b > 0 ==> r > 0
  {
    if n == 0 then 1 else b * Pow(b, n - 1)
  }

  /** How far a gap is above the smallest one that moves the output: negative exactly when settled. */
  function Excess(alpha: int, gap: int): int {
    Abs(gap) * alpha - ONE
  }

  /** One step leaves at most the share 1 - alpha of the gap and less than one unit more. */
  lemma GapRate(alpha: int, y: int, c: int)
    requires ValidAlpha(alpha)
    ensures Abs(c - Blend(y, c, alpha)) * ONE < Abs(c - y) * (ONE - alpha) + ONE
  {
    StepOfGap(c - y, alpha);
    GapStep(alpha, y, c);
    var g, step := Abs(c - y), Abs(Quot((c - y) * alpha, ONE));
    assert Abs(c - Blend(y, c, alpha)) == g - step;
    assert g * (ONE - alpha) == g * ONE - g * alpha;
  }

  lemma ExcessStep(alpha: int, y: int, c: int)
    requires ValidAlpha(alpha)
    ensures Excess(alpha, c - Blend(y, c, alpha)) * ONE <= Excess(alpha, c - y) * (ONE - alpha)
  {
    GapRate(alpha, y, c);
    ScaledRate(alpha, Abs(c - y), Abs(c - Blend(y, c, alpha)));
  }

  lemma ScaledRate(alpha: int, g: nat, g': nat)
    requires ValidAlpha(alpha) && g' * ONE <= g * (ONE - alpha) + ONE
    ensures (g' * alpha - ONE) * ONE <= (g * alpha - ONE) * (ONE - alpha)
  {
    MulMonotone(g' * ONE, g * (ONE - alpha) + ONE, alpha);
    assert g' * ONE * alpha == g' * alpha * ONE;
    assert (g * (ONE - alpha) + ONE) * alpha == g * alpha * (ONE - alpha) + ONE * alpha;
    assert (g * alpha - ONE) * (ONE - alpha) == g * alpha * (ONE - alpha) - ONE * (ONE - alpha);
  }

  /** The excess shrinks at least geometrically, by the factor 1 - alpha per sample. */
  lemma {:induction false} ShrinksGeometrically(alpha: int, y: int, c: int, n: nat)
    requires ValidAlpha(alpha)
    ensures Excess(alpha, c - Iterate(alpha, y, c, n)) * Pow(ONE, n) <= Excess(alpha, c - y) * Pow(ONE - alpha, n)
    decreases n
  {
    hide Excess, Blend;
    if n > 0 {
      var y', q := Blend(y, c, alpha), ONE - alpha;
      ExcessStep(alpha, y, c);
      ShrinksGeometrically(alpha, y', c, n - 1);
      var end := Excess(alpha, c - Iterate(alpha, y', c, n - 1));
      Chain(end, Pow(ONE, n - 1), Excess(alpha, c - y'), Pow(q, n - 1), Excess(alpha, c - y), q);
    }
  }

  lemma Chain(end: int, p: nat, x': int, r: nat, x: int, q: nat)
    requires end * p <= x' * r && x' * ONE <= x * q
    ensures end * (ONE * p) <= x * (q * r)
  {
    MulMonotone(end * p, x' * r, ONE);
    MulMonotone(x' * ONE, x * q, r);
    assert end * p * ONE == end * (ONE * p);
    assert x' * r * ONE == x' * ONE * r;
    assert x * q * r == x * (q * r);
  }

  /** So settling takes logarithmic time: one sample more than the geometric sequence needs to fall below 1. */
  lemma SettlesFast(alpha: int, y: int, c: int, n: nat)
    requires ValidAlpha(alpha)
    requires Excess(alpha, c - y) * Pow(ONE - alpha, n) < Pow(ONE, n)
    ensures Settled(alpha, Iterate(alpha, y, c, n + 1), c)
  {
    ShrinksGeometrically(alpha, y, c, n);
    var end := Iterate(alpha, y, c, n);
    assert Excess(alpha, c - end) <= 0 by {
      NotPositive(Excess(alpha, c - end), Pow(ONE, n));
    }
    IterateOnce(alpha, y, c, n);
    LastStep(alpha, end, c);
  }

  lemma NotPositive(x: int, p: nat)
    requires p > 0 && x * p < p
    ensures x <= 0
  {
    if x > 0 {
      MulMonotone(1, x, p);
    }
  }

  lemma {:induction false} IterateOnce(alpha: int, y: int, c: int, n: nat)
    ensures Iterate(alpha, y, c, n + 1) == Blend(Iterate(alpha, y, c, n), c, alpha)
    decreases n
  {
    hide Blend;
    if n > 0 {
      IterateOnce(alpha, Blend(y, c, alpha), c, n - 1);
    }
  }

  lemma LastStep(alpha: int, y: int, c: int)
    requires ValidAlpha(alpha) && Excess(alpha, c - y) <= 0
    ensures Settled(alpha, Blend(y, c, alpha), c)
  {
    GapStep(alpha, y, c);
    if !Settled(alpha, y, c) {
      var g, g' := Abs(c - y), Abs(c - Blend(y, c, alpha));
      MulMonotone(g' + 1, g, alpha);
      assert (g' + 1) * alpha == g' * alpha + alpha;
    }
  }

  /** The iteration is the block's run on repeated samples. */
  lemma {:induction false} IterateIsARun(alpha: int, y: int, c: int, n: nat)
    ensures Filtered(alpha, Some(y), seq(n, _ => c)) == Some(Iterate(alpha, y, c, n))
    decreases n
  {
    if n > 0 {
      assert seq(n, _ => c)[1..] == seq(n - 1, _ => c);
      IterateIsARun(alpha, Blend(y, c, alpha), c, n - 1);
    }
  }
}
