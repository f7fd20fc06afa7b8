/** The Q16 blend `y + (z - y) * k / 65536` shared by the low-pass and Kalman blocks. */
module FixedPoint {
  import opened CheckedMath

  const ONE: int := 65536

  function Blend(y: int, z: int, k: int): int {
    y + Quot((z - y) * k, ONE)
  }

  /** The C expression stays inside int64 at every intermediate step. */
  predicate BlendDefined(y: int, z: int, k: int) {
    Fits(z - y) && Fits((z - y) * k) && Fits(Blend(y, z, k))
  }

  predicate InRange(x: int, lo: int, hi: int) {
    lo <= x <= hi
  }

  /**
   The step is the Q16 share `k` of the gap, truncated: it has the gap's sign, is no longer than the
   gap, and is zero exactly below one Q16 unit.
   */
  lemma StepOfGap(g: int, k: int)
    requires 0 <= k <= ONE
    ensures var q := Quot(g * k, ONE);
            && Abs(q) * ONE <= Abs(g) * k < Abs(q) * ONE + ONE
            && Abs(q) <= Abs(g) && (q > 0 ==> g > 0) && (q < 0 ==> g < 0)
            && (q == 0 <==> Abs(g) * k < ONE)
  {
    var q := Quot(g * k, ONE);
    SignedProduct(g, k);
    QuotSign(g * k, ONE);
    var n := NatQuot(Abs(g * k), ONE);
    MulMonotone(k, ONE, Abs(g));
  }

  /**
   `y'` lies from `y` on the side of `z`, at the distance that is the Q16 share `k` of the gap, cut to a
   whole number: stated on the products, without dividing.
   */
  predicate MovesByShare(y: int, z: int, k: int, y': int) {
    && Abs(y' - y) * 65536 <= Abs(z - y) * k < Abs(y' - y) * 65536 + 65536
    && (y' > y ==> z > y) && (y' < y ==> z < y)
  }

  lemma BlendMovesByShare(y: int, z: int, k: int)
    requires 0 <= k <= ONE
    ensures MovesByShare(y, z, k, Blend(y, z, k))
  {
    StepOfGap(z - y, k);
  }

  lemma BlendStaysBetween(y: int, z: int, k: int, lo: int, hi: int)
    requires 0 <= k <= ONE && InRange(y, lo, hi) && InRange(z, lo, hi)
    ensures InRange(Blend(y, z, k), lo, hi)
  {
    StepOfGap(z - y, k);
  }

  /** Inputs of magnitude at most `m` and a coefficient at most `cap` cannot overflow when 2*m*cap fits. */
  lemma BlendIsDefined(y: int, z: int, k: int, m: int, cap: int)
    requires 0 <= k <= cap <= ONE && cap >= 1 && m >= 0
    requires -m <= y <= m && -m <= z <= m && 2 * m * cap <= I64_MAX
    ensures BlendDefined(y, z, k)
  {
    var g := z - y;
    SignedProduct(g, k);
    MulMonotone(Abs(g), 2 * m, k);
    assert 2 * m * k <= 2 * m * cap by {
      MulMonotone(k, cap, 2 * m);
    }
    MulMonotone(1, cap, 2 * m);
    BlendStaysBetween(y, z, k, -m, m);
  }
}
