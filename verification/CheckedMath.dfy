/** 64-bit arithmetic of the processing blocks: C division, saturating reads, and the overflow guards. */
module CheckedMath {

  const I64_MIN: int := -0x8000_0000_0000_0000
  const I64_MAX: int := 0x7FFF_FFFF_FFFF_FFFF

  type int64 = x: int | -0x8000_0000_0000_0000 <= x <= 0x7FFF_FFFF_FFFF_FFFF

  predicate Fits(x: int) {
    I64_MIN <= x <= I64_MAX
  }

  /** Every sample has magnitude at most `m`. */
  predicate Bounded(m: int, zs: seq<int>) {
    forall i :: 0 <= i < |zs| ==> -m <= zs[i] <= m
  }

  datatype Errno = EINVAL | EDOM | ERANGE

  /** A numeric input of a block. */
  datatype Value = Int64(i: int64) | UInt64(u: nat)

  /** `spaghetti_block_as_i64`: unsigned values above the range saturate. */
  function AsI64(v: Value): int64 {
    match v
    case UInt64(u) => if u > I64_MAX then I64_MAX else u
    case Int64(i) => i
  }

  function Sat(value: int64, lo: int64, hi: int64): int64 {
    if value < lo then lo else if value > hi then hi else value
  }

  /** An input is read as the int64 nearest to it, which for every value in range is the value itself. */
  lemma ReadsNearestInt64(v: Value, x: int64)
    ensures v.Int64? ==> AsI64(v) == v.i
    ensures v.UInt64? ==> Abs(AsI64(v) - v.u) <= Abs(x - v.u) && (v.u <= 0x7FFF_FFFF_FFFF_FFFF ==> AsI64(v) == v.u)
  {
  }

  /** Saturation picks the value nearest to `value` between ordered bounds. */
  lemma SaturatesToNearest(value: int64, lo: int64, hi: int64, x: int64)
    requires lo <= hi
    ensures lo <= Sat(value, lo, hi) <= hi
    ensures lo <= x <= hi ==> Abs(Sat(value, lo, hi) - value) <= Abs(x - value)
  {
  }

  /** C division: truncation toward zero. */
  function Quot(a: int, b: int): int
    requires b != 0
  {
    var q: int := NatQuot(Abs(a), Abs(b));
    if (a >= 0) == (b > 0) then q else -q
  }

  lemma QuotShrinks(a: int, b: int)
    requires b != 0
    ensures Abs(Quot(a, b)) <= Abs(a)
    ensures b > 0 && Fits(a) ==> Fits(Quot(a, b))
  {
    QuotSign(a, b);
    MulMonotone(1, Abs(b), NatQuot(Abs(a), Abs(b)));
  }

  function NatQuot(n: nat, d: nat): (q: nat)
    requires d > 0
    ensures q * d <= n < q * d + d
  {
    assert n == d * (n / d) + n % d;
    n / d
  }

  function Abs(x: int): nat {
    if x < 0 then -x else x
  }

  /** Truncated division is the multiple of `b` nearest to `a` on the side of zero. */
  lemma QuotIsTruncation(a: int, b: int)
    requires b != 0
    ensures var q := Quot(a, b);
            && Abs(q * b) <= Abs(a) < Abs(q * b) + Abs(b)
            && (q * b == 0 || (q * b > 0) == (a > 0))
  {
    var q := Quot(a, b);
    QuotSign(a, b);
    assert Abs(q * b) == NatQuot(Abs(a), Abs(b)) * Abs(b) by {
      SignedProduct(q, b);
    }
    if q != 0 {
      SignedProduct(q, b);
    }
  }

  lemma QuotSign(a: int, b: int)
    requires b != 0
    ensures Abs(Quot(a, b)) == NatQuot(Abs(a), Abs(b))
    ensures Quot(a, b) > 0 ==> (a > 0 && b > 0) || (a < 0 && b < 0)
    ensures Quot(a, b) < 0 ==> (a > 0 && b < 0) || (a < 0 && b > 0)
  {
    assert a == 0 ==> NatQuot(Abs(a), Abs(b)) == 0;
  }

  lemma SignedProduct(q: int, b: int)
    ensures Abs(q * b) == Abs(q) * Abs(b)
    ensures q > 0 && b > 0 ==> q * b > 0
    ensures q < 0 && b < 0 ==> q * b > 0
    ensures q > 0 && b < 0 ==> q * b < 0
    ensures q < 0 && b > 0 ==> q * b < 0
  {
  }

  /** The comparison behind every multiplication guard. */
  lemma DivisionGuard(n: nat, b: nat, a: nat)
    requires b > 0
    ensures a > NatQuot(n, b) <==> a * b > n
  {
    var q := NatQuot(n, b);
    if a <= q {
      MulMonotone(a, q, b);
    } else {
      MulMonotone(q + 1, a, b);
    }
  }

  lemma MulMonotone(x: int, y: int, b: nat)
    requires x <= y
    ensures x * b <= y * b
  {
  }

  /** The guards write the result only on success; `before` is what the slot held before. */
  method AddI64(a: int64, b: int64, before: int64) returns (ok: bool, out: int64)
    ensures ok <==> Fits(a + b)
    ensures out == if ok then a + b else before
  {
    if (b > 0 && a > I64_MAX - b) || (b < 0 && a < I64_MIN - b) {
      return false, before;
    }
    return true, a + b;
  }

  method SubI64(a: int64, b: int64, before: int64) returns (ok: bool, out: int64)
    ensures ok <==> Fits(a - b)
    ensures out == if ok then a - b else before
  {
    if (b > 0 && a < I64_MIN + b) || (b < 0 && a > I64_MAX + b) {
      return false, before;
    }
    return true, a - b;
  }

  method MulI64(a: int64, b: int64, before: int64) returns (ok: bool, out: int64)
    ensures ok <==> Fits(a * b)
    ensures out == if ok then a * b else before
  {
    if a == 0 || b == 0 {
      return true, 0;
    }
    MulGuard(a, b);
    if a == I64_MIN && b == -1 {
      return false, before;
    }
    if b == I64_MIN && a == -1 {
      return false, before;
    }
    if a > 0 && b > 0 && a > Quot(I64_MAX, b) {
      return false, before;
    }
    if a < 0 && b < 0 && a < Quot(I64_MAX, b) {
      return false, before;
    }
    if a > 0 && b < 0 && b < Quot(I64_MIN, a) {
      return false, before;
    }
    if a < 0 && b > 0 && a < Quot(I64_MIN, b) {
      return false, before;
    }
    return true, a * b;
  }

  /** In each sign case the guard's comparison is exactly overflow of the product. */
  lemma MulGuard(a: int64, b: int64)
    requires a != 0 && b != 0
    ensures a > 0 && b > 0 ==> (a > Quot(I64_MAX, b) <==> !Fits(a * b))
    ensures a < 0 && b < 0 ==> (a < Quot(I64_MAX, b) <==> !Fits(a * b))
    ensures a > 0 && b < 0 ==> (b < Quot(I64_MIN, a) <==> !Fits(a * b))
    ensures a < 0 && b > 0 ==> (a < Quot(I64_MIN, b) <==> !Fits(a * b))
    ensures (a == I64_MIN && b == -1) || (b == I64_MIN && a == -1) ==> !Fits(a * b)
  {
    SignedProduct(a, b);
    if (a > 0) == (b > 0) {
      DivisionGuard(I64_MAX, Abs(b), Abs(a));
    } else if a > 0 {
      DivisionGuard(-I64_MIN, Abs(a), Abs(b));
      assert Abs(a) * Abs(b) == Abs(b) * Abs(a);
    } else {
      DivisionGuard(-I64_MIN, Abs(b), Abs(a));
    }
  }
}
