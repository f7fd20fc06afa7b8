/** The `map_range` block: linear interpolation between two ranges in guarded integer arithmetic. */
module MapRange {
  import opened Common
  import opened CheckedMath

  datatype Range = Range(inMin: int64, inMax: int64, outMin: int64, outMax: int64)

  /** `map_range_validate`, after the schema check: only an empty input range is refused. */
  predicate Validates(c: Range) {
    c.inMin != c.inMax
  }

  /** What one sample should give: which intermediate result, if any, leaves 64 bits, and the value. */
  function Mapped(c: Range, sample: int64): Result<int, Errno> {
    var x := Sat(sample, c.inMin, c.inMax);
    var inSpan, outSpan, num := c.inMax - c.inMin, c.outMax - c.outMin, x - c.inMin;
    if !Fits(inSpan) || inSpan == 0 then Err(EDOM)
    else if !Fits(outSpan) || !Fits(num) || !Fits(num * outSpan) then Err(ERANGE)
    else Ok(Quot(num * outSpan, inSpan) + c.outMin)
  }

  class MapRangeBlock {
    var inMin: int64
    var inMax: int64
    var outMin: int64
    var outMax: int64

    function Config(): Range
      reads this
    {
      Range(inMin, inMax, outMin, outMax)
    }

    constructor (c: Range)
      ensures Config() == c
    {
      inMin, inMax, outMin, outMax := c.inMin, c.inMax, c.outMin, c.outMax;
    }

    method Process(input: Option<Value>) returns (r: Result<int64, Errno>)
      ensures input.None? ==> r == Err(EINVAL)
      ensures input.Some? ==> r == Mapped(Config(), AsI64(input.value))
    {
      if input.None? {
        return Err(EINVAL);
      }
      var x := Sat(AsI64(input.value), inMin, inMax);
      ghost var sample := AsI64(input.value);
      var ok, inSpan := SubI64(inMax, inMin, 0);
      if !ok || inSpan == 0 {
        return Err(EDOM);
      }
      var outSpan: int64;
      ok, outSpan := SubI64(outMax, outMin, 0);
      if !ok {
        return Err(ERANGE);
      }
      var num: int64;
      ok, num := SubI64(x, inMin, 0);
      if !ok {
        return Err(ERANGE);
      }
      ok, num := MulI64(num, outSpan, num);
      if !ok {
        return Err(ERANGE);
      }
      // the source adds without a guard: the sum is an int64 because it lies between two of them
      MappedIsBetween(Config(), sample);
      var mapped: int64 := Quot(num, inSpan) + outMin;
      r := Ok(mapped);
    }
  }

  predicate Between(x: int, a: int, b: int) {
    a <= x <= b || b <= x <= a
  }

  /** `num / inSpan` of the way along `outSpan`, for `num` between 0 and `inSpan`, either sign of each. */
  lemma PartOfSpan(num: int, inSpan: int, outSpan: int)
    requires inSpan != 0 && Between(num, 0, inSpan)
    ensures Between(Quot(num * outSpan, inSpan), 0, outSpan)
  {
    var q := Quot(num * outSpan, inSpan);
    QuotIsTruncation(num * outSpan, inSpan);
    SignedProduct(q, inSpan);
    SignedProduct(num, outSpan);
    MulMonotone(Abs(num), Abs(inSpan), Abs(outSpan));
    if Abs(q) > Abs(outSpan) {
      MulMonotone(Abs(outSpan) + 1, Abs(q), Abs(inSpan));
    }
    SignOfPart(num, inSpan, outSpan);
  }

  lemma SignOfPart(num: int, inSpan: int, outSpan: int)
    requires inSpan != 0 && Between(num, 0, inSpan)
    ensures var q := Quot(num * outSpan, inSpan);
            (outSpan >= 0 ==> q >= 0) && (outSpan <= 0 ==> q <= 0)
  {
    SignedProduct(num, outSpan);
  }

  lemma SaturatedIsBetween(c: Range, sample: int64)
    ensures Between(Sat(sample, c.inMin, c.inMax) - c.inMin, 0, c.inMax - c.inMin)
  {
  }

  /** Every result lies between the two output bounds, in whichever order they are configured. */
  lemma MappedIsBetween(c: Range, sample: int64)
    ensures Mapped(c, sample).Ok? ==>
              Between(Mapped(c, sample).value, c.outMin, c.outMax) && Fits(Mapped(c, sample).value)
  {
    if Mapped(c, sample).Ok? {
      SaturatedIsBetween(c, sample);
      PartOfSpan(Sat(sample, c.inMin, c.inMax) - c.inMin, c.inMax - c.inMin, c.outMax - c.outMin);
    }
  }

  /** Interpolation: the result is the exact rational value, rounded toward `outMin`. */
  lemma MappedInterpolates(c: Range, sample: int64)
    requires Mapped(c, sample).Ok?
    ensures var num := Sat(sample, c.inMin, c.inMax) - c.inMin;
            var exact := num * (c.outMax - c.outMin);
            var scaled := (Mapped(c, sample).value - c.outMin) * (c.inMax - c.inMin);
            && Abs(scaled) <= Abs(exact) < Abs(scaled) + Abs(c.inMax - c.inMin)
            && (scaled == 0 || (scaled > 0) == (exact > 0))
  {
    var num := Sat(sample, c.inMin, c.inMax) - c.inMin;
    QuotIsTruncation(num * (c.outMax - c.outMin), c.inMax - c.inMin);
  }

  /** A sample inside an ordered range, in terms of the sample itself. */
  lemma InsideInterpolates(c: Range, sample: int64)
    requires c.inMin <= sample <= c.inMax && c.inMin < c.inMax && Mapped(c, sample).Ok?
    ensures var (exact, span) := ((sample - c.inMin) * (c.outMax - c.outMin), c.inMax - c.inMin);
            var moved := Mapped(c, sample).value - c.outMin;
            && Abs(moved) * span <= Abs(exact) < (Abs(moved) + 1) * span
            && (moved > 0 ==> exact > 0) && (moved < 0 ==> exact < 0)
  {
    MappedInterpolates(c, sample);
    NearestMultiple(Mapped(c, sample).value - c.outMin, c.inMax - c.inMin, (sample - c.inMin) * (c.outMax - c.outMin));
  }

  lemma NearestMultiple(moved: int, span: nat, exact: int)
    requires span > 0 && Abs(moved * span) <= Abs(exact) < Abs(moved * span) + span
    requires moved * span == 0 || (moved * span > 0) == (exact > 0)
    ensures Abs(moved) * span <= Abs(exact) < (Abs(moved) + 1) * span
    ensures (moved > 0 ==> exact > 0) && (moved < 0 ==> exact < 0)
  {
    SignedProduct(moved, span);
    assert (Abs(moved) + 1) * span == Abs(moved) * span + span;
  }

  lemma QuotOfMultiple(k: int, b: int)
    requires b != 0
    ensures Quot(b * k, b) == k
    ensures Quot(0, b) == 0
  {
    QuotIsTruncation(b * k, b);
    var q := Quot(b * k, b);
    SignedProduct(q, b);
    SignedProduct(k, b);
    SignedProduct(q - k, b);
    assert (q - k) * b == q * b - b * k;
    if q != k {
      MulMonotone(1, Abs(q - k), Abs(b));
    }
  }

  /** The ends are exact: at or below the start of an ordered range, and at or beyond its end. */
  lemma EndsAreExact(c: Range, sample: int64)
    requires c.inMin < c.inMax && Mapped(c, sample).Ok?
    ensures sample <= c.inMin ==> Mapped(c, sample) == Ok(c.outMin)
    ensures sample >= c.inMax ==> Mapped(c, sample) == Ok(c.outMax)
  {
    var inSpan, outSpan := c.inMax - c.inMin, c.outMax - c.outMin;
    QuotOfMultiple(outSpan, inSpan);
    if sample <= c.inMin {
      assert 0 * outSpan == 0;
    }
  }

  lemma NatQuotMonotone(a: nat, b: nat, d: nat)
    requires d > 0 && a <= b
    ensures NatQuot(a, d) <= NatQuot(b, d)
  {
    if NatQuot(a, d) > NatQuot(b, d) {
      MulMonotone(NatQuot(b, d) + 1, NatQuot(a, d), d);
    }
  }

  lemma QuotMonotone(a: int, b: int, d: int)
    requires d > 0 && a <= b
    ensures Quot(a, d) <= Quot(b, d)
  {
    QuotSign(a, d);
    QuotSign(b, d);
    if 0 <= a {
      NatQuotMonotone(a, b, d);
    } else if b <= 0 {
      NatQuotMonotone(-b, -a, d);
    }
  }

  /** A larger input never moves the result back, and if it is computable so is every smaller one. */
  lemma MappedIsMonotone(c: Range, x: int64, y: int64)
    requires c.inMin < c.inMax && x <= y && Mapped(c, y).Ok?
    ensures Mapped(c, x).Ok?
    ensures c.outMin <= c.outMax ==> Mapped(c, x).value <= Mapped(c, y).value
    ensures c.outMin >= c.outMax ==> Mapped(c, x).value >= Mapped(c, y).value
  {
    var inSpan, outSpan := c.inMax - c.inMin, c.outMax - c.outMin;
    var m, n := Sat(x, c.inMin, c.inMax) - c.inMin, Sat(y, c.inMin, c.inMax) - c.inMin;
    assert 0 <= m <= n;
    SignedProduct(m, outSpan);
    SignedProduct(n, outSpan);
    MulMonotone(m, n, Abs(outSpan));
    if outSpan >= 0 {
      QuotMonotone(m * outSpan, n * outSpan, inSpan);
    } else {
      QuotMonotone(n * outSpan, m * outSpan, inSpan);
    }
  }

  /** Validation admits a reversed input range; such a block is a two-valued switch. */
  lemma ReversedRangeIsASwitch(c: Range, sample: int64)
    requires c.inMin > c.inMax && Mapped(c, sample).Ok?
    ensures Mapped(c, sample) == Ok(if sample < c.inMin then c.outMin else c.outMax)
  {
    QuotOfMultiple(c.outMax - c.outMin, c.inMax - c.inMin);
    assert 0 * (c.outMax - c.outMin) == 0;
  }

  /**
   Exactly when a validated block answers a sample, and with which error otherwise: a domain error when the
   input span leaves 64 bits, a range error when the output span or the product does. Samples outside an
   ordered range count as its nearer end, and in a reversed one every sample counts as an end.
   */
  lemma MappedSucceedsExactly(c: Range, sample: int64)
    requires Validates(c)
    ensures var x := if c.inMin > c.inMax then (if sample < c.inMin then c.inMin else c.inMax)
                     else if sample < c.inMin then c.inMin else if sample > c.inMax then c.inMax else sample;
            && (Mapped(c, sample).Ok? <==> Fits(c.inMax - c.inMin) && Fits(c.outMax - c.outMin)
                                           && Fits((x - c.inMin) * (c.outMax - c.outMin)))
            && (Mapped(c, sample) == Err(EDOM) <==> !Fits(c.inMax - c.inMin))
            && (Mapped(c, sample).Err? ==> Mapped(c, sample).error == EDOM || Mapped(c, sample).error == ERANGE)
  {
    SaturatedIsBetween(c, sample);
  }
}
