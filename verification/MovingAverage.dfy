/** The `moving_average` block: a ring of at most 16 samples and a running, unchecked 64-bit sum. */
module MovingAverage {
  import opened Common
  import opened CheckedMath
  import opened SlidingWindow

  const MAX_WINDOW: nat := 16

  predicate ValidWindow(window: nat) {
    1 <= window <= MAX_WINDOW
  }

  /** The running sum stays inside int64 while one more sample is taken in. */
  predicate StepDefined(window: nat, seen: seq<int>, x: int) {
    && (|seen| >= window >= 1 ==> Fits(Sum(LastN(seen, window)[1..])))
    && Fits(Sum(LastN(seen + [x], window)))
  }

  /** The average of the last samples, in C division. */
  function Average(s: seq<int>): int
    requires s != []
  {
    Quot(Sum(s), |s|)
  }

  class MovingAverageBlock {
    var window: nat
    var count: nat
    var index: nat
    var sum: int64
    const samples: array<int64>
    /** Every sample since the last reset. */
    ghost var seen: seq<int>

    ghost predicate Valid()
      reads this, samples
    {
      && ValidWindow(window) && samples.Length == MAX_WINDOW
      && Ring(samples[..], window, count, index, seen)
      && sum == Sum(LastN(seen, window))
    }

    constructor (w: nat)
      requires ValidWindow(w)
      ensures Valid() && window == w && seen == [] && fresh(samples)
    {
      window, count, index, sum, seen := w, 0, 0, 0, [];
      samples := new int64[MAX_WINDOW](_ => 0);
    }

    method Reset()
      requires Valid()
      modifies this, samples
      ensures Valid() && window == old(window) && seen == []
    {
      forall i | 0 <= i < samples.Length {
        samples[i] := 0;
      }
      count, index, sum, seen := 0, 0, 0, [];
    }

    method Process(input: Option<Value>) returns (r: Result<int64, Errno>)
      requires Valid()
      requires input.Some? ==> StepDefined(window, seen, AsI64(input.value))
      modifies this, samples
      ensures Valid() && window == old(window)
      ensures input.None? ==> r == Err(EINVAL) && seen == old(seen)
      ensures input.Some? ==>
                && seen == old(seen) + [AsI64(input.value)]
                && LastN(seen, window) != [] && r == Ok(Average(LastN(seen, window)))
    {
      if window == 0 || input.None? {
        return Err(EINVAL);
      }
      TakeIn(AsI64(input.value));
      QuotShrinks(sum, count);
      r := Ok(Quot(sum, count));
    }

    /** The ring and the running sum take in one sample. */
    method TakeIn(sample: int64)
      requires Valid() && StepDefined(window, seen, sample)
      modifies this, samples
      ensures Valid() && window == old(window) && count > 0
      ensures seen == old(seen) + [sample]
    {
      hide Sum, LastN, Contents, After, StepDefined;
      TakeInSum(samples[..], window, count, index, seen, sample);
      if count < window {
        Fill(sample);
      } else {
        Replace(sample);
      }
    }

    method Fill(sample: int64)
      requires Valid() && count < window && Fits(sum + sample)
      requires Sum(LastN(seen + [sample], window)) == sum + sample
      modifies this, samples
      ensures Valid() && window == old(window) && count > 0
      ensures seen == old(seen) + [sample]
    {
      hide Sum, LastN, Contents, After;
      ghost var before: seq<int> := samples[..];
      PushFilling(before, window, count, index, seen, sample);
      samples[count] := sample;
      assert samples[..] == before[count := sample];
      sum := sum + sample;
      index := Advance(count, window);
      count := count + 1;
      seen := seen + [sample];
    }

    method Replace(sample: int64)
      requires Valid() && count == window && Fits(sum - samples[index]) && Fits(sum - samples[index] + sample)
      requires Sum(LastN(seen + [sample], window)) == sum - samples[index] + sample
      modifies this, samples
      ensures Valid() && window == old(window) && count > 0
      ensures seen == old(seen) + [sample]
    {
      hide Sum, LastN, Contents, After;
      ghost var before: seq<int> := samples[..];
      PushReplacing(before, window, count, index, seen, sample);
      sum := sum - samples[index];
      samples[index] := sample;
      assert samples[..] == before[index := sample];
      sum := sum + sample;
      index := Advance(index, window);
      seen := seen + [sample];
    }
  }

  /** The sums the block passes through: with the oldest sample out, then with the new one in. */
  lemma TakeInSum(samples: seq<int>, window: nat, count: nat, index: nat, seen: seq<int>, x: int)
    requires Ring(samples, window, count, index, seen) && StepDefined(window, seen, x)
    ensures var total := Sum(LastN(seen, window));
            && (count < window ==> Sum(LastN(seen + [x], window)) == total + x && Fits(total + x))
            && (count == window ==>
                  && Sum(LastN(seen + [x], window)) == total - samples[index] + x
                  && Fits(total - samples[index]) && Fits(total - samples[index] + x))
  {
    if count < window {
      PushFilling(samples, window, count, index, seen, x);
      SumAppend(LastN(seen, window), x);
    } else {
      PushReplacing(samples, window, count, index, seen, x);
      SumDropFirst(LastN(seen, window));
      SumAppend(LastN(seen, window)[1..], x);
    }
  }

  /** The average lies between any bounds of the samples. */
  lemma AverageIsBetween(s: seq<int>, lo: int, hi: int)
    requires s != [] && forall i :: 0 <= i < |s| ==> lo <= s[i] <= hi
    ensures lo <= Average(s) <= hi
  {
    hide Sum, Quot;
    SumBounds(s, lo, hi);
    QuotBetween(Sum(s), |s|, lo, hi);
  }

  /** The average times the number of samples misses their sum by less than that number, on the side of zero. */
  lemma AverageIsTruncated(s: seq<int>)
    requires s != []
    ensures var (sum, whole) := (Sum(s), Average(s) * |s|);
            Abs(whole) <= Abs(sum) < Abs(whole) + |s| && (whole == 0 || (whole > 0) == (sum > 0))
  {
    hide Quot;
    QuotIsTruncation(Sum(s), |s|);
  }

  lemma QuotBetween(a: int, n: nat, lo: int, hi: int)
    requires n > 0 && n * lo <= a <= n * hi
    ensures lo <= Quot(a, n) <= hi
  {
    hide Quot, Abs;
    var q := Quot(a, n);
    QuotIsTruncation(a, n);
    TruncatedIsNear(a, q * n, n);
    if q < lo {
      NextMultiple(q, lo, n);
    } else if q > hi {
      NextMultiple(hi, q, n);
    }
  }

  lemma TruncatedIsNear(a: int, p: int, n: nat)
    requires Abs(p) <= Abs(a) < Abs(p) + Abs(n) && (p == 0 || (p > 0) == (a > 0))
    ensures p - n < a < p + n
  {
  }

  lemma NextMultiple(x: int, y: int, n: nat)
    requires x < y
    ensures x * n + n <= y * n
  {
    MulMonotone(x + 1, y, n);
    assert (x + 1) * n == x * n + n;
  }

  // ----- overflow over whole runs

  predicate RunDefined(window: nat, zs: seq<int>) {
    forall i :: 0 <= i < |zs| ==> StepDefined(window, zs[..i], zs[i])
  }

  lemma SmallSumFits(s: seq<int>, window: nat, m: int)
    requires 0 <= m && |s| <= window && window * m <= I64_MAX && Bounded(m, s)
    ensures Fits(Sum(s))
  {
    SumBounds(s, -m, m);
    MulMonotone(|s|, window, m);
    assert |s| * -m == -(|s| * m);
  }

  lemma {:induction false} SumOfConstant(s: seq<int>, m: int)
    requires forall i :: 0 <= i < |s| ==> s[i] == m
    ensures Sum(s) == |s| * m
  {
    if s != [] {
      SumOfConstant(s[..|s| - 1], m);
      assert |s| * m == (|s| - 1) * m + m;
    }
  }

  /** The exact sample magnitude up to which no run can overflow the sum. */
  lemma OverflowThreshold(window: nat, m: int)
    requires ValidWindow(window) && 0 <= m <= I64_MAX
    ensures (forall zs: seq<int> | Bounded(m, zs) :: RunDefined(window, zs)) <==> window * m <= I64_MAX
  {
    if window * m <= I64_MAX {
      forall zs: seq<int>, i | Bounded(m, zs) && 0 <= i < |zs|
        ensures StepDefined(window, zs[..i], zs[i])
      {
        var seen := zs[..i];
        assert Bounded(m, LastN(seen + [zs[i]], window));
        SmallSumFits(LastN(seen + [zs[i]], window), window, m);
        if |seen| >= window {
          SmallSumFits(LastN(seen, window)[1..], window, m);
        }
      }
    } else {
      ConstantRunOverflows(window, m);
    }
  }

  lemma ConstantRunOverflows(window: nat, m: int)
    requires ValidWindow(window) && 0 <= m <= I64_MAX && window * m > I64_MAX
    ensures exists zs: seq<int> :: Bounded(m, zs) && !RunDefined(window, zs)
  {
    var zs := seq(window, _ => m);
    var i := window - 1;
    assert zs[..i] + [zs[i]] == zs;
    SumOfConstant(zs, m);
    assert Bounded(m, zs) && !StepDefined(window, zs[..i], zs[i]);
  }

  /** The largest window is safe up to a sixteenth of the int64 range. */
  lemma SafeMagnitude(window: nat, zs: seq<int>)
    requires ValidWindow(window) && Bounded(I64_MAX / 16, zs)
    ensures RunDefined(window, zs)
  {
    MulMonotone(window, 16, I64_MAX / 16);
    OverflowThreshold(window, I64_MAX / 16);
  }
}
