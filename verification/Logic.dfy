/** The two history-dependent logic blocks: hysteresis and debounce. */
module Logic {
  import opened Common
  import opened CheckedMath

  // ----- hysteresis

  datatype Hysteresis = Hysteresis(low: int, high: int, above: bool, hasState: bool)

  /** `hysteresis_validate`: equal thresholds are admitted. */
  predicate ValidThresholds(low: int, high: int) {
    low <= high
  }

  function HysteresisStep(h: Hysteresis, sample: int): Hysteresis {
    if !h.hasState then h.(above := sample >= h.high, hasState := true)
    else if h.above && sample <= h.low then h.(above := false)
    else if !h.above && sample >= h.high then h.(above := true)
    else h
  }

  function HysteresisRun(h: Hysteresis, samples: seq<int>): Hysteresis {
    if samples == [] then h
    else HysteresisStep(HysteresisRun(h, samples[..|samples| - 1]), samples[|samples| - 1])
  }

  class HysteresisBlock {
    var low: int64
    var high: int64
    var above: bool
    var hasState: bool

    function State(): Hysteresis
      reads this
    {
      Hysteresis(low, high, above, hasState)
    }

    constructor (low: int64, high: int64)
      requires ValidThresholds(low, high)
      ensures State() == Hysteresis(low, high, false, false)
    {
      this.low, this.high, above, hasState := low, high, false, false;
    }

    method Reset()
      modifies this`above, this`hasState
      ensures State() == Hysteresis(old(low), old(high), false, false)
    {
      above, hasState := false, false;
    }

    method Process(input: Option<Value>) returns (r: Result<bool, Errno>)
      modifies this`above, this`hasState
      ensures input.None? ==> r == Err(EINVAL) && State() == old(State())
      ensures input.Some? ==> State() == HysteresisStep(old(State()), AsI64(input.value)) && r == Ok(above)
    {
      if input.None? {
        return Err(EINVAL);
      }
      var sample := AsI64(input.value);
      if !hasState {
        above := sample >= high;
        hasState := true;
      } else if above && sample <= low {
        above := false;
      } else if !above && sample >= high {
        above := true;
      }
      r := Ok(above);
    }
  }

  predicate Decides(low: int, high: int, sample: int) {
    sample <= low || sample >= high
  }

  /** Whether the latest sample outside the open band was high; false while there was none. */
  function LatestDecision(low: int, high: int, samples: seq<int>): bool {
    if samples == [] then false
    else
      var last := samples[|samples| - 1];
      if Decides(low, high, last) then last >= high
      else LatestDecision(low, high, samples[..|samples| - 1])
  }

  function Fresh(low: int, high: int): Hysteresis {
    Hysteresis(low, high, false, false)
  }

  lemma {:induction false} HysteresisFollows(low: int, high: int, samples: seq<int>)
    requires low < high
    ensures var h := HysteresisRun(Fresh(low, high), samples);
            && h.low == low && h.high == high && h.hasState == (samples != [])
            && h.above == LatestDecision(low, high, samples)
  {
    if samples != [] {
      HysteresisFollows(low, high, samples[..|samples| - 1]);
    }
  }

  /**
   Among the thresholds validation admits, the output is the latest decision on every run exactly
   when they differ; with equal thresholds a repeated sample on them toggles the output.
   */
  lemma HysteresisIsExact(low: int, high: int)
    requires ValidThresholds(low, high)
    ensures (forall samples: seq<int> ::
               HysteresisRun(Fresh(low, high), samples).above == LatestDecision(low, high, samples))
       <==> low < high
  {
    if low < high {
      forall samples: seq<int>
        ensures HysteresisRun(Fresh(low, high), samples).above == LatestDecision(low, high, samples)
      {
        HysteresisFollows(low, high, samples);
      }
    } else {
      EqualThresholdsToggle(high);
    }
  }

  lemma EqualThresholdsToggle(level: int)
    ensures HysteresisRun(Fresh(level, level), [level, level]).above == false
    ensures LatestDecision(level, level, [level, level]) == true
  {
    var once := [level];
    assert [level, level][..1] == once && once[..0] == [];
    assert HysteresisRun(Fresh(level, level), []) == Fresh(level, level);
    assert HysteresisRun(Fresh(level, level), once) == Hysteresis(level, level, true, true);
  }

  // ----- debounce

  datatype Debounce = Debounce(required: nat, count: nat, candidate: bool, output: bool, hasCandidate: bool)

  predicate ValidSamples(required: nat) {
    1 <= required <= 1000
  }

  function DebounceStep(d: Debounce, sample: bool): Debounce {
    var d' := if !d.hasCandidate || sample != d.candidate then d.(candidate := sample, count := 1, hasCandidate := true)
              else if d.count < d.required then d.(count := d.count + 1)
              else d;
    if d'.count >= d'.required then d'.(output := d'.candidate) else d'
  }

  function DebounceRun(d: Debounce, samples: seq<bool>): Debounce {
    if samples == [] then d
    else DebounceStep(DebounceRun(d, samples[..|samples| - 1]), samples[|samples| - 1])
  }

  class DebounceBlock {
    var required: nat
    var count: nat
    var candidate: bool
    var output: bool
    var hasCandidate: bool

    function State(): Debounce
      reads this
    {
      Debounce(required, count, candidate, output, hasCandidate)
    }

    constructor (required: nat)
      requires ValidSamples(required)
      ensures State() == Debounce(required, 0, false, false, false)
    {
      this.required, count, candidate, output, hasCandidate := required, 0, false, false, false;
    }

    /** A reset keeps the old candidate bit but no longer trusts it. */
    method Reset()
      modifies this`count, this`hasCandidate, this`output
      ensures State() == Debounce(old(required), 0, old(candidate), false, false)
    {
      count, hasCandidate, output := 0, false, false;
    }

    method Process(input: Option<Value>) returns (r: Result<bool, Errno>)
      modifies this`count, this`candidate, this`output, this`hasCandidate
      ensures input.None? ==> r == Err(EINVAL) && State() == old(State())
      ensures input.Some? ==>
                State() == DebounceStep(old(State()), AsI64(input.value) != 0) && r == Ok(output)
    {
      if input.None? {
        return Err(EINVAL);
      }
      var sample := AsI64(input.value) != 0;
      if !hasCandidate || sample != candidate {
        candidate := sample;
        count := 1;
        hasCandidate := true;
      } else if count < required {
        count := count + 1;
      }
      if count >= required {
        output := candidate;
      }
      r := Ok(output);
    }
  }

  /** The `required` samples ending at position `i` are all the same. */
  predicate Stable(required: nat, samples: seq<bool>, i: nat)
    requires i < |samples|
  {
    required <= i + 1 && forall j :: i + 1 - required <= j <= i ==> samples[j] == samples[i]
  }

  /** The output is the sample at the latest stable position, or false when there is none. */
  predicate LatestStable(required: nat, samples: seq<bool>, output: bool) {
    if exists i :: 0 <= i < |samples| && Stable(required, samples, i) then
      exists i :: 0 <= i < |samples| && Stable(required, samples, i) && output == samples[i]
        && forall k :: i < k < |samples| ==> !Stable(required, samples, k)
    else output == false
  }

  /** What the counters mean after a run: the length, capped, of the final run of equal samples. */
  predicate Counts(d: Debounce, samples: seq<bool>) {
    && d.hasCandidate == (samples != [])
    && (samples != [] ==>
          && 1 <= d.count <= d.required && d.count <= |samples|
          && d.candidate == samples[|samples| - 1]
          && (forall j :: |samples| - d.count <= j < |samples| ==> samples[j] == d.candidate)
          && (d.count < d.required && d.count < |samples| ==> samples[|samples| - d.count - 1] != d.candidate))
  }

  /** Any state a reset leaves behind. */
  predicate JustReset(d: Debounce) {
    ValidSamples(d.required) && d.count == 0 && !d.output && !d.hasCandidate
  }

  lemma LastStable(required: nat, d: Debounce, samples: seq<bool>)
    requires 1 <= required == d.required && samples != [] && Counts(d, samples)
    ensures Stable(required, samples, |samples| - 1) <==> d.count >= required
  {
    if d.count < required && d.count < |samples| && required <= |samples| {
      var j := |samples| - d.count - 1;
      assert samples[j] != samples[|samples| - 1];
    }
  }

  lemma StableBefore(required: nat, samples: seq<bool>, i: nat)
    requires i + 1 < |samples| && required >= 1
    ensures Stable(required, samples, i) <==> Stable(required, samples[..|samples| - 1], i)
  {
    var before := samples[..|samples| - 1];
    assert forall j :: 0 <= j <= i ==> before[j] == samples[j];
  }

  lemma CountsStep(d: Debounce, samples: seq<bool>)
    requires samples != [] && ValidSamples(d.required) && Counts(d, samples[..|samples| - 1])
    ensures Counts(DebounceStep(d, samples[|samples| - 1]), samples)
  {
  }

  /** One more sample: it decides if it is stable, otherwise the earlier answer stands. */
  lemma LatestStableStep(required: nat, samples: seq<bool>, before: bool, output: bool)
    requires required >= 1 && samples != []
    requires LatestStable(required, samples[..|samples| - 1], before)
    requires var n := |samples| - 1;
             output == if Stable(required, samples, n) then samples[n] else before
    ensures LatestStable(required, samples, output)
  {
    var n := |samples| - 1;
    var front := samples[..n];
    forall i | 0 <= i < n
      ensures Stable(required, samples, i) <==> Stable(required, front, i)
    {
      StableBefore(required, samples, i);
    }
    if !Stable(required, samples, n) && exists i :: 0 <= i < n && Stable(required, front, i) {
      var i :| 0 <= i < n && Stable(required, front, i) && before == front[i]
               && forall k :: i < k < n ==> !Stable(required, front, k);
      assert Stable(required, samples, i) && output == samples[i];
    }
  }

  /** Over every run since a reset, the output is the sample at the latest stable position. */
  lemma {:induction false} DebounceFollows(d: Debounce, samples: seq<bool>)
    requires JustReset(d)
    ensures var e := DebounceRun(d, samples);
            e.required == d.required && Counts(e, samples) && LatestStable(d.required, samples, e.output)
  {
    if samples != [] {
      var n := |samples| - 1;
      DebounceFollows(d, samples[..n]);
      var before, after := DebounceRun(d, samples[..n]), DebounceRun(d, samples);
      CountsStep(before, samples);
      LastStable(d.required, after, samples);
      LatestStableStep(d.required, samples, before.output, after.output);
    }
  }
}
