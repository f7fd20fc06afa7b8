/** A ring of the last `window` samples, as the moving average and the median keep it. */
module SlidingWindow {
  import opened Common

  /** Ring contents, oldest first. */
  function Contents(samples: seq<int>, window: nat, count: nat, index: nat): seq<int>
    requires count <= window <= |samples| && index < window
  {
    if count < window then samples[..count] else samples[index..window] + samples[..index]
  }

  /** The ring holds the last `window` of all samples `seen`. */
  ghost predicate Ring(samples: seq<int>, window: nat, count: nat, index: nat, seen: seq<int>) {
    && 1 <= window <= |samples|
    && count == (if |seen| < window then |seen| else window)
    && index < window
    && (count < window ==> index == count)
    && Contents(samples, window, count, index) == LastN(seen, window)
  }

  /** The ring position after `index`. */
  function After(index: nat, window: nat): (next: nat)
    requires index < window
    ensures next < window
  {
    if index + 1 == window then 0 else index + 1
  }

  /** `(index + 1) % window`, the way the blocks advance. */
  method Advance(index: nat, window: nat) returns (next: nat)
    requires index < window
    ensures next == After(index, window)
  {
    next := (index + 1) % window;
  }

  lemma PushFilling(samples: seq<int>, window: nat, count: nat, index: nat, seen: seq<int>, x: int)
    requires Ring(samples, window, count, index, seen) && count < window
    ensures Ring(samples[count := x], window, count + 1, After(count, window), seen + [x])
    ensures LastN(seen + [x], window) == LastN(seen, window) + [x]
  {
    var samples' := samples[count := x];
    assert samples'[..count + 1] == samples[..count] + [x];
    assert samples'[0..count + 1] + samples'[..0] == samples'[..count + 1];
  }

  lemma Rotate(samples: seq<int>, window: nat, index: nat, x: int)
    requires index < window <= |samples|
    ensures var before := samples[index..window] + samples[..index];
            Contents(samples[index := x], window, window, After(index, window)) == before[1..] + [x]
  {
    var samples' := samples[index := x];
    var before := samples[index..window] + samples[..index];
    assert before[1..] == samples[index + 1..window] + samples[..index];
    assert samples'[..index + 1] == samples[..index] + [x];
    assert samples'[index + 1..window] == samples[index + 1..window];
    if index + 1 == window {
      assert samples'[0..window] == samples'[..index + 1];
    }
  }

  lemma LastNFull<T>(seen: seq<T>, window: nat, x: T)
    requires 1 <= window <= |seen|
    ensures LastN(seen + [x], window) == LastN(seen, window)[1..] + [x]
  {
  }

  lemma PushReplacing(samples: seq<int>, window: nat, count: nat, index: nat, seen: seq<int>, x: int)
    requires Ring(samples, window, count, index, seen) && count == window
    ensures Ring(samples[index := x], window, count, After(index, window), seen + [x])
    ensures samples[index] == LastN(seen, window)[0]
    ensures LastN(seen + [x], window) == LastN(seen, window)[1..] + [x]
  {
    Rotate(samples, window, index, x);
    LastNFull(seen, window, x);
  }

  function Sum(s: seq<int>): int {
    if s == [] then 0 else Sum(s[..|s| - 1]) + s[|s| - 1]
  }

  lemma {:induction false} SumDropFirst(s: seq<int>)
    requires s != []
    ensures Sum(s) == s[0] + Sum(s[1..])
  {
    var n := |s| - 1;
    if n == 0 {
      assert s[..0] == [] == s[1..];
    } else {
      SumDropFirst(s[..n]);
      assert s[..n][1..] == s[1..][..n - 1];
    }
  }

  lemma SumAppend(s: seq<int>, x: int)
    ensures Sum(s + [x]) == Sum(s) + x
  {
    assert (s + [x])[..|s|] == s;
  }

  lemma {:induction false} SumBounds(s: seq<int>, lo: int, hi: int)
    requires forall i :: 0 <= i < |s| ==> lo <= s[i] <= hi
    ensures |s| * lo <= Sum(s) <= |s| * hi
  {
    if s != [] {
      var n := |s| - 1;
      SumBounds(s[..n], lo, hi);
      assert (n + 1) * lo == n * lo + lo && (n + 1) * hi == n * hi + hi;
    }
  }
}
