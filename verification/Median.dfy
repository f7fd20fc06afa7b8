/** The `median` block: a ring of at most 9 samples, copied and insertion-sorted for every output. */
module Median {
  import opened Common
  import opened CheckedMath
  import opened SlidingWindow

  const MAX_WINDOW: nat := 9

  predicate ValidWindow(window: nat) {
    1 <= window <= MAX_WINDOW
  }

  // ----- the median, by counting

  function Below(s: seq<int>, m: int): nat {
    if s == [] then 0 else Below(s[..|s| - 1], m) + (if s[|s| - 1] < m then 1 else 0)
  }

  function AtMost(s: seq<int>, m: int): nat {
    if s == [] then 0 else AtMost(s[..|s| - 1], m) + (if s[|s| - 1] <= m then 1 else 0)
  }

  /** `m` has rank |s|/2: at most that many samples are smaller, and more than that many are not larger. */
  predicate IsMedian(s: seq<int>, m: int) {
    Below(s, m) <= |s| / 2 < AtMost(s, m)
  }

  lemma {:induction false} AtMostIsBelowLarger(s: seq<int>, m: int, n: int)
    requires m < n
    ensures AtMost(s, m) <= Below(s, n)
  {
    if s != [] {
      AtMostIsBelowLarger(s[..|s| - 1], m, n);
    }
  }

  lemma {:induction false} CountedIsPresent(s: seq<int>, m: int)
    ensures Below(s, m) <= AtMost(s, m)
    ensures Below(s, m) < AtMost(s, m) ==> m in s
  {
    if s != [] {
      CountedIsPresent(s[..|s| - 1], m);
    }
  }

  /** The rank property picks out one value, and that value is one of the samples. */
  lemma MedianIsUnique(s: seq<int>, m: int, n: int)
    requires IsMedian(s, m)
    ensures m in s
    ensures IsMedian(s, n) ==> m == n
  {
    CountedIsPresent(s, m);
    if m < n {
      AtMostIsBelowLarger(s, m, n);
    } else if n < m {
      AtMostIsBelowLarger(s, n, m);
    }
  }

  lemma {:induction false} CountsAdd(a: seq<int>, b: seq<int>, m: int)
    ensures Below(a + b, m) == Below(a, m) + Below(b, m)
    ensures AtMost(a + b, m) == AtMost(a, m) + AtMost(b, m)
  {
    if b == [] {
      assert a + b == a;
    } else {
      var n := |b| - 1;
      CountsAdd(a, b[..n], m);
      assert (a + b)[..|a + b| - 1] == a + b[..n];
    }
  }

  // ----- insertion sort

  predicate Ascending(s: seq<int>) {
    forall i, j :: 0 <= i < j < |s| ==> s[i] <= s[j]
  }

  function Insert(s: seq<int>, key: int): seq<int> {
    if s == [] || s[|s| - 1] <= key then s + [key] else Insert(s[..|s| - 1], key) + [s[|s| - 1]]
  }

  function Sorted(s: seq<int>): seq<int> {
    if s == [] then [] else Insert(Sorted(s[..|s| - 1]), s[|s| - 1])
  }

  /** Where a linear search from the end stops is where the key goes. */
  lemma {:induction false} InsertAt(s: seq<int>, key: int, pos: nat)
    requires pos <= |s| && (pos > 0 ==> s[pos - 1] <= key)
    requires forall k :: pos <= k < |s| ==> s[k] > key
    ensures Insert(s, key) == s[..pos] + [key] + s[pos..]
  {
    if pos == |s| {
      assert s[..pos] == s && s[pos..] == [];
    } else {
      var n := |s| - 1;
      InsertAt(s[..n], key, pos);
      assert s[..n][..pos] == s[..pos] && s[..n][pos..] + [s[n]] == s[pos..];
    }
  }

  predicate AllAtMost(s: seq<int>, hi: int) {
    forall i :: 0 <= i < |s| ==> s[i] <= hi
  }

  lemma {:induction false} InsertBound(s: seq<int>, key: int, hi: int)
    requires AllAtMost(s, hi) && key <= hi
    ensures AllAtMost(Insert(s, key), hi)
  {
    if s != [] && s[|s| - 1] > key {
      InsertBound(s[..|s| - 1], key, hi);
    }
  }

  lemma {:induction false} InsertKeepsOrder(s: seq<int>, key: int)
    requires Ascending(s)
    ensures Ascending(Insert(s, key)) && |Insert(s, key)| == |s| + 1
  {
    if s != [] && s[|s| - 1] > key {
      var n := |s| - 1;
      InsertKeepsOrder(s[..n], key);
      InsertBound(s[..n], key, s[n]);
      var front := Insert(s[..n], key);
      assert AllAtMost(front, s[n]) && Insert(s, key) == front + [s[n]];
    }
  }

  lemma {:induction false} InsertCounts(s: seq<int>, key: int, m: int)
    ensures Below(Insert(s, key), m) == Below(s, m) + (if key < m then 1 else 0)
    ensures AtMost(Insert(s, key), m) == AtMost(s, m) + (if key <= m then 1 else 0)
  {
    if s == [] || s[|s| - 1] <= key {
      assert (s + [key])[..|s|] == s;
    } else {
      var n := |s| - 1;
      InsertCounts(s[..n], key, m);
      var front := Insert(s[..n], key);
      assert (front + [s[n]])[..|front|] == front;
    }
  }

  lemma {:induction false} SortedIsAPermutationInOrder(s: seq<int>, m: int)
    ensures Ascending(Sorted(s)) && |Sorted(s)| == |s|
    ensures Below(Sorted(s), m) == Below(s, m) && AtMost(Sorted(s), m) == AtMost(s, m)
  {
    if s != [] {
      var n := |s| - 1;
      SortedIsAPermutationInOrder(s[..n], m);
      InsertKeepsOrder(Sorted(s[..n]), s[n]);
      InsertCounts(Sorted(s[..n]), s[n], m);
    }
  }

  lemma {:induction false} CountsOfUniform(s: seq<int>, m: int)
    ensures (forall i :: 0 <= i < |s| ==> s[i] <= m) ==> AtMost(s, m) == |s|
    ensures (forall i :: 0 <= i < |s| ==> s[i] >= m) ==> Below(s, m) == 0
    ensures Below(s, m) <= |s|
  {
    if s != [] {
      CountsOfUniform(s[..|s| - 1], m);
    }
  }

  /** In an ascending sequence the element at position k has rank k. */
  lemma RankOfPosition(t: seq<int>, k: nat)
    requires Ascending(t) && k < |t|
    ensures Below(t, t[k]) <= k < AtMost(t, t[k])
  {
    hide Below, AtMost;
    var m := t[k];
    assert Below(t, m) <= k by {
      SplitCounts(t, k, m);
      CountsOfUniform(t[..k], m);
      CountsOfUniform(t[k..], m);
    }
    assert AtMost(t, m) >= k + 1 by {
      SplitCounts(t, k + 1, m);
      CountsOfUniform(t[..k + 1], m);
    }
  }

  lemma SplitCounts(t: seq<int>, k: nat, m: int)
    requires k <= |t|
    ensures Below(t, m) == Below(t[..k], m) + Below(t[k..], m)
    ensures AtMost(t, m) == AtMost(t[..k], m) + AtMost(t[k..], m)
  {
    CountsAdd(t[..k], t[k..], m);
    assert t == t[..k] + t[k..];
  }

  lemma MiddleOfSortedIsMedian(s: seq<int>)
    requires s != []
    ensures |Sorted(s)| == |s| && IsMedian(s, Sorted(s)[|s| / 2])
  {
    SortedIsAPermutationInOrder(s, 0);
    var m := Sorted(s)[|s| / 2];
    SortedIsAPermutationInOrder(s, m);
    RankOfPosition(Sorted(s), |s| / 2);
  }

  /** The block sorts the ring in storage order; the rank is the same in time order. */
  lemma RotationKeepsMedian(a: seq<int>, b: seq<int>, m: int)
    ensures IsMedian(a + b, m) <==> IsMedian(b + a, m)
  {
    CountsAdd(a, b, m);
    CountsAdd(b, a, m);
  }

  lemma StorageOrderMedian(samples: seq<int>, window: nat, count: nat, index: nat, seen: seq<int>, m: int)
    requires Ring(samples, window, count, index, seen)
    ensures IsMedian(samples[..count], m) <==> IsMedian(LastN(seen, window), m)
  {
    if count == window {
      RotationKeepsMedian(samples[..index], samples[index..window], m);
      assert samples[..index] + samples[index..window] == samples[..window];
    }
  }

  lemma InsertionDone(a: seq<int>, p: seq<int>, key: int, pos: nat)
    requires pos <= |p| && (pos > 0 ==> p[pos - 1] <= key) && |a| == |p| + 1
    requires forall k :: pos <= k < |p| ==> p[k] > key
    requires a[pos] == key && forall k :: 0 <= k < pos ==> a[k] == p[k]
    requires forall k :: pos <= k < |p| ==> a[k + 1] == p[k]
    ensures a == Insert(p, key)
  {
    InsertAt(p, key, pos);
  }

  /** The inner loop of the sort: cell `i` moves down to its place among the sorted cells before it. */
  method InsertCell(sorted: array<int64>, i: nat)
    requires i < sorted.Length
    modifies sorted
    ensures sorted[..i + 1] == Insert(old(sorted[..i]), old(sorted[i]))
    ensures sorted[i + 1..] == old(sorted[i + 1..])
  {
    var key := sorted[i];
    var j: int := i - 1;
    ghost var prefix: seq<int> := sorted[..i];
    while j >= 0 && sorted[j] > key
      invariant -1 <= j < i
      invariant forall k :: 0 <= k <= j ==> sorted[k] == prefix[k]
      invariant forall k :: j + 1 <= k < i ==> prefix[k] > key && sorted[k + 1] == prefix[k]
      invariant sorted[i + 1..] == old(sorted[i + 1..])
    {
      sorted[j + 1] := sorted[j];
      j := j - 1;
    }
    sorted[j + 1] := key;
    InsertionDone(sorted[..i + 1], prefix, key, j + 1);
  }

  lemma SortedStep(s: seq<int>, i: nat)
    requires i < |s|
    ensures Sorted(s[..i + 1]) == Insert(Sorted(s[..i]), s[i])
  {
    assert s[..i + 1][..i] == s[..i];
  }

  /** The sort of `median_process`, on the first `n` cells of the scratch array. */
  method InsertionSort(sorted: array<int64>, n: nat)
    requires 1 <= n <= sorted.Length
    modifies sorted
    ensures sorted[..n] == Sorted(old(sorted[..n]))
  {
    ghost var start: seq<int> := sorted[..];
    SortedStep(start, 0);
    assert start[..0] == [] && sorted[..1] == [start[0]];
    for i := 1 to n
      invariant sorted[..i] == Sorted(start[..i]) && sorted[i..] == start[i..]
    {
      SortedStep(start, i);
      assert sorted[i] == start[i] && sorted[i + 1..] == start[i + 1..];
      InsertCell(sorted, i);
    }
    assert start[..n] == old(sorted[..n]);
  }

  class MedianBlock {
    var window: nat
    var count: nat
    var index: nat
    const samples: array<int64>
    /** Every sample since the last reset. */
    ghost var seen: seq<int>

    ghost predicate Valid()
      reads this, samples
    {
      && ValidWindow(window) && samples.Length == MAX_WINDOW
      && Ring(samples[..], window, count, index, seen)
    }

    constructor (w: nat)
      requires ValidWindow(w)
      ensures Valid() && window == w && seen == [] && fresh(samples)
    {
      window, count, index, seen := w, 0, 0, [];
      samples := new int64[MAX_WINDOW](_ => 0);
    }

    method Reset()
      requires Valid()
      modifies this, samples
      ensures Valid() && window == old(window) && seen == []
    {
      forall i | 0 <= i < samples.Length {
        samples[i] := 0;
      }
      count, index, seen := 0, 0, [];
    }

    method Process(input: Option<Value>) returns (r: Result<int64, Errno>)
      requires Valid()
      modifies this, samples
      ensures Valid() && window == old(window)
      ensures input.None? ==> r == Err(EINVAL) && seen == old(seen)
      ensures input.Some? ==>
                && seen == old(seen) + [AsI64(input.value)]
                && r.Ok? && IsMedian(LastN(seen, window), r.value)
    {
      if input.None? {
        return Err(EINVAL);
      }
      hide Contents, LastN, Below, AtMost, IsMedian;
      TakeIn(AsI64(input.value));
      ghost var cells: seq<int> := samples[..];
      assert Ring(cells, window, count, index, seen);
      var n := count;
      var sorted := new int64[MAX_WINDOW](_ => 0);
      forall i | 0 <= i < n {
        sorted[i] := samples[i];
      }
      assert sorted[..n] == cells[..n];
      var middle := RankMiddle(sorted, n, cells[..n]);
      StorageOrderMedian(cells, window, count, index, seen, middle);
      r := Ok(middle);
    }

    /** The ring takes in one sample. */
    method TakeIn(sample: int64)
      requires Valid()
      modifies this, samples
      ensures Valid() && window == old(window) && count > 0
      ensures seen == old(seen) + [sample]
    {
      ghost var before := samples[..];
      if count < window {
        PushFilling(before, window, count, index, seen, sample);
        samples[count] := sample;
        assert samples[..] == before[count := sample];
        index := Advance(count, window);
        count := count + 1;
      } else {
        PushReplacing(before, window, count, index, seen, sample);
        samples[index] := sample;
        assert samples[..] == before[index := sample];
        index := Advance(index, window);
      }
      seen := seen + [sample];
    }
  }

  /** Sorts the copy and reads its middle cell. */
  method RankMiddle(sorted: array<int64>, n: nat, ghost ring: seq<int>) returns (m: int64)
    requires 0 < n <= sorted.Length && sorted[..n] == ring
    modifies sorted
    ensures IsMedian(ring, m)
  {
    InsertionSort(sorted, n);
    MiddleOfSortedIsMedian(ring);
    assert sorted[..n][n / 2] == sorted[n / 2];
    m := sorted[n / 2];
  }
}
