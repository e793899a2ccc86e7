/** The bounded latency window and its percentiles (internal/metrics/metrics.go). */
module Metrics {

  const SAMPLE_LIMIT := 512

  /** The last `n` elements, or all of them. */
  function LastN(s: seq<int>, n: nat): seq<int> {
    if |s| <= n then s else s[|s| - n..]
  }

  /** What LastN leaves out comes first, and it leaves out no more than it must. */
  lemma LastNIsSuffix(s: seq<int>, n: nat)
    ensures var r := LastN(s, n);
            |r| == (if |s| < n then |s| else n) && s[..|s| - |r|] + r == s
  {
  }

  function Clamped(d: int): int { if d < 0 then 0 else d }

  function ClampAll(ds: seq<int>): (r: seq<int>)
    ensures |r| == |ds| && forall i | 0 <= i < |ds| :: r[i] == Clamped(ds[i])
  {
    seq(|ds|, i requires 0 <= i < |ds| => Clamped(ds[i]))
  }

  function SumPositive(bs: seq<int>): int {
    if bs == [] then 0 else SumPositive(bs[..|bs| - 1]) + Clamped(bs[|bs| - 1])
  }

  class Operation {
    var count: int
    var bytes: int
    var buffer: array<int>
    var n: nat

    ghost predicate Valid()
      reads this
    {
      buffer.Length == SAMPLE_LIMIT && n <= SAMPLE_LIMIT
    }

    /** The slice of samples. */
    ghost function Samples(): seq<int>
      requires Valid()
      reads this, buffer
    {
      buffer[..n]
    }

    constructor ()
      ensures Valid() && fresh(buffer) && Samples() == [] && count == 0 && bytes == 0
    {
      count, bytes, buffer, n := 0, 0, new int[SAMPLE_LIMIT], 0;
    }

    /** One observation: a full window moves down by one in place, then the sample is appended. */
    method Observe(duration: int, size: int)
      requires Valid()
      modifies this, buffer
      ensures Valid() && buffer == old(buffer)
      ensures count == old(count) + 1 && bytes == old(bytes) + (if size > 0 then size else 0)
      ensures Samples() == LastN(old(Samples()) + [if duration < 0 then 0 else duration], 512)
    {
      var d := if duration < 0 then 0 else duration;
      count := count + 1;
      if size > 0 {
        bytes := bytes + size;
      }
      ghost var was := Samples();
      if n == SAMPLE_LIMIT {
        DropOldest();
      }
      KeptSamples(was, Samples(), d);
      Append(d);
    }

    /** samples = samples[:copy(samples, samples[1:])] */
    method DropOldest()
      requires Valid() && n == SAMPLE_LIMIT
      modifies this`n, buffer
      ensures Valid() && n == SAMPLE_LIMIT - 1
      ensures Samples() == old(Samples())[1..]
    {
      var i := 0;
      while i < SAMPLE_LIMIT - 1
        invariant 0 <= i <= SAMPLE_LIMIT - 1
        invariant forall k | 0 <= k < i :: buffer[k] == old(buffer[k + 1])
        invariant forall k | i <= k < SAMPLE_LIMIT :: buffer[k] == old(buffer[k])
      {
        buffer[i] := buffer[i + 1];
        i := i + 1;
      }
      n := SAMPLE_LIMIT - 1;
    }

    method Append(d: int)
      requires Valid() && n < SAMPLE_LIMIT
      modifies this`n, buffer
      ensures Valid() && n == old(n) + 1
      ensures Samples() == old(Samples()) + [d]
    {
      buffer[n] := d;
      n := n + 1;
    }

    /** Any run of observations on a fresh collector. */
    method ObserveAll(durations: seq<int>, sizes: seq<int>)
      requires Valid() && Samples() == [] && count == 0 && bytes == 0 && |sizes| == |durations|
      modifies this, buffer
      ensures Valid()
      ensures count == |durations| && bytes == SumPositive(sizes)
      ensures Samples() == LastN(ClampAll(durations), SAMPLE_LIMIT)
      ensures n == (if |durations| < 512 then |durations| else 512)
      ensures forall i | 0 <= i < n ::
                var d := durations[|durations| - n + i];
                Samples()[i] == (if d < 0 then 0 else d)
    {
      for i := 0 to |durations|
        invariant Valid() && buffer == old(buffer)
        invariant count == i && bytes == SumPositive(sizes[..i])
        invariant Samples() == LastN(ClampAll(durations[..i]), SAMPLE_LIMIT)
      {
        WindowStep(ClampAll(durations[..i]), Clamped(durations[i]), SAMPLE_LIMIT);
        OneMore(durations, sizes, i);
        Observe(durations[i], sizes[i]);
      }
      assert durations[..|durations|] == durations && sizes[..|durations|] == sizes;
    }
  }

  /** Dropping the first of a full window and appending cuts the longer sequence to its end. */
  lemma KeptSamples(was: seq<int>, kept: seq<int>, d: int)
    requires |was| <= SAMPLE_LIMIT && kept == if |was| == SAMPLE_LIMIT then was[1..] else was
    ensures LastN(was + [d], SAMPLE_LIMIT) == kept + [d]
  {
    if |was| == SAMPLE_LIMIT {
      assert (was + [d])[1..] == was[1..] + [d];
    }
  }

  lemma OneMore(durations: seq<int>, sizes: seq<int>, i: nat)
    requires i < |durations| == |sizes|
    ensures ClampAll(durations[..i + 1]) == ClampAll(durations[..i]) + [Clamped(durations[i])]
    ensures SumPositive(sizes[..i + 1]) == SumPositive(sizes[..i]) + Clamped(sizes[i])
  {
    assert sizes[..i + 1][..i] == sizes[..i];
  }

  /** Cutting the window before or after appending makes no difference. */
  lemma WindowStep(s: seq<int>, d: int, n: nat)
    requires n > 0
    ensures LastN(LastN(s, n) + [d], n) == LastN(s + [d], n)
  {
    if |s| > n {
      assert (LastN(s, n) + [d])[1..] == s[|s| - n + 1..] + [d];
    }
  }

  // ---------------------------------------------------------------- percentiles

  predicate IsSorted(s: seq<int>) {
    forall i, j | 0 <= i <= j < |s| :: s[i] <= s[j]
  }

  function Insert(s: seq<int>, x: int): (r: seq<int>)
    requires IsSorted(s)
    ensures IsSorted(r)
    ensures |r| == |s| + 1 && r[0] == (if s == [] || x <= s[0] then x else s[0])
  {
    if s == [] || x <= s[0] then [x] + s else [s[0]] + Insert(s[1..], x)
  }

  lemma {:induction false} InsertContents(s: seq<int>, x: int)
    requires IsSorted(s)
    ensures multiset(Insert(s, x)) == multiset(s) + multiset{x}
  {
    if s != [] && x > s[0] {
      InsertContents(s[1..], x);
      assert s == [s[0]] + s[1..];
    }
  }

  /** Sorting a copy rearranges it; the samples stay in order of arrival. */
  method SortedCopy(samples: seq<int>) returns (s: seq<int>)
    ensures IsSorted(s) && multiset(s) == multiset(samples)
  {
    s := [];
    for i := 0 to |samples|
      invariant IsSorted(s) && multiset(s) == multiset(samples[..i])
    {
      InsertContents(s, samples[i]);
      TakeOneMore(samples, i);
      s := Insert(s, samples[i]);
    }
    assert samples[..|samples|] == samples;
  }

  lemma TakeOneMore(samples: seq<int>, i: nat)
    requires i < |samples|
    ensures multiset(samples[..i + 1]) == multiset(samples[..i]) + multiset{samples[i]}
  {
    assert samples[..i + 1] == samples[..i] + [samples[i]];
  }

  function Index(m: nat, p: nat): int { (m - 1) * p / 100 }

  function Percentile(sorted: seq<int>, p: nat): int
    requires p <= 100
  {
    if |sorted| == 0 then 0
    else
      IndexInRange(|sorted|, p);
      sorted[Index(|sorted|, p)]
  }

  lemma IndexInRange(m: nat, p: nat)
    requires m > 0 && p <= 100
    ensures 0 <= Index(m, p) < m
  {
    MulMonotone(m - 1, 0, p);
    MulMonotone(m - 1, p, 100);
    var x := (m - 1) * p;
    assert 0 <= x <= (m - 1) * 100;
    assert 0 <= x / 100 <= m - 1;
  }

  lemma MulMonotone(a: nat, p: nat, q: nat)
    requires p <= q
    ensures a * p <= a * q
  {
    assert a * (q - p) >= 0;
    assert a * q == a * p + a * (q - p);
  }

  lemma IndexMonotone(m: nat, p: nat, q: nat)
    requires m > 0 && p <= q <= 100
    ensures Index(m, p) <= Index(m, q)
  {
    MulMonotone(m - 1, p, q);
  }

  datatype OperationStats = OperationStats(count: int, bytes: int, samples: nat, p50: int, p95: int)

  /**
    The sample of rank k, counted from zero: at least k+1 samples lie at or below it and at
    least m-k at or above it.
   */
  ghost predicate HasRank(samples: seq<int>, v: int, k: int) {
    && v in samples
    && |set i | 0 <= i < |samples| && samples[i] <= v| >= k + 1
    && |set i | 0 <= i < |samples| && samples[i] >= v| >= |samples| - k
  }

  /** P50 and P95 by rank among the samples as they stand in the buffer; zero without samples. */
  method Summarize(op: Operation) returns (r: OperationStats)
    requires op.Valid()
    ensures r.count == op.count && r.bytes == op.bytes && r.samples == op.n
    ensures op.n == 0 ==> r.p50 == 0 && r.p95 == 0
    ensures op.n > 0 ==> HasRank(op.Samples(), r.p50, (op.n - 1) * 50 / 100)
    ensures op.n > 0 ==> HasRank(op.Samples(), r.p95, (op.n - 1) * 95 / 100)
    ensures r.p50 <= r.p95
  {
    var samples := op.buffer[..op.n];
    var s := SortedCopy(samples);
    SameLength(s, samples);
    if op.n > 0 {
      PercentileRank(samples, s, 50);
      PercentileRank(samples, s, 95);
    }
    PercentilesAreOrdered(s, 50, 95);
    r := OperationStats(op.count, op.bytes, |s|, Percentile(s, 50), Percentile(s, 95));
  }

  /** How many samples satisfy a bound. */
  function AtMost(s: seq<int>, v: int): nat {
    if s == [] then 0 else AtMost(s[..|s| - 1], v) + (if s[|s| - 1] <= v then 1 else 0)
  }

  function AtLeast(s: seq<int>, v: int): nat {
    if s == [] then 0 else AtLeast(s[..|s| - 1], v) + (if s[|s| - 1] >= v then 1 else 0)
  }

  lemma {:induction false} AtMostCounts(s: seq<int>, v: int)
    ensures AtMost(s, v) == |set i | 0 <= i < |s| && s[i] <= v|
  {
    if s != [] {
      var n := |s| - 1;
      AtMostCounts(s[..n], v);
      var all, init := set i | 0 <= i < |s| && s[i] <= v, set i | 0 <= i < n && s[..n][i] <= v;
      assert all == init + (if s[n] <= v then {n} else {});
    }
  }

  lemma {:induction false} AtLeastCounts(s: seq<int>, v: int)
    ensures AtLeast(s, v) == |set i | 0 <= i < |s| && s[i] >= v|
  {
    if s != [] {
      var n := |s| - 1;
      AtLeastCounts(s[..n], v);
      var all, init := set i | 0 <= i < |s| && s[i] >= v, set i | 0 <= i < n && s[..n][i] >= v;
      assert all == init + (if s[n] >= v then {n} else {});
    }
  }

  function Without(s: seq<int>, k: nat): (r: seq<int>)
    requires k < |s|
    ensures |r| == |s| - 1
  {
    s[..k] + s[k + 1..]
  }

  lemma {:induction false} RemoveCounts(s: seq<int>, k: nat, v: int)
    requires k < |s|
    ensures AtMost(s, v) == (if s[k] <= v then 1 else 0) + AtMost(Without(s, k), v)
    ensures AtLeast(s, v) == (if s[k] >= v then 1 else 0) + AtLeast(Without(s, k), v)
  {
    var n := |s| - 1;
    var t := Without(s, k);
    if k == n {
      assert t == s[..n];
    } else {
      RemoveCounts(s[..n], k, v);
      assert t[n - 1] == s[n] && t[..n - 1] == Without(s[..n], k);
    }
  }

  lemma RemoveContents(s: seq<int>, k: nat)
    requires k < |s|
    ensures multiset(Without(s, k)) == multiset(s) - multiset{s[k]}
  {
    assert s == s[..k] + [s[k]] + s[k + 1..];
  }

  lemma SameLength(s: seq<int>, t: seq<int>)
    requires multiset(s) == multiset(t)
    ensures |s| == |t|
  {
    assert |s| == |multiset(s)|;
  }

  lemma Find(x: int, t: seq<int>) returns (k: nat)
    requires x in multiset(t)
    ensures k < |t| && t[k] == x
  {
    k :| k < |t| && t[k] == x;
  }

  /** Counting does not depend on the order. */
  lemma {:induction false} CountsOfPermutation(s: seq<int>, t: seq<int>, v: int)
    requires multiset(s) == multiset(t)
    ensures AtMost(s, v) == AtMost(t, v) && AtLeast(s, v) == AtLeast(t, v) && |s| == |t|
    decreases |s|
  {
    SameLength(s, t);
    if s != [] {
      assert s[0] in multiset(s);
      var k := Find(s[0], t);
      RemoveContents(s, 0);
      RemoveContents(t, k);
      CountsOfPermutation(Without(s, 0), Without(t, k), v);
      RemoveCounts(s, 0, v);
      RemoveCounts(t, k, v);
    }
  }

  lemma SortedCounts(s: seq<int>, k: nat)
    requires IsSorted(s) && k < |s|
    ensures AtMost(s, s[k]) >= k + 1 && AtLeast(s, s[k]) >= |s| - k
  {
    PrefixAtMost(s, k, s[k]);
    SuffixAtLeast(s, k, s[k]);
  }

  lemma {:induction false} PrefixAtMost(s: seq<int>, k: int, v: int)
    requires -1 <= k < |s| && forall i | 0 <= i <= k :: s[i] <= v
    ensures AtMost(s, v) >= k + 1
    decreases |s|
  {
    if s != [] {
      var n := |s| - 1;
      PrefixAtMost(s[..n], if k == n then k - 1 else k, v);
    }
  }

  lemma {:induction false} SuffixAtLeast(s: seq<int>, k: nat, v: int)
    requires k <= |s| && forall i | k <= i < |s| :: s[i] >= v
    ensures AtLeast(s, v) >= |s| - k
    decreases |s|
  {
    if k < |s| {
      SuffixAtLeast(s[..|s| - 1], k, v);
    }
  }

  /** The percentile read off a sorted rearrangement has the rank (m-1)*p/100 among the m samples, rounded down. */
  lemma PercentileRank(samples: seq<int>, sorted: seq<int>, p: nat)
    requires samples != [] && p <= 100 && IsSorted(sorted) && multiset(sorted) == multiset(samples)
    ensures HasRank(samples, Percentile(sorted, p), (|samples| - 1) * p / 100)
  {
    SameLength(samples, sorted);
    var k, v := Index(|samples|, p), Percentile(sorted, p);
    IndexInRange(|samples|, p);
    SortedCounts(sorted, k);
    CountsOfPermutation(samples, sorted, v);
    AtMostCounts(samples, v);
    AtLeastCounts(samples, v);
    assert v in multiset(sorted);
  }

  lemma {:induction false} PositionsOf(w: set<int>, m: nat)
    requires forall i | i in w :: 0 <= i < m
    ensures |w| <= m
    decreases m
  {
    if m > 0 {
      PositionsOf(w - {m - 1}, m - 1);
    } else {
      assert forall i :: i !in w;
      assert |w| == 0;
    }
  }

  /** A rank leaves no choice: only one value has it. */
  lemma RankIsUnique(samples: seq<int>, v: int, w: int, k: int)
    requires HasRank(samples, v, k) && HasRank(samples, w, k)
    ensures v == w
  {
    NoSmallerRank(samples, v, w, k);
    NoSmallerRank(samples, w, v, k);
  }

  lemma NoSmallerRank(samples: seq<int>, v: int, w: int, k: int)
    requires HasRank(samples, v, k) && HasRank(samples, w, k)
    ensures !(v < w)
  {
    var low := set i | 0 <= i < |samples| && samples[i] <= v;
    var high := set i | 0 <= i < |samples| && samples[i] >= w;
    PositionsOf(low + high, |samples|);
    assert v < w ==> low !! high;
  }

  /** A higher percentile is never smaller; P50 is at most P95. */
  lemma PercentilesAreOrdered(sorted: seq<int>, p: nat, q: nat)
    requires p <= q <= 100 && IsSorted(sorted)
    ensures Percentile(sorted, p) <= Percentile(sorted, q)
  {
    if sorted != [] {
      IndexInRange(|sorted|, p);
      IndexInRange(|sorted|, q);
      IndexMonotone(|sorted|, p, q);
    }
  }
}
