/**
  The condition on the burst is exact: with a burst above two minutes' refill there is a
  run on which the collecting limiter admits a call the remembering one refuses.
 */
module LimiterLimits {
  import opened Limiter
  import opened LimiterRuns
  import opened Text

  const VICTIM := ""

  function Burst(n: nat, now: real): seq<Call> {
    seq(n, i => Call(VICTIM, now))
  }

  /** Calls of n further addresses. */
  function Crowd(n: nat, now: real): seq<Call> {
    seq(n, i requires i >= 0 => Call(Decimal(i), now))
  }

  lemma {:induction false} RunConcat(c: Config, t: Table, a: seq<Call>, b: seq<Call>, gc: bool)
    ensures Answers(c, t, a + b, gc) == Answers(c, t, a, gc) + Answers(c, After(c, t, a, gc), b, gc)
    ensures After(c, t, a + b, gc) == After(c, After(c, t, a, gc), b, gc)
    decreases |a|
  {
    if a == [] {
      assert a + b == b;
    } else {
      var (ok, t1) := Allow(c, t, a[0].ip, a[0].now, gc);
      assert (a + b)[1..] == a[1..] + b && (a + b)[0] == a[0];
      RunConcat(c, t1, a[1..], b, gc);
      var x, y := Answers(c, t1, a[1..], gc), Answers(c, After(c, t1, a[1..], gc), b, gc);
      assert Answers(c, t, a + b, gc) == [ok] + (x + y);
      assert [ok] + (x + y) == [ok] + x + y;
    }
  }

  predicate AllAt(t: Table, now: real) {
    forall ip | ip in t && ip != VICTIM :: t[ip].last == now
  }

  /** The victim's bucket, refilled, holds so many tokens. */
  predicate HasTokens(c: Config, t: Table, now: real, tokens: real) {
    Refilled(c, BucketOf(c, t, VICTIM, now), now) == Bucket(tokens, now)
  }

  /** One call takes one token of the refilled bucket, and collection spares the table. */
  lemma DrainOne(c: Config, t: Table, now: real, gc: bool, tokens: real)
    requires AllAt(t, now) && HasTokens(c, t, now, tokens) && tokens >= 1.0
    ensures var t' := t[VICTIM := Bucket(tokens - 1.0, now)];
            Allow(c, t, VICTIM, now, gc) == (true, t') && AllAt(t', now) && HasTokens(c, t', now, tokens - 1.0)
  {
    var t' := t[VICTIM := Bucket(tokens - 1.0, now)];
    assert Collected(t', now) == t';
  }

  function Yes(n: nat): (r: seq<bool>)
    ensures |r| == n && forall i | 0 <= i < n :: r[i]
  {
    if n == 0 then [] else [true] + Yes(n - 1)
  }

  lemma FirstOfBurst(c: Config, t: Table, n: nat, now: real, gc: bool)
    requires n > 0
    ensures var (ok, t') := Allow(c, t, VICTIM, now, gc);
            && Answers(c, t, Burst(n, now), gc) == [ok] + Answers(c, t', Burst(n - 1, now), gc)
            && After(c, t, Burst(n, now), gc) == After(c, t', Burst(n - 1, now), gc)
  {
    assert Burst(n, now)[1..] == Burst(n - 1, now);
  }

  /** n calls at one moment take n tokens and are all admitted; nothing is collected. */
  lemma {:induction false} Drained(c: Config, t: Table, n: nat, now: real, gc: bool, left: real)
    requires AllAt(t, now) && left >= 0.0 && HasTokens(c, t, now, left + n as real)
    ensures Answers(c, t, Burst(n, now), gc) == Yes(n)
    ensures n > 0 ==> After(c, t, Burst(n, now), gc) == t[VICTIM := Bucket(left, now)]
    decreases n
  {
    if n > 0 {
      var tokens := left + (n - 1) as real;
      var t1 := t[VICTIM := Bucket(tokens, now)];
      DrainOne(c, t, now, gc, tokens + 1.0);
      FirstOfBurst(c, t, n, now, gc);
      Drained(c, t1, n - 1, now, gc, left);
      assert t1[VICTIM := Bucket(left, now)] == t[VICTIM := Bucket(left, now)];
    }
  }

  /** Of n calls at one moment on fewer than n tokens the last is refused. */
  lemma {:induction false} LastRefused(c: Config, t: Table, n: nat, now: real)
    requires c.Valid() && n > 0 && VICTIM in t && t[VICTIM].last <= now
    requires Refilled(c, t[VICTIM], now).tokens < n as real
    ensures |Answers(c, t, Burst(n, now), false)| == n && !Answers(c, t, Burst(n, now), false)[n - 1]
    decreases n
  {
    var (ok, t1) := Allow(c, t, VICTIM, now, false);
    assert Burst(n, now)[1..] == Burst(n - 1, now);
    if n == 1 {
      assert Burst(0, now) == [];
    } else {
      assert Refilled(c, t1[VICTIM], now) == t1[VICTIM];
      LastRefused(c, t1, n - 1, now);
    }
  }

  /** The table after n of the crowd have called, none of them collected yet. */
  function CrowdTable(c: Config, t: Table, n: nat, now: real): Table {
    if n == 0 then t
    else
      var t' := CrowdTable(c, t, n - 1, now);
      t'[Decimal(n - 1) := Ask(c, Bucket(c.burst, now), now).1]
  }

  lemma {:induction false} CrowdTableShape(c: Config, t: Table, n: nat, now: real)
    requires c.Valid() && t.Keys == {VICTIM}
    ensures var t' := CrowdTable(c, t, n, now);
            && |t'| == n + 1 && VICTIM in t' && t'[VICTIM] == t[VICTIM] && AllAt(t', now)
            && (forall i: nat | i >= n :: Decimal(i) !in t')
  {
    if n == 0 {
      assert t == map[VICTIM := t[VICTIM]];
    } else {
      CrowdTableShape(c, t, n - 1, now);
      var t' := CrowdTable(c, t, n - 1, now);
      forall i: nat | i >= n ensures Decimal(i) !in CrowdTable(c, t, n, now) {
        if Decimal(i) == Decimal(n - 1) {
          DecimalInjective(i, n - 1);
        }
      }
    }
  }

  lemma CrowdGrows(n: nat, now: real)
    requires n > 0
    ensures Crowd(n, now) == Crowd(n - 1, now) + [Call(Decimal(n - 1), now)]
  {
  }

  lemma OneCall(c: Config, t: Table, call: Call, gc: bool)
    ensures After(c, t, [call], gc) == Allow(c, t, call.ip, call.now, gc).1
  {
    assert [call][1..] == [];
  }

  lemma {:induction false} CrowdRuns(c: Config, t: Table, n: nat, now: real, gc: bool)
    requires c.Valid() && t.Keys == {VICTIM} && n <= GC_ABOVE
    ensures |Answers(c, t, Crowd(n, now), gc)| == n
    ensures After(c, t, Crowd(n, now), gc) ==
            if gc && n == GC_ABOVE then Collected(CrowdTable(c, t, n, now), now) else CrowdTable(c, t, n, now)
  {
    AnswersLength(c, t, Crowd(n, now), gc);
    if n > 0 {
      var call := Call(Decimal(n - 1), now);
      CrowdGrows(n, now);
      RunConcat(c, t, Crowd(n - 1, now), [call], gc);
      CrowdRuns(c, t, n - 1, now, gc);
      CrowdTableShape(c, t, n - 1, now);
      CrowdTableShape(c, t, n, now);
      OneCall(c, CrowdTable(c, t, n - 1, now), call, gc);
    }
  }

  /** Empty the bucket, wait until its record is stale, let a crowd trigger collection, ask again. */
  function Witness(n: nat, late: real): seq<Call> {
    Burst(n, 0.0) + Crowd(GC_ABOVE, late) + Burst(n, late)
  }

  /** The last answer of the witness run is the last of its third stage. */
  lemma WitnessLast(c: Config, n: nat, late: real, emptied: Table, third: Table, gc: bool)
    requires n > 0
    requires After(c, map[], Burst(n, 0.0), gc) == emptied
    requires After(c, emptied, Crowd(GC_ABOVE, late), gc) == third
    ensures |Answers(c, map[], Witness(n, late), gc)| == n + GC_ABOVE + n
    ensures |Answers(c, third, Burst(n, late), gc)| == n
    ensures Answers(c, map[], Witness(n, late), gc)[n + GC_ABOVE + n - 1] == Answers(c, third, Burst(n, late), gc)[n - 1]
  {
    var first, crowd, last := Burst(n, 0.0), Crowd(GC_ABOVE, late), Burst(n, late);
    RunConcat(c, map[], first + crowd, last, gc);
    RunConcat(c, map[], first, crowd, gc);
    AnswersLength(c, map[], first + crowd, gc);
    AnswersLength(c, third, last, gc);
  }

  const EMPTIED: Table := map[VICTIM := Bucket(0.0, 0.0)]

  lemma FirstStageEmpties(c: Config, n: nat, gc: bool)
    requires c.Valid() && c.burst == n as real
    ensures n > 0 && After(c, map[], Burst(n, 0.0), gc) == EMPTIED
  {
    Drained(c, map[], n, 0.0, gc, 0.0);
  }

  /** The remembering limiter still holds the emptied bucket. */
  lemma RememberingRefuses(c: Config, n: nat, late: real)
    requires c.Valid() && c.burst == n as real && late > IDLE_AFTER && Gain(late, c.rps) < c.burst
    ensures var answers := Answers(c, map[], Witness(n, late), false);
            |answers| == n + GC_ABOVE + n && !answers[n + GC_ABOVE + n - 1]
  {
    FirstStageEmpties(c, n, false);
    var crowded := CrowdTable(c, EMPTIED, GC_ABOVE, late);
    CrowdTableShape(c, EMPTIED, GC_ABOVE, late);
    CrowdRuns(c, EMPTIED, GC_ABOVE, late, false);
    WitnessLast(c, n, late, EMPTIED, crowded, false);
    assert late - 0.0 == late;
    LastRefused(c, crowded, n, late);
  }

  /** The collecting limiter has forgotten the address and starts it with a full bucket. */
  lemma CollectingAdmits(c: Config, n: nat, late: real)
    requires c.Valid() && c.burst == n as real && late > IDLE_AFTER
    ensures var answers := Answers(c, map[], Witness(n, late), true);
            |answers| == n + GC_ABOVE + n && answers[n + GC_ABOVE + n - 1]
  {
    FirstStageEmpties(c, n, true);
    var crowded := CrowdTable(c, EMPTIED, GC_ABOVE, late);
    CrowdTableShape(c, EMPTIED, GC_ABOVE, late);
    CrowdRuns(c, EMPTIED, GC_ABOVE, late, true);
    var collected := Collected(crowded, late);
    WitnessLast(c, n, late, EMPTIED, collected, true);
    assert VICTIM !in collected && AllAt(collected, late);
    Drained(c, collected, n, late, true, 0.0);
  }

  lemma {:induction false} WitnessOrdered(calls: seq<Call>, at: real, from: real)
    requires from <= at && forall i | 0 <= i < |calls| :: calls[i].now == at
    ensures TimeOrdered(calls, from)
    decreases |calls|
  {
    if calls != [] {
      WitnessOrdered(calls[1..], at, at);
    }
  }

  lemma {:induction false} OrderedConcat(a: seq<Call>, b: seq<Call>, from: real, mid: real)
    requires TimeOrdered(a, from) && from <= mid && TimeOrdered(b, mid)
    requires forall i | 0 <= i < |a| :: a[i].now <= mid
    ensures TimeOrdered(a + b, from)
    decreases |a|
  {
    if a == [] {
      assert a + b == b;
      if b != [] { assert from <= b[0].now; }
    } else {
      assert (a + b)[1..] == a[1..] + b;
      OrderedConcat(a[1..], b, a[0].now, mid);
    }
  }

  ghost predicate Unobservable(c: Config) {
    forall calls: seq<Call>, from: real | TimeOrdered(calls, from) ::
      Answers(c, map[], calls, true) == Answers(c, map[], calls, false)
  }

  /** Eviction is unobservable exactly when the burst is at most two minutes' refill. */
  lemma UnobservableExactlyWhen(c: Config, n: nat)
    requires c.Valid() && c.burst == n as real
    ensures Unobservable(c) <==> c.burst <= Gain(120.0, c.rps)
  {
    if c.burst <= Gain(120.0, c.rps) {
      forall calls: seq<Call>, from: real | TimeOrdered(calls, from)
        ensures Answers(c, map[], calls, true) == Answers(c, map[], calls, false)
      {
        EvictionIsUnobservable(c, calls, from);
      }
    } else {
      var late := Halfway(c);
      RememberingRefuses(c, n, late);
      CollectingAdmits(c, n, late);
      var w := Witness(n, late);
      WitnessOrdered(Burst(n, 0.0), 0.0, 0.0);
      WitnessOrdered(Crowd(GC_ABOVE, late), late, late);
      WitnessOrdered(Burst(n, late), late, late);
      OrderedConcat(Burst(n, 0.0), Crowd(GC_ABOVE, late), 0.0, late);
      OrderedConcat(Burst(n, 0.0) + Crowd(GC_ABOVE, late), Burst(n, late), 0.0, late);
      assert TimeOrdered(w, 0.0);
    }
  }

  /** A moment after the idle limit at which the bucket is still not full. */
  lemma Halfway(c: Config) returns (late: real)
    requires c.Valid() && c.burst > Gain(120.0, c.rps)
    ensures late > IDLE_AFTER && Gain(late, c.rps) < c.burst
  {
    var full := c.burst / c.rps;
    assert full * c.rps == c.burst;
    if full <= 120.0 {
      GainIsMonotone(full, 120.0, c.rps);
    }
    late := (120.0 + full) / 2.0;
    assert Gain(late, c.rps) == (Gain(120.0, c.rps) + Gain(full, c.rps)) / 2.0;
  }
}
