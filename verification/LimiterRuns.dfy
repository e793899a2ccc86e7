/** Whole runs of the token-bucket limiter. */
module LimiterRuns {
  import opened Wrappers
  import opened Limiter

  datatype Call = Call(ip: string, now: real)

  function Answers(c: Config, t: Table, calls: seq<Call>, gc: bool): seq<bool>
    decreases |calls|
  {
    if calls == [] then []
    else
      var (ok, t') := Allow(c, t, calls[0].ip, calls[0].now, gc);
      [ok] + Answers(c, t', calls[1..], gc)
  }

  function After(c: Config, t: Table, calls: seq<Call>, gc: bool): Table
    decreases |calls|
  {
    if calls == [] then t
    else After(c, Allow(c, t, calls[0].ip, calls[0].now, gc).1, calls[1..], gc)
  }

  predicate TimeOrdered(calls: seq<Call>, from: real)
    decreases |calls|
  {
    calls == [] || (from <= calls[0].now && TimeOrdered(calls[1..], calls[0].now))
  }

  // ---------------------------------------------------------------- eviction is unobservable

  /** A bucket a collecting limiter may forget: idle past the limit, hence full when next asked. */
  predicate Same(c: Config, kept: Table, full: Table, now: real) {
    && kept.Keys <= full.Keys
    && (forall ip | ip in full :: 0.0 <= full[ip].tokens <= c.burst && full[ip].last <= now)
    && (forall ip | ip in kept :: kept[ip] == full[ip])
    && (forall ip | ip in full && ip !in kept :: now - full[ip].last > IDLE_AFTER)
  }

  lemma IdleIsFull(c: Config, b: Bucket, now: real)
    requires c.Valid() && c.burst <= Gain(120.0, c.rps) && 0.0 <= b.tokens <= c.burst && now - b.last > IDLE_AFTER
    ensures Refilled(c, b, now) == Bucket(c.burst, now)
  {
    GainIsMonotone(120.0, now - b.last, c.rps);
  }

  lemma AskStaysInRange(c: Config, b: Bucket, now: real)
    requires c.Valid() && 0.0 <= b.tokens <= c.burst
    ensures 0.0 <= Ask(c, b, now).1.tokens <= c.burst
    ensures Ask(c, b, now).1.last == if now > b.last then now else b.last
  {
    if now > b.last {
      GainIsMonotone(0.0, now - b.last, c.rps);
    }
  }

  lemma SameAfterUpdate(c: Config, kept: Table, full: Table, ip: string, b: Bucket, from: real, now: real)
    requires Same(c, kept, full, from) && from <= now
    requires 0.0 <= b.tokens <= c.burst && b.last <= now
    ensures Same(c, kept[ip := b], full[ip := b], now)
  {
  }

  lemma SameAfterCollection(c: Config, kept: Table, full: Table, now: real)
    requires Same(c, kept, full, now)
    ensures Same(c, Collected(kept, now), full, now)
  {
  }

  lemma StepStaysSame(c: Config, kept: Table, full: Table, call: Call, from: real)
    requires c.Valid() && c.burst <= Gain(120.0, c.rps)
    requires Same(c, kept, full, from) && from <= call.now
    ensures Allow(c, kept, call.ip, call.now, true).0 == Allow(c, full, call.ip, call.now, false).0
    ensures Same(c, Allow(c, kept, call.ip, call.now, true).1, Allow(c, full, call.ip, call.now, false).1, call.now)
  {
    var ip, now := call.ip, call.now;
    var bk, bf := BucketOf(c, kept, ip, now), BucketOf(c, full, ip, now);
    if ip in full && ip !in kept {
      IdleIsFull(c, bf, now);
      assert Refilled(c, bk, now) == bk;
    }
    var b := Ask(c, bf, now).1;
    assert Ask(c, bk, now) == Ask(c, bf, now);
    AskStaysInRange(c, bf, now);
    SameAfterUpdate(c, kept, full, ip, b, from, now);
    SameAfterCollection(c, kept[ip := b], full[ip := b], now);
  }

  lemma {:induction false} EvictionUnobservableFrom(c: Config, kept: Table, full: Table, calls: seq<Call>, from: real)
    requires c.Valid() && c.burst <= Gain(120.0, c.rps)
    requires Same(c, kept, full, from) && TimeOrdered(calls, from)
    ensures Answers(c, kept, calls, true) == Answers(c, full, calls, false)
    decreases |calls|
  {
    if calls != [] {
      StepStaysSame(c, kept, full, calls[0], from);
      EvictionUnobservableFrom(c, Allow(c, kept, calls[0].ip, calls[0].now, true).1,
                               Allow(c, full, calls[0].ip, calls[0].now, false).1, calls[1..], calls[0].now);
    }
  }

  /** With a burst of at most two minutes' refill, collecting idle buckets changes no answer. */
  lemma EvictionIsUnobservable(c: Config, calls: seq<Call>, from: real)
    requires c.Valid() && c.burst <= Gain(120.0, c.rps) && TimeOrdered(calls, from)
    ensures Answers(c, map[], calls, true) == Answers(c, map[], calls, false)
  {
    EvictionUnobservableFrom(c, map[], map[], calls, from);
  }

  // ---------------------------------------------------------------- the bound

  function AsInt(b: bool): int { if b then 1 else 0 }

  /** Admissions of one address. */
  function Admitted(calls: seq<Call>, answers: seq<bool>, ip: string): int
    requires |calls| == |answers|
    decreases |calls|
  {
    if calls == [] then 0
    else AsInt(answers[0] && calls[0].ip == ip) + Admitted(calls[1..], answers[1..], ip)
  }

  lemma {:induction false} AnswersLength(c: Config, t: Table, calls: seq<Call>, gc: bool)
    ensures |Answers(c, t, calls, gc)| == |calls|
    decreases |calls|
  {
    if calls != [] {
      AnswersLength(c, Allow(c, t, calls[0].ip, calls[0].now, gc).1, calls[1..], gc);
    }
  }

  /** No call of the run evicts this address. */
  predicate NeverEvicted(c: Config, t: Table, calls: seq<Call>, ip: string, gc: bool)
    decreases |calls|
  {
    calls == [] ||
    var t' := Allow(c, t, calls[0].ip, calls[0].now, gc).1;
    (ip in t || calls[0].ip == ip ==> ip in t') && NeverEvicted(c, t', calls[1..], ip, gc)
  }

  /** Where the bucket's clock starts: at its current reading, or at the call that creates it. */
  function ClockStart(t: Table, calls: seq<Call>, ip: string): real
    decreases |calls|
  {
    if ip in t then t[ip].last
    else if calls == [] then 0.0
    else if calls[0].ip == ip then calls[0].now
    else ClockStart(t, calls[1..], ip)
  }

  /** What a call gains is paid for by refill, whatever its timestamp. */
  lemma AskPays(c: Config, b: Bucket, now: real)
    requires c.Valid() && 0.0 <= b.tokens <= c.burst
    ensures var (ok, b') := Ask(c, b, now);
            && 0.0 <= b'.tokens <= c.burst && b.last <= b'.last
            && (AsInt(ok) as real) + b'.tokens <= b.tokens + Gain(b'.last - b.last, c.rps)
  {
    AskStaysInRange(c, b, now);
    if now > b.last {
      GainIsMonotone(0.0, now - b.last, c.rps);
    } else {
      assert b.last - b.last == 0.0 && Gain(0.0, c.rps) == 0.0;
    }
  }

  lemma {:induction false} BoundFrom(c: Config, t: Table, calls: seq<Call>, ip: string, gc: bool)
    requires c.Valid() && NeverEvicted(c, t, calls, ip, gc)
    requires ip in t && 0.0 <= t[ip].tokens <= c.burst
    ensures |Answers(c, t, calls, gc)| == |calls|
    ensures var t' := After(c, t, calls, gc);
            && ip in t' && 0.0 <= t'[ip].tokens <= c.burst && t[ip].last <= t'[ip].last
            && (Admitted(calls, Answers(c, t, calls, gc), ip) as real) + t'[ip].tokens
               <= t[ip].tokens + Gain(t'[ip].last - t[ip].last, c.rps)
    decreases |calls|
  {
    AnswersLength(c, t, calls, gc);
    if calls == [] {
      assert t[ip].last - t[ip].last == 0.0 && Gain(0.0, c.rps) == 0.0;
    } else {
      var (ok, t1) := Allow(c, t, calls[0].ip, calls[0].now, gc);
      if calls[0].ip == ip {
        AskPays(c, t[ip], calls[0].now);
      } else {
        assert t[ip].last - t[ip].last == 0.0 && Gain(0.0, c.rps) == 0.0;
      }
      BoundFrom(c, t1, calls[1..], ip, gc);
      var t' := After(c, t1, calls[1..], gc);
      assert Answers(c, t, calls, gc)[1..] == Answers(c, t1, calls[1..], gc);
      assert t1[ip].last >= t[ip].last;
      GainIsAdditive(t1[ip].last - t[ip].last, t'[ip].last - t1[ip].last, c.rps);
      assert t1[ip].last - t[ip].last + (t'[ip].last - t1[ip].last) == t'[ip].last - t[ip].last;
    }
  }

  /**
    As long as the address is not evicted, its admissions are at most the burst plus the
    refill over the advance of the bucket's own clock, even when timestamps arrive out of order.
   */
  lemma {:induction false} AdmissionsAreBounded(c: Config, t: Table, calls: seq<Call>, ip: string, gc: bool)
    requires c.Valid() && NeverEvicted(c, t, calls, ip, gc)
    requires ip in t ==> 0.0 <= t[ip].tokens <= c.burst
    ensures |Answers(c, t, calls, gc)| == |calls|
    ensures var t' := After(c, t, calls, gc);
            if ip in t' then
              Admitted(calls, Answers(c, t, calls, gc), ip) as real
              <= c.burst + Gain(t'[ip].last - ClockStart(t, calls, ip), c.rps)
            else Admitted(calls, Answers(c, t, calls, gc), ip) == 0
    decreases |calls|
  {
    AnswersLength(c, t, calls, gc);
    if ip in t {
      BoundFrom(c, t, calls, ip, gc);
    } else if calls != [] {
      var now := calls[0].now;
      var (ok, t1) := Allow(c, t, calls[0].ip, now, gc);
      assert Answers(c, t, calls, gc)[1..] == Answers(c, t1, calls[1..], gc);
      if calls[0].ip == ip {
        var b := Bucket(c.burst, now);
        AskPays(c, b, now);
        BoundFrom(c, t1, calls[1..], ip, gc);
        assert t1[ip].last == now;
      } else {
        AdmissionsAreBounded(c, t1, calls[1..], ip, gc);
        SameClockStart(t, t1, calls[1..], ip);
      }
    }
  }

  lemma {:induction false} SameClockStart(t: Table, t1: Table, calls: seq<Call>, ip: string)
    requires ip !in t && ip !in t1
    ensures ClockStart(t, calls, ip) == ClockStart(t1, calls, ip)
    decreases |calls|
  {
    if calls != [] {
      SameClockStart(t, t1, calls[1..], ip);
    }
  }

  lemma {:induction false} NothingEvictedWithoutGc(c: Config, t: Table, calls: seq<Call>, ip: string)
    ensures NeverEvicted(c, t, calls, ip, false)
    decreases |calls|
  {
    if calls != [] {
      NothingEvictedWithoutGc(c, Allow(c, t, calls[0].ip, calls[0].now, false).1, calls[1..], ip);
    }
  }

  /** Clocks only show times of calls. */
  lemma {:induction false} ClocksWithin(c: Config, t: Table, calls: seq<Call>, ip: string, from: real, upto: real, gc: bool)
    requires TimeOrdered(calls, from) && from <= upto && forall i | 0 <= i < |calls| :: calls[i].now <= upto
    requires ip in t ==> t[ip].last <= upto
    ensures ip in After(c, t, calls, gc) ==> After(c, t, calls, gc)[ip].last <= upto
    ensures ip !in t && ip in After(c, t, calls, gc) ==> from <= ClockStart(t, calls, ip)
    decreases |calls|
  {
    if calls != [] {
      var t1 := Allow(c, t, calls[0].ip, calls[0].now, gc).1;
      ClocksWithin(c, t1, calls[1..], ip, calls[0].now, upto, gc);
      if ip !in t && calls[0].ip != ip {
        SameClockStart(t, t1, calls[1..], ip);
      }
    }
  }

  /** The collecting limiter itself: over any time-ordered run, at most the burst plus the refill of its span. */
  lemma BoundHoldsUnderEviction(c: Config, calls: seq<Call>, ip: string, from: real, upto: real)
    requires c.Valid() && c.burst <= Gain(120.0, c.rps)
    requires TimeOrdered(calls, from) && from <= upto && forall i | 0 <= i < |calls| :: calls[i].now <= upto
    ensures |Answers(c, map[], calls, true)| == |calls|
    ensures Admitted(calls, Answers(c, map[], calls, true), ip) as real <= c.burst + Gain(upto - from, c.rps)
  {
    EvictionIsUnobservable(c, calls, from);
    NothingEvictedWithoutGc(c, map[], calls, ip);
    AdmissionsAreBounded(c, map[], calls, ip, false);
    ClocksWithin(c, map[], calls, ip, from, upto, false);
    var t' := After(c, map[], calls, false);
    if ip in t' {
      GainIsMonotone(t'[ip].last - ClockStart(map[], calls, ip), upto - from, c.rps);
    } else {
      GainIsMonotone(0.0, upto - from, c.rps);
    }
  }

  /** Token counts stay between zero and the burst in every reachable table. */
  predicate InRange(c: Config, t: Table) {
    forall ip | ip in t :: 0.0 <= t[ip].tokens <= c.burst
  }

  lemma {:induction false} TokensStayInRange(c: Config, t: Table, calls: seq<Call>, gc: bool)
    requires c.Valid() && InRange(c, t)
    ensures InRange(c, After(c, t, calls, gc))
    decreases |calls|
  {
    if calls != [] {
      AskStaysInRange(c, BucketOf(c, t, calls[0].ip, calls[0].now), calls[0].now);
      TokensStayInRange(c, Allow(c, t, calls[0].ip, calls[0].now, gc).1, calls[1..], gc);
    }
  }

  // ---------------------------------------------------------------- a well-spaced client

  /** Calls of `ip` are at least 1/rps apart, the first at least that long after `prev`. */
  predicate Spaced(c: Config, calls: seq<Call>, ip: string, prev: Option<real>)
    requires c.Valid()
    decreases |calls|
  {
    calls == [] ||
    if calls[0].ip == ip then
      (prev.Some? ==> Gain(calls[0].now - prev.value, c.rps) >= 1.0) && Spaced(c, calls[1..], ip, Some(calls[0].now))
    else Spaced(c, calls[1..], ip, prev)
  }

  lemma {:induction false} SpacedFrom(c: Config, t: Table, calls: seq<Call>, ip: string, prev: Option<real>, gc: bool)
    requires c.Valid() && Spaced(c, calls, ip, prev)
    requires ip in t ==> prev.Some? && t[ip].last == prev.value && t[ip].tokens >= 0.0
    ensures |Answers(c, t, calls, gc)| == |calls|
    ensures forall i | 0 <= i < |calls| && calls[i].ip == ip :: Answers(c, t, calls, gc)[i]
    decreases |calls|
  {
    AnswersLength(c, t, calls, gc);
    if calls != [] {
      var now := calls[0].now;
      var (ok, t1) := Allow(c, t, calls[0].ip, now, gc);
      var prev' := if calls[0].ip == ip then Some(now) else prev;
      if calls[0].ip == ip && ip in t {
        PositiveGap(now - prev.value, c.rps);
        assert Refilled(c, t[ip], now).tokens >= 1.0;
      }
      SpacedFrom(c, t1, calls[1..], ip, prev', gc);
      forall i | 0 <= i < |calls| && calls[i].ip == ip ensures Answers(c, t, calls, gc)[i] {
        if i > 0 {
          assert Answers(c, t, calls, gc)[i] == Answers(c, t1, calls[1..], gc)[i - 1];
          assert calls[1..][i - 1] == calls[i];
        }
      }
    }
  }

  lemma PositiveGap(d: real, rps: real)
    requires Gain(d, rps) >= 1.0 && rps > 0.0
    ensures d > 0.0
  {
    if d <= 0.0 {
      GainIsMonotone(d, 0.0, rps);
    }
  }

  /** A client whose calls are at least 1/rps apart is never refused, whatever the others do. */
  lemma WellSpacedNeverRefused(c: Config, calls: seq<Call>, ip: string, gc: bool)
    requires c.Valid() && Spaced(c, calls, ip, None)
    ensures |Answers(c, map[], calls, gc)| == |calls|
    ensures forall i | 0 <= i < |calls| && calls[i].ip == ip :: Answers(c, map[], calls, gc)[i]
  {
    SpacedFrom(c, map[], calls, ip, None, gc);
  }

  // ---------------------------------------------------------------- a refusal leaves no trace

  /** Every clock has been read by `now`, and no bucket overflows. */
  predicate Settled(c: Config, t: Table, now: real) {
    forall ip | ip in t :: 0.0 <= t[ip].tokens <= c.burst && t[ip].last <= now
  }

  lemma StepKeepsSettled(c: Config, t: Table, call: Call, from: real)
    requires c.Valid() && Settled(c, t, from) && from <= call.now
    ensures Settled(c, Allow(c, t, call.ip, call.now, false).1, call.now)
  {
    AskStaysInRange(c, BucketOf(c, t, call.ip, call.now), call.now);
  }

  /** `a` is `b` with some of its refill already entered. */
  predicate Advanced(c: Config, a: Bucket, b: Bucket, now: real) {
    && b.last <= a.last <= now
    && a.tokens == b.tokens + Gain(a.last - b.last, c.rps) <= c.burst
  }

  predicate AllAdvanced(c: Config, t: Table, u: Table, now: real) {
    t.Keys == u.Keys && forall ip | ip in t :: Advanced(c, t[ip], u[ip], now)
  }

  lemma NotAdvanced(c: Config, b: Bucket, now: real)
    requires b.last <= now && b.tokens <= c.burst
    ensures Advanced(c, b, b, now)
  {
    assert Gain(b.last - b.last, c.rps) == 0.0;
  }

  lemma AdvancedRefills(c: Config, a: Bucket, b: Bucket, from: real, now: real)
    requires Advanced(c, a, b, from) && from <= now
    ensures Refilled(c, a, now) == Refilled(c, b, now)
  {
    GainIsAdditive(a.last - b.last, now - a.last, c.rps);
    assert a.last - b.last + (now - a.last) == now - b.last;
    assert a.last == b.last ==> Gain(a.last - b.last, c.rps) == 0.0;
    assert now == a.last ==> Gain(now - a.last, c.rps) == 0.0;
  }

  lemma AdvancedAsks(c: Config, t: Table, u: Table, call: Call, from: real)
    requires c.Valid() && AllAdvanced(c, t, u, from) && from <= call.now
    ensures var (ok, t') := Allow(c, t, call.ip, call.now, false);
            var (ok', u') := Allow(c, u, call.ip, call.now, false);
            ok == ok' && AllAdvanced(c, t', u', call.now)
  {
    var ip, now := call.ip, call.now;
    if ip in t {
      AdvancedRefills(c, t[ip], u[ip], from, now);
    }
    var b := Ask(c, BucketOf(c, t, ip, now), now).1;
    assert b == Ask(c, BucketOf(c, u, ip, now), now).1;
    NotAdvanced(c, b, now);
  }

  lemma {:induction false} AdvancedAnswers(c: Config, t: Table, u: Table, calls: seq<Call>, from: real)
    requires c.Valid() && AllAdvanced(c, t, u, from) && TimeOrdered(calls, from)
    ensures Answers(c, t, calls, false) == Answers(c, u, calls, false)
    decreases |calls|
  {
    if calls != [] {
      AdvancedAsks(c, t, u, calls[0], from);
      AdvancedAnswers(c, Allow(c, t, calls[0].ip, calls[0].now, false).1,
                      Allow(c, u, calls[0].ip, calls[0].now, false).1, calls[1..], calls[0].now);
    }
  }

  /** A refused call only enters refill, which is less than the burst or it would not be refused. */
  lemma RefusalAdvances(c: Config, t: Table, call: Call, from: real)
    requires c.Valid() && Settled(c, t, from) && from <= call.now
    requires !Allow(c, t, call.ip, call.now, false).0
    ensures AllAdvanced(c, Allow(c, t, call.ip, call.now, false).1, t, call.now)
  {
    var ip, now := call.ip, call.now;
    var t' := Allow(c, t, ip, now, false).1;
    assert ip in t && t' == t[ip := Refilled(c, t[ip], now)];
    assert t[ip].last == now ==> Gain(now - t[ip].last, c.rps) == 0.0;
    forall q | q in t' ensures Advanced(c, t'[q], t[q], now) {
      if q != ip {
        NotAdvanced(c, t[q], now);
      }
    }
  }

  lemma OrderedEarlier(calls: seq<Call>, from: real, now: real)
    requires TimeOrdered(calls, now) && from <= now
    ensures TimeOrdered(calls, from)
  {
  }

  /** The answers to the other calls. */
  predicate SameWithout(c: Config, t: Table, a: seq<Call>, call: Call, b: seq<Call>, gc: bool) {
    var all := Answers(c, t, a + [call] + b, gc);
    |all| > |a| && Answers(c, t, a + b, gc) == all[..|a|] + all[|a| + 1..]
  }

  lemma CutBehindHead(head: bool, rest: seq<bool>, n: nat)
    requires n < |rest|
    ensures var all := [head] + rest; all[..n + 1] + all[n + 2..] == [head] + (rest[..n] + rest[n + 1..])
  {
  }

  lemma {:induction false} RefusalLeavesNoTrace(c: Config, t: Table, a: seq<Call>, call: Call, b: seq<Call>, from: real)
    requires c.Valid() && Settled(c, t, from) && TimeOrdered(a + [call] + b, from)
    requires |Answers(c, t, a + [call] + b, false)| > |a| && !Answers(c, t, a + [call] + b, false)[|a|]
    ensures SameWithout(c, t, a, call, b, false) && TimeOrdered(a + b, from)
    decreases |a|
  {
    var calls := a + [call] + b;
    var all := Answers(c, t, calls, false);
    var t' := Allow(c, t, calls[0].ip, calls[0].now, false).1;
    if a == [] {
      assert calls[1..] == b && a + b == b;
      RefusalAdvances(c, t, call, from);
      AdvancedAnswers(c, t', t, b, call.now);
      OrderedEarlier(b, from, call.now);
      assert all[..0] + all[1..] == all[1..];
    } else {
      assert calls[1..] == a[1..] + [call] + b && (a + b)[1..] == a[1..] + b;
      StepKeepsSettled(c, t, a[0], from);
      var rest := Answers(c, t', calls[1..], false);
      assert all == [all[0]] + rest;
      RefusalLeavesNoTrace(c, t', a[1..], call, b, a[0].now);
      CutBehindHead(all[0], rest, |a| - 1);
    }
  }

  /**
    A refused call is as good as never made: without it every other call gets the same
    answer. With a burst of at most two minutes' refill that holds while buckets are
    collected, too.
   */
  lemma RefusedCallsAreFree(c: Config, a: seq<Call>, call: Call, b: seq<Call>, from: real, gc: bool)
    requires c.Valid() && TimeOrdered(a + [call] + b, from) && (gc ==> c.burst <= Gain(120.0, c.rps))
    requires |Answers(c, map[], a + [call] + b, gc)| > |a| && !Answers(c, map[], a + [call] + b, gc)[|a|]
    ensures SameWithout(c, map[], a, call, b, gc)
  {
    if gc {
      EvictionIsUnobservable(c, a + [call] + b, from);
    }
    RefusalLeavesNoTrace(c, map[], a, call, b, from);
    if gc {
      EvictionIsUnobservable(c, a + b, from);
    }
  }
}
