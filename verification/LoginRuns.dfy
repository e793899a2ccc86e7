/** Whole runs of the login gate: how many failed checks an address gets, and how large the table grows. */
module LoginRuns {
  import opened LoginGate

  datatype Event =
    | AllowEvent(ip: string, now: Time)
    | SuccessEvent(ip: string)
    | FailureEvent(ip: string, now: Time, dropped: set<string>)
    | QuitEvent(ip: string)   // an allowed request whose form cannot be read: no check takes place

  function Step(c: Config, t: Table, e: Event): Table {
    match e
    case AllowEvent(ip, now) => Allow(c, t, ip, now).1
    case SuccessEvent(ip) => t - {ip}
    case FailureEvent(ip, now, dropped) => Failure(c, t, ip, now, dropped)
    case QuitEvent(_) => t
  }

  function After(c: Config, t: Table, es: seq<Event>): Table
    decreases |es|
  {
    if es == [] then t else After(c, Step(c, t, es[0]), es[1..])
  }

  /** Every deletion by dropLocked is one it may make. */
  predicate Possible(c: Config, t: Table, es: seq<Event>)
    decreases |es|
  {
    es == [] ||
    ((es[0].FailureEvent? ==> DropAllowed(c, t, es[0].ip, es[0].now, es[0].dropped))
     && Possible(c, Step(c, t, es[0]), es[1..]))
  }

  // ---------------------------------------------------------------- collection and size

  /** Collection never forgets a locked-out address. */
  lemma CollectionKeepsLocked(c: Config, t: Table, ip: string, now: Time)
    requires ip in t && LockedOut(c, t[ip], now)
    ensures ip in Collected(c, t, now) && Collected(c, t, now)[ip] == t[ip]
  {
  }

  /** A failing address that is locked out, or any other locked-out address, survives a failure unless dropped. */
  lemma FailureKeepsLocked(c: Config, t: Table, ip: string, other: string, now: Time, dropped: set<string>)
    requires other in t && LockedOut(c, t[other], now) && other != ip && other !in dropped
    ensures other in Failure(c, t, ip, now, dropped) && Failure(c, t, ip, now, dropped)[other] == t[other]
  {
    assert other in FirstSweep(c, t, now) && FirstSweep(c, t, now)[other] == t[other];
    assert other in SecondSweep(c, t, now) && SecondSweep(c, t, now)[other] == t[other];
  }

  lemma SweepShrinks(c: Config, t: Table, now: Time)
    ensures |FirstSweep(c, t, now)| <= |t|
    ensures FirstSweep(c, t, now).Keys <= t.Keys
  {
    SmallerMap(FirstSweep(c, t, now), t);
  }

  lemma SmallerMap(a: Table, b: Table)
    requires a.Keys <= b.Keys
    ensures |a| <= |b|
  {
    SmallerSet(a.Keys, b.Keys);
  }

  lemma {:induction false} SmallerSet<T>(a: set<T>, b: set<T>)
    requires a <= b
    ensures |a| <= |b|
    decreases |a|
  {
    if a != {} {
      var x :| x in a;
      SmallerSet(a - {x}, b - {x});
    }
  }

  /** Adding one address to a table below the limit, or to half a table, stays within it. */
  lemma FailureKeepsLimit(c: Config, t: Table, ip: string, now: Time, dropped: set<string>)
    requires |t| <= c.Limit() && DropAllowed(c, t, ip, now, dropped)
    ensures |Failure(c, t, ip, now, dropped)| <= c.Limit()
  {
    var t1, t2 := FirstSweep(c, t, now), SecondSweep(c, t, now);
    SweepShrinks(c, t, now);
    if ip in t1 {
      SmallerMap(Failure(c, t, ip, now, dropped), t1);
    } else {
      SweepShrinks(c, t1, now);
      RoomForOne(c, t2, t2 - dropped, dropped);
      AddOne(Failure(c, t, ip, now, dropped), t2 - dropped, ip);
    }
  }

  lemma RoomForOne(c: Config, t: Table, rest: Table, dropped: set<string>)
    requires |t| <= c.Limit() && HalfDropped(c, t, dropped) && rest == t - dropped
    ensures |rest| < c.Limit()
  {
    assert rest.Keys == t.Keys - dropped;
    assert |rest| == |rest.Keys| && |t| == |t.Keys|;
    if |t| < c.Limit() {
      assert rest.Keys == t.Keys;
    }
  }

  lemma AddOne(a: Table, b: Table, ip: string)
    requires a.Keys == b.Keys + {ip}
    ensures |a| <= |b| + 1
  {
    assert |a| == |a.Keys| && |b| == |b.Keys|;
  }

  lemma StepKeepsLimit(c: Config, t: Table, e: Event)
    requires |t| <= c.Limit()
    requires e.FailureEvent? ==> DropAllowed(c, t, e.ip, e.now, e.dropped)
    ensures |Step(c, t, e)| <= c.Limit()
  {
    match e
    case AllowEvent(ip, now) => SmallerMap(Step(c, t, e), t);
    case SuccessEvent(ip) => SmallerMap(t - {ip}, t);
    case FailureEvent(ip, now, dropped) => FailureKeepsLimit(c, t, ip, now, dropped);
    case QuitEvent(_) =>
  }

  /** The table never exceeds its limit. */
  lemma {:induction false} TableStaysBounded(c: Config, t: Table, es: seq<Event>)
    requires |t| <= c.Limit() && Possible(c, t, es)
    ensures |After(c, t, es)| <= c.Limit()
    decreases |es|
  {
    if es != [] {
      StepKeepsLimit(c, t, es[0]);
      TableStaysBounded(c, Step(c, t, es[0]), es[1..]);
    }
  }

  /** The failure of `ip` may drop `p`, of all addresses. */
  ghost predicate MayForget(c: Config, t: Table, ip: string, p: string, now: Time) {
    exists dropped :: DropAllowed(c, t, ip, now, dropped) && p !in Failure(c, t, ip, now, dropped)
  }

  /** The keys to delete so that half the limit is left and `p` is not. */
  lemma {:induction false} ChooseDropped(keys: set<string>, p: string, keep: nat) returns (dropped: set<string>)
    requires p in keys && keep < |keys|
    ensures dropped <= keys && p in dropped && |keys - dropped| == keep
    decreases |keys|
  {
    if keep == |keys| - 1 {
      dropped := {p};
    } else {
      assert |keys - {p}| == |keys| - 1 > 0;
      var k :| k in keys - {p};
      dropped := ChooseDropped(keys - {k}, p, keep);
      assert keys - (dropped + {k}) == keys - {k} - dropped;
      dropped := dropped + {k};
    }
  }

  /**
    A locked-out address can be forgotten before its time exactly when a new address fails
    while the table is full of entries that no sweep removes.
   */
  lemma LockedOutForgottenExactlyWhen(c: Config, t: Table, ip: string, p: string, now: Time)
    requires p in t && LockedOut(c, t[p], now) && p != ip
    ensures MayForget(c, t, ip, p, now) <==>
            ip !in FirstSweep(c, t, now) && |SecondSweep(c, t, now)| >= c.Limit()
  {
    var t2 := SecondSweep(c, t, now);
    CollectionKeepsLocked(c, t, p, now);
    FailureKeepsLocked(c, t, ip, p, now, {});
    if ip !in FirstSweep(c, t, now) && |t2| >= c.Limit() {
      assert p in t2 && |t2.Keys| == |t2|;
      var dropped := ChooseDropped(t2.Keys, p, c.Limit() / 2);
      assert DropAllowed(c, t, ip, now, dropped) && p !in Failure(c, t, ip, now, dropped);
    }
    if MayForget(c, t, ip, p, now) {
      var dropped :| DropAllowed(c, t, ip, now, dropped) && p !in Failure(c, t, ip, now, dropped);
      if p !in dropped {
        FailureKeepsLocked(c, t, ip, p, now, dropped);
      }
    }
  }

  // ---------------------------------------------------------------- the sliding window

  function TimeOf(e: Event, otherwise: Time): Time {
    if e.SuccessEvent? || e.QuitEvent? then otherwise else e.now
  }

  predicate TimeOrdered(es: seq<Event>, from: Time)
    decreases |es|
  {
    es == [] || (from <= TimeOf(es[0], from) && TimeOrdered(es[1..], TimeOf(es[0], from)))
  }

  /** How many allowed requests of `p` are still on their way to their check. */
  function NextOpen(c: Config, t: Table, e: Event, p: string, open: int): int {
    if e.ip != p then open
    else match e
      case AllowEvent(_, now) => if Allow(c, t, p, now).0 then open + 1 else open
      case FailureEvent(_, _, _) => open - 1
      case QuitEvent(_) => open - 1
      case SuccessEvent(_) => open
  }

  /** `p` never succeeds, is never dropped, only checks when allowed and at most `k` times at once. */
  predicate Orderly(c: Config, t: Table, e: Event, p: string, open: int, k: int) {
    && (e.SuccessEvent? ==> e.ip != p)
    && (e.FailureEvent? ==> p !in e.dropped)
    && 0 <= NextOpen(c, t, e, p, open) <= k
  }

  /**
    Every step is orderly. Requests of `p` interleave freely up to `k` at a time; other
    addresses do as they please, short of getting `p` dropped.
   */
  predicate Disciplined(c: Config, t: Table, es: seq<Event>, p: string, open: int, k: int)
    decreases |es|
  {
    es == [] ||
    (Orderly(c, t, es[0], p, open, k)
     && Disciplined(c, Step(c, t, es[0]), es[1..], p, NextOpen(c, t, es[0], p, open), k))
  }

  function NextFails(e: Event, p: string, f: seq<Time>): seq<Time> {
    if e.FailureEvent? && e.ip == p then f + [e.now] else f
  }

  /** When the password checks of `p` failed, after the failures `f`. */
  function FailTimes(es: seq<Event>, p: string, f: seq<Time>): seq<Time>
    decreases |es|
  {
    if es == [] then f else FailTimes(es[1..], p, NextFails(es[0], p, f))
  }

  function Last(f: seq<Time>): Time
    requires f != []
  {
    f[|f| - 1]
  }

  predicate Sorted(f: seq<Time>) {
    forall i, j | 0 <= i <= j < |f| :: f[i] <= f[j]
  }

  /** Any n+1 consecutive failures span more than the lock time. */
  predicate WellSpaced(c: Config, n: int, f: seq<Time>)
    requires n > 0
  {
    forall i | 0 <= i && i + n < |f| :: f[i + n] > f[i] + c.lockFor
  }

  /** The most failures the entry of an address counts before it starts anew. */
  function Most(c: Config, k: int): (n: int)
    requires c.Valid() && k > 0
    ensures n > 0
  {
    c.maxFails + k - 1
  }

  /** The entry counts the failures since the last gap longer than the lock. */
  predicate CountsCycle(c: Config, a: Attempt, f: seq<Time>) {
    && 1 <= a.fails <= |f|
    && a.seen >= Last(f)
    && (a.fails < |f| ==> f[|f| - a.fails] > f[|f| - a.fails - 1] + c.lockFor)
    && (a.fails >= c.maxFails ==> a.until == Last(f) + c.lockFor)
  }

  /**
    How the entry of `p` remembers its past failures `f`. While it is locked nobody new gets
    in, so the count can only grow by the checks still open.
   */
  predicate Remembers(c: Config, k: int, t: Table, p: string, f: seq<Time>, open: int, now: Time)
    requires c.Valid() && k > 0
  {
    && Sorted(f) && (f != [] ==> Last(f) <= now)
    && WellSpaced(c, Most(c, k), f)
    && 0 <= open <= k
    && (p !in t ==> f == [] || now > Last(f) + c.lockFor)
    && (p in t ==>
          && CountsCycle(c, t[p], f)
          && t[p].fails <= Most(c, k)
          && (LockedOut(c, t[p], now) ==> t[p].fails + open <= Most(c, k)))
  }

  lemma CollectedMeansOld(c: Config, k: int, t: Table, p: string, f: seq<Time>, open: int, now: Time)
    requires c.Valid() && k > 0 && Remembers(c, k, t, p, f, open, now)
    ensures Remembers(c, k, Collected(c, t, now), p, f, open, now)
    ensures Remembers(c, k, FirstSweep(c, t, now), p, f, open, now)
  {
  }

  /** One more failure keeps failures well spaced as long as the current cycle is not full. */
  lemma SpacingGrows(c: Config, n: int, f: seq<Time>, fails: int, now: Time)
    requires n > 0 && Sorted(f) && WellSpaced(c, n, f) && (f != [] ==> Last(f) <= now)
    requires 1 <= fails <= n && fails <= |f| + 1
    requires fails <= |f| ==> (f + [now])[|f| + 1 - fails] > f[|f| - fails] + c.lockFor
    ensures Sorted(f + [now]) && WellSpaced(c, n, f + [now])
  {
    var g := f + [now];
    forall i | 0 <= i && i + n < |g| ensures g[i + n] > g[i] + c.lockFor {
      if i + n == |f| {
        assert g[|f|] >= g[|f| + 1 - fails] && f[|f| - fails] >= f[i];
      }
    }
  }

  /** A further failure starts a new cycle after a long gap or continues the current one. */
  lemma OneMoreFailure(c: Config, k: int, t: Table, p: string, f: seq<Time>, open: int, now: Time, t': Table)
    requires c.Valid() && k > 0 && Remembers(c, k, t, p, f, open, now) && open > 0
    requires p in t' && t'[p] == Failed(c, if p in t then t[p] else Attempt(0, 0, 0), now)
    ensures Remembers(c, k, t', p, f + [now], open - 1, now)
  {
    var a := t'[p];
    assert 1 <= a.fails <= |f| + 1 && a.fails <= Most(c, k);
    assert a.fails <= |f| ==> (f + [now])[|f| + 1 - a.fails] > f[|f| - a.fails] + c.lockFor by {
      if p in t && a.fails > 1 {
        assert t[p].fails == a.fails - 1;
      }
    }
    SpacingGrows(c, Most(c, k), f, a.fails, now);
    assert Last(f + [now]) == now;
  }

  lemma FailureRemembers(c: Config, k: int, t: Table, ip: string, now: Time, dropped: set<string>, p: string, f: seq<Time>, open: int)
    requires c.Valid() && k > 0 && Remembers(c, k, t, p, f, open, now)
    requires p !in dropped && (ip == p ==> open > 0)
    ensures Remembers(c, k, Failure(c, t, ip, now, dropped), p, if ip == p then f + [now] else f, if ip == p then open - 1 else open, now)
  {
    var t1, t' := FirstSweep(c, t, now), Failure(c, t, ip, now, dropped);
    CollectedMeansOld(c, k, t, p, f, open, now);
    CollectedMeansOld(c, k, t1, p, f, open, now);
    var base := if ip in t1 then t1 else SecondSweep(c, t, now);
    if ip == p {
      OneMoreFailure(c, k, base, p, f, open, now, t');
    } else {
      OtherFailureKeeps(c, k, base, t', p, f, open, now);
    }
  }

  /** Only the entry of `p` matters. */
  lemma OtherFailureKeeps(c: Config, k: int, t: Table, t': Table, p: string, f: seq<Time>, open: int, now: Time)
    requires c.Valid() && k > 0 && Remembers(c, k, t, p, f, open, now)
    requires (p in t' <==> p in t) && (p in t ==> t'[p] == t[p])
    ensures Remembers(c, k, t', p, f, open, now)
  {
  }

  lemma AllowRemembers(c: Config, k: int, t: Table, ip: string, now: Time, p: string, f: seq<Time>, open: int, from: Time)
    requires c.Valid() && k > 0 && Remembers(c, k, t, p, f, open, from) && from <= now
    requires ip == p && Allow(c, t, p, now).0 ==> open < k
    ensures Remembers(c, k, Allow(c, t, ip, now).1, p, f, if ip == p && Allow(c, t, p, now).0 then open + 1 else open, now)
  {
  }

  lemma StepRemembers(c: Config, k: int, t: Table, e: Event, p: string, f: seq<Time>, open: int, from: Time)
    requires c.Valid() && k > 0 && Remembers(c, k, t, p, f, open, from)
    requires from <= TimeOf(e, from) && Orderly(c, t, e, p, open, k)
    ensures Remembers(c, k, Step(c, t, e), p, NextFails(e, p, f), NextOpen(c, t, e, p, open), TimeOf(e, from))
  {
    match e
    case AllowEvent(ip, now) =>
      AllowRemembers(c, k, t, ip, now, p, f, open, from);
    case SuccessEvent(ip) =>
      OtherFailureKeeps(c, k, t, t - {ip}, p, f, open, from);
    case FailureEvent(ip, now, dropped) =>
      LaterRemembers(c, k, t, p, f, open, from, now);
      FailureRemembers(c, k, t, ip, now, dropped, p, f, open);
    case QuitEvent(ip) =>
  }

  lemma LaterRemembers(c: Config, k: int, t: Table, p: string, f: seq<Time>, open: int, from: Time, now: Time)
    requires c.Valid() && k > 0 && Remembers(c, k, t, p, f, open, from) && from <= now
    ensures Remembers(c, k, t, p, f, open, now)
  {
  }

  lemma {:induction false} SpacedOverRuns(c: Config, k: int, t: Table, es: seq<Event>, p: string, f: seq<Time>, open: int, from: Time)
    requires c.Valid() && k > 0 && Remembers(c, k, t, p, f, open, from)
    requires TimeOrdered(es, from) && Disciplined(c, t, es, p, open, k)
    ensures WellSpaced(c, Most(c, k), FailTimes(es, p, f)) && Sorted(FailTimes(es, p, f))
    decreases |es|
  {
    if es != [] {
      var e := es[0];
      StepRemembers(c, k, t, e, p, f, open, from);
      SpacedOverRuns(c, k, Step(c, t, e), es[1..], p, NextFails(e, p, f), NextOpen(c, t, e, p, open), TimeOf(e, from));
    }
  }

  /** The failures of one window of length `lockFor`, by position. */
  function InWindow(f: seq<Time>, start: Time, length: int): set<int> {
    set j | 0 <= j < |f| && start <= f[j] <= start + length
  }

  function Range(lo: int, n: nat): (r: set<int>)
    ensures |r| == n && forall j :: j in r <==> lo <= j < lo + n
  {
    if n == 0 then {} else Range(lo, n - 1) + {lo + (n - 1)}
  }

  lemma {:induction false} Least(f: seq<Time>, start: Time, length: int, from: nat, some: int) returns (lo: nat)
    requires some in InWindow(f, start, length) && forall j | j in InWindow(f, start, length) :: from <= j
    ensures lo in InWindow(f, start, length) && forall j | j in InWindow(f, start, length) :: lo <= j
    decreases |f| - from
  {
    if from in InWindow(f, start, length) {
      lo := from;
    } else {
      lo := Least(f, start, length, from + 1, some);
    }
  }

  lemma WindowHoldsFew(c: Config, n: nat, f: seq<Time>, start: Time, length: int)
    requires n > 0 && WellSpaced(c, n, f) && Sorted(f) && length <= c.lockFor
    ensures |InWindow(f, start, length)| <= n
  {
    var w := InWindow(f, start, length);
    if some :| some in w {
      var lo := Least(f, start, length, 0, some);
      forall j | lo + n <= j < |f| ensures j !in w {
        assert f[j] >= f[lo + n] > f[lo] + c.lockFor;
      }
      assert w <= Range(lo, n);
      SmallerSet(w, Range(lo, n));
    } else {
      assert w == {};
    }
  }

  /**
    In any window no longer than the lock, one address that never succeeds, is never dropped
    for room and has at most `k` requests between their allow and their check gets at most
    maxFails + k - 1 failed checks, whatever other addresses do otherwise and however often
    the table is swept.
   */
  lemma AtMostMaxFailsPerWindow(c: Config, k: int, es: seq<Event>, p: string, from: Time, start: Time, length: int)
    requires c.Valid() && k > 0 && TimeOrdered(es, from) && Disciplined(c, map[], es, p, 0, k) && length <= c.lockFor
    ensures |InWindow(FailTimes(es, p, []), start, length)| <= c.maxFails + k - 1
  {
    SpacedOverRuns(c, k, map[], es, p, [], 0, from);
    WindowHoldsFew(c, Most(c, k), FailTimes(es, p, []), start, length);
  }

  // ---------------------------------------------------------------- locks run out

  /** The entry of `p` is no stricter than its failures `f`: few of them, or a lock counted from the last. */
  predicate Lenient(c: Config, t: Table, p: string, f: seq<Time>) {
    p in t ==> t[p].fails <= |f| && (t[p].fails >= c.maxFails && f != [] ==> t[p].until <= Last(f) + c.lockFor)
  }

  lemma StepKeepsLenient(c: Config, t: Table, e: Event, p: string, f: seq<Time>)
    requires c.Valid() && Lenient(c, t, p, f)
    ensures Lenient(c, Step(c, t, e), p, NextFails(e, p, f))
  {
    if e.FailureEvent? {
      FailureCounts(c, t, e.ip, e.now, e.dropped);
      var t' := Failure(c, t, e.ip, e.now, e.dropped);
      assert e.ip != p && p in t' ==> p in t && t'[p] == t[p];
    }
  }

  lemma {:induction false} LenientOverRuns(c: Config, t: Table, es: seq<Event>, p: string, f: seq<Time>)
    requires c.Valid() && Lenient(c, t, p, f)
    ensures Lenient(c, After(c, t, es), p, FailTimes(es, p, f))
    decreases |es|
  {
    if es != [] {
      StepKeepsLenient(c, t, es[0], p, f);
      LenientOverRuns(c, Step(c, t, es[0]), es[1..], p, NextFails(es[0], p, f));
    }
  }

  /**
    After any run whatever, an address is let in again once its last failure lies longer ago
    than the lock, and always before it has failed maxFails times.
   */
  lemma LocksRunOut(c: Config, es: seq<Event>, p: string, now: Time)
    requires c.Valid()
    requires var f := FailTimes(es, p, []); |f| < c.maxFails || now > Last(f) + c.lockFor
    ensures Allow(c, After(c, map[], es), p, now).0
  {
    LenientOverRuns(c, map[], es, p, []);
  }

  // ---------------------------------------------------------------- the bound is reached

  function Allows(n: nat, p: string, at: Time): seq<Event> {
    if n == 0 then [] else [AllowEvent(p, at)] + Allows(n - 1, p, at)
  }

  function Failures(n: nat, p: string, at: Time): seq<Event> {
    if n == 0 then [] else [FailureEvent(p, at, {})] + Failures(n - 1, p, at)
  }

  /** m checks one after the other, then k at once. */
  function Rush(m: nat, k: nat, p: string, at: Time): seq<Event> {
    if m == 0 then Allows(k, p, at) + Failures(k, p, at)
    else [AllowEvent(p, at)] + ([FailureEvent(p, at, {})] + Rush(m - 1, k, p, at))
  }

  /** The table knows `p` alone, last seen at `at`, or nobody. */
  predicate Lone(t: Table, p: string, at: Time) {
    t.Keys <= {p} && (p in t ==> t[p].seen == at && t[p].fails > 0)
  }

  function FailsOf(t: Table, p: string): int { if p in t then t[p].fails else 0 }

  lemma LoneFailure(c: Config, t: Table, p: string, at: Time)
    requires c.Valid() && Lone(t, p, at) && (p in t ==> at <= t[p].until || t[p].fails < c.maxFails)
    ensures var t' := Failure(c, t, p, at, {});
            && DropAllowed(c, t, p, at, {}) && Lone(t', p, at) && FailsOf(t', p) == FailsOf(t, p) + 1
            && (at <= t'[p].until || t'[p].fails < c.maxFails)
  {
    if p in t {
      assert !Stale(c, t[p], at);
      assert FirstSweep(c, t, at) == t;
    } else {
      assert t == map[];
    }
  }

  predicate AllAt(f: seq<Time>, at: Time) {
    forall i | 0 <= i < |f| :: f[i] == at
  }

  /** A run at one moment by the rules, with `n` more failures than `f`. */
  predicate Goes(c: Config, k: int, t: Table, es: seq<Event>, p: string, open: int, at: Time, f: seq<Time>, n: nat) {
    && Possible(c, t, es) && TimeOrdered(es, at) && Disciplined(c, t, es, p, open, k)
    && AllAt(FailTimes(es, p, f), at) && |FailTimes(es, p, f)| == |f| + n
  }

  lemma AllowFirst(c: Config, k: int, t: Table, es: seq<Event>, p: string, open: int, at: Time, f: seq<Time>, n: nat)
    requires Lone(t, p, at) && FailsOf(t, p) < c.maxFails && 0 <= open < k
    requires Goes(c, k, t, es, p, open + 1, at, f, n)
    ensures Goes(c, k, t, [AllowEvent(p, at)] + es, p, open, at, f, n)
  {
    assert ([AllowEvent(p, at)] + es)[1..] == es;
    assert Allow(c, t, p, at) == (true, t) by {
      if p in t {
        assert t[p := t[p].(seen := at)] == t;
      }
    }
  }

  lemma FailureFirst(c: Config, k: int, t: Table, es: seq<Event>, p: string, open: int, at: Time, f: seq<Time>, n: nat)
    requires DropAllowed(c, t, p, at, {}) && 0 < open <= k + 1
    requires Goes(c, k, Failure(c, t, p, at, {}), es, p, open - 1, at, f + [at], n)
    ensures Goes(c, k, t, [FailureEvent(p, at, {})] + es, p, open, at, f, n + 1)
  {
    assert ([FailureEvent(p, at, {})] + es)[1..] == es;
  }

  lemma {:induction false} FailuresRun(c: Config, k: int, t: Table, n: nat, p: string, at: Time, f: seq<Time>)
    requires c.Valid() && n <= k && Lone(t, p, at) && (p in t ==> at <= t[p].until || t[p].fails < c.maxFails)
    requires AllAt(f, at)
    ensures Goes(c, k, t, Failures(n, p, at), p, n, at, f, n)
    decreases n
  {
    if n > 0 {
      LoneFailure(c, t, p, at);
      FailuresRun(c, k, Failure(c, t, p, at, {}), n - 1, p, at, f + [at]);
      FailureFirst(c, k, t, Failures(n - 1, p, at), p, n, at, f, n - 1);
    }
  }

  lemma OneMoreAllow(n: nat, p: string, at: Time, rest: seq<Event>)
    requires n > 0
    ensures Allows(n, p, at) + rest == [AllowEvent(p, at)] + (Allows(n - 1, p, at) + rest)
  {
  }

  lemma {:induction false} AllowsRun(c: Config, k: nat, t: Table, n: nat, p: string, at: Time, f: seq<Time>)
    requires c.Valid() && n <= k && Lone(t, p, at) && FailsOf(t, p) < c.maxFails && AllAt(f, at)
    ensures Goes(c, k, t, Allows(n, p, at) + Failures(k, p, at), p, k - n, at, f, k)
    decreases n
  {
    var fs := Failures(k, p, at);
    if n == 0 {
      assert Allows(0, p, at) + fs == fs;
      FailuresRun(c, k, t, k, p, at, f);
    } else {
      AllowsRun(c, k, t, n - 1, p, at, f);
      AllowFirst(c, k, t, Allows(n - 1, p, at) + fs, p, k - n, at, f, k);
      OneMoreAllow(n, p, at, fs);
    }
  }

  lemma {:induction false} RushRuns(c: Config, k: nat, t: Table, m: nat, p: string, at: Time, f: seq<Time>)
    requires c.Valid() && k > 0 && Lone(t, p, at) && FailsOf(t, p) + m == c.maxFails - 1 && AllAt(f, at)
    ensures Goes(c, k, t, Rush(m, k, p, at), p, 0, at, f, m + k)
    decreases m
  {
    if m == 0 {
      AllowsRun(c, k, t, k, p, at, f);
    } else {
      LoneFailure(c, t, p, at);
      RushRuns(c, k, Failure(c, t, p, at, {}), m - 1, p, at, f + [at]);
      FailureFirst(c, k, t, Rush(m - 1, k, p, at), p, 1, at, f, m - 1 + k);
      AllowFirst(c, k, t, [FailureEvent(p, at, {})] + Rush(m - 1, k, p, at), p, 0, at, f, m + k);
    }
  }

  lemma WholeWindow(f: seq<Time>, at: Time)
    requires AllAt(f, at)
    ensures |InWindow(f, at, 0)| == |f|
  {
    assert InWindow(f, at, 0) == Range(0, |f|);
  }

  /** The bound is exact for every k: requests that were all allowed before the lock fell use it up. */
  lemma BoundIsReached(c: Config, k: nat, p: string, at: Time)
    requires c.Valid() && k > 0
    ensures exists es ::
              && Possible(c, map[], es) && TimeOrdered(es, at) && Disciplined(c, map[], es, p, 0, k)
              && |InWindow(FailTimes(es, p, []), at, 0)| == c.maxFails + k - 1
  {
    RushRuns(c, k, map[], c.maxFails - 1, p, at, []);
    WholeWindow(FailTimes(Rush(c.maxFails - 1, k, p, at), p, []), at);
  }
}
