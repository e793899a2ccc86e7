/** The login lock-out (internal/httpserver/login.go). Times and durations are nanoseconds. */
module LoginGate {

  type Time = int

  const MAX_MAP := 10_000
  const MINUTE := 60_000_000_000
  const SECOND := 1_000_000_000

  datatype Attempt = Attempt(fails: int, until: Time, seen: Time)
  type Table = map<string, Attempt>

  datatype Config = Config(maxFails: int, lockFor: int, maxMap: int) {
    predicate Valid() { maxFails > 0 && lockFor > 0 }

    function Limit(): (n: int)
      ensures n == (if maxMap < 1 then 10_000 else maxMap)
    {
      if maxMap < 1 then MAX_MAP else maxMap
    }

    /** The longer of the lock and a minute. */
    function Idle(): (n: int)
      ensures n >= lockFor && n >= 60_000_000_000 && (n == lockFor || n == 60_000_000_000)
    {
      if lockFor < MINUTE then MINUTE else lockFor
    }
  }

  /** newLoginGate's defaults. */
  function NewConfig(maxFails: int, lockFor: int): (c: Config)
    ensures c.Valid() && c.Limit() == MAX_MAP
    ensures c.maxFails == (if maxFails > 0 then maxFails else 5) && c.maxMap == 10_000
    ensures c.lockFor == (if lockFor > 0 then lockFor else 30_000_000_000)
  {
    Config(if maxFails <= 0 then 5 else maxFails, if lockFor <= 0 then 30 * SECOND else lockFor, MAX_MAP)
  }

  // ---------------------------------------------------------------- the operations on values

  predicate LockedOut(c: Config, a: Attempt, now: Time) { now <= a.until && a.fails >= c.maxFails }

  function Allow(c: Config, t: Table, ip: string, now: Time): (bool, Table) {
    if ip !in t then (true, t)
    else (!LockedOut(c, t[ip], now), t[ip := t[ip].(seen := now)])
  }

  predicate Stale(c: Config, a: Attempt, now: Time) { now > a.until && now - a.seen > c.Idle() }

  /** gcLocked. */
  function Collected(c: Config, t: Table, now: Time): Table {
    map ip | ip in t && !Stale(c, t[ip], now) :: t[ip]
  }

  /** The entry after one more failed check. */
  function Failed(c: Config, a: Attempt, now: Time): Attempt {
    var fails := (if now > a.until && a.fails >= c.maxFails then 0 else a.fails) + 1;
    Attempt(fails, if fails >= c.maxFails then now + c.lockFor else a.until, now)
  }

  function FirstSweep(c: Config, t: Table, now: Time): Table {
    if |t| >= c.Limit() then Collected(c, t, now) else t
  }

  /** The table before a new address is added and before anything is dropped. */
  function SecondSweep(c: Config, t: Table, now: Time): Table {
    FirstSweep(c, FirstSweep(c, t, now), now)
  }

  /** What dropLocked(limit/2) may delete: map order is arbitrary, only the number left is fixed. */
  predicate HalfDropped(c: Config, t: Table, dropped: set<string>) {
    if |t| >= c.Limit() then dropped <= t.Keys && |t.Keys - dropped| == c.Limit() / 2
    else dropped == {}
  }

  /** Only a new address can need room. */
  predicate DropAllowed(c: Config, t: Table, ip: string, now: Time, dropped: set<string>) {
    if ip in FirstSweep(c, t, now) then dropped == {}
    else HalfDropped(c, SecondSweep(c, t, now), dropped)
  }

  /** The table in which failure finds or makes the entry. */
  function Prepared(c: Config, t: Table, ip: string, now: Time, dropped: set<string>): (r: Table)
    ensures ip in r
  {
    var t1 := FirstSweep(c, t, now);
    if ip in t1 then t1 else (SecondSweep(c, t, now) - dropped)[ip := Attempt(0, 0, 0)]
  }

  function Failure(c: Config, t: Table, ip: string, now: Time, dropped: set<string>): Table {
    var t' := Prepared(c, t, ip, now, dropped);
    t'[ip := Failed(c, t'[ip], now)]
  }

  // ---------------------------------------------------------------- what they come to

  /** Whether a table at its limit loses the entry of `ip` before a failure of `ip` is counted. */
  predicate Swept(c: Config, t: Table, ip: string, now: Time) {
    && |t| >= c.Limit() && ip in t
    && now > t[ip].until && now - t[ip].seen > c.lockFor && now - t[ip].seen > 60_000_000_000
  }

  /** The other addresses keep what they have, and only a full table forgets any of them. */
  lemma FailureKeepsOthers(c: Config, t: Table, ip: string, now: Time, dropped: set<string>, q: string)
    requires q != ip && DropAllowed(c, t, ip, now, dropped)
    ensures var t' := Failure(c, t, ip, now, dropped);
            && (q in t' ==> q in t && t'[q] == t[q])
            && (q in t && |t| < c.Limit() ==> q in t')
  {
  }

  lemma NothingStale(c: Config, t: Table, now: Time)
    requires forall q | q in t ::
               now <= t[q].until || now - t[q].seen <= c.lockFor || now - t[q].seen <= 60_000_000_000
    ensures Collected(c, t, now) == t && FirstSweep(c, t, now) == t && SecondSweep(c, t, now) == t
  {
    assert Collected(c, t, now) == t;
  }

  lemma OneAdded(t: Table, dropped: set<string>, ip: string, a: Attempt)
    requires ip !in t
    ensures |(t - dropped)[ip := a]| == |t.Keys - dropped| + 1
  {
    var left := t - dropped;
    var more := left[ip := a];
    assert left.Keys == t.Keys - dropped && more.Keys == left.Keys + {ip};
    assert |more| == |more.Keys|;
  }

  /** A new address that finds the table full of entries no sweep removes halves it. */
  lemma FullTableIsHalved(c: Config, t: Table, ip: string, now: Time, dropped: set<string>)
    requires c.Limit() <= |t| && ip !in t && DropAllowed(c, t, ip, now, dropped)
    requires forall q | q in t ::
               now <= t[q].until || now - t[q].seen <= c.lockFor || now - t[q].seen <= 60_000_000_000
    ensures |Failure(c, t, ip, now, dropped)| == c.Limit() / 2 + 1
  {
    NothingStale(c, t, now);
    var a := Failed(c, Attempt(0, 0, 0), now);
    OneAdded(t, dropped, ip, a);
    assert Failure(c, t, ip, now, dropped) == (t - dropped)[ip := a];
  }

  /**
    A failure makes one more than the failures remembered, or one when a lock has just run
    out, and locks from the limit on; an address is remembered unless it was swept.
   */
  lemma FailureCounts(c: Config, t: Table, ip: string, now: Time, dropped: set<string>)
    ensures var t' := Failure(c, t, ip, now, dropped);
            && ip in t' && t'[ip].seen == now
            && (ip !in t || Swept(c, t, ip, now) ==> t'[ip].fails == 1)
            && (ip in t && !Swept(c, t, ip, now) ==>
                  t'[ip].fails == (if now > t[ip].until && t[ip].fails >= c.maxFails then 1 else t[ip].fails + 1))
            && (t'[ip].fails >= c.maxFails ==> t'[ip].until == now + c.lockFor)
            && (t'[ip].fails < c.maxFails ==>
                  t'[ip].until == if ip in t && !Swept(c, t, ip, now) then t[ip].until else 0)
  {
  }

  // ---------------------------------------------------------------- the object

  class Cell {
    var value: Attempt

    constructor (value: Attempt)
      ensures this.value == value
    {
      this.value := value;
    }
  }

  class Gate {
    const c: Config
    var byIP: map<string, Cell>

    ghost function Cells(): set<Cell>
      reads this
    {
      set a | a in byIP.Values
    }

    ghost predicate Valid()
      reads this
    {
      forall a, b | a in byIP && b in byIP && a != b :: byIP[a] != byIP[b]
    }

    ghost function Value(): (t: Table)
      reads this, Cells()
      ensures t.Keys == byIP.Keys
    {
      map ip | ip in byIP :: byIP[ip].value
    }

    constructor (maxFails: int, lockFor: int)
      ensures Valid() && Value() == map[] && c == NewConfig(maxFails, lockFor)
    {
      c, byIP := NewConfig(maxFails, lockFor), map[];
    }

    method AllowIP(ip: string, now: Time) returns (ok: bool)
      requires Valid()
      modifies Cells()
      ensures Valid() && byIP == old(byIP)
      ensures ok <==> ip !in byIP || now > old(byIP[ip].value.until) || old(byIP[ip].value.fails) < c.maxFails
      ensures forall q | q in byIP ::
                byIP[q].value == if q == ip then old(byIP[q].value).(seen := now) else old(byIP[q].value)
      ensures (ok, Value()) == Allow(c, old(Value()), ip, now)
    {
      if ip !in byIP {
        return true;
      }
      var st := byIP[ip];
      ghost var before := Value();
      st.value := st.value.(seen := now);
      assert Value() == before[ip := st.value];
      if now > st.value.until {
        return true;
      }
      return st.value.fails < c.maxFails;
    }

    method Success(ip: string)
      requires Valid()
      modifies this
      ensures Valid() && Value() == old(Value()) - {ip}
    {
      byIP := byIP - {ip};
    }

    method GcLocked(now: Time)
      requires Valid()
      modifies this`byIP
      ensures Valid() && Cells() <= old(Cells())
      ensures forall ip :: ip in byIP <==>
                && ip in old(byIP)
                && (now <= old(byIP[ip].value.until) || now - old(byIP[ip].value.seen) <= c.lockFor
                    || now - old(byIP[ip].value.seen) <= 60_000_000_000)
      ensures forall ip | ip in byIP :: byIP[ip] == old(byIP)[ip]
      ensures Value() == Collected(c, old(Value()), now)
    {
      var rest := byIP.Keys;
      while rest != {}
        invariant rest <= byIP.Keys <= old(byIP).Keys
        invariant forall ip | ip in byIP :: byIP[ip] == old(byIP)[ip]
        invariant forall ip | ip in old(byIP) && ip !in rest :: ip in byIP <==> !Stale(c, old(byIP)[ip].value, now)
        decreases rest
      {
        var ip :| ip in rest;
        var st := byIP[ip];
        if now > st.value.until && now - st.value.seen > c.Idle() {
          byIP := byIP - {ip};
        }
        rest := rest - {ip};
      }
    }

    /** Deletes entries in map order until `keep` are left. */
    method DropLocked(keep: nat) returns (ghost dropped: set<string>)
      requires |byIP| >= keep
      modifies this`byIP
      ensures byIP == old(byIP) - dropped && dropped <= old(byIP).Keys && |old(byIP).Keys - dropped| == keep
    {
      ghost var before := byIP;
      dropped := {};
      while |byIP| > keep
        invariant byIP == before - dropped && dropped <= before.Keys
        invariant |byIP| >= keep
        decreases |byIP|
      {
        var ip :| ip in byIP.Keys;
        OneFewer(before, dropped, ip);
        byIP := byIP - {ip};
        dropped := dropped + {ip};
      }
      KeysLeft(before, dropped);
    }

    static lemma OneFewer<V>(m: map<string, V>, dropped: set<string>, ip: string)
      requires ip in m && ip !in dropped
      ensures m - dropped - {ip} == m - (dropped + {ip})
      ensures |m - dropped - {ip}| == |m - dropped| - 1
    {
      var left := m - dropped;
      assert left == (left - {ip})[ip := m[ip]];
    }

    static lemma KeysLeft<V>(m: map<string, V>, dropped: set<string>)
      ensures |m.Keys - dropped| == |m - dropped|
    {
      assert (m - dropped).Keys == m.Keys - dropped;
    }

    /** gcLocked if the table is at its limit. */
    method Sweep(now: Time)
      requires Valid()
      modifies this`byIP
      ensures Valid() && Cells() <= old(Cells())
      ensures Value() == FirstSweep(c, old(Value()), now)
    {
      assert |Value().Keys| == |byIP.Keys|;
      if |byIP| >= c.Limit() {
        GcLocked(now);
      }
    }

    /** Drops to half the limit if the table is at its limit. */
    method Trim() returns (ghost dropped: set<string>)
      requires Valid()
      modifies this`byIP
      ensures Valid() && Cells() <= old(Cells())
      ensures Value() == old(Value()) - dropped
      ensures HalfDropped(c, old(Value()), dropped)
    {
      ghost var before := Value();
      assert |before.Keys| == |before| && |byIP.Keys| == |byIP|;
      if |byIP| < c.Limit() {
        dropped := {};
        assert before - dropped == before;
        return;
      }
      dropped := DropLocked(c.Limit() / 2);
      DropsValues(before, dropped);
    }

    /** The entries that are left are the ones that were there. */
    lemma DropsValues(before: Table, dropped: set<string>)
      requires before.Keys - dropped == byIP.Keys
      requires forall ip | ip in byIP :: before[ip] == byIP[ip].value
      ensures Value() == before - dropped
    {
    }

    /** A fresh entry for an address that has none, after making room if necessary. */
    method NewEntry(ip: string, now: Time) returns (ghost dropped: set<string>)
      requires Valid() && ip !in byIP
      modifies this
      ensures Valid() && ip in byIP && fresh(Cells() - old(Cells()))
      ensures HalfDropped(c, FirstSweep(c, old(Value()), now), dropped)
      ensures Value() == (FirstSweep(c, old(Value()), now) - dropped)[ip := Attempt(0, 0, 0)]
    {
      ghost var before := Value();
      Sweep(now);
      dropped := Trim();
      assert ip !in Value();
      AddEntry(ip);
    }

    /** Makes sure that the address has an entry. */
    method Prepare(ip: string, now: Time) returns (ghost dropped: set<string>)
      requires Valid()
      modifies this
      ensures Valid() && fresh(Cells() - old(Cells())) && ip in byIP
      ensures DropAllowed(c, old(Value()), ip, now, dropped)
      ensures Value() == Prepared(c, old(Value()), ip, now, dropped)
    {
      Sweep(now);
      ghost var swept := Value();
      assert ip in swept <==> ip in byIP;
      dropped := {};
      if ip !in byIP {
        dropped := NewEntry(ip, now);
      }
    }

    method AddEntry(ip: string)
      requires Valid() && ip !in byIP
      modifies this
      ensures Valid() && ip in byIP && fresh(Cells() - old(Cells()))
      ensures Value() == old(Value())[ip := Attempt(0, 0, 0)]
    {
      var cell := new Cell(Attempt(0, 0, 0));
      byIP := byIP[ip := cell];
    }

    method RecordFailure(ip: string, now: Time) returns (ghost dropped: set<string>)
      requires Valid()
      modifies this, Cells()
      ensures Valid() && fresh(Cells() - old(Cells()))
      ensures DropAllowed(c, old(Value()), ip, now, dropped)
      ensures Value() == Failure(c, old(Value()), ip, now, dropped)
    {
      dropped := Prepare(ip, now);
      BumpEntry(ip, now);
    }

    method BumpEntry(ip: string, now: Time)
      requires Valid() && ip in byIP
      modifies byIP[ip]
      ensures byIP == old(byIP)
      ensures Value() == old(Value())[ip := Failed(c, old(Value())[ip], now)]
    {
      ghost var before := Value();
      Bump(byIP[ip], now);
      assert Value() == before[ip := Failed(c, before[ip], now)];
    }

    method Bump(st: Cell, now: Time)
      modifies st
      ensures st.value == Failed(c, old(st.value), now)
    {
      if now > st.value.until && st.value.fails >= c.maxFails {
        st.value := st.value.(fails := 0);
      }
      st.value := st.value.(fails := st.value.fails + 1, seen := now);
      if st.value.fails >= c.maxFails {
        st.value := st.value.(until := now + c.lockFor);
      }
    }
  }
}
