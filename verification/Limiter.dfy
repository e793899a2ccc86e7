/** The per-address token bucket (internal/httpserver/access.go). Times are seconds, floats are reals. */
module Limiter {
  import opened Wrappers

  const GC_ABOVE := 10_000
  const IDLE_AFTER := 120.0

  datatype Bucket = Bucket(tokens: real, last: real)
  type Table = map<string, Bucket>

  /** What newIPLimiter builds: a positive rate and a burst of at least one. */
  datatype Config = Config(rps: real, burst: real) {
    predicate Valid() { rps > 0.0 && burst >= 1.0 }
  }

  /** The configured numbers; a rate of zero or less switches the limiter off. */
  function NewConfig(rps: real, burst: int): (c: Option<Config>)
    ensures c == None <==> rps <= 0.0
    ensures c.Some? ==> c.value.Valid() && c.value.rps == rps
    ensures c.Some? && burst >= 1 ==> c.value.burst == burst as real
    ensures c.Some? && burst < 1 ==> c.value.burst <= (if rps < 1.0 then 1.0 else rps) < c.value.burst + 1.0
  {
    if rps <= 0.0 then None
    else
      var b := if burst < 1 then (if rps.Floor < 1 then 1 else rps.Floor) else burst;
      Some(Config(rps, b as real))
  }

  // ---------------------------------------------------------------- one bucket

  /** The refill over a span of time. */
  function Gain(elapsed: real, rps: real): real { elapsed * rps }

  lemma GainIsMonotone(a: real, b: real, rps: real)
    requires a <= b && rps > 0.0
    ensures Gain(a, rps) <= Gain(b, rps)
    ensures a >= 0.0 ==> Gain(a, rps) >= 0.0
  {
    assert (b - a) * rps >= 0.0;
    assert b * rps == a * rps + (b - a) * rps;
    if a >= 0.0 {
      assert a * rps >= 0.0;
    }
  }

  lemma GainIsAdditive(a: real, b: real, rps: real)
    ensures Gain(a + b, rps) == Gain(a, rps) + Gain(b, rps)
  {
  }

  function Refilled(c: Config, b: Bucket, now: real): Bucket {
    if now - b.last > 0.0 then
      var t := b.tokens + Gain(now - b.last, c.rps);
      Bucket(if t > c.burst then c.burst else t, now)
    else b
  }

  /** The answer and the bucket after one call. */
  function Ask(c: Config, b: Bucket, now: real): (bool, Bucket) {
    var r := Refilled(c, b, now);
    if r.tokens < 1.0 then (false, r) else (true, r.(tokens := r.tokens - 1.0))
  }

  function BucketOf(c: Config, t: Table, ip: string, now: real): Bucket {
    if ip in t then t[ip] else Bucket(c.burst, now)
  }

  /** gcLocked. */
  function Collected(t: Table, now: real): Table {
    map ip | ip in t && !(now - t[ip].last > IDLE_AFTER) :: t[ip]
  }

  /** allow, with (`gc`) or without eviction. */
  function Allow(c: Config, t: Table, ip: string, now: real, gc: bool): (bool, Table) {
    var (ok, b) := Ask(c, BucketOf(c, t, ip, now), now);
    var t' := t[ip := b];
    (ok, if gc && |t'| > GC_ABOVE then Collected(t', now) else t')
  }

  // ---------------------------------------------------------------- what a call comes to

  /**
    One call on a bucket, spelled out: it holds what was left plus the rate times the time
    passed, up to the burst; the call is admitted exactly when that is a token or more, and
    takes one; the clock never goes back.
   */
  ghost predicate Draws(rps: real, burst: real, b: Bucket, now: real, ok: bool, b': Bucket) {
    var refilled := b.tokens + (now - b.last) * rps;
    var level := if now <= b.last then b.tokens else if refilled > burst then burst else refilled;
    && (ok <==> level >= 1.0)
    && b'.tokens == (if ok then level - 1.0 else level)
    && b'.last == (if b.last > now then b.last else now)
  }

  lemma AskDraws(c: Config, b: Bucket, now: real)
    ensures Draws(c.rps, c.burst, b, now, Ask(c, b, now).0, Ask(c, b, now).1)
  {
    assert Gain(now - b.last, c.rps) == (now - b.last) * c.rps;
  }

  /** Only a table of more than 10,000 addresses loses any, and then those idle for over two minutes. */
  ghost predicate KeepsOthers(t: Table, ip: string, now: real, t': Table) {
    && (forall q | q in t' && q != ip :: q in t && t'[q] == t[q])
    && (forall q | q in t && q != ip ::
          q !in t' <==> |t.Keys + {ip}| > 10_000 && now - t[q].last > 120.0)
  }

  /** A new address starts with a full bucket. */
  ghost predicate Serves(rps: real, burst: real, t: Table, ip: string, now: real, ok: bool, t': Table) {
    && ip in t' && Draws(rps, burst, if ip in t then t[ip] else Bucket(burst, now), now, ok, t'[ip])
    && KeepsOthers(t, ip, now, t')
  }

  lemma AllowServes(c: Config, t: Table, ip: string, now: real)
    ensures var (ok, t') := Allow(c, t, ip, now, true); Serves(c.rps, c.burst, t, ip, now, ok, t')
  {
    var b := BucketOf(c, t, ip, now);
    AskDraws(c, b, now);
    AddsAndCollects(t, ip, Ask(c, b, now).1, now);
  }

  lemma AddsAndCollects(t: Table, ip: string, b: Bucket, now: real)
    requires b.last >= now
    ensures var t1 := t[ip := b];
            var t' := if |t1| > GC_ABOVE then Collected(t1, now) else t1;
            ip in t' && t'[ip] == b && KeepsOthers(t, ip, now, t')
  {
    var t1 := t[ip := b];
    assert t1.Keys == t.Keys + {ip} && |t1| == |t1.Keys|;
  }

  // ---------------------------------------------------------------- the object

  class Cell {
    var tokens: real
    var last: real

    constructor (tokens: real, last: real)
      ensures this.tokens == tokens && this.last == last
    {
      this.tokens, this.last := tokens, last;
    }
  }

  class IPLimiter {
    const rps: real
    const burst: real
    var byIP: map<string, Cell>

    ghost function Cells(): set<Cell>
      reads this
    {
      set c | c in byIP.Values
    }

    ghost predicate Valid()
      reads this
    {
      forall a, b | a in byIP && b in byIP && a != b :: byIP[a] != byIP[b]
    }

    ghost function Value(): Table
      reads this, Cells()
    {
      map ip | ip in byIP :: Bucket(byIP[ip].tokens, byIP[ip].last)
    }

    constructor (c: Config)
      ensures Valid() && Value() == map[] && rps == c.rps && burst == c.burst
    {
      rps, burst, byIP := c.rps, c.burst, map[];
    }

    method GcLocked(now: real)
      requires Valid()
      modifies this`byIP
      ensures Valid() && Value() == Collected(old(Value()), now)
      ensures Cells() <= old(Cells())
    {
      var rest := byIP.Keys;
      while rest != {}
        invariant Valid() && byIP.Keys <= old(byIP).Keys && rest <= byIP.Keys
        invariant forall ip | ip in byIP :: byIP[ip] == old(byIP)[ip]
        invariant forall ip | ip in rest :: ip in byIP
        invariant forall ip | ip in old(byIP) && ip !in rest ::
                    ip in byIP <==> !(now - old(byIP)[ip].last > IDLE_AFTER)
        decreases rest
      {
        var ip :| ip in rest;
        if now - byIP[ip].last > IDLE_AFTER {
          byIP := byIP - {ip};
        }
        rest := rest - {ip};
      }
    }

    /** The bucket of an address; a new one is full. */
    method CellFor(ip: string, now: real) returns (b: Cell)
      requires Valid()
      modifies this`byIP
      ensures Valid() && ip in byIP && byIP[ip] == b && fresh(Cells() - old(Cells()))
      ensures Value() == old(Value())[ip := BucketOf(Config(rps, burst), old(Value()), ip, now)]
    {
      if ip !in byIP {
        var cell := new Cell(burst, now);
        byIP := byIP[ip := cell];
      }
      b := byIP[ip];
    }

    method AllowIP(ip: string, now: real) returns (ok: bool)
      requires Valid()
      modifies this, Cells()
      ensures Valid() && fresh(Cells() - old(Cells()))
      ensures (ok, Value()) == Allow(Config(rps, burst), old(Value()), ip, now, true)
      ensures Serves(rps, burst, old(Value()), ip, now, ok, Value())
    {
      AllowServes(Config(rps, burst), Value(), ip, now);
      ok := Take(ip, now);
      Sweep(now);
    }

    /** One token from the bucket of an address; the others are not touched. */
    method Take(ip: string, now: real) returns (ok: bool)
      requires Valid()
      modifies this`byIP, Cells()
      ensures Valid() && fresh(Cells() - old(Cells()))
      ensures var c := Config(rps, burst);
              var asked := Ask(c, BucketOf(c, old(Value()), ip, now), now);
              ok == asked.0 && Value() == old(Value())[ip := asked.1]
    {
      ghost var before := Value();
      var b := CellFor(ip, now);
      assert Value()[ip] == Bucket(b.tokens, b.last);
      ok := Draw(b, now);
      assert Value() == before[ip := Bucket(b.tokens, b.last)];
    }

    /** gcLocked once the table has grown beyond its size. */
    method Sweep(now: real)
      requires Valid()
      modifies this`byIP
      ensures Valid() && Cells() <= old(Cells())
      ensures Value() == if |old(Value())| > GC_ABOVE then Collected(old(Value()), now) else old(Value())
    {
      assert byIP.Keys == Value().Keys && |byIP| == |byIP.Keys| && |Value()| == |Value().Keys|;
      if |byIP| > GC_ABOVE {
        GcLocked(now);
      }
    }

    /** Refill, then take one token if there is one. */
    method Draw(b: Cell, now: real) returns (ok: bool)
      modifies b
      ensures (ok, Bucket(b.tokens, b.last)) == Ask(Config(rps, burst), old(Bucket(b.tokens, b.last)), now)
    {
      var elapsed := now - b.last;
      if elapsed > 0.0 {
        b.tokens := b.tokens + Gain(elapsed, rps);
        if b.tokens > burst {
          b.tokens := burst;
        }
        b.last := now;
      }
      if b.tokens < 1.0 {
        return false;
      }
      b.tokens := b.tokens - 1.0;
      return true;
    }
  }
}
