/**
  What each mutator of the catalog does, field by field (internal/store/object.go), and what
  the counters come to over many of them.
 */
module CatalogLaws {
  import opened Wrappers
  import opened CatalogSpec

  // ---------------------------------------------------------------- one mutator

  /** The day that contains `at` counts so many more events; no other day changes. */
  ghost predicate DayRises(before: map<Day, Counts>, after: map<Day, Counts>, at: Time,
                           hits: int, misses: int, stores: int) {
    forall d: Day ::
      if d.number * 86_400_000_000_000 <= at < (d.number + 1) * 86_400_000_000_000 then
        && d in after
        && after[d].hits == (if d in before then before[d].hits else 0) + hits
        && after[d].misses == (if d in before then before[d].misses else 0) + misses
        && after[d].stores == (if d in before then before[d].stores else 0) + stores
      else
        (d in after <==> d in before) && (d in before ==> after[d] == before[d])
  }

  ghost predicate Rises(before: Snapshot, after: Snapshot, at: Time, hits: int, misses: int, stores: int) {
    && after.totals.hits == before.totals.hits + hits
    && after.totals.misses == before.totals.misses + misses
    && after.totals.stores == before.totals.stores + stores
    && DayRises(before.days, after.days, at, hits, misses, stores)
  }

  ghost predicate NothingCounted(before: Snapshot, after: Snapshot) {
    after.totals == before.totals && after.days == before.days
  }

  ghost predicate OnlyEntry(before: Snapshot, after: Snapshot, hash: string) {
    && hash in after.entries
    && forall h | h != hash ::
         (h in after.entries <==> h in before.entries) && (h in before.entries ==> after.entries[h] == before.entries[h])
  }

  /** An entry that names its hash; a nameless one counts as absent. */
  predicate Known(s: Snapshot, hash: string) { hash in s.entries && s.entries[hash].hash != "" }

  ghost predicate WasStored(before: Snapshot, after: Snapshot, hash: string, size: int, at: Time, info: TaskInfo) {
    && Rises(before, after, at, 0, 0, 1) && OnlyEntry(before, after, hash)
    && var e := after.entries[hash];
    && e.size == size
    && (if Known(before, hash) then
          var b := before.entries[hash];
          && e.hash == b.hash && e.hits == b.hits && e.lastAccessedAt == b.lastAccessedAt
          && e.createdAt == (if b.createdAt == 0 then at else b.createdAt)
          && TakesOver(b.info, info, e.info)
        else
          && e.hash == hash && e.hits == 0 && e.lastAccessedAt == at && e.createdAt == at
          && e.info == info)
  }

  /** Each field is the new one unless that is empty. */
  ghost predicate TakesOver(was: TaskInfo, info: TaskInfo, now: TaskInfo) {
    && now.project == (if info.project == "" then was.project else info.project)
    && now.target == (if info.target == "" then was.target else info.target)
    && now.config == (if info.config == "" then was.config else info.config)
    && now.kind == (if info.kind == "" then was.kind else info.kind)
  }

  ghost predicate WasHit(before: Snapshot, after: Snapshot, hash: string, at: Time) {
    && Rises(before, after, at, 1, 0, 0) && OnlyEntry(before, after, hash)
    && var e := after.entries[hash];
    && e.lastAccessedAt == at
    && (if Known(before, hash) then
          var b := before.entries[hash];
          && e.hits == b.hits + 1
          && e.hash == b.hash && e.size == b.size && e.createdAt == b.createdAt && e.info == b.info
        else
          && e.hits == 1
          && e.hash == hash && e.size == 0 && e.createdAt == at && e.info == TaskInfo("", "", "", ""))
  }

  ghost predicate WasMissed(before: Snapshot, after: Snapshot, at: Time) {
    Rises(before, after, at, 0, 1, 0) && after.entries == before.entries
  }

  ghost predicate WereRemoved(before: Snapshot, after: Snapshot, hashes: seq<string>) {
    && NothingCounted(before, after)
    && (forall h :: h in after.entries <==> h in before.entries && h !in hashes)
    && (forall h | h in after.entries :: after.entries[h] == before.entries[h])
  }

  ghost predicate WasEnsured(before: Snapshot, after: Snapshot, hash: string, size: int, at: Time) {
    && NothingCounted(before, after) && OnlyEntry(before, after, hash)
    && var e := after.entries[hash];
    && (if hash in before.entries then
          var b := before.entries[hash];
          && e.size == (if b.size == 0 && size > 0 then size else b.size)
          && e.hash == b.hash && e.createdAt == b.createdAt && e.lastAccessedAt == b.lastAccessedAt
          && e.hits == b.hits && e.info == b.info
        else
          && e.size == size
          && e.hash == hash && e.createdAt == at && e.lastAccessedAt == at
          && e.hits == 0 && e.info == TaskInfo("", "", "", ""))
  }

  ghost predicate WasUpdated(before: Snapshot, after: Snapshot, hash: string, info: TaskInfo) {
    && NothingCounted(before, after)
    && (hash !in before.entries ==> after.entries == before.entries)
    && (hash in before.entries ==>
          && OnlyEntry(before, after, hash)
          && var b, e := before.entries[hash], after.entries[hash];
          && TakesOver(b.info, info, e.info)
          && e.hash == b.hash && e.size == b.size && e.createdAt == b.createdAt
          && e.lastAccessedAt == b.lastAccessedAt && e.hits == b.hits)
  }

  ghost predicate WasSeeded(before: Snapshot, after: Snapshot, e: Entry) {
    NothingCounted(before, after) && OnlyEntry(before, after, e.hash) && after.entries[e.hash] == e
  }

  /** The effect of a mutator on each field. */
  ghost predicate Effect(before: Snapshot, m: Mutation, after: Snapshot) {
    match m
    case Upsert(h, size, at, info) => WasStored(before, after, h, size, at, info)
    case Hit(h, at) => WasHit(before, after, h, at)
    case Miss(at) => WasMissed(before, after, at)
    case Remove(hs) => WereRemoved(before, after, hs)
    case Ensure(h, size, at) => WasEnsured(before, after, h, size, at)
    case Update(h, info) => WasUpdated(before, after, h, info)
    case Seed(e) => WasSeeded(before, after, e)
  }

  /** The number of the day is the one whose 24 hours contain the moment. */
  lemma DayContains(at: Time, d: Day)
    ensures d == DayOf(at) <==> d.number * 86_400_000_000_000 <= at < (d.number + 1) * 86_400_000_000_000
  {
  }

  lemma BumpRises(s: Snapshot, c: Counter, at: Time)
    ensures Rises(s, Bumped(s, c, at), at,
                  if c == Hits then 1 else 0, if c == Misses then 1 else 0, if c == Stores then 1 else 0)
    ensures Bumped(s, c, at).entries == s.entries
  {
    forall d: Day
      ensures d == DayOf(at) <==> d.number * 86_400_000_000_000 <= at < (d.number + 1) * 86_400_000_000_000
    {
      DayContains(at, d);
    }
  }

  /** Every case of `Apply` has its effect and no other. */
  lemma ApplyHasEffect(s: Snapshot, m: Mutation)
    ensures Effect(s, m, Apply(s, m))
  {
    match m
    case Upsert(h, size, at, info) =>
      BumpRises(s.(entries := s.entries[h := Upserted(Lookup(s.entries, h), h, size, at, info)]), Stores, at);
    case Hit(h, at) =>
      BumpRises(s.(entries := s.entries[h := HitEntry(Lookup(s.entries, h), h, at)]), Hits, at);
    case Miss(at) => BumpRises(s, Misses, at);
    case _ =>
  }

  // ---------------------------------------------------------------- many mutators

  predicate On(at: Time, day: Day) {
    day.number * 86_400_000_000_000 <= at < (day.number + 1) * 86_400_000_000_000
  }

  /** How many of the mutations are hits, misses and stores. */
  function HitsIn(ms: seq<Mutation>): nat {
    if ms == [] then 0 else (if ms[0].Hit? then 1 else 0) + HitsIn(ms[1..])
  }

  function MissesIn(ms: seq<Mutation>): nat {
    if ms == [] then 0 else (if ms[0].Miss? then 1 else 0) + MissesIn(ms[1..])
  }

  function StoresIn(ms: seq<Mutation>): nat {
    if ms == [] then 0 else (if ms[0].Upsert? then 1 else 0) + StoresIn(ms[1..])
  }

  /** Those that fall on one day. */
  function OfDay(ms: seq<Mutation>, day: Day): seq<Mutation> {
    if ms == [] then []
    else
      (if (ms[0].Hit? || ms[0].Miss? || ms[0].Upsert?) && On(ms[0].at, day) then [ms[0]] else []) + OfDay(ms[1..], day)
  }

  /** What a day without a record counts is nothing. */
  function DayCount(s: Snapshot, day: Day): Counts {
    if day in s.days then s.days[day] else Counts(0, 0, 0)
  }

  ghost predicate Counted(was: Counts, ms: seq<Mutation>, now: Counts) {
    && now.hits == was.hits + HitsIn(ms)
    && now.misses == was.misses + MissesIn(ms)
    && now.stores == was.stores + StoresIn(ms)
  }

  lemma OneCounted(s: Snapshot, m: Mutation, day: Day)
    ensures Counted(s.totals, [m], Apply(s, m).totals)
    ensures Counted(DayCount(s, day), OfDay([m], day), DayCount(Apply(s, m), day))
  {
    ApplyHasEffect(s, m);
    assert [m][1..] == [];
    assert OfDay([m], day) == if (m.Hit? || m.Miss? || m.Upsert?) && On(m.at, day) then [m] else [];
  }

  lemma {:induction false} CountsAdd(a: seq<Mutation>, b: seq<Mutation>)
    ensures HitsIn(a + b) == HitsIn(a) + HitsIn(b)
    ensures MissesIn(a + b) == MissesIn(a) + MissesIn(b)
    ensures StoresIn(a + b) == StoresIn(a) + StoresIn(b)
  {
    if a == [] {
      assert a + b == b;
    } else {
      assert (a + b)[1..] == a[1..] + b;
      CountsAdd(a[1..], b);
    }
  }

  lemma CountedOn(was: Counts, a: seq<Mutation>, mid: Counts, b: seq<Mutation>, now: Counts)
    requires Counted(was, a, mid) && Counted(mid, b, now)
    ensures Counted(was, a + b, now)
  {
    CountsAdd(a, b);
  }

  lemma OfDayFirst(ms: seq<Mutation>, day: Day)
    requires ms != []
    ensures OfDay(ms, day) == OfDay([ms[0]], day) + OfDay(ms[1..], day)
  {
    assert [ms[0]][1..] == [];
  }

  /** Each total, and each counter of each day, is what it was plus the number of its own events. */
  lemma {:induction false} CountersCountEvents(s: Snapshot, ms: seq<Mutation>, day: Day)
    ensures Counted(s.totals, ms, ApplyAll(s, ms).totals)
    ensures Counted(DayCount(s, day), OfDay(ms, day), DayCount(ApplyAll(s, ms), day))
    decreases |ms|
  {
    if ms != [] {
      var s1 := Apply(s, ms[0]);
      OneCounted(s, ms[0], day);
      CountersCountEvents(s1, ms[1..], day);
      var s2 := ApplyAll(s1, ms[1..]);
      assert ms == [ms[0]] + ms[1..];
      CountedOn(s.totals, [ms[0]], s1.totals, ms[1..], s2.totals);
      OfDayFirst(ms, day);
      CountedOn(DayCount(s, day), OfDay([ms[0]], day), DayCount(s1, day), OfDay(ms[1..], day), DayCount(s2, day));
    }
  }
}
