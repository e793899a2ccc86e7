/**
  The catalog as a value: entries by hash, three total counters and one counter
  triple per calendar day (internal/store/object.go, internal/store/store.go).
  Every mutator of the in-memory catalog is a case of `Apply`.
 */
module CatalogSpec {
  import opened Wrappers

  /** Nanoseconds since Go's zero time, so that `ZERO_TIME` is what IsZero tests for. */
  type Time = int

  /** A calendar day, counted from Go's zero time; its text form is injective. */
  datatype Day = Day(number: int)

  const ZERO_TIME: Time := 0
  const NANOS_PER_DAY := 86_400_000_000_000

  function DayOf(at: Time): Day { Day(at / NANOS_PER_DAY) }

  datatype TaskInfo = TaskInfo(project: string, target: string, config: string, kind: string) {
    /** TaskInfo.Empty: the configuration does not count. */
    predicate Empty() { project == "" && target == "" && kind == "" }
  }

  const NO_INFO := TaskInfo("", "", "", "")

  datatype Entry = Entry(hash: string, size: int, createdAt: Time, lastAccessedAt: Time, hits: int, info: TaskInfo)

  /** What reading an absent key of a Go map yields. */
  const ABSENT := Entry("", 0, ZERO_TIME, ZERO_TIME, 0, NO_INFO)

  datatype Counter = Hits | Misses | Stores

  datatype Counts = Counts(hits: int, misses: int, stores: int) {
    function Get(c: Counter): int {
      match c
      case Hits => hits
      case Misses => misses
      case Stores => stores
    }

    function Bump(c: Counter): Counts {
      match c
      case Hits => this.(hits := hits + 1)
      case Misses => this.(misses := misses + 1)
      case Stores => this.(stores := stores + 1)
    }
  }

  const NONE_COUNTED := Counts(0, 0, 0)

  datatype Snapshot = Snapshot(totals: Counts, days: map<Day, Counts>, entries: map<string, Entry>)

  const EMPTY := Snapshot(NONE_COUNTED, map[], map[])

  datatype Mutation =
    | Upsert(hash: string, size: int, at: Time, info: TaskInfo)
    | Hit(hash: string, at: Time)
    | Miss(at: Time)
    | Remove(hashes: seq<string>)
    | Ensure(hash: string, size: int, at: Time)
    | Update(hash: string, info: TaskInfo)
    | Seed(entry: Entry)

  function Lookup(entries: map<string, Entry>, hash: string): Entry {
    if hash in entries then entries[hash] else ABSENT
  }

  /** Non-empty fields of `info` replace those of `old`. */
  function Overlay(old': TaskInfo, info: TaskInfo): TaskInfo {
    TaskInfo(
      if info.project != "" then info.project else old'.project,
      if info.target != "" then info.target else old'.target,
      if info.config != "" then info.config else old'.config,
      if info.kind != "" then info.kind else old'.kind)
  }

  function Upserted(old': Entry, hash: string, size: int, at: Time, info: TaskInfo): Entry {
    var e := if old'.hash == "" then ABSENT.(hash := hash, createdAt := at, lastAccessedAt := at) else old';
    e.(size := size,
       createdAt := if e.createdAt == ZERO_TIME then at else e.createdAt,
       info := Overlay(e.info, info))
  }

  function HitEntry(old': Entry, hash: string, at: Time): Entry {
    var e := if old'.hash == "" then ABSENT.(hash := hash, createdAt := at) else old';
    e.(hits := e.hits + 1, lastAccessedAt := at)
  }

  function CountOn(days: map<Day, Counts>, day: Day): Counts {
    if day in days then days[day] else NONE_COUNTED
  }

  function BumpDay(days: map<Day, Counts>, c: Counter, at: Time): map<Day, Counts> {
    days[DayOf(at) := CountOn(days, DayOf(at)).Bump(c)]
  }

  function Bumped(s: Snapshot, c: Counter, at: Time): Snapshot {
    s.(totals := s.totals.Bump(c), days := BumpDay(s.days, c, at))
  }

  function Without(entries: map<string, Entry>, hashes: seq<string>): map<string, Entry> {
    map h | h in entries && h !in hashes :: entries[h]
  }

  /** The catalog after one mutator has run. */
  function Apply(s: Snapshot, m: Mutation): Snapshot {
    match m
    case Upsert(h, size, at, info) =>
      Bumped(s.(entries := s.entries[h := Upserted(Lookup(s.entries, h), h, size, at, info)]), Stores, at)
    case Hit(h, at) =>
      Bumped(s.(entries := s.entries[h := HitEntry(Lookup(s.entries, h), h, at)]), Hits, at)
    case Miss(at) => Bumped(s, Misses, at)
    case Remove(hs) => s.(entries := Without(s.entries, hs))
    case Ensure(h, size, at) =>
      if h !in s.entries then
        s.(entries := s.entries[h := Entry(h, size, at, at, 0, NO_INFO)])
      else if s.entries[h].size == 0 && size > 0 then
        s.(entries := s.entries[h := s.entries[h].(size := size)])
      else s
    case Update(h, info) =>
      if h in s.entries then
        s.(entries := s.entries[h := s.entries[h].(info := Overlay(s.entries[h].info, info))])
      else s
    case Seed(e) => s.(entries := s.entries[e.hash := e])
  }

  /** Whether the mutator sets the dirty flag. */
  predicate Dirties(s: Snapshot, m: Mutation) {
    match m
    case Remove(hs) => hs != []
    case Ensure(h, size, at) => h !in s.entries || (s.entries[h].size == 0 && size > 0)
    case Update(h, info) => h in s.entries
    case _ => true
  }

  /** A mutator that leaves the flag alone has changed nothing. */
  lemma CleanMeansUnchanged(s: Snapshot, m: Mutation)
    ensures Apply(s, m) != s ==> Dirties(s, m)
  {
    if m.Remove? && m.hashes == [] {
      assert Without(s.entries, m.hashes) == s.entries;
    }
  }

  function ApplyAll(s: Snapshot, ms: seq<Mutation>): Snapshot
    decreases |ms|
  {
    if ms == [] then s else ApplyAll(Apply(s, ms[0]), ms[1..])
  }

  predicate DirtiesAny(s: Snapshot, ms: seq<Mutation>)
    decreases |ms|
  {
    ms != [] && (Dirties(s, ms[0]) || DirtiesAny(Apply(s, ms[0]), ms[1..]))
  }

  lemma {:induction false} ApplyAllSnoc(s: Snapshot, ms: seq<Mutation>, m: Mutation)
    ensures ApplyAll(s, ms + [m]) == Apply(ApplyAll(s, ms), m)
    ensures DirtiesAny(s, ms + [m]) == (DirtiesAny(s, ms) || Dirties(ApplyAll(s, ms), m))
    decreases |ms|
  {
    if ms == [] {
      assert [m][1..] == [];
    } else {
      assert (ms + [m])[1..] == ms[1..] + [m];
      ApplyAllSnoc(Apply(s, ms[0]), ms[1..], m);
    }
  }

  // ---------------------------------------------------------------- the encoded snapshot

  /** The decoded JSON document: a foreign document may lack maps or hold null day records. */
  datatype Document = Document(totals: Counts, days: Option<map<Day, Option<Counts>>>, entries: Option<map<string, Entry>>)

  function Encode(s: Snapshot): Document {
    Document(s.totals, Some(map d | d in s.days :: Some(s.days[d])), Some(s.entries))
  }

  /** Null day records are invisible to every reader of the catalog. */
  function PresentDays(days: map<Day, Option<Counts>>): map<Day, Counts> {
    map d | d in days && days[d].Some? :: days[d].value
  }

  /** What Load leaves in memory; a document without entries keeps the old ones. */
  function Restore(old': Snapshot, doc: Document): Snapshot {
    Snapshot(
      doc.totals,
      if doc.days.Some? then PresentDays(doc.days.value) else map[],
      if doc.entries.Some? then doc.entries.value else old'.entries)
  }

  /** Loading what a flush wrote gives back the state that was cloned. */
  lemma RestoreEncode(old': Snapshot, s: Snapshot)
    ensures Restore(old', Encode(s)) == s
  {
    assert PresentDays(Encode(s).days.value) == s.days;
  }

  // ---------------------------------------------------------------- keys

  /** Every entry sits under its own hash. */
  predicate Keyed(entries: map<string, Entry>) {
    forall h | h in entries :: entries[h].hash == h
  }

  lemma ApplyKeepsKeyed(s: Snapshot, m: Mutation)
    requires Keyed(s.entries)
    ensures Keyed(Apply(s, m).entries)
  {
  }

  // ---------------------------------------------------------------- conservation of counters

  ghost function Sum<K>(m: map<K, int>): int {
    if m == map[] then 0
    else
      var k :| k in m;
      m[k] + Sum(m - {k})
  }

  lemma {:induction false} SumSplit<K>(m: map<K, int>, k: K)
    requires k in m
    ensures Sum(m) == m[k] + Sum(m - {k})
    decreases |m|
  {
    var p :| p in m && Sum(m) == m[p] + Sum(m - {p});
    if p != k {
      assert |m - {p}| < |m| && |m - {k}| < |m| by {
        assert m == (m - {p})[p := m[p]];
        assert m == (m - {k})[k := m[k]];
      }
      SumSplit(m - {p}, k);
      SumSplit(m - {k}, p);
      assert m - {p} - {k} == m - {k} - {p};
    }
  }

  lemma SumUpdate<K>(m: map<K, int>, k: K, v: int)
    ensures Sum(m[k := v]) == Sum(m) - (if k in m then m[k] else 0) + v
  {
    SumSplit(m[k := v], k);
    assert m[k := v] - {k} == m - {k};
    if k in m {
      SumSplit(m, k);
    } else {
      assert m - {k} == m;
    }
  }

  /** Restricting a map of non-negative numbers cannot raise its sum. */
  lemma {:induction false} SumRestrict<K>(m: map<K, int>, sub: map<K, int>)
    requires forall k | k in m :: m[k] >= 0
    requires forall k | k in sub :: k in m && sub[k] == m[k]
    ensures 0 <= Sum(sub) <= Sum(m)
    decreases |m|
  {
    if m == map[] {
      assert sub == map[];
    } else {
      var k :| k in m;
      assert m == (m - {k})[k := m[k]];
      SumSplit(m, k);
      if k in sub {
        SumSplit(sub, k);
        SumRestrict(m - {k}, sub - {k});
      } else {
        SumRestrict(m - {k}, sub);
      }
    }
  }

  function DayValues(days: map<Day, Counts>, c: Counter): map<Day, int> {
    map d | d in days :: days[d].Get(c)
  }

  function EntryHits(entries: map<string, Entry>): map<string, int> {
    map h | h in entries :: entries[h].hits
  }

  /** Each total is the sum of its daily counters, and covers the hits still held by entries. */
  ghost predicate Conserved(s: Snapshot) {
    && (forall c: Counter :: s.totals.Get(c) == Sum(DayValues(s.days, c)))
    && (forall h | h in s.entries :: s.entries[h].hits >= 0)
    && Sum(EntryHits(s.entries)) <= s.totals.hits
  }

  lemma BumpKeepsDays(days: map<Day, Counts>, c: Counter, at: Time, other: Counter)
    ensures Sum(DayValues(BumpDay(days, c, at), other)) == Sum(DayValues(days, other)) + (if c == other then 1 else 0)
  {
    var d := DayOf(at);
    var v := CountOn(days, d).Bump(c).Get(other);
    assert DayValues(BumpDay(days, c, at), other) == DayValues(days, other)[d := v];
    SumUpdate(DayValues(days, other), d, v);
  }

  lemma BumpedTotals(s: Snapshot, c: Counter, at: Time)
    requires forall k: Counter :: s.totals.Get(k) == Sum(DayValues(s.days, k))
    ensures forall k: Counter :: Bumped(s, c, at).totals.Get(k) == Sum(DayValues(Bumped(s, c, at).days, k))
  {
    forall k: Counter
      ensures Bumped(s, c, at).totals.Get(k) == Sum(DayValues(Bumped(s, c, at).days, k))
    {
      BumpKeepsDays(s.days, c, at, k);
    }
  }

  lemma EntryHitsUpdate(entries: map<string, Entry>, h: string, e: Entry)
    ensures Sum(EntryHits(entries[h := e])) == Sum(EntryHits(entries)) - Lookup(entries, h).hits + e.hits
  {
    assert EntryHits(entries[h := e]) == EntryHits(entries)[h := e.hits];
    SumUpdate(EntryHits(entries), h, e.hits);
  }

  /** Every mutator but Seed conserves the counters. */
  lemma ApplyConserves(s: Snapshot, m: Mutation)
    requires Conserved(s) && !m.Seed?
    ensures Conserved(Apply(s, m))
  {
    match m
    case Upsert(h, size, at, info) =>
      var e := Upserted(Lookup(s.entries, h), h, size, at, info);
      EntryHitsUpdate(s.entries, h, e);
      BumpedTotals(s.(entries := s.entries[h := e]), Stores, at);
    case Hit(h, at) =>
      var e := HitEntry(Lookup(s.entries, h), h, at);
      EntryHitsUpdate(s.entries, h, e);
      BumpedTotals(s.(entries := s.entries[h := e]), Hits, at);
    case Miss(at) =>
      BumpedTotals(s, Misses, at);
    case Remove(hs) =>
      SumRestrict(EntryHits(s.entries), EntryHits(Without(s.entries, hs)));
    case Ensure(h, size, at) =>
      EntryHitsUpdate(s.entries, h, Entry(h, size, at, at, 0, NO_INFO));
      if h in s.entries {
        EntryHitsUpdate(s.entries, h, s.entries[h].(size := size));
      }
    case Update(h, info) =>
      if h in s.entries {
        EntryHitsUpdate(s.entries, h, s.entries[h].(info := Overlay(s.entries[h].info, info)));
      }
  }
}
