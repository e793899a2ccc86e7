/**
  Whole runs of the catalog (internal/store/object.go): mutators interleave with the steps
  of Flush, the process crashes and restarts, writes fail with or without taking effect.
  Each event is one critical section or one backend call.
 */
module CatalogRuns {
  import opened Wrappers
  import opened CatalogSpec
  import opened CatalogLaws

  /**
    Where the holder of flushMu stands. Failed is the window between a failed write and
    markDirty. The numbers are positions of the clone in the history of memory states.
   */
  datatype Pc =
    | Idle
    | Locked
    | Cloned(clone: Snapshot, at: int)
    | Failed(clone: Snapshot, at: int)
    | Done
  {
    predicate InFlight() { Cloned? || Failed? }
  }

  datatype Event =
    | Boot(readable: bool)
    | Crash
    | Mutate(m: Mutation)
    | FlushLock
    | FlushClone
    | FlushWrite(ok: bool, tookEffect: bool)
    | FlushMarkDirty
    | FlushUnlock

  /**
    A document the store has held, and the position in the history of the state it was
    cloned from.
   */
  datatype Version = Version(doc: Option<Document>, at: int)

  /**
    `hist` lists the memory states in the order they occurred, over all lives of the
    process; `written` the documents the store has held, in order; `acked` the position of
    the clone of the last flush that reported success.
   */
  datatype World = World(
    up: bool,
    mem: Snapshot,
    dirty: bool,
    loadFailed: bool,
    pc: Pc,
    disk: Option<Document>,
    hist: seq<Snapshot>,
    written: seq<Version>,
    acked: int)

  /** What a fresh process reads; an absent document is the empty catalog. */
  function Read(disk: Option<Document>): Snapshot {
    if disk.None? then EMPTY else Restore(EMPTY, disk.value)
  }

  function Start(disk: Option<Document>): World {
    World(false, EMPTY, false, false, Idle, disk, [Read(disk)], [Version(disk, 0)], 0)
  }

  predicate Enabled(w: World, e: Event) {
    match e
    case Boot(_) => !w.up
    case Crash => w.up
    case Mutate(_) => w.up
    case FlushLock => w.up && w.pc.Idle?      // flushMu is free
    case FlushClone => w.up && w.pc.Locked?
    case FlushWrite(ok, effect) => w.up && w.pc.Cloned? && (ok ==> effect)
    case FlushMarkDirty => w.up && w.pc.Failed?
    case FlushUnlock => w.up && w.pc.Done?
  }

  function Step(w: World, e: Event): World
    requires Enabled(w, e)
  {
    match e
    case Boot(readable) =>
      // NewObject, then Load
      var m := if readable then Read(w.disk) else EMPTY;
      w.(up := true, mem := m, dirty := false, loadFailed := !readable, pc := Idle, hist := w.hist + [m])
    case Crash =>
      w.(up := false, pc := Idle)
    case Mutate(m) =>
      var mem' := Apply(w.mem, m);
      w.(mem := mem', dirty := w.dirty || Dirties(w.mem, m), hist := w.hist + [mem'])
    case FlushLock =>
      w.(pc := Locked)
    case FlushClone =>
      if w.loadFailed || !w.dirty then w.(pc := Done)
      else w.(pc := Cloned(w.mem, |w.hist| - 1), dirty := false)
    case FlushWrite(ok, effect) =>
      var doc := Some(Encode(w.pc.clone));
      var w1 := if effect then w.(disk := doc, written := w.written + [Version(doc, w.pc.at)]) else w;
      if ok then w1.(pc := Done, acked := w.pc.at) else w1.(pc := Failed(w.pc.clone, w.pc.at))
    case FlushMarkDirty =>
      w.(dirty := true, pc := Done)
    case FlushUnlock =>
      w.(pc := Idle)
  }

  predicate Legal(w: World, es: seq<Event>)
    decreases |es|
  {
    es == [] || (Enabled(w, es[0]) && Legal(Step(w, es[0]), es[1..]))
  }

  function Run(w: World, es: seq<Event>): World
    requires Legal(w, es)
    decreases |es|
  {
    if es == [] then w else Run(Step(w, es[0]), es[1..])
  }

  // ---------------------------------------------------------------- the dirty flag

  /**
    If the flag is clear, an unfinished flush carries the current memory, and without one
    the stored document reads back as the current memory.
   */
  predicate FlagTellsTruth(w: World) {
    w.up && !w.loadFailed && !w.dirty ==>
      if w.pc.InFlight() then w.pc.clone == w.mem else Read(w.disk) == w.mem
  }

  lemma StepKeepsTruth(w: World, e: Event)
    requires Enabled(w, e) && FlagTellsTruth(w)
    ensures FlagTellsTruth(Step(w, e))
  {
    match e
    case Mutate(m) => CleanMeansUnchanged(w.mem, m);
    case FlushWrite(_, _) => RestoreEncode(EMPTY, w.pc.clone);
    case _ =>
  }

  lemma {:induction false} TruthOverRuns(w: World, es: seq<Event>)
    requires Legal(w, es) && FlagTellsTruth(w)
    ensures FlagTellsTruth(Run(w, es))
    decreases |es|
  {
    if es != [] {
      StepKeepsTruth(w, es[0]);
      TruthOverRuns(Step(w, es[0]), es[1..]);
    }
  }

  /** The flag tells the truth in every reachable state, whatever the store held at first. */
  lemma DirtyFlagTellsTruth(disk: Option<Document>, es: seq<Event>)
    requires Legal(Start(disk), es)
    ensures FlagTellsTruth(Run(Start(disk), es))
  {
    TruthOverRuns(Start(disk), es);
  }

  /**
    Close: a complete, undisturbed and successful Flush after any run leaves exactly the
    memory in the store, so a restart resumes where the process stopped.
   */
  lemma ClosePersistsEverything(disk: Option<Document>, es: seq<Event>)
    requires Legal(Start(disk), es)
    requires var w := Run(Start(disk), es); w.up && !w.loadFailed && w.pc == Idle
    ensures var w := Run(Start(disk), es);
            var close := if w.dirty then [FlushLock, FlushClone, FlushWrite(true, true), FlushUnlock]
                         else [FlushLock, FlushClone, FlushUnlock];
            && Legal(w, close)
            && Read(Run(w, close).disk) == w.mem
            && Legal(Run(w, close), [Crash, Boot(true)])
            && Run(Run(w, close), [Crash, Boot(true)]).mem == w.mem
  {
    var w := Run(Start(disk), es);
    TruthOverRuns(Start(disk), es);
    var w1 := Step(w, FlushLock);
    var w2 := Step(w1, FlushClone);
    if w.dirty {
      var w3 := Step(w2, FlushWrite(true, true));
      RestoreEncode(EMPTY, w.mem);
      var w4 := Step(w3, FlushUnlock);
      var tail := [FlushWrite(true, true), FlushUnlock];
      assert tail[1..] == [FlushUnlock] && [FlushUnlock][1..] == [];
      assert [FlushClone, FlushWrite(true, true), FlushUnlock][1..] == tail;
      assert [FlushLock, FlushClone, FlushWrite(true, true), FlushUnlock][1..] == [FlushClone, FlushWrite(true, true), FlushUnlock];
      CrashAndBoot(w4);
    } else {
      var w3 := Step(w2, FlushUnlock);
      assert [FlushClone, FlushUnlock][1..] == [FlushUnlock] && [FlushUnlock][1..] == [];
      assert [FlushLock, FlushClone, FlushUnlock][1..] == [FlushClone, FlushUnlock];
      CrashAndBoot(w3);
    }
  }

  lemma CrashAndBoot(w: World)
    requires w.up
    ensures Legal(w, [Crash, Boot(true)])
    ensures Run(w, [Crash, Boot(true)]) == Step(Step(w, Crash), Boot(true))
  {
    assert [Crash, Boot(true)][1..] == [Boot(true)] && [Boot(true)][1..] == [];
  }

  // ---------------------------------------------------------------- one flush as a run

  function Mutates(ms: seq<Mutation>): seq<Event> {
    seq(|ms|, i requires 0 <= i < |ms| => Mutate(ms[i]))
  }

  lemma {:induction false} RunConcat(w: World, a: seq<Event>, b: seq<Event>)
    requires Legal(w, a) && Legal(Run(w, a), b)
    ensures Legal(w, a + b) && Run(w, a + b) == Run(Run(w, a), b)
    decreases |a|
  {
    if a == [] {
      assert a + b == b;
    } else {
      assert (a + b)[1..] == a[1..] + b;
      RunConcat(Step(w, a[0]), a[1..], b);
    }
  }

  lemma {:induction false} MutatesRun(w: World, ms: seq<Mutation>)
    requires w.up
    ensures Legal(w, Mutates(ms))
    ensures var w' := Run(w, Mutates(ms));
            && w' == w.(mem := w'.mem, dirty := w'.dirty, hist := w'.hist)
            && w'.mem == ApplyAll(w.mem, ms) && w'.dirty == (w.dirty || DirtiesAny(w.mem, ms))
    decreases |ms|
  {
    if ms != [] {
      assert Mutates(ms)[1..] == Mutates(ms[1..]);
      MutatesRun(Step(w, Mutate(ms[0])), ms[1..]);
    }
  }

  function FlushEvents(ms: seq<Mutation>, ok: bool, effect: bool): seq<Event> {
    [FlushLock] + [FlushClone] + Mutates(ms) + [FlushWrite(ok, effect)] + (if ok then [] else [FlushMarkDirty]) + [FlushUnlock]
  }

  lemma OneEvent(w: World, e: Event)
    requires Enabled(w, e)
    ensures Legal(w, [e]) && Run(w, [e]) == Step(w, e)
  {
    assert [e][1..] == [];
  }

  /** The contract of the method Catalog.Object.Flush is the effect of these events. */
  lemma FlushIsARun(w: World, ms: seq<Mutation>, ok: bool, effect: bool)
    requires w.up && w.pc == Idle && !w.loadFailed && w.dirty && (ok ==> effect)
    ensures Legal(w, FlushEvents(ms, ok, effect))
    ensures var w' := Run(w, FlushEvents(ms, ok, effect));
            && w'.mem == ApplyAll(w.mem, ms)
            && w'.dirty == (!ok || DirtiesAny(w.mem, ms))
            && w'.disk == (if effect then Some(Encode(w.mem)) else w.disk)
            && w'.pc == Idle && w'.up
  {
    OneEvent(w, FlushLock);
    var w1 := Step(w, FlushLock);
    OneEvent(w1, FlushClone);
    var w2 := Step(w1, FlushClone);
    RunConcat(w, [FlushLock], [FlushClone]);
    MutatesRun(w2, ms);
    var w3 := Run(w2, Mutates(ms));
    RunConcat(w, [FlushLock] + [FlushClone], Mutates(ms));
    OneEvent(w3, FlushWrite(ok, effect));
    var w4 := Step(w3, FlushWrite(ok, effect));
    var es := [FlushLock] + [FlushClone] + Mutates(ms) + [FlushWrite(ok, effect)];
    RunConcat(w, [FlushLock] + [FlushClone] + Mutates(ms), [FlushWrite(ok, effect)]);
    var mark := if ok then [] else [FlushMarkDirty];
    if !ok {
      OneEvent(w4, FlushMarkDirty);
    }
    var w5 := Run(w4, mark);
    RunConcat(w, es, mark);
    OneEvent(w5, FlushUnlock);
    RunConcat(w, es + mark, [FlushUnlock]);
  }

  // ---------------------------------------------------------------- history

  /** What the store holds now is the last document written to it. */
  function Newest(w: World): Version
    requires w.written != []
  {
    w.written[|w.written| - 1]
  }

  /** Every document the store has held is a memory state of the past, and they never go back in history. */
  predicate StoreFollowsHistory(w: World) {
    && |w.hist| > 0 && |w.written| > 0
    && (forall i | 0 <= i < |w.written| ::
          0 <= w.written[i].at < |w.hist| && Read(w.written[i].doc) == w.hist[w.written[i].at])
    && (forall i, j | 0 <= i <= j < |w.written| :: w.written[i].at <= w.written[j].at)
    && w.disk == Newest(w).doc
    && 0 <= w.acked <= Newest(w).at
    && (w.up ==> w.mem == w.hist[|w.hist| - 1])
    && (w.pc.InFlight() ==>
          w.up && Newest(w).at <= w.pc.at < |w.hist| && w.hist[w.pc.at] == w.pc.clone)
  }

  /** A new memory state becomes history; everything else stays. */
  lemma StateFollowsHistory(w: World, m: Snapshot, w': World)
    requires StoreFollowsHistory(w)
    requires w' == w.(up := true, mem := m, hist := w.hist + [m], dirty := w'.dirty, loadFailed := w'.loadFailed, pc := w'.pc)
    requires w'.pc.InFlight() ==> w'.pc == w.pc
    ensures StoreFollowsHistory(w')
  {
    assert forall i | 0 <= i < |w.hist| :: w'.hist[i] == w.hist[i];
  }

  /** A document written is the state cloned, at its position. */
  lemma WriteFollowsHistory(w: World, ok: bool, effect: bool)
    requires StoreFollowsHistory(w) && Enabled(w, FlushWrite(ok, effect))
    ensures StoreFollowsHistory(Step(w, FlushWrite(ok, effect)))
  {
    var w' := Step(w, FlushWrite(ok, effect));
    RestoreEncode(EMPTY, w.pc.clone);
    if effect {
      assert Newest(w') == Version(Some(Encode(w.pc.clone)), w.pc.at);
      assert forall i | 0 <= i < |w.written| :: w'.written[i] == w.written[i] && w'.written[i].at <= Newest(w).at;
    }
  }

  /** Locking, cloning, marking and dying touch neither history nor store. */
  lemma ControlFollowsHistory(w: World, w': World)
    requires StoreFollowsHistory(w)
    requires w' == w.(up := w'.up, dirty := w'.dirty, pc := w'.pc) && (w'.up ==> w.up)
    requires w'.pc.InFlight() ==> w'.up && (w'.pc == w.pc || w'.pc == Cloned(w.mem, |w.hist| - 1))
    ensures StoreFollowsHistory(w')
  {
  }

  lemma StepFollowsHistory(w: World, e: Event)
    requires Enabled(w, e) && StoreFollowsHistory(w)
    ensures StoreFollowsHistory(Step(w, e))
  {
    match e
    case Boot(_) => StateFollowsHistory(w, Step(w, e).mem, Step(w, e));
    case Mutate(_) => StateFollowsHistory(w, Step(w, e).mem, Step(w, e));
    case FlushWrite(ok, effect) => WriteFollowsHistory(w, ok, effect);
    case _ => ControlFollowsHistory(w, Step(w, e));
  }

  lemma StepOnlyAdds(w: World, e: Event)
    requires Enabled(w, e) && StoreFollowsHistory(w)
    ensures w.hist <= Step(w, e).hist && w.written <= Step(w, e).written && w.acked <= Step(w, e).acked
  {
  }

  lemma {:induction false} HistoryOverRuns(w: World, es: seq<Event>)
    requires Legal(w, es) && StoreFollowsHistory(w)
    ensures StoreFollowsHistory(Run(w, es))
    ensures w.hist <= Run(w, es).hist && w.written <= Run(w, es).written && w.acked <= Run(w, es).acked
    decreases |es|
  {
    if es != [] {
      StepFollowsHistory(w, es[0]);
      StepOnlyAdds(w, es[0]);
      HistoryOverRuns(Step(w, es[0]), es[1..]);
    }
  }

  /** Every document ever written is a memory state that occurred, in the order they occurred. */
  lemma SnapshotsFollowHistory(disk: Option<Document>, es: seq<Event>)
    requires Legal(Start(disk), es)
    ensures StoreFollowsHistory(Run(Start(disk), es))
  {
    HistoryOverRuns(Start(disk), es);
  }

  /**
    After a crash at any point the restart resumes with the memory state of the last document
    written, which is no older than the clone of the last acknowledged flush.
   */
  lemma RestartLosesNothingAcknowledged(disk: Option<Document>, es: seq<Event>)
    requires Legal(Start(disk), es) && Run(Start(disk), es).up
    ensures var w := Run(Start(disk), es);
            && w.written != []
            && 0 <= w.acked <= Newest(w).at < |w.hist|
            && Step(Step(w, Crash), Boot(true)).mem == w.hist[Newest(w).at]
  {
    HistoryOverRuns(Start(disk), es);
  }

  predicate SameLife(es: seq<Event>) {
    forall i | 0 <= i < |es| :: !es[i].Crash? && !es[i].Boot?
  }

  /** A process whose Load failed never touches the store. */
  lemma {:induction false} FailedLoadWritesNothing(w: World, es: seq<Event>)
    requires Legal(w, es) && SameLife(es)
    requires w.up && w.loadFailed && !w.pc.InFlight()
    ensures Run(w, es).disk == w.disk && Run(w, es).written == w.written
    ensures Run(w, es).loadFailed && !Run(w, es).pc.InFlight()
    decreases |es|
  {
    if es != [] {
      assert !es[0].Crash? && !es[0].Boot?;
      assert SameLife(es[1..]) by {
        forall i | 0 <= i < |es[1..]| ensures !es[1..][i].Crash? && !es[1..][i].Boot? { assert es[1..][i] == es[i + 1]; }
      }
      FailedLoadWritesNothing(Step(w, es[0]), es[1..]);
    }
  }

  // ---------------------------------------------------------------- conservation

  predicate NoSeed(es: seq<Event>) {
    forall i | 0 <= i < |es| :: !(es[i].Mutate? && es[i].m.Seed?)
  }

  ghost predicate AllConserved(w: World) {
    && Conserved(Read(w.disk))
    && (w.up ==> Conserved(w.mem))
    && (w.pc.InFlight() ==> Conserved(w.pc.clone))
  }

  lemma EmptyIsConserved()
    ensures Conserved(EMPTY)
  {
    forall c: Counter ensures EMPTY.totals.Get(c) == Sum(DayValues(EMPTY.days, c)) {
      assert DayValues(EMPTY.days, c) == map[];
    }
    assert EntryHits(EMPTY.entries) == map[];
  }

  /** Memory, store and clone in flight stay conserved over flushes, crashes and reloads. */
  lemma {:induction false} CountersAreConserved(w: World, es: seq<Event>)
    requires Legal(w, es) && NoSeed(es) && AllConserved(w) && (w.pc.InFlight() ==> w.up)
    ensures AllConserved(Run(w, es))
    decreases |es|
  {
    if es != [] {
      EmptyIsConserved();
      match es[0] {
        case Mutate(m) => ApplyConserves(w.mem, m);
        case FlushWrite(_, _) => RestoreEncode(EMPTY, w.pc.clone);
        case _ =>
      }
      CountersAreConserved(Step(w, es[0]), es[1..]);
    }
  }

  /** The catalog of a deployment that starts with an empty bucket. */
  lemma CountersFromEmpty(es: seq<Event>)
    requires Legal(Start(None), es) && NoSeed(es)
    ensures AllConserved(Run(Start(None), es))
  {
    EmptyIsConserved();
    CountersAreConserved(Start(None), es);
  }

  // ---------------------------------------------------------------- what the counters count

  /** The mutations of a run, in order. */
  function MutationsIn(es: seq<Event>): seq<Mutation> {
    if es == [] then [] else (if es[0].Mutate? then [es[0].m] else []) + MutationsIn(es[1..])
  }

  /** Within one life nothing but the mutators changes the memory. */
  lemma {:induction false} MemoryOverRuns(w: World, es: seq<Event>)
    requires Legal(w, es) && SameLife(es) && w.up
    ensures Run(w, es).mem == ApplyAll(w.mem, MutationsIn(es))
    decreases |es|
  {
    if es != [] {
      assert !es[0].Crash? && !es[0].Boot?;
      assert SameLife(es[1..]) by {
        forall i | 0 <= i < |es[1..]| ensures !es[1..][i].Crash? && !es[1..][i].Boot? { assert es[1..][i] == es[i + 1]; }
      }
      MemoryOverRuns(Step(w, es[0]), es[1..]);
      if es[0].Mutate? {
        FirstMutation(w.mem, es[0].m, MutationsIn(es[1..]));
      } else {
        assert MutationsIn(es) == MutationsIn(es[1..]);
      }
    }
  }

  lemma FirstMutation(s: Snapshot, m: Mutation, ms: seq<Mutation>)
    ensures ApplyAll(s, [m] + ms) == ApplyAll(Apply(s, m), ms)
  {
    assert ([m] + ms)[1..] == ms;
  }

  /**
    Over one life, flushes of whatever outcome included, each total and each counter of each
    day is what it was plus the number of its own events.
   */
  lemma CountersCountTheLife(w: World, es: seq<Event>, day: Day)
    requires Legal(w, es) && SameLife(es) && w.up
    ensures var ms, w' := MutationsIn(es), Run(w, es);
            && Counted(w.mem.totals, ms, w'.mem.totals)
            && Counted(DayCount(w.mem, day), OfDay(ms, day), DayCount(w'.mem, day))
  {
    MemoryOverRuns(w, es);
    CountersCountEvents(w.mem, MutationsIn(es), day);
  }
}
