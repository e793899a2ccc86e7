/**
  Any number of interleaved PUTs and GETs on the in-process backend, without cleanup
  (internal/cacheapi/handler.go, internal/storage/storage.go). Each event is one call into
  the backend or the catalog.
 */
module ArtifactRuns {
  import opened Wrappers
  import opened CatalogSpec
  import opened Storage
  import opened Artifacts

  type Pid = nat

  /** Where a PUT stands; `leaked` marks a roll-back whose delete failed. */
  datatype Pc =
    | Begun
    | Checked
    | InBackend
    | CatalogRefused
    | Done(status: Status, leaked: bool)

  datatype PutState = PutState(hash: string, size: nat, up: Upload, pc: Pc)

  datatype Reader = HasRead(hash: string, body: Option<Bytes>) | Replied(hash: string, body: Option<Bytes>)

  /** `owner` remembers which PUT stored an object; objects from before the run have none. */
  datatype Sys = Sys(
    objs: Objects,
    owner: map<string, Pid>,
    catalog: Snapshot,
    puts: map<Pid, PutState>,
    gets: map<Pid, Reader>)

  datatype Event =
    | Begin(p: Pid, hash: string, declared: Option<int>, up: Upload, maxUpload: int)
    | CheckExists(p: Pid, fault: bool)
    | StoreBody(p: Pid, now: Time)
    | Catalogue(p: Pid, at: Time, info: TaskInfo, fault: bool)
    | RollBack(p: Pid, fault: bool)
    | ReadObject(g: Pid, hash: string)
    | RecordAccess(g: Pid, at: Time)

  predicate At(s: Sys, p: Pid, pc: Pc) { p in s.puts && s.puts[p].pc == pc }

  predicate Enabled(s: Sys, e: Event) {
    match e
    case Begin(p, _, _, _, _) => p !in s.puts
    case CheckExists(p, _) => At(s, p, Begun)
    case StoreBody(p, _) => At(s, p, Checked)
    case Catalogue(p, _, _, _) => At(s, p, InBackend)
    case RollBack(p, _) => At(s, p, CatalogRefused)
    case ReadObject(g, hash) => g !in s.gets && ValidHash(hash)
    case RecordAccess(g, _) => g in s.gets && s.gets[g].HasRead?
  }

  function Goto(s: Sys, p: Pid, pc: Pc): Sys
    requires p in s.puts
  {
    s.(puts := s.puts[p := s.puts[p].(pc := pc)])
  }

  function Step(s: Sys, e: Event): Sys
    requires Enabled(s, e)
  {
    match e
    case Begin(p, hash, declared, up, maxUpload) =>
      var no := Refusal(hash, declared, maxUpload);
      s.(puts := s.puts[p := if no.Some? then PutState(hash, 0, up, Done(no.value, false))
                             else PutState(hash, declared.value, up, Begun)])
    case CheckExists(p, fault) =>
      Goto(s, p, if fault then Done(ServerError, false)
                 else if s.puts[p].hash in s.objs then Done(Conflict, false)
                 else Checked)
    case StoreBody(p, now) =>
      var q := s.puts[p];
      var r := PutOutcome(s.objs, q.hash, q.up, q.size);
      if r != Stored then Goto(s, p, Done(StatusOf(r), false))
      else Goto(s.(objs := AfterPut(s.objs, q.hash, q.up, q.size, now), owner := s.owner[q.hash := p]), p, InBackend)
    case Catalogue(p, at, info, fault) =>
      if fault then Goto(s, p, CatalogRefused)
      else
        var q := s.puts[p];
        Goto(s.(catalog := Apply(s.catalog, Upsert(q.hash, q.size, at, info))), p, Done(Ok, false))
    case RollBack(p, fault) =>
      if fault then Goto(s, p, Done(ServerError, true))
      else
        var h := s.puts[p].hash;
        Goto(s.(objs := Dropped(s.objs, [h]), owner := s.owner - {h}), p, Done(ServerError, false))
    case ReadObject(g, hash) =>
      s.(gets := s.gets[g := HasRead(hash, if hash in s.objs then Some(s.objs[hash].data) else None)])
    case RecordAccess(g, at) =>
      var r := s.gets[g];
      s.(catalog := Apply(s.catalog, if r.body.Some? then Hit(r.hash, at) else Miss(at)),
         gets := s.gets[g := Replied(r.hash, r.body)])
  }

  predicate Legal(s: Sys, es: seq<Event>)
    decreases |es|
  {
    es == [] || (Enabled(s, es[0]) && Legal(Step(s, es[0]), es[1..]))
  }

  function Run(s: Sys, es: seq<Event>): Sys
    requires Legal(s, es)
    decreases |es|
  {
    if es == [] then s else Run(Step(s, es[0]), es[1..])
  }

  function Start(objs: Objects, catalog: Snapshot): Sys {
    Sys(objs, map[], catalog, map[], map[])
  }

  // ---------------------------------------------------------------- ownership

  /** The PUT has an object of its own in the backend. */
  predicate Holds(pc: Pc) {
    pc.InBackend? || pc.CatalogRefused? || (pc.Done? && (pc.status == Ok || pc.leaked))
  }

  predicate Owned(s: Sys, p: Pid)
    requires p in s.puts
  {
    var q := s.puts[p];
    && q.hash in s.objs && q.hash in s.owner && s.owner[q.hash] == p
    && s.objs[q.hash].data == q.up.body && |q.up.body| == q.size
  }

  /** A PUT holds an object exactly when it is recorded as the owner of its hash. */
  predicate Ownership(s: Sys) {
    && s.owner.Keys <= s.objs.Keys
    && (forall p | p in s.puts :: Holds(s.puts[p].pc) ==> Owned(s, p))
    && (forall h | h in s.owner :: s.owner[h] in s.puts && s.puts[s.owner[h]].hash == h && Holds(s.puts[s.owner[h]].pc))
  }

  predicate Catalogued(s: Sys) {
    && (forall p | p in s.puts && !s.puts[p].pc.Done? :: ValidHash(s.puts[p].hash))
    && (forall p | p in s.puts && s.puts[p].pc == Done(Ok, false) ::
          && ValidHash(s.puts[p].hash)
          && s.puts[p].hash in s.catalog.entries
          && s.catalog.entries[s.puts[p].hash].hash != ""
          && s.catalog.entries[s.puts[p].hash].size == s.puts[p].size)
    && (forall p | p in s.puts && s.puts[p].pc.Done? && s.puts[p].pc.status == Ok :: !s.puts[p].pc.leaked)
  }

  lemma GotoKeepsOwnership(s: Sys, p: Pid, pc: Pc)
    requires Ownership(s) && p in s.puts && Holds(s.puts[p].pc) == Holds(pc)
    ensures Ownership(Goto(s, p, pc))
  {
    var s' := Goto(s, p, pc);
    forall o | o in s'.puts && Holds(s'.puts[o].pc) ensures Owned(s', o) {
      assert Owned(s, o);
    }
  }

  lemma StoringTakesOwnership(s: Sys, p: Pid, now: Time)
    requires Ownership(s) && At(s, p, Checked)
    requires PutOutcome(s.objs, s.puts[p].hash, s.puts[p].up, s.puts[p].size) == Stored
    ensures Ownership(Step(s, StoreBody(p, now)))
  {
    var s' := Step(s, StoreBody(p, now));
    forall o | o in s'.puts && Holds(s'.puts[o].pc) ensures Owned(s', o) {
      if o != p {
        assert Owned(s, o);
      }
    }
  }

  /** A roll-back deletes the object of the PUT that rolls back, never another's. */
  lemma RollBackDropsOwnObject(s: Sys, p: Pid)
    requires Ownership(s) && At(s, p, CatalogRefused)
    ensures var h := s.puts[p].hash;
            && h in s.objs && h in s.owner && s.owner[h] == p && s.objs[h].data == s.puts[p].up.body
            && Step(s, RollBack(p, false)).objs == s.objs - {h}
    ensures Ownership(Step(s, RollBack(p, false)))
  {
    var s' := Step(s, RollBack(p, false));
    assert Owned(s, p);
    forall o | o in s'.puts && Holds(s'.puts[o].pc) ensures Owned(s', o) {
      assert Owned(s, o) && o != p;
    }
  }

  lemma StepKeepsOwnership(s: Sys, e: Event)
    requires Enabled(s, e) && Ownership(s)
    ensures Ownership(Step(s, e))
  {
    match e
    case Begin(p, _, _, _, _) =>
      var s' := Step(s, e);
      forall o | o in s'.puts && Holds(s'.puts[o].pc) ensures Owned(s', o) {
        assert Owned(s, o);
      }
    case CheckExists(p, fault) =>
      GotoKeepsOwnership(s, p, Step(s, e).puts[p].pc);
    case StoreBody(p, now) =>
      if PutOutcome(s.objs, s.puts[p].hash, s.puts[p].up, s.puts[p].size) == Stored {
        StoringTakesOwnership(s, p, now);
      } else {
        GotoKeepsOwnership(s, p, Step(s, e).puts[p].pc);
      }
    case Catalogue(p, at, info, fault) =>
      GotoKeepsOwnership(s, p, Step(s, e).puts[p].pc);
    case RollBack(p, fault) =>
      if fault {
        GotoKeepsOwnership(s, p, Done(ServerError, true));
      } else {
        RollBackDropsOwnObject(s, p);
      }
    case _ =>
  }

  /** Recording an access keeps the size of an entry that names its hash. */
  lemma AccessKeepsSize(c: Snapshot, h: string, m: Mutation)
    requires h in c.entries && c.entries[h].hash != ""
    requires m.Hit? || m.Miss?
    ensures h in Apply(c, m).entries
    ensures Apply(c, m).entries[h].size == c.entries[h].size && Apply(c, m).entries[h].hash == c.entries[h].hash
  {
  }

  lemma AccessKeepsCatalogued(s: Sys, g: Pid, at: Time)
    requires Catalogued(s) && Enabled(s, RecordAccess(g, at))
    ensures Catalogued(Step(s, RecordAccess(g, at)))
  {
    var r := s.gets[g];
    var m := if r.body.Some? then Hit(r.hash, at) else Miss(at);
    forall p | p in s.puts && s.puts[p].pc == Done(Ok, false)
      ensures s.puts[p].hash in Apply(s.catalog, m).entries
      ensures Apply(s.catalog, m).entries[s.puts[p].hash].size == s.puts[p].size
      ensures Apply(s.catalog, m).entries[s.puts[p].hash].hash != ""
    {
      AccessKeepsSize(s.catalog, s.puts[p].hash, m);
    }
  }

  /** Only the owner of an object catalogues its hash. */
  lemma CataloguingKeepsOthers(s: Sys, p: Pid, at: Time, info: TaskInfo)
    requires Ownership(s) && Catalogued(s) && At(s, p, InBackend)
    ensures Catalogued(Step(s, Catalogue(p, at, info, false)))
  {
    var q := s.puts[p];
    var m := Upsert(q.hash, q.size, at, info);
    assert Owned(s, p);
    assert Apply(s.catalog, m).entries[q.hash].size == q.size;
    forall o | o in s.puts && o != p && s.puts[o].pc == Done(Ok, false) ensures s.puts[o].hash != q.hash {
      assert Owned(s, o);
    }
  }

  /** Steps that answer anything but 200 leave the catalog alone. */
  lemma MoveKeepsCatalogued(s: Sys, t: Sys, p: Pid, pc: Pc)
    requires Catalogued(s) && p in s.puts && !s.puts[p].pc.Done? && (pc.Done? ==> pc.status != Ok)
    requires t.catalog == s.catalog && t.gets == s.gets && t.puts == s.puts[p := s.puts[p].(pc := pc)]
    ensures Catalogued(t)
  {
  }

  lemma BeginKeepsCatalogued(s: Sys, p: Pid, q: PutState)
    requires Catalogued(s) && p !in s.puts
    requires if q.pc.Done? then q.pc.status != Ok else ValidHash(q.hash)
    ensures Catalogued(s.(puts := s.puts[p := q]))
  {
  }

  lemma StepKeepsCatalogued(s: Sys, e: Event)
    requires Enabled(s, e) && Ownership(s) && Catalogued(s)
    ensures Catalogued(Step(s, e))
  {
    var s' := Step(s, e);
    match e
    case Begin(p, hash, declared, _, maxUpload) =>
      assert ValidHash(hash) || Refusal(hash, declared, maxUpload) == Some(BadRequest);
      BeginKeepsCatalogued(s, p, s'.puts[p]);
    case Catalogue(p, at, info, fault) =>
      if fault {
        MoveKeepsCatalogued(s, s', p, CatalogRefused);
      } else {
        CataloguingKeepsOthers(s, p, at, info);
      }
    case RecordAccess(g, at) =>
      AccessKeepsCatalogued(s, g, at);
    case CheckExists(p, _) =>
      MoveKeepsCatalogued(s, s', p, s'.puts[p].pc);
    case StoreBody(p, _) =>
      MoveKeepsCatalogued(s, s', p, s'.puts[p].pc);
    case RollBack(p, _) =>
      MoveKeepsCatalogued(s, s', p, s'.puts[p].pc);
    case ReadObject(g, hash) =>
      assert s'.puts == s.puts && s'.catalog == s.catalog;
  }

  predicate Finished(s: Sys, p: Pid) { p in s.puts && s.puts[p].pc.Done? }

  lemma StepKeepsFinished(s: Sys, e: Event, p: Pid)
    requires Enabled(s, e) && Finished(s, p)
    ensures Finished(Step(s, e), p) && Step(s, e).puts[p] == s.puts[p]
  {
  }

  lemma {:induction false} FinishedOverRuns(s: Sys, es: seq<Event>, p: Pid)
    requires Legal(s, es) && Finished(s, p)
    ensures p in Run(s, es).puts && Run(s, es).puts[p] == s.puts[p]
    decreases |es|
  {
    if es != [] {
      StepKeepsFinished(s, es[0], p);
      FinishedOverRuns(Step(s, es[0]), es[1..], p);
    }
  }

  lemma {:induction false} InvariantsOverRuns(s: Sys, es: seq<Event>)
    requires Legal(s, es) && Ownership(s) && Catalogued(s)
    ensures Ownership(Run(s, es)) && Catalogued(Run(s, es))
    decreases |es|
  {
    if es != [] {
      StepKeepsOwnership(s, es[0]);
      StepKeepsCatalogued(s, es[0]);
      InvariantsOverRuns(Step(s, es[0]), es[1..]);
    }
  }

  /**
    A PUT that answered 200 at some point of a run stays in force to its end: the backend
    serves exactly its bytes, the catalog gives their length, and the next read returns them.
   */
  lemma AcknowledgedPutLasts(objs: Objects, catalog: Snapshot, es: seq<Event>, more: seq<Event>, p: Pid, g: Pid)
    requires Legal(Start(objs, catalog), es) && Legal(Run(Start(objs, catalog), es), more)
    requires At(Run(Start(objs, catalog), es), p, Done(Ok, false))
    requires g !in Run(Run(Start(objs, catalog), es), more).gets
    ensures var q := Run(Start(objs, catalog), es).puts[p];
            var s := Run(Run(Start(objs, catalog), es), more);
            && q.hash in s.objs && s.objs[q.hash].data == q.up.body && |q.up.body| == q.size
            && q.hash in s.catalog.entries && s.catalog.entries[q.hash].size == |q.up.body|
            && Enabled(s, ReadObject(g, q.hash))
            && Step(s, ReadObject(g, q.hash)).gets[g] == HasRead(q.hash, Some(q.up.body))
  {
    var s1 := Run(Start(objs, catalog), es);
    InvariantsOverRuns(Start(objs, catalog), es);
    InvariantsOverRuns(s1, more);
    var s2 := Run(s1, more);
    FinishedOverRuns(s1, more, p);
    assert Owned(s2, p);
  }

  /** Of all PUTs of one hash at most one is ever answered 200. */
  lemma OneWinnerPerHash(objs: Objects, catalog: Snapshot, es: seq<Event>, p: Pid, q: Pid)
    requires Legal(Start(objs, catalog), es)
    requires var s := Run(Start(objs, catalog), es);
             At(s, p, Done(Ok, false)) && At(s, q, Done(Ok, false)) && s.puts[p].hash == s.puts[q].hash
    ensures p == q
  {
    InvariantsOverRuns(Start(objs, catalog), es);
    var s := Run(Start(objs, catalog), es);
    assert Owned(s, p) && Owned(s, q);
  }

  // ---------------------------------------------------------------- whose the objects are

  /** Objects from before the run are untouched, and every other object has an owner. */
  predicate Accounted(old': Objects, s: Sys) {
    && (forall h | h in old' :: h in s.objs && s.objs[h] == old'[h] && h !in s.owner)
    && (forall h | h in s.objs && h !in s.owner :: h in old')
  }

  lemma StepKeepsAccounted(old': Objects, s: Sys, e: Event)
    requires Enabled(s, e) && Ownership(s) && Accounted(old', s)
    ensures Accounted(old', Step(s, e))
  {
    if e.RollBack? {
      assert Owned(s, e.p);
    }
  }

  lemma {:induction false} AccountedOverRuns(old': Objects, s: Sys, es: seq<Event>)
    requires Legal(s, es) && Ownership(s) && Accounted(old', s)
    ensures Accounted(old', Run(s, es))
    decreases |es|
  {
    if es != [] {
      StepKeepsOwnership(s, es[0]);
      StepKeepsAccounted(old', s, es[0]);
      AccountedOverRuns(old', Step(s, es[0]), es[1..]);
    }
  }

  /**
    The backend holds the objects it held before, untouched, and besides exactly one object
    for each PUT that was answered 200, is still under way past its store, or failed to roll
    back. A PUT with any other answer has left nothing of its own.
   */
  lemma ObjectsAreAccountedFor(objs: Objects, catalog: Snapshot, es: seq<Event>, h: string)
    requires Legal(Start(objs, catalog), es)
    ensures var s := Run(Start(objs, catalog), es);
            && (h in objs ==> h in s.objs && s.objs[h] == objs[h])
            && (h in s.objs && h !in objs <==> exists p :: p in s.puts && s.puts[p].hash == h && Holds(s.puts[p].pc))
            && (forall p | p in s.puts && s.puts[p].hash == h && Holds(s.puts[p].pc) ::
                  h in s.objs && s.objs[h].data == s.puts[p].up.body)
  {
    InvariantsOverRuns(Start(objs, catalog), es);
    AccountedOverRuns(objs, Start(objs, catalog), es);
    var s := Run(Start(objs, catalog), es);
    forall p | p in s.puts && s.puts[p].hash == h && Holds(s.puts[p].pc)
      ensures h in s.objs && h !in objs && s.objs[h].data == s.puts[p].up.body
    {
      assert Owned(s, p);
    }
    if h in s.objs && h !in objs {
      assert h in s.owner && s.puts[s.owner[h]].hash == h;
    }
  }

  // ---------------------------------------------------------------- requests left alone

  lemma RunFirst(s: Sys, e: Event, es: seq<Event>)
    requires Enabled(s, e) && Legal(Step(s, e), es)
    ensures Legal(s, [e] + es) && Run(s, [e] + es) == Run(Step(s, e), es)
  {
    assert ([e] + es)[1..] == es;
  }

  lemma RunFour(s: Sys, a: Event, b: Event, c: Event, d: Event)
    requires Enabled(s, a) && Enabled(Step(s, a), b) && Enabled(Step(Step(s, a), b), c)
    requires Enabled(Step(Step(Step(s, a), b), c), d)
    ensures Legal(s, [a, b, c, d]) && Run(s, [a, b, c, d]) == Step(Step(Step(Step(s, a), b), c), d)
  {
    var s1 := Step(s, a);
    var s2 := Step(s1, b);
    var s3 := Step(s2, c);
    RunFirst(s3, d, []);
    RunFirst(s2, c, [d] + []);
    RunFirst(s1, b, [c] + ([d] + []));
    RunFirst(s, a, [b] + ([c] + ([d] + [])));
    assert [a] + ([b] + ([c] + ([d] + []))) == [a, b, c, d];
  }

  /** A well-formed PUT of a new hash is answered 200 and leaves its bytes and its entry. */
  lemma GoodPutSucceeds(s: Sys, p: Pid, hash: string, body: Bytes, maxUpload: int, now: Time, at: Time, info: TaskInfo)
    requires p !in s.puts && ValidHash(hash) && hash !in s.objs && (maxUpload <= 0 || |body| <= maxUpload)
    ensures var es := [Begin(p, hash, Some(|body|), Upload(body, false), maxUpload), CheckExists(p, false),
                       StoreBody(p, now), Catalogue(p, at, info, false)];
            && Legal(s, es)
            && At(Run(s, es), p, Done(Ok, false))
            && Run(s, es).objs == s.objs[hash := StoredObject(body, now)]
            && hash in Run(s, es).catalog.entries && Run(s, es).catalog.entries[hash].size == |body|
  {
    var begin := Begin(p, hash, Some(|body|), Upload(body, false), maxUpload);
    RunFour(s, begin, CheckExists(p, false), StoreBody(p, now), Catalogue(p, at, info, false));
  }
}
