/**
  The update protocol end to end: writers mutate the store and then notify the hub
  (internal/store/notifying.go), pollers wait on the hub and then read the store
  (internal/longpoll/longpoll.go, internal/httpserver/server.go). Any number of writers
  and pollers interleave; each event is one critical section.
 */
module Polling {
  import opened Wrappers
  import opened CatalogSpec
  import opened Etag
  import opened LongPoll

  type Pid = nat

  // ---------------------------------------------------------------- who notifies

  /** Which mutations NotifyingStore follows up with a notification. */
  predicate Notifies(m: Mutation) {
    match m
    case Remove(hs) => hs != []
    case Update(_, info) => !info.Empty()
    case _ => true
  }

  /** An UpdateTaskInfo that sets nothing but the configuration. */
  predicate ConfigOnly(m: Mutation) {
    m.Update? && m.info.Empty() && m.info.config != ""
  }

  /**
    A mutation that is not announced changes the catalog exactly when it gives a present
    entry another configuration and nothing else.
   */
  lemma SilentChangeExactlyWhen(s: Snapshot, m: Mutation)
    requires !Notifies(m)
    ensures Apply(s, m) != s <==>
            ConfigOnly(m) && m.hash in s.entries && s.entries[m.hash].info.config != m.info.config
  {
    match m
    case Remove(hs) => assert Without(s.entries, hs) == s.entries;
    case Update(h, info) =>
      if h in s.entries {
        var e := s.entries[h].(info := Overlay(s.entries[h].info, info));
        assert e == s.entries[h] <==> info.config == "" || info.config == s.entries[h].info.config;
        assert s.entries[h := e][h] == e;
        assert s.entries[h := s.entries[h]] == s.entries;
      }
  }

  // ---------------------------------------------------------------- the protocol

  /**
    Waiting .. Leaving are inside WaitOrModified with a subscribed channel; `at` is the
    state at registration, `shut` whether the hub was closed by then. Answering has set
    the headers from `state`. List reads the entries (HaveList); Stats reads entries again
    for its sums (HaveSums) and then, under a second lock, the counters (Served). Lengths
    of the mutation log stand for the data read. The Page phases belong to the
    dashboard handler, which reads first and captures the state afterwards.
   */
  datatype Poller =
    | Waiting(at: State, shut: bool)
    | Woken(at: State, shut: bool)
    | Leaving(modified: bool, cancelled: bool, state: State, at: State, shut: bool)
    | Answering(modified: bool, state: State)
    | HaveList(state: State, listed: nat)
    | HaveSums(state: State, listed: nat, summed: nat)
    | Served(state: State, listed: nat, summed: nat, counted: nat)
    | NotModified(state: State)
    | Failed
    | PageList(listed: nat)
    | PageRead(listed: nat, counted: nat)
    | Page(state: State, listed: nat, counted: nat)
  {
    predicate Subscribed() { Waiting? || Woken? || Leaving? }
    predicate AtRest() { Served? || NotModified? || Failed? || Page? }
  }

  /**
    `log` is every mutation applied to the store, in order; `pending` the positions whose
    writer has yet to notify; `announced` the hub version each completed Notify produced.
   */
  datatype Sys = Sys(
    hub: HubState<Pid>,
    log: seq<Mutation>,
    pending: set<nat>,
    announced: map<nat, nat>,
    pollers: map<Pid, Poller>)

  datatype Event =
    | Write(m: Mutation)
    | Announce(i: nat, now: int)
    | Nudge(now: int)
    | CloseHub
    | Poll(p: Pid, request: Request)
    | Wake(p: Pid)
    | Capture(p: Pid)
    | GiveUp(p: Pid, cancelled: bool)
    | Leave(p: Pid)
    | ReadList(p: Pid)
    | ReadSums(p: Pid)
    | ReadCounters(p: Pid)
    | ReplyUnmodified(p: Pid)
    | ReadError(p: Pid)
    | PageListStep(p: Pid)
    | PageStatsStep(p: Pid)
    | PageHeaders(p: Pid)

  function Start(now: int): Sys {
    Sys(HubState(1, now, false, map[]), [], {}, map[], map[])
  }

  predicate Free(s: Sys, p: Pid) { p in s.pollers ==> s.pollers[p].AtRest() }

  predicate Enabled(s: Sys, e: Event) {
    match e
    case Write(_) => true
    case Announce(i, _) => i in s.pending
    case Nudge(_) => true
    case CloseHub => true
    case Poll(p, _) => Free(s, p)
    case Wake(p) => p in s.pollers && s.pollers[p].Waiting? && p in s.hub.slots && s.hub.slots[p]
    case Capture(p) => p in s.pollers && s.pollers[p].Woken?
    case GiveUp(p, _) => p in s.pollers && s.pollers[p].Waiting?
    case Leave(p) => p in s.pollers && s.pollers[p].Leaving?
    case ReadList(p) => p in s.pollers && s.pollers[p].Answering? && s.pollers[p].modified
    case ReadSums(p) => p in s.pollers && s.pollers[p].HaveList?
    case ReadCounters(p) => p in s.pollers && s.pollers[p].HaveSums?
    case ReplyUnmodified(p) => p in s.pollers && s.pollers[p].Answering? && !s.pollers[p].modified
    case ReadError(p) =>
      p in s.pollers && ((s.pollers[p].Answering? && s.pollers[p].modified) || s.pollers[p].HaveList? || s.pollers[p].HaveSums?)
    case PageListStep(p) => Free(s, p)
    case PageStatsStep(p) => p in s.pollers && s.pollers[p].PageList?
    case PageHeaders(p) => p in s.pollers && s.pollers[p].PageRead?
  }

  function Move(s: Sys, p: Pid, to: Poller): Sys { s.(pollers := s.pollers[p := to]) }

  function Step(s: Sys, e: Event): Sys
    requires Enabled(s, e)
  {
    match e
    case Write(m) =>
      s.(log := s.log + [m], pending := if Notifies(m) then s.pending + {|s.log|} else s.pending)
    case Announce(i, now) =>
      var hub' := Notified(s.hub, now);
      s.(hub := hub', pending := s.pending - {i},
         announced := if s.hub.closed then s.announced else s.announced[i := hub'.version])
    case Nudge(now) => s.(hub := Notified(s.hub, now))
    case CloseHub => s.(hub := Shut(s.hub))
    case Poll(p, r) =>
      var at := s.hub.Snapshot();
      if !Fresh(r, at) then Move(s, p, Answering(true, at))
      else Move(s.(hub := Subscribed(s.hub, p)), p, Waiting(at, s.hub.closed))
    case Wake(p) =>
      Move(s.(hub := Subscribed(s.hub, p)), p, Woken(s.pollers[p].at, s.pollers[p].shut))
    case Capture(p) =>
      Move(s, p, Leaving(true, false, s.hub.Snapshot(), s.pollers[p].at, s.pollers[p].shut))
    case GiveUp(p, cancelled) =>
      Move(s, p, Leaving(false, cancelled, s.pollers[p].at, s.pollers[p].at, s.pollers[p].shut))
    case Leave(p) =>
      var q := s.pollers[p];
      Move(s.(hub := Left(s.hub, p)), p, if q.cancelled then Failed else Answering(q.modified, q.state))
    case ReadList(p) => Move(s, p, HaveList(s.pollers[p].state, |s.log|))
    case ReadSums(p) => Move(s, p, HaveSums(s.pollers[p].state, s.pollers[p].listed, |s.log|))
    case ReadCounters(p) => Move(s, p, Served(s.pollers[p].state, s.pollers[p].listed, s.pollers[p].summed, |s.log|))
    case ReplyUnmodified(p) => Move(s, p, NotModified(s.pollers[p].state))
    case ReadError(p) => Move(s, p, Failed)
    case PageListStep(p) => Move(s, p, PageList(|s.log|))
    case PageStatsStep(p) => Move(s, p, PageRead(s.pollers[p].listed, |s.log|))
    case PageHeaders(p) => Move(s, p, Page(s.hub.Snapshot(), s.pollers[p].listed, s.pollers[p].counted))
  }

  predicate Legal(s: Sys, es: seq<Event>)
    decreases |es|
  {
    es == [] || (Enabled(s, es[0]) && Legal(Step(s, es[0]), es[1..]))
  }

  function Run(s: Sys, es: seq<Event>): Sys
    requires Legal(s, es)
    decreases |es|
  {
    if es == [] then s else Run(Step(s, es[0]), es[1..])
  }

  // ---------------------------------------------------------------- no lost wake-up

  /** Something happened to the hub since the poll registered. */
  predicate Disturbed(h: HubState<Pid>, q: Poller)
    requires q.Subscribed()
  {
    h.version > q.at.version || (h.closed && !q.shut)
  }

  /** A waiting poll holds a token exactly when something happened since it registered. */
  predicate TokenIffDisturbed(h: HubState<Pid>, p: Pid, q: Poller) {
    && (q.Subscribed() <==> p in h.slots)
    && (q.Subscribed() ==> q.at.version <= h.version && (q.shut ==> h.closed && q.at.version == h.version))
    && (q.Waiting? ==> (h.slots[p] <==> Disturbed(h, q)))
    && (q.Woken? ==> Disturbed(h, q))
    && (q.Leaving? && q.modified ==> q.state.version <= h.version && (q.state.version > q.at.version || (h.closed && !q.shut)))
    && (q.Leaving? && !q.modified ==> q.state == q.at)
  }

  predicate WakeUps(s: Sys) {
    && (forall p | p in s.pollers :: TokenIffDisturbed(s.hub, p, s.pollers[p]))
    && (forall p | p in s.hub.slots :: p in s.pollers)
  }

  /** What happens to the hub fills the slot of every poll it disturbs. */
  lemma HubKeepsToken(h: HubState<Pid>, op: HubOp, p: Pid, q: Poller)
    requires TokenIffDisturbed(h, p, q)
    ensures TokenIffDisturbed(HubStep(h, op), p, q)
  {
  }

  /** Another poll's slot is of no account. */
  lemma OtherSlotKeepsToken(h: HubState<Pid>, k: Pid, p: Pid, q: Poller)
    requires TokenIffDisturbed(h, p, q) && p != k
    ensures TokenIffDisturbed(Subscribed(h, k), p, q) && TokenIffDisturbed(Left(h, k), p, q)
  {
  }

  /** The poll's own steps. */
  lemma OwnStepKeepsToken(s: Sys, e: Event, p: Pid)
    requires Enabled(s, e) && p in Step(s, e).pollers && Actor(e) == Some(p)
    requires p in s.pollers ==> TokenIffDisturbed(s.hub, p, s.pollers[p])
    requires p in s.hub.slots ==> p in s.pollers
    ensures TokenIffDisturbed(Step(s, e).hub, p, Step(s, e).pollers[p])
  {
  }

  function Actor(e: Event): Option<Pid> {
    match e
    case Write(_) => None
    case Announce(_, _) => None
    case Nudge(_) => None
    case CloseHub => None
    case _ => Some(e.p)
  }

  lemma StepKeepsToken(s: Sys, e: Event, p: Pid)
    requires Enabled(s, e) && WakeUps(s) && p in Step(s, e).pollers
    ensures TokenIffDisturbed(Step(s, e).hub, p, Step(s, e).pollers[p])
  {
    assert p in s.pollers ==> TokenIffDisturbed(s.hub, p, s.pollers[p]);
    if Actor(e) == Some(p) {
      OwnStepKeepsToken(s, e, p);
    } else {
      var q := s.pollers[p];
      match e
      case Write(_) =>
      case Announce(_, now) => HubKeepsToken(s.hub, NotifyOp(now), p, q);
      case Nudge(now) => HubKeepsToken(s.hub, NotifyOp(now), p, q);
      case CloseHub => HubKeepsToken(s.hub, CloseOp, p, q);
      case _ => OtherSlotKeepsToken(s.hub, e.p, p, q);
    }
  }

  lemma StepKeepsWakeUps(s: Sys, e: Event)
    requires Enabled(s, e) && WakeUps(s)
    ensures WakeUps(Step(s, e))
  {
    forall p | p in Step(s, e).pollers
      ensures TokenIffDisturbed(Step(s, e).hub, p, Step(s, e).pollers[p])
    {
      StepKeepsToken(s, e, p);
    }
  }

  lemma {:induction false} WakeUpsOverRuns(s: Sys, es: seq<Event>)
    requires Legal(s, es) && WakeUps(s)
    ensures WakeUps(Run(s, es))
    decreases |es|
  {
    if es != [] {
      StepKeepsWakeUps(s, es[0]);
      WakeUpsOverRuns(Step(s, es[0]), es[1..]);
    }
  }

  /** In every reachable state; and the subscribers are exactly the polls inside WaitOrModified. */
  lemma NoLostWakeUp(now: int, es: seq<Event>)
    requires Legal(Start(now), es)
    ensures var s := Run(Start(now), es);
            && (forall p | p in s.pollers && s.pollers[p].Waiting? ::
                  p in s.hub.slots && (s.hub.slots[p] <==> Disturbed(s.hub, s.pollers[p])))
            && (forall p | p in s.pollers && s.pollers[p].Leaving? && s.pollers[p].modified && !s.hub.closed ::
                  s.pollers[p].state.version > s.pollers[p].at.version)
            && (forall p :: p in s.hub.slots <==> p in s.pollers && s.pollers[p].Subscribed())
  {
    WakeUpsOverRuns(Start(now), es);
  }

  /** Leaving removes the poll's own channel and touches no other. */
  lemma LeaveRemovesOwnSlot(s: Sys, p: Pid)
    requires Enabled(s, Leave(p)) && WakeUps(s)
    ensures Step(s, Leave(p)).hub.slots.Keys == s.hub.slots.Keys - {p}
    ensures forall q | q in s.hub.slots && q != p :: Step(s, Leave(p)).hub.slots[q] == s.hub.slots[q]
    ensures p in s.hub.slots
  {
    assert TokenIffDisturbed(s.hub, p, s.pollers[p]);
  }

  // ---------------------------------------------------------------- polls get through

  predicate At(s: Sys, p: Pid, q: Poller) { p in s.pollers && s.pollers[p] == q }

  /** A client without a valid copy is answered at once. */
  lemma OutdatedPollIsAnswered(s: Sys, p: Pid, r: Request)
    requires Enabled(s, Poll(p, r)) && Outdated(r, State(s.hub.version, s.hub.updatedAt))
    ensures Step(s, Poll(p, r)) == s.(pollers := s.pollers[p := Answering(true, State(s.hub.version, s.hub.updatedAt))])
  {
    FreshMeans(r, State(s.hub.version, s.hub.updatedAt));
  }

  /** A client that is up to date waits. */
  lemma UpToDatePollWaits(s: Sys, p: Pid, r: Request)
    requires Enabled(s, Poll(p, r)) && UpToDate(r, State(s.hub.version, s.hub.updatedAt))
    ensures Step(s, Poll(p, r)).pollers[p] == Waiting(State(s.hub.version, s.hub.updatedAt), s.hub.closed)
  {
    FreshMeans(r, State(s.hub.version, s.hub.updatedAt));
  }

  /** A waiting poll that something happened to can go all the way to an answer with the newest state. */
  lemma DisturbedPollGetsThrough(now: int, es: seq<Event>, p: Pid)
    requires Legal(Start(now), es)
    requires var s := Run(Start(now), es); p in s.pollers && s.pollers[p].Waiting? && Disturbed(s.hub, s.pollers[p])
    ensures var s := Run(Start(now), es);
            && Legal(s, [Wake(p), Capture(p), Leave(p)])
            && At(Run(s, [Wake(p), Capture(p), Leave(p)]), p, Answering(true, State(s.hub.version, s.hub.updatedAt)))
  {
    NoLostWakeUp(now, es);
    var s := Run(Start(now), es);
    RunThree(s, Wake(p), Capture(p), Leave(p));
  }

  /** A poll that gives up on a timeout is told that nothing is newer than what it has. */
  lemma PatientPollIsUnmodified(s: Sys, p: Pid)
    requires p in s.pollers && s.pollers[p].Waiting?
    ensures Legal(s, [GiveUp(p, false), Leave(p), ReplyUnmodified(p)])
    ensures At(Run(s, [GiveUp(p, false), Leave(p), ReplyUnmodified(p)]), p, NotModified(s.pollers[p].at))
  {
    RunThree(s, GiveUp(p, false), Leave(p), ReplyUnmodified(p));
  }

  // ---------------------------------------------------------------- no lost update

  /** Every mutation announced by the version of a response is in the data read for it. */
  predicate DataCovers(s: Sys, q: Poller) {
    && (q.Answering? || q.HaveList? || q.HaveSums? || q.Served? || q.Leaving? ==> q.state.version <= s.hub.version)
    && (q.Waiting? || q.Woken? ==> q.at.version <= s.hub.version)
    && (q.HaveList? || q.HaveSums? || q.Served? ==>
          q.listed <= |s.log| && forall i | i in s.announced && s.announced[i] <= q.state.version :: i < q.listed)
    && (q.HaveSums? || q.Served? ==> q.listed <= q.summed <= |s.log|)
    && (q.Served? ==> q.summed <= q.counted <= |s.log|)
  }

  predicate Accounted(s: Sys) {
    && (forall i | i in s.pending :: i < |s.log|)
    && (forall i | i in s.announced :: i < |s.log| && s.announced[i] <= s.hub.version)
    && (!s.hub.closed ==> forall i | 0 <= i < |s.log| && Notifies(s.log[i]) :: i in s.pending || i in s.announced)
    && (forall p | p in s.pollers :: DataCovers(s, s.pollers[p]))
  }

  /** The log grows, and what is announced later gets a version above the present one. */
  predicate Later(s: Sys, s': Sys) {
    && |s.log| <= |s'.log| && s.hub.version <= s'.hub.version
    && forall i | i in s'.announced ::
         (i in s.announced && s.announced[i] == s'.announced[i]) || s'.announced[i] > s.hub.version
  }

  lemma StepIsLater(s: Sys, e: Event)
    requires Enabled(s, e)
    ensures Later(s, Step(s, e))
  {
  }

  /** Later announcements do not belong to an earlier version. */
  lemma CoverPersists(s: Sys, s': Sys, q: Poller)
    requires Later(s, s') && DataCovers(s, q)
    ensures DataCovers(s', q)
  {
  }

  /** What a poll reads now includes everything announced so far. */
  lemma OwnStepCovers(s: Sys, e: Event, p: Pid)
    requires Enabled(s, e) && Actor(e) == Some(p)
    requires forall i | i in s.announced :: i < |s.log| && s.announced[i] <= s.hub.version
    requires p in s.pollers ==> DataCovers(s, s.pollers[p])
    ensures DataCovers(Step(s, e), Step(s, e).pollers[p])
  {
  }

  lemma StepKeepsCover(s: Sys, e: Event, p: Pid)
    requires Enabled(s, e) && Accounted(s) && p in Step(s, e).pollers
    ensures DataCovers(Step(s, e), Step(s, e).pollers[p])
  {
    if p in s.pollers {
      assert DataCovers(s, s.pollers[p]);
    }
    if Actor(e) == Some(p) {
      OwnStepCovers(s, e, p);
    } else {
      StepIsLater(s, e);
      CoverPersists(s, Step(s, e), s.pollers[p]);
    }
  }

  lemma StepKeepsAccounts(s: Sys, e: Event)
    requires Enabled(s, e) && Accounted(s)
    ensures Accounted(Step(s, e))
  {
    forall p | p in Step(s, e).pollers ensures DataCovers(Step(s, e), Step(s, e).pollers[p]) {
      StepKeepsCover(s, e, p);
    }
  }

  lemma {:induction false} AccountsOverRuns(s: Sys, es: seq<Event>)
    requires Legal(s, es) && Accounted(s)
    ensures Accounted(Run(s, es))
    decreases |es|
  {
    if es != [] {
      StepKeepsAccounts(s, es[0]);
      AccountsOverRuns(Step(s, es[0]), es[1..]);
    }
  }

  /** A request that carries back the validator of an earlier response, as a browser does. */
  predicate Revalidates(r: Request, state: State) { r.ifNoneMatch == state.ETag() }

  lemma RevalidationIsFresh(r: Request, state: State, current: State)
    requires Revalidates(r, state)
    ensures Fresh(r, current) <==> state == current
  {
    OwnTagMatches(state.version, state.lastModified, current.version, current.lastModified);
    assert |state.ETag()| > 0;
  }

  /** The response lacks mutation `i` in its list, its sums or its counters. */
  predicate Lacks(q: Poller, i: nat) {
    q.Served? && (i >= q.listed || i >= q.summed || i >= q.counted)
  }

  /** `tag` is the entity tag, weakened or not, of a response that lacks mutation `i`. */
  predicate OfLackingResponse(s: Sys, i: nat, tag: EntityTag) {
    exists p ::
      p in s.pollers && Lacks(s.pollers[p], i)
      && tag.body == Inner(s.pollers[p].state.version, s.pollers[p].state.lastModified)
  }

  /** A tag of such a response is not the current one. */
  lemma LackingTagIsOld(s: Sys, i: nat, tag: EntityTag)
    requires Accounted(s) && i in s.announced && OfLackingResponse(s, i, tag)
    ensures tag.body != Inner(s.hub.version, s.hub.updatedAt)
  {
    var p :| p in s.pollers && Lacks(s.pollers[p], i)
             && tag.body == Inner(s.pollers[p].state.version, s.pollers[p].state.lastModified);
    var state := s.pollers[p].state;
    assert DataCovers(s, s.pollers[p]);
    if tag.body == Inner(s.hub.version, s.hub.updatedAt) {
      InnerInjective(state.version, state.lastModified, s.hub.version, s.hub.updatedAt);
    }
  }

  /**
    If responses of entries or stats lack a mutation whose Notify has completed, the next poll
    that sends any of their entity tags back, weakened or in a list, is answered as modified
    at once.
   */
  lemma NoLostUpdate(now: int, es: seq<Event>, i: nat, r: Request, field: IfNoneMatch, p': Pid)
    requires Legal(Start(now), es)
    requires field.Valid() && field.Tags? && r.ifNoneMatch == field.Text() && r.ifNoneMatch != ""
    requires var s := Run(Start(now), es);
             && i in s.announced && Enabled(s, Poll(p', r))
             && forall k | 0 <= k < |field.elements| && field.elements[k].tag.Some? ::
                  OfLackingResponse(s, i, field.elements[k].tag.value)
    ensures var s := Run(Start(now), es);
            Step(s, Poll(p', r)).pollers[p'] == Answering(true, s.hub.Snapshot())
  {
    AccountsOverRuns(Start(now), es);
    var s := Run(Start(now), es);
    var current := EntityTag(false, Inner(s.hub.version, s.hub.updatedAt));
    DecidesWeakComparison(field, s.hub.version, s.hub.updatedAt);
    forall k | 0 <= k < |field.elements| && field.elements[k].tag.Some?
      ensures !WeakMatch(field.elements[k].tag.value, current)
    {
      LackingTagIsOld(s, i, field.elements[k].tag.value);
    }
    assert !Fresh(r, s.hub.Snapshot());
  }

  /** In particular when the tag comes back as it was sent. */
  lemma NoLostUpdateOnOwnTag(now: int, es: seq<Event>, p: Pid, i: nat, r: Request, p': Pid)
    requires Legal(Start(now), es)
    requires var s := Run(Start(now), es);
             && p in s.pollers && Lacks(s.pollers[p], i) && i in s.announced
             && Revalidates(r, s.pollers[p].state) && Enabled(s, Poll(p', r))
    ensures var s := Run(Start(now), es);
            Step(s, Poll(p', r)).pollers[p'] == Answering(true, s.hub.Snapshot())
  {
    AccountsOverRuns(Start(now), es);
    var s := Run(Start(now), es);
    assert DataCovers(s, s.pollers[p]);
    RevalidationIsFresh(r, s.pollers[p].state, s.hub.Snapshot());
  }

  // ---------------------------------------------------------------- the client catches up

  predicate NoConfigOnly(log: seq<Mutation>) {
    forall i | 0 <= i < |log| :: !ConfigOnly(log[i])
  }

  lemma {:induction false} SilentSuffix(s0: Snapshot, log: seq<Mutation>, n: nat)
    requires n <= |log| && NoConfigOnly(log)
    requires forall i | n <= i < |log| :: !Notifies(log[i])
    ensures ApplyAll(s0, log[..n]) == ApplyAll(s0, log)
    decreases |log| - n
  {
    if n == |log| {
      assert log[..n] == log;
    } else {
      SilentSuffix(s0, log, n + 1);
      assert log[..n + 1] == log[..n] + [log[n]];
      ApplyAllSnoc(s0, log[..n], log[n]);
      SilentChangeExactlyWhen(ApplyAll(s0, log[..n]), log[n]);
    }
  }

  /**
    Once the writers are done and the hub is open, a client whose entity tag is still
    current holds exactly the present catalog, in its list and in its statistics.
   */
  lemma QuietMeansUpToDate(now: int, es: seq<Event>, p: Pid, r: Request, s0: Snapshot)
    requires Legal(Start(now), es)
    requires var s := Run(Start(now), es);
             && p in s.pollers && s.pollers[p].Served? && s.pending == {} && !s.hub.closed
             && Revalidates(r, s.pollers[p].state) && NoConfigOnly(s.log)
    ensures var s := Run(Start(now), es);
            Fresh(r, s.hub.Snapshot()) ==>
            && s.pollers[p].listed <= s.pollers[p].summed <= s.pollers[p].counted <= |s.log|
            && ApplyAll(s0, s.log[..s.pollers[p].listed]) == ApplyAll(s0, s.log)
            && ApplyAll(s0, s.log[..s.pollers[p].summed]) == ApplyAll(s0, s.log)
            && ApplyAll(s0, s.log[..s.pollers[p].counted]) == ApplyAll(s0, s.log)
  {
    AccountsOverRuns(Start(now), es);
    var s := Run(Start(now), es);
    var q := s.pollers[p];
    assert DataCovers(s, q);
    RevalidationIsFresh(r, q.state, s.hub.Snapshot());
    if Fresh(r, s.hub.Snapshot()) {
      forall i | 0 <= i < |s.log| && Notifies(s.log[i]) ensures i < q.listed {
        assert i in s.announced;
      }
      SilentSuffix(s0, s.log, q.listed);
      SilentSuffix(s0, s.log, q.summed);
      SilentSuffix(s0, s.log, q.counted);
    }
  }

  // ---------------------------------------------------------------- the page reads first

  /** A mutation at position n or later of the log is announced while the hub is open. */
  predicate AnnouncesBeyond(s: Sys, es: seq<Event>, n: nat)
    requires Legal(s, es)
    decreases |es|
  {
    es != []
    && ((es[0].Announce? && es[0].i >= n && !s.hub.closed) || AnnouncesBeyond(Step(s, es[0]), es[1..], n))
  }

  predicate HoldsBeyond(s: Sys, n: nat) {
    exists i :: i in s.announced && i >= n
  }

  lemma StepAnnounces(s: Sys, e: Event, n: nat)
    requires Enabled(s, e)
    ensures HoldsBeyond(Step(s, e), n) <==> HoldsBeyond(s, n) || (e.Announce? && e.i >= n && !s.hub.closed)
    ensures Step(s, e).hub.version >= s.hub.version
    ensures e.Announce? && !s.hub.closed ==> Step(s, e).hub.version > s.hub.version
  {
    var s' := Step(s, e);
    if e.Announce? && !s.hub.closed {
      assert e.i in s'.announced;
    }
    if i :| i in s.announced && i >= n {
      assert i in s'.announced;
    }
  }

  lemma {:induction false} RunAnnounces(s: Sys, es: seq<Event>, n: nat)
    requires Legal(s, es)
    ensures HoldsBeyond(Run(s, es), n) <==> HoldsBeyond(s, n) || AnnouncesBeyond(s, es, n)
    ensures Run(s, es).hub.version >= s.hub.version
    ensures AnnouncesBeyond(s, es, n) ==> Run(s, es).hub.version > s.hub.version
    decreases |es|
  {
    if es != [] {
      StepAnnounces(s, es[0], n);
      RunAnnounces(Step(s, es[0]), es[1..], n);
    }
  }

  /** The page request of `p` has read its list and not yet taken its headers. */
  predicate Loading(s: Sys, p: Pid, listed: nat) {
    && p in s.pollers && (s.pollers[p].PageList? || s.pollers[p].PageRead?)
    && s.pollers[p].listed == listed <= |s.log|
    && (s.pollers[p].PageRead? ==> listed <= s.pollers[p].counted)
  }

  lemma {:induction false} LoadingOverRuns(s: Sys, es: seq<Event>, p: Pid, listed: nat)
    requires Legal(s, es) && Loading(s, p, listed) && PageHeaders(p) !in es
    ensures Loading(Run(s, es), p, listed)
    decreases |es|
  {
    if es != [] {
      LoadingOverRuns(Step(s, es[0]), es[1..], p, listed);
    }
  }

  /** The state after `before` in which `p` reads the page's list. */
  function ListRead(now: int, before: seq<Event>, p: Pid): Sys
    requires Legal(Start(now), before) && Enabled(Run(Start(now), before), PageListStep(p))
  {
    Step(Run(Start(now), before), PageListStep(p))
  }

  /** A whole page request of `p`: its list is read after `before`, its headers taken after `during`. */
  predicate LoadsPage(now: int, before: seq<Event>, p: Pid, during: seq<Event>) {
    && Legal(Start(now), before) && Enabled(Run(Start(now), before), PageListStep(p))
    && Legal(ListRead(now, before, p), during) && PageHeaders(p) !in during
    && Enabled(Run(ListRead(now, before, p), during), PageHeaders(p))
  }

  function PageSent(now: int, before: seq<Event>, p: Pid, during: seq<Event>): Sys
    requires LoadsPage(now, before, p, during)
  {
    Step(Run(ListRead(now, before, p), during), PageHeaders(p))
  }

  /** Every mutation announced by the version of the page's tag is in its list and its figures. */
  predicate PageCovers(s: Sys, q: Poller) {
    q.Page? && forall i | i in s.announced && s.announced[i] <= q.state.version :: i < q.listed && i < q.counted
  }

  /**
    The page covers its tag exactly when nothing written after its list was read is announced
    before the headers are taken. A version that has not moved in between is a sufficient
    test.
   */
  lemma PageCoversExactlyWhen(now: int, before: seq<Event>, p: Pid, during: seq<Event>)
    requires LoadsPage(now, before, p, during)
    ensures var s, s' := ListRead(now, before, p), PageSent(now, before, p, during);
            && p in s'.pollers
            && (PageCovers(s', s'.pollers[p]) <==> !AnnouncesBeyond(s, during, |s.log|))
            && (s'.hub.version == s.hub.version ==> PageCovers(s', s'.pollers[p]))
  {
    var s := ListRead(now, before, p);
    var s1 := Run(s, during);
    AccountsOverRuns(Start(now), before);
    StepKeepsAccounts(Run(Start(now), before), PageListStep(p));
    AccountsOverRuns(s, during);
    LoadingOverRuns(s, during, p, |s.log|);
    RunAnnounces(s, during, |s.log|);
    assert !HoldsBeyond(s, |s.log|);
    var s' := PageSent(now, before, p, during);
    assert s'.announced == s1.announced && s'.pollers[p].state.version == s1.hub.version;
    assert PageCovers(s', s'.pollers[p]) <==> !HoldsBeyond(s1, |s.log|);
  }

  /**
    When it does not cover its tag, a poll that sends the tag back at once waits all the same,
    and the page lacks an announced mutation.
   */
  lemma StalePageWaits(now: int, before: seq<Event>, p: Pid, during: seq<Event>, r: Request, p': Pid)
    requires LoadsPage(now, before, p, during)
    requires var s, s' := ListRead(now, before, p), PageSent(now, before, p, during);
             && AnnouncesBeyond(s, during, |s.log|)
             && s'.pollers[p].Page? && Revalidates(r, s'.pollers[p].state) && Enabled(s', Poll(p', r))
    ensures var s' := PageSent(now, before, p, during);
            && HoldsBeyond(s', s'.pollers[p].listed)
            && Step(s', Poll(p', r)).pollers[p'] == Waiting(s'.hub.Snapshot(), s'.hub.closed)
  {
    var s := ListRead(now, before, p);
    LoadingOverRuns(s, during, p, |s.log|);
    RunAnnounces(s, during, |s.log|);
    var s' := PageSent(now, before, p, during);
    var i :| i in Run(s, during).announced && i >= |s.log|;
    assert i in s'.announced;
    RevalidationIsFresh(r, s'.pollers[p].state, s'.hub.Snapshot());
  }

  lemma RunThree(s: Sys, e: Event, f: Event, g: Event)
    requires Enabled(s, e) && Enabled(Step(s, e), f) && Enabled(Step(Step(s, e), f), g)
    ensures Legal(s, [e, f, g]) && Run(s, [e, f, g]) == Step(Step(Step(s, e), f), g)
  {
    var s1 := Step(s, e);
    var s2 := Step(s1, f);
    assert [e, f, g][1..] == [f, g] && [f, g][1..] == [g] && [g][1..] == [];
    assert Legal(s2, [g]) && Run(s2, [g]) == Step(s2, g);
    assert Legal(s1, [f, g]) && Run(s1, [f, g]) == Run(s2, [g]);
  }

  /** A page request of 0 during which one miss is counted and announced. */
  function MissWhileLoading(now: int, at: Time): seq<Event> {
    [PageStatsStep(0), Write(Miss(at)), Announce(0, now)]
  }

  lemma MissRuns(now: int, at: Time)
    ensures LoadsPage(now, [], 0, MissWhileLoading(now, at))
    ensures 0 in Run(ListRead(now, [], 0), MissWhileLoading(now, at)).announced
  {
    RunThree(ListRead(now, [], 0), PageStatsStep(0), Write(Miss(at)), Announce(0, now));
  }

  /** It happens, on a fresh server. */
  lemma PageOrderCanMissUpdates(now: int, at: Time)
    ensures LoadsPage(now, [], 0, MissWhileLoading(now, at))
    ensures var s' := PageSent(now, [], 0, MissWhileLoading(now, at)); !PageCovers(s', s'.pollers[0])
  {
    var es := MissWhileLoading(now, at);
    MissRuns(now, at);
    RunAnnounces(ListRead(now, [], 0), es, 0);
    PageCoversExactlyWhen(now, [], 0, es);
  }
}
