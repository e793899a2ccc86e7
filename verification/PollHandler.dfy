/** The poll handlers of the dashboard (internal/httpserver/server.go, entries and stats). */
module PollHandler {
  import opened CatalogSpec
  import opened LongPoll
  import opened Notifying

  /** `listed` and `counted` are what List and Stats returned; the validators come from `state`. */
  datatype Reply =
    | Aborted
    | NotModified(state: State)
    | Section(state: State, listed: map<string, Entry>, counted: Counts)

  function AnnounceAll<K>(h: HubState<K>, ms: seq<Mutation>, now: int): HubState<K>
    decreases |ms|
  {
    if ms == [] then h
    else AnnounceAll(if Polling.Notifies(ms[0]) then Notified(h, now) else h, ms[1..], now)
  }

  lemma {:induction false} AnnounceAllSnoc<K>(h: HubState<K>, ms: seq<Mutation>, m: Mutation, now: int)
    ensures AnnounceAll(h, ms + [m], now) ==
            if Polling.Notifies(m) then Notified(AnnounceAll(h, ms, now), now) else AnnounceAll(h, ms, now)
    decreases |ms|
  {
    if ms == [] {
      assert [m][1..] == [];
    } else {
      assert (ms + [m])[1..] == ms[1..] + [m];
      AnnounceAllSnoc(if Polling.Notifies(ms[0]) then Notified(h, now) else h, ms[1..], m, now);
    }
  }

  predicate AnyNotifies(ms: seq<Mutation>) {
    exists i :: 0 <= i < |ms| && Polling.Notifies(ms[i])
  }

  /** A version covers nothing that was announced after it. */
  lemma {:induction false} AnnouncedRaisesVersion<K>(h: HubState<K>, ms: seq<Mutation>, now: int)
    ensures AnnounceAll(h, ms, now).version >= h.version && AnnounceAll(h, ms, now).closed == h.closed
    ensures !h.closed && AnyNotifies(ms) ==> AnnounceAll(h, ms, now).version > h.version
    decreases |ms|
  {
    if ms != [] {
      var h' := if Polling.Notifies(ms[0]) then Notified(h, now) else h;
      AnnouncedRaisesVersion(h', ms[1..], now);
      if i :| 0 <= i < |ms| && Polling.Notifies(ms[i]) && i > 0 {
        assert ms[1..][i - 1] == ms[i];
      }
    }
  }

  class Server {
    const hub: Hub
    const store: NotifyingStore

    constructor (hub: Hub, store: NotifyingStore)
      ensures this.hub == hub && this.store == store
    {
      this.hub, this.store := hub, store;
    }

    /** The mutations of other requests, each announced. */
    method Others(ms: seq<Mutation>, now: int)
      requires store.store.Valid() && store.notifier == hub
      modifies store.Footprint()
      ensures store.store.Valid() && fresh(store.store.Cells() - old(store.store.Cells()))
      ensures store.store.Mem() == ApplyAll(old(store.store.Mem()), ms)
      ensures hub.Value() == AnnounceAll(old(hub.Value()), ms, now) && hub.subscribers == old(hub.subscribers)
    {
      for i := 0 to |ms|
        invariant store.store.Valid() && fresh(store.store.Cells() - old(store.store.Cells()))
        invariant store.store.Mem() == ApplyAll(old(store.store.Mem()), ms[..i])
        invariant hub.Value() == AnnounceAll(old(hub.Value()), ms[..i], now) && hub.subscribers == old(hub.subscribers)
      {
        ApplyAllSnoc(old(store.store.Mem()), ms[..i], ms[i]);
        AnnounceAllSnoc(old(hub.Value()), ms[..i], ms[i], now);
        assert ms[..i + 1] == ms[..i] + [ms[i]];
        store.Perform(ms[i], now);
      }
      assert ms[..|ms|] == ms;
    }

    /**
      A poll request. `during`, `late` and `pick` are as for WaitOrModified; `waiting` are the
      mutations other requests make while this one waits, their notifications being among
      `during` and `late`; `first` runs between the wait and List, `second` between List and
      Stats. The data includes every mutation made before it was read, so what is announced
      later than the state was captured shows as a higher version of an open hub.
     */
    method Entries(r: Request, waiting: seq<Mutation>, during: seq<HubOp>, late: seq<HubOp>, pick: Pick,
                   first: seq<Mutation>, second: seq<Mutation>, now: int)
      returns (reply: Reply)
      requires store.store.Valid() && store.notifier == hub
      modifies store.Footprint()
      ensures store.store.Valid()
      ensures reply.Section? ==>
                var mid := ApplyAll(ApplyAll(old(store.store.Mem()), waiting), first);
                && reply.listed == mid.entries
                && reply.counted == ApplyAll(mid, second).totals
                && store.store.Mem() == ApplyAll(mid, second)
                && reply.state.version <= hub.version
                && (!hub.closed && AnyNotifies(first) ==> reply.state.version < hub.version)
                && (!hub.closed && AnyNotifies(second) ==> reply.state.version < hub.version)
      ensures !reply.Section? ==> store.store.Mem() == ApplyAll(old(store.store.Mem()), waiting)
      ensures Outdated(r, State(old(hub.version), old(hub.updatedAt))) ==>
                reply.Section? && reply.state == State(old(hub.version), old(hub.updatedAt))
      ensures UpToDate(r, State(old(hub.version), old(hub.updatedAt))) ==>
                && (reply.Section? <==> pick.Token? && !old(hub.closed) && during != [])
                && (reply.Aborted? <==> !reply.Section? && pick.Cancel?)
      ensures !Fresh(r, old(hub.Value()).Snapshot()) ==> reply.Section? && reply.state == old(hub.Value()).Snapshot()
      ensures reply.NotModified? ==> Fresh(r, reply.state) && reply.state == old(hub.Value()).Snapshot()
    {
      FreshMeans(r, State(hub.version, hub.updatedAt));
      var res := Wait(r, waiting, during, late, pick);
      if res.cancelled {
        return Aborted;
      }
      if !res.modified {
        return NotModified(res.state);
      }
      var listed, counted := Read(first, second, now);
      return Section(res.state, listed, counted);
    }

    /** The wait, while other requests change the store and the hub. */
    method Wait(r: Request, waiting: seq<Mutation>, during: seq<HubOp>, late: seq<HubOp>, pick: Pick)
      returns (res: WaitResult)
      requires store.store.Valid() && store.notifier == hub
      modifies store.store, store.store.Cells(), hub, hub.subscribers
      ensures store.store.Valid() && fresh(store.store.Cells() - old(store.store.Cells()))
      ensures store.store.Mem() == ApplyAll(old(store.store.Mem()), waiting)
      ensures hub.subscribers == old(hub.subscribers)
      ensures UpToDate(r, State(old(hub.version), old(hub.updatedAt))) ==>
                && res.modified == (pick.Token? && !old(hub.closed) && during != [])
                && res.cancelled == (!res.modified && pick.Cancel?)
      ensures !Fresh(r, old(hub.Value()).Snapshot()) ==> res == WaitResult(true, old(hub.Value()).Snapshot(), false)
      ensures res.modified ==> !res.cancelled && res.state == State(hub.version, hub.updatedAt)
      ensures !res.modified ==> res.state == old(hub.Value()).Snapshot() && Fresh(r, res.state)
    {
      store.store.PerformAll(waiting);
      res := hub.WaitOrModified(r, during, late, pick);
    }

    /** dashboardData: List, then Stats, with other requests in between. */
    method Read(first: seq<Mutation>, second: seq<Mutation>, now: int) returns (listed: map<string, Entry>, counted: Counts)
      requires store.store.Valid() && store.notifier == hub
      modifies store.Footprint()
      ensures store.store.Valid()
      ensures var mid := ApplyAll(old(store.store.Mem()), first);
              listed == mid.entries && counted == ApplyAll(mid, second).totals && store.store.Mem() == ApplyAll(mid, second)
      ensures old(hub.version) <= hub.version
      ensures !hub.closed && (AnyNotifies(first) || AnyNotifies(second)) ==> old(hub.version) < hub.version
    {
      ghost var h0 := hub.Value();
      Others(first, now);
      AnnouncedRaisesVersion(h0, first, now);
      ghost var h1 := hub.Value();
      listed := store.store.entries;
      Others(second, now);
      AnnouncedRaisesVersion(h1, second, now);
      counted := store.store.totals;
    }
  }
}
