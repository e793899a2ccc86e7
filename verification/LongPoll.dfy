/** The long-poll hub (internal/longpoll/longpoll.go): its state as a value, and the object that holds it. */
module LongPoll {
  import opened Wrappers
  import opened Etag

  /** State: what a response's validators are built from. Times are Unix seconds. */
  datatype State = State(version: nat, lastModified: int) {
    function ETag(): string { ServerTag(version, lastModified) }
  }

  /** If-Modified-Since after http.ParseTime. */
  datatype Since = NoDate | BadDate | Date(unix: int)

  /** The two validators of a request; an absent header is the empty string. */
  datatype Request = Request(ifNoneMatch: string, ifModifiedSince: Since)

  /** `slots` maps each subscriber channel to whether its one-slot buffer holds a token. */
  datatype HubState<!K> = HubState(version: nat, updatedAt: int, closed: bool, slots: map<K, bool>) {
    function Snapshot(): State { State(version, updatedAt) }
  }

  function AllFull<K>(slots: map<K, bool>): map<K, bool> {
    map k | k in slots :: true
  }

  function Notified<K>(h: HubState<K>, now: int): HubState<K> {
    if h.closed then h
    else HubState(h.version + 1, Max(now, h.updatedAt), false, AllFull(h.slots))
  }

  function Shut<K>(h: HubState<K>): HubState<K> {
    if h.closed then h else h.(closed := true, slots := AllFull(h.slots))
  }

  function Subscribed<K>(h: HubState<K>, k: K): HubState<K> { h.(slots := h.slots[k := false]) }

  function Left<K>(h: HubState<K>, k: K): HubState<K> { h.(slots := h.slots - {k}) }

  /** isFreshLocked. */
  predicate Fresh(r: Request, s: State) {
    if r.ifNoneMatch == "" && r.ifModifiedSince.NoDate? then false
    else if r.ifNoneMatch != "" then Matches(r.ifNoneMatch, s.ETag())
    else r.ifModifiedSince.Date? && s.lastModified <= r.ifModifiedSince.unix
  }

  /**
    The validators call for an answer now: there are none, or only a malformed date, or the
    state is younger than the date, or a well-formed If-None-Match names no current tag.
   */
  ghost predicate Outdated(r: Request, s: State) {
    || (r.ifNoneMatch == "" && r.ifModifiedSince.NoDate?)
    || (r.ifNoneMatch == "" && r.ifModifiedSince.BadDate?)
    || (r.ifNoneMatch == "" && r.ifModifiedSince.Date? && s.lastModified > r.ifModifiedSince.unix)
    || (r.ifNoneMatch != "" && exists field: IfNoneMatch ::
          field.Valid() && field.Text() == r.ifNoneMatch && !field.Holds(EntityTag(false, Inner(s.version, s.lastModified))))
  }

  /** They say that the client is up to date; a non-empty If-None-Match overrules any date. */
  ghost predicate UpToDate(r: Request, s: State) {
    || (r.ifNoneMatch == "" && r.ifModifiedSince.Date? && s.lastModified <= r.ifModifiedSince.unix)
    || (r.ifNoneMatch != "" && exists field: IfNoneMatch ::
          field.Valid() && field.Text() == r.ifNoneMatch && field.Holds(EntityTag(false, Inner(s.version, s.lastModified))))
  }

  lemma FreshMeans(r: Request, s: State)
    ensures Outdated(r, s) ==> !Fresh(r, s)
    ensures UpToDate(r, s) ==> Fresh(r, s)
  {
    if r.ifNoneMatch != "" {
      forall field: IfNoneMatch | field.Valid() && field.Text() == r.ifNoneMatch
        ensures Fresh(r, s) <==> field.Holds(EntityTag(false, Inner(s.version, s.lastModified)))
      {
        DecidesWeakComparison(field, s.version, s.lastModified);
      }
    }
  }

  /** What other goroutines do to the hub. */
  datatype HubOp = NotifyOp(now: int) | CloseOp

  function HubStep<K>(h: HubState<K>, op: HubOp): HubState<K> {
    match op
    case NotifyOp(now) => Notified(h, now)
    case CloseOp => Shut(h)
  }

  function HubRun<K>(h: HubState<K>, ops: seq<HubOp>): HubState<K>
    decreases |ops|
  {
    if ops == [] then h else HubRun(HubStep(h, ops[0]), ops[1..])
  }

  lemma {:induction false} HubRunSnoc<K>(h: HubState<K>, ops: seq<HubOp>, op: HubOp)
    ensures HubRun(h, ops + [op]) == HubStep(HubRun(h, ops), op)
    decreases |ops|
  {
    if ops == [] {
      assert [op][1..] == [];
    } else {
      assert (ops + [op])[1..] == ops[1..] + [op];
      HubRunSnoc(HubStep(h, ops[0]), ops[1..], op);
    }
  }

  /**
    One more subscriber: it holds a token exactly when the hub was open at its
    registration and anything happened since, and it disturbs nobody else.
   */
  lemma {:induction false} HubRunWithSlot<K>(h: HubState<K>, k: K, full: bool, ops: seq<HubOp>)
    requires k !in h.slots
    ensures var w := HubRun(h.(slots := h.slots[k := full]), ops);
            && k in w.slots && w.slots[k] == (full || (!h.closed && ops != []))
            && Left(w, k) == HubRun(h, ops)
    decreases |ops|
  {
    var w := h.(slots := h.slots[k := full]);
    if ops == [] {
      assert Left(w, k) == h;
    } else {
      var full' := full || !h.closed;
      var h' := HubStep(h, ops[0]);
      assert HubStep(w, ops[0]) == h'.(slots := h'.slots[k := full']) by {
        assert AllFull(w.slots) == AllFull(h.slots)[k := true];
      }
      HubRunWithSlot(h', k, full', ops[1..]);
    }
  }

  /** Versions never fall, and rise with the first notification of an open hub. */
  lemma {:induction false} HubRunVersion<K>(h: HubState<K>, ops: seq<HubOp>)
    ensures HubRun(h, ops).version >= h.version && HubRun(h, ops).updatedAt >= h.updatedAt
    ensures h.closed ==> HubRun(h, ops).closed && HubRun(h, ops).version == h.version
    ensures !HubRun(h, ops).closed && ops != [] ==> HubRun(h, ops).version > h.version
    decreases |ops|
  {
    if ops != [] {
      HubRunVersion(HubStep(h, ops[0]), ops[1..]);
    }
  }

  /** A channel of capacity one. */
  class Chan {
    var full: bool

    constructor ()
      ensures !full
    {
      full := false;
    }
  }

  /** Which ready case of the select is taken. */
  datatype Pick = Token | Timer | Cancel

  datatype WaitResult = WaitResult(modified: bool, state: State, cancelled: bool)

  class Hub {
    var version: nat
    var updatedAt: int
    var subscribers: set<Chan>
    var closed: bool

    ghost function Value(): HubState<Chan>
      reads this, subscribers
    {
      HubState(version, updatedAt, closed, map c | c in subscribers :: c.full)
    }

    constructor (now: int)
      ensures Value() == HubState(1, now, false, map[])
    {
      version, updatedAt, subscribers, closed := 1, now, {}, false;
    }

    /** Fills the slot of every subscriber; a full slot is skipped. */
    method Broadcast()
      modifies subscribers
      ensures forall c | c in subscribers :: c.full
      ensures Value() == old(Value()).(slots := AllFull(old(Value()).slots))
    {
      var rest := subscribers;
      while rest != {}
        invariant rest <= subscribers
        invariant forall c | c in subscribers && c !in rest :: c.full
        modifies subscribers
        decreases rest
      {
        var c :| c in rest;
        if !c.full {
          c.full := true;
        }
        rest := rest - {c};
      }
    }

    method Notify(now: int)
      modifies this, subscribers
      ensures Value() == Notified(old(Value()), now)
      ensures subscribers == old(subscribers) && closed == old(closed)
      ensures closed ==> version == old(version) && updatedAt == old(updatedAt)
      ensures !closed ==>
                && version == old(version) + 1 && updatedAt == (if now > old(updatedAt) then now else old(updatedAt))
                && forall c | c in subscribers :: c.full
    {
      if closed {
        return;
      }
      version := version + 1;
      if now > updatedAt {
        updatedAt := now;
      }
      Broadcast();
    }

    method Close()
      modifies this, subscribers
      ensures Value() == Shut(old(Value()))
      ensures closed && subscribers == old(subscribers) && version == old(version) && updatedAt == old(updatedAt)
      ensures !old(closed) ==> forall c | c in subscribers :: c.full
    {
      if closed {
        return;
      }
      closed := true;
      Broadcast();
    }

    method Snapshot() returns (s: State)
      ensures s == Value().Snapshot() == State(version, updatedAt)
    {
      s := State(version, updatedAt);
    }

    method IsFresh(r: Request, s: State) returns (ok: bool)
      ensures ok == Fresh(r, s)
      ensures Outdated(r, s) ==> !ok
      ensures UpToDate(r, s) ==> ok
    {
      FreshMeans(r, s);
      if r.ifNoneMatch == "" && r.ifModifiedSince.NoDate? {
        return false;
      }
      if r.ifNoneMatch != "" {
        ok := EtagMatches(r.ifNoneMatch, s.ETag());
        return;
      }
      if r.ifModifiedSince.BadDate? {
        return false;
      }
      return !(s.lastModified > r.ifModifiedSince.unix);
    }

    method Run(ops: seq<HubOp>)
      modifies this, subscribers
      ensures Value() == HubRun(old(Value()), ops) && subscribers == old(subscribers)
    {
      for i := 0 to |ops|
        invariant Value() == HubRun(old(Value()), ops[..i]) && subscribers == old(subscribers)
        modifies this, subscribers
      {
        HubRunSnoc(old(Value()), ops[..i], ops[i]);
        assert ops[..i + 1] == ops[..i] + [ops[i]];
        match ops[i]
        case NotifyOp(now) => Notify(now);
        case CloseOp => Close();
      }
      assert ops[..|ops|] == ops;
    }

    /** The first critical section of a poll: answer at once, or subscribe a new channel. */
    method Enter(r: Request) returns (state: State, ch: Chan?)
      modifies this`subscribers
      ensures state == old(Value()).Snapshot()
      ensures ch == null <==> !Fresh(r, state)
      ensures ch == null ==> subscribers == old(subscribers) && Value() == old(Value())
      ensures ch != null ==>
                && fresh(ch) && subscribers == old(subscribers) + {ch}
                && Value() == Subscribed(old(Value()), ch)
    {
      state := State(version, updatedAt);
      var ok := IsFresh(r, state);
      if !ok {
        return state, null;
      }
      var c := new Chan();
      subscribers := subscribers + {c};
      ch := c;
    }

    /** Receiving empties the slot. */
    method Receive(ch: Chan)
      requires ch in subscribers && ch.full
      modifies ch
      ensures Value() == Subscribed(old(Value()), ch)
    {
      ch.full := false;
    }

    /** The deferred clean-up of every exit path. */
    method Leave(ch: Chan)
      modifies this`subscribers
      ensures Value() == Left(old(Value()), ch) && subscribers == old(subscribers) - {ch}
    {
      subscribers := subscribers - {ch};
    }

    /**
      One conditional request. `during` is what happens to the hub while the poll waits,
      `late` what happens between taking the token and reading the new state; `pick` is
      select's choice, and a token can only be picked when there is one. Whatever the way
      out, the hub is left as if the poll had never registered.
     */
    method WaitOrModified(r: Request, during: seq<HubOp>, late: seq<HubOp>, pick: Pick) returns (res: WaitResult)
      modifies this, subscribers
      ensures subscribers == old(subscribers)
      ensures Outdated(r, State(old(version), old(updatedAt))) ==>
                res == WaitResult(true, State(old(version), old(updatedAt)), false) && Value() == old(Value())
      ensures UpToDate(r, State(old(version), old(updatedAt))) ==>
                && res.modified == (pick.Token? && !old(closed) && during != [])
                && res.cancelled == (!res.modified && pick.Cancel?)
                && res.state == (if res.modified then State(version, updatedAt) else State(old(version), old(updatedAt)))
      ensures !Fresh(r, old(Value()).Snapshot()) ==>
                res == WaitResult(true, old(Value()).Snapshot(), false) && Value() == old(Value())
      ensures Fresh(r, old(Value()).Snapshot()) ==>
                var woken := pick.Token? && !old(closed) && during != [];
                && Value() == HubRun(HubRun(old(Value()), during), if woken then late else [])
                && res.modified == woken
                && res.cancelled == (!woken && pick.Cancel?)
                && res.state == (if woken then Value().Snapshot() else old(Value()).Snapshot())
    {
      FreshMeans(r, State(version, updatedAt));
      var state, ch := Enter(r);
      if ch == null {
        return WaitResult(true, state, false);
      }
      TookSlot(old(Value()), Value(), ch);
      res := Await(ch, state, during, late, pick, old(Value()));
    }

    /** The select of a subscribed poll, and the deferred clean-up of every way out. */
    method Await(ch: Chan, state: State, during: seq<HubOp>, late: seq<HubOp>, pick: Pick, ghost before: HubState<Chan>)
      returns (res: WaitResult)
      requires ch in subscribers && ch !in before.slots && Value() == before.(slots := before.slots[ch := false])
      modifies this, subscribers
      ensures subscribers == old(subscribers) - {ch}
      ensures var woken := pick.Token? && !before.closed && during != [];
              && Value() == HubRun(HubRun(before, during), if woken then late else [])
              && res == WaitResult(woken, if woken then Value().Snapshot() else state, !woken && pick.Cancel?)
    {
      HubRunWithSlot(before, ch, false, during);
      Run(during);
      ghost var mid := HubRun(before, during);
      if !(pick.Token? && ch.full) {
        Leave(ch);
        return WaitResult(false, state, pick.Cancel?);
      }
      assert Value().slots[ch] == ch.full;
      Receive(ch);
      TakenSlot(mid, Value(), ch);
      HubRunWithSlot(mid, ch, false, late);
      Run(late);
      var newState := Snapshot();
      Leave(ch);
      return WaitResult(true, newState, false);
    }

    static lemma TookSlot(h: HubState<Chan>, w: HubState<Chan>, ch: Chan)
      requires w == Subscribed(h, ch)
      ensures w == h.(slots := h.slots[ch := false])
    {
    }

    static lemma TakenSlot(mid: HubState<Chan>, w: HubState<Chan>, ch: Chan)
      requires ch in w.slots && !w.slots[ch] && Left(w, ch) == mid
      ensures ch !in mid.slots && w == mid.(slots := mid.slots[ch := false])
    {
    }
  }
}
