/**
  The write-behind catalog as the mutable object it is (internal/store/object.go): day
  counters are separate cells reached through pointers, so a clone has to copy them.
 */
module Catalog {
  import opened Wrappers
  import opened CatalogSpec
  import opened CatalogLaws
  import opened Storage
  import opened Listing
  import opened Text
  import Filter

  const CATALOG_KEY := "catalog.json"

  /** DayStat, held by pointer and bumped in place. */
  class DayCell {
    var counts: Counts

    constructor (counts: Counts)
      ensures this.counts == counts
    {
      this.counts := counts;
    }
  }

  /** The struct cloneLocked builds: its day records are pointers again. */
  datatype Clone = Clone(totals: Counts, days: map<Day, DayCell>, entries: map<string, Entry>) {
    ghost function Cells(): set<DayCell> { set c | c in days.Values }

    ghost function Value(): Snapshot
      reads Cells()
    {
      Snapshot(totals, map d | d in days :: days[d].counts, entries)
    }
  }

  datatype ReadOutcome = Found(doc: Document) | NotFound | Unreadable
  datatype WriteOutcome = WriteOk | WriteLost | WriteErrorButDone
  datatype FlushResult = Flushed | NothingToDo | LoadFailed | WriteFailed

  class Object {
    var entries: map<string, Entry>
    var totals: Counts
    var days: map<Day, DayCell?>
    var dirty: bool
    var loadFailed: bool

    ghost function Cells(): set<DayCell>
      reads this`days
    {
      set c: DayCell | c in days.Values
    }

    /** No two days share a record. */
    ghost predicate Valid()
      reads this`days
    {
      forall d, e | d in days && e in days && d != e && days[d] != null :: days[d] != days[e]
    }

    ghost function DayCounts(): map<Day, Counts>
      reads this`days, Cells()
    {
      map d | d in days && days[d] != null :: (assert days[d] in Cells(); days[d].counts)
    }

    /** The catalog held in memory, as a value. */
    ghost function Mem(): Snapshot
      reads this`entries, this`totals, this`days, Cells()
    {
      Snapshot(totals, DayCounts(), entries)
    }

    /** What a mutator may and must do. */
    twostate predicate Performed(m: Mutation)
      reads this, Cells()
    {
      && Valid()
      && Mem() == Apply(old(Mem()), m)
      && dirty == (old(dirty) || Dirties(old(Mem()), m))
      && loadFailed == old(loadFailed)
      && fresh(Cells() - old(Cells()))
    }

    constructor ()
      ensures Valid() && Mem() == EMPTY && !dirty && !loadFailed && Cells() == {}
    {
      entries, totals, days := map[], NONE_COUNTED, map[];
      dirty, loadFailed := false, false;
    }

    method BumpLocked(key: Counter, at: Time)
      requires Valid()
      modifies this`totals, this`days, Cells()
      ensures Valid()
      ensures totals == old(totals).Bump(key)
      ensures DayCounts() == BumpDay(old(DayCounts()), key, at)
      ensures fresh(Cells() - old(Cells()))
    {
      totals := totals.Bump(key);
      AddDay(DayOf(at));
      BumpCell(DayOf(at), key);
    }

    /** What every recorder ends with: count, and mark the catalog dirty. */
    method Count(key: Counter, at: Time)
      requires Valid()
      modifies this`totals, this`days, this`dirty, Cells()
      ensures Valid() && dirty
      ensures Mem() == Bumped(old(Mem()), key, at)
      ensures fresh(Cells() - old(Cells()))
    {
      BumpLocked(key, at);
      dirty := true;
    }

    /** The record of one day is bumped in place; no other day shares it. */
    method BumpCell(day: Day, key: Counter)
      requires Valid() && day in days && days[day] != null
      modifies days[day]
      ensures DayCounts() == old(DayCounts())[day := CountOn(old(DayCounts()), day).Bump(key)]
    {
      var cell := days[day];
      ghost var before := DayCounts();
      assert before[day] == cell.counts;
      cell.counts := cell.counts.Bump(key);
      assert forall d | d in days && d != day && days[d] != null :: days[d].counts == before[d];
    }

    /** A day that has no record gets one. */
    method AddDay(day: Day)
      requires Valid()
      modifies this`days
      ensures Valid() && day in days && days[day] != null
      ensures DayCounts() == old(DayCounts())[day := CountOn(old(DayCounts()), day)]
      ensures fresh(Cells() - old(Cells()))
    {
      if day !in days || days[day] == null {
        var cell := new DayCell(NONE_COUNTED);
        days := days[day := cell];
      }
    }

    /** Only the non-empty fields are taken over. */
    static method Fill(old': TaskInfo, info: TaskInfo) returns (r: TaskInfo)
      ensures r == Overlay(old', info)
    {
      r := old';
      if info.project != "" { r := r.(project := info.project); }
      if info.target != "" { r := r.(target := info.target); }
      if info.config != "" { r := r.(config := info.config); }
      if info.kind != "" { r := r.(kind := info.kind); }
    }

    /** The entry a completed upload leaves behind. */
    static method Stamp(old': Entry, hash: string, size: int, at: Time, info: TaskInfo) returns (e: Entry)
      ensures e == Upserted(old', hash, size, at, info)
    {
      e := old';
      if e.hash == "" {
        e := Entry(hash, 0, at, at, 0, NO_INFO);
      }
      e := e.(size := size);
      if e.createdAt == ZERO_TIME {
        e := e.(createdAt := at);
      }
      var filled := Fill(e.info, info);
      e := e.(info := filled);
    }

    method UpsertEntry(hash: string, size: int, at: Time, info: TaskInfo)
      requires Valid()
      modifies this, Cells()
      ensures Performed(Upsert(hash, size, at, info))
      ensures WasStored(old(Mem()), Mem(), hash, size, at, info) && dirty
    {
      ghost var before := Mem();
      var old' := if hash in entries then entries[hash] else ABSENT;
      var e := Stamp(old', hash, size, at, info);
      entries := entries[hash := e];
      assert Mem() == before.(entries := before.entries[hash := Upserted(Lookup(before.entries, hash), hash, size, at, info)]);
      Count(Stores, at);
      assert Mem() == Apply(before, Upsert(hash, size, at, info));
      ApplyHasEffect(before, Upsert(hash, size, at, info));
    }

    method RecordHit(hash: string, at: Time)
      requires Valid()
      modifies this, Cells()
      ensures Performed(Hit(hash, at))
      ensures WasHit(old(Mem()), Mem(), hash, at) && dirty
    {
      ghost var before := Mem();
      var e := if hash in entries then entries[hash] else ABSENT;
      if e.hash == "" {
        e := Entry(hash, 0, at, ZERO_TIME, 0, NO_INFO);
      }
      e := e.(hits := e.hits + 1, lastAccessedAt := at);
      entries := entries[hash := e];
      assert Mem() == before.(entries := before.entries[hash := HitEntry(Lookup(before.entries, hash), hash, at)]);
      Count(Hits, at);
      assert Mem() == Apply(before, Hit(hash, at));
      ApplyHasEffect(before, Hit(hash, at));
    }

    method RecordMiss(at: Time)
      requires Valid()
      modifies this, Cells()
      ensures Performed(Miss(at))
      ensures WasMissed(old(Mem()), Mem(), at) && dirty
    {
      ApplyHasEffect(Mem(), Miss(at));
      Count(Misses, at);
    }

    method Delete(hashes: seq<string>)
      requires Valid()
      modifies this, Cells()
      ensures Performed(Remove(hashes))
      ensures WereRemoved(old(Mem()), Mem(), hashes) && dirty == (old(dirty) || hashes != [])
    {
      ApplyHasEffect(Mem(), Remove(hashes));
      if |hashes| == 0 {
        assert Without(entries, hashes) == entries;
        return;
      }
      DropEntries(hashes);
      dirty := true;
    }

    method DropEntries(hashes: seq<string>)
      modifies this`entries
      ensures entries == Without(old(entries), hashes)
    {
      var i := 0;
      while i < |hashes|
        invariant 0 <= i <= |hashes|
        invariant entries == Without(old(entries), hashes[..i])
      {
        assert hashes[..i + 1] == hashes[..i] + [hashes[i]];
        entries := entries - {hashes[i]};
        i := i + 1;
      }
      assert hashes[..i] == hashes;
    }

    method EnsureEntry(hash: string, size: int, at: Time)
      requires Valid()
      modifies this, Cells()
      ensures Performed(Ensure(hash, size, at))
      ensures WasEnsured(old(Mem()), Mem(), hash, size, at)
      ensures dirty == (old(dirty) || hash !in old(entries) || (old(entries)[hash].size == 0 && size > 0))
    {
      ApplyHasEffect(Mem(), Ensure(hash, size, at));
      if hash in entries {
        var e := entries[hash];
        if e.size == 0 && size > 0 {
          entries := entries[hash := e.(size := size)];
          dirty := true;
        }
        return;
      }
      entries := entries[hash := Entry(hash, size, at, at, 0, NO_INFO)];
      dirty := true;
    }

    method UpdateTaskInfo(hash: string, info: TaskInfo)
      requires Valid()
      modifies this, Cells()
      ensures Performed(Update(hash, info))
      ensures WasUpdated(old(Mem()), Mem(), hash, info) && dirty == (old(dirty) || hash in old(entries))
    {
      ApplyHasEffect(Mem(), Update(hash, info));
      if hash !in entries {
        return;
      }
      var e := entries[hash];
      var filled := Fill(e.info, info);
      entries := entries[hash := e.(info := filled)];
      dirty := true;
    }

    method SeedEntry(e: Entry)
      requires Valid()
      modifies this, Cells()
      ensures Performed(Seed(e))
      ensures WasSeeded(old(Mem()), Mem(), e) && dirty
    {
      ApplyHasEffect(Mem(), Seed(e));
      entries := entries[e.hash := e];
      dirty := true;
    }

    /** Any of the mutators, as another goroutine might call it. */
    method Perform(m: Mutation)
      requires Valid()
      modifies this, Cells()
      ensures Performed(m)
    {
      match m
      case Upsert(h, size, at, info) => UpsertEntry(h, size, at, info);
      case Hit(h, at) => RecordHit(h, at);
      case Miss(at) => RecordMiss(at);
      case Remove(hs) => Delete(hs);
      case Ensure(h, size, at) => EnsureEntry(h, size, at);
      case Update(h, info) => UpdateTaskInfo(h, info);
      case Seed(e) => SeedEntry(e);
    }

    // -------------------------------------------------------------- listings

    /** All entries, newest first; `ks` are the keys they were found under. */
    method AllEntries() returns (all: seq<Entry>, ghost ks: seq<string>)
      ensures NewestFirst(all) && Spells(entries, entries.Keys, ks, all)
    {
      all, ks := [], [];
      var rest := entries.Keys;
      while rest != {}
        invariant rest <= entries.Keys
        invariant NewestFirst(all) && Spells(entries, entries.Keys - rest, ks, all)
        decreases rest
      {
        var h :| h in rest;
        var n := Place(all, entries[h].createdAt);
        InsertKeepsOrder(all, entries[h]);
        InsertSpells(entries, entries.Keys - rest, ks, all, n, h);
        all, ks := InsertAt(all, n, entries[h]), InsertAt(ks, n, h);
        rest := rest - {h};
        assert entries.Keys - rest == entries.Keys - (rest + {h}) + {h};
      }
      assert entries.Keys - rest == entries.Keys;
    }

    /** One page of the matching entries, newest first, and the number of all of them. */
    method List(query: string, limit: int, offset: nat) returns (page: seq<Entry>, total: nat)
      ensures IsPageOf(entries, query, limit, offset, page, total)
      ensures total == |set h | h in entries && Filter.MatchesQuery(entries[h], query)|
      ensures forall e | e in page :: Filter.MatchesQuery(e, query)
    {
      var all, ks := AllEntries();
      var matching := Select(all, ks, query);
      MatchesListed(entries, query, matching, limit, offset);
      total := |matching|;
      page := Page(matching, limit, offset);
    }

    /** The matching entries in their order; the query is normalised here and by MatchesQuery again. */
    method Select(all: seq<Entry>, ghost ks: seq<string>, query: string) returns (filtered: seq<Entry>)
      requires NewestFirst(all) && Spells(entries, entries.Keys, ks, all)
      ensures Lists(entries, Matching(entries, query), filtered)
    {
      var q := Lower(Trim(query));
      filtered := [];
      ghost var found: seq<string> := [];
      for i := 0 to |all|
        invariant Filtered(entries, ks, all, i, Matching(entries, query), found, filtered)
      {
        FilterNext(entries, ks, all, i, Matching(entries, query), found, filtered);
        Filter.NormalisingTwice(all[i], query);
        if Filter.MatchesQuery(all[i], q) {
          filtered, found := filtered + [all[i]], found + [ks[i]];
        }
      }
      FilterEnd(entries, ks, all, Matching(entries, query), found, filtered);
    }

    /** The entries created before the cutoff, in the order of the listing. */
    method ListOlderThan(cutoff: Time) returns (old': seq<Entry>)
      ensures Lists(entries, OlderThan(entries, cutoff), old')
    {
      var all, ks := AllEntries();
      old' := [];
      ghost var found: seq<string> := [];
      for i := 0 to |all|
        invariant Filtered(entries, ks, all, i, OlderThan(entries, cutoff), found, old')
      {
        FilterNext(entries, ks, all, i, OlderThan(entries, cutoff), found, old');
        if all[i].createdAt < cutoff {
          old', found := old' + [all[i]], found + [ks[i]];
        }
      }
      FilterEnd(entries, ks, all, OlderThan(entries, cutoff), found, old');
    }

    // -------------------------------------------------------------- load

    /** One fresh record for every day the document counts; null stays null. */
    static method DecodeDays(recs: map<Day, Option<Counts>>) returns (cells: map<Day, DayCell?>)
      ensures cells.Keys == recs.Keys
      ensures forall d | d in cells && cells[d] != null :: fresh(cells[d]) && recs[d] == Some(cells[d].counts)
      ensures forall d | d in cells && cells[d] == null :: recs[d] == None
      ensures forall d, e | d in cells && e in cells && d != e && cells[d] != null :: cells[d] != cells[e]
    {
      cells := map[];
      var rest := recs.Keys;
      while rest != {}
        invariant rest <= recs.Keys
        invariant cells.Keys == recs.Keys - rest
        invariant forall d | d in cells && cells[d] != null :: fresh(cells[d]) && recs[d] == Some(cells[d].counts)
        invariant forall d | d in cells && cells[d] == null :: recs[d] == None
        invariant forall d, e | d in cells && e in cells && d != e && cells[d] != null :: cells[d] != cells[e]
        decreases rest
      {
        var d :| d in rest;
        if recs[d].Some? {
          var cell := new DayCell(recs[d].value);
          cells := cells[d := cell];
        } else {
          cells := cells[d := null];
        }
        rest := rest - {d};
      }
    }

    method Load(read: ReadOutcome) returns (ok: bool)
      requires Valid()
      modifies this
      ensures Valid()
      ensures ok == !read.Unreadable? && loadFailed == !ok
      ensures read.Found? ==> Mem() == Restore(old(Mem()), read.doc) && !dirty && fresh(Cells())
      ensures read.Found? ==>
                && totals == read.doc.totals
                && entries == (if read.doc.entries.Some? then read.doc.entries.value else old(entries))
                && (forall d :: d in days && days[d] != null <==>
                      read.doc.days.Some? && d in read.doc.days.value && read.doc.days.value[d].Some?)
                && (forall d | d in days && days[d] != null :: Some(days[d].counts) == read.doc.days.value[d])
      ensures !read.Found? ==> Mem() == old(Mem()) && dirty == old(dirty) && Cells() == old(Cells())
    {
      match read
      case NotFound =>
        loadFailed := false;
        return true;
      case Unreadable =>
        loadFailed := true;
        return false;
      case Found(doc) =>
        TakeOver(doc);
        dirty := false;
        loadFailed := false;
        return true;
    }

    /** The decoded document becomes the catalog; without a map of entries the old ones stay. */
    method TakeOver(doc: Document)
      modifies this`entries, this`totals, this`days
      ensures Valid() && fresh(Cells())
      ensures entries == if doc.entries.Some? then doc.entries.value else old(entries)
      ensures totals == doc.totals
      ensures DayCounts() == if doc.days.Some? then PresentDays(doc.days.value) else map[]
      ensures forall d :: d in days && days[d] != null <==>
                doc.days.Some? && d in doc.days.value && doc.days.value[d].Some?
      ensures forall d | d in days && days[d] != null :: Some(days[d].counts) == doc.days.value[d]
    {
      if doc.entries.Some? {
        entries := doc.entries.value;
      }
      totals := doc.totals;
      days := map[];
      if doc.days.Some? {
        days := DecodeDays(doc.days.value);
      }
    }

    // -------------------------------------------------------------- flush

    /** A deep copy: no day record of the clone is shared with the catalog. */
    method CloneLocked() returns (snap: Clone)
      requires Valid()
      ensures fresh(snap.Cells())
      ensures snap.Value() == Mem()
    {
      var copied: map<Day, DayCell> := map[];
      var rest := days.Keys;
      while rest != {}
        invariant rest <= days.Keys
        invariant forall d | d in copied :: fresh(copied[d]) && d in days && days[d] != null && copied[d].counts == days[d].counts
        invariant forall d | d in days && d !in rest && days[d] != null :: d in copied
        invariant forall d | d in copied :: d !in rest
        decreases rest
      {
        var d :| d in rest;
        if days[d] != null {
          var cell := new DayCell(days[d].counts);
          copied := copied[d := cell];
        }
        rest := rest - {d};
      }
      snap := Clone(totals, copied, entries);
      assert snap.Value().days == Mem().days;
    }

    /** Flush up to the point where it releases the catalog lock. */
    method FlushBegin() returns (early: Option<FlushResult>, snap: Clone)
      requires Valid()
      modifies this`dirty
      ensures Valid() && Mem() == old(Mem()) && Cells() == old(Cells())
      ensures loadFailed ==> early == Some(LoadFailed) && dirty == old(dirty)
      ensures !loadFailed && !old(dirty) ==> early == Some(NothingToDo) && !dirty
      ensures !loadFailed && old(dirty) ==> early == None && !dirty && fresh(snap.Cells()) && snap.Value() == Mem()
    {
      snap := Clone(NONE_COUNTED, map[], map[]);
      if loadFailed {
        return Some(LoadFailed), snap;
      }
      if !dirty {
        return Some(NothingToDo), snap;
      }
      snap := CloneLocked();
      dirty := false;
      early := None;
    }

    /**
      Flush as a whole, with the mutators `window` of other goroutines running after the
      clone was taken and before the write. The written document is the catalog at the
      moment of the clone, whatever ran since; a failed write leaves the catalog dirty.
     */
    method Flush(meta: Memory<Document>, window: seq<Mutation>, outcome: WriteOutcome) returns (r: FlushResult)
      requires Valid()
      modifies this, Cells(), meta`meta
      ensures Valid() && loadFailed == old(loadFailed)
      ensures r == if old(loadFailed) then LoadFailed
                   else if !old(dirty) then NothingToDo
                   else if outcome == WriteOk then Flushed else WriteFailed
      ensures r == LoadFailed || r == NothingToDo ==> Mem() == old(Mem()) && dirty == old(dirty) && meta.meta == old(meta.meta)
      ensures r == Flushed || r == WriteFailed ==> Mem() == ApplyAll(old(Mem()), window)
      ensures r == Flushed || r == WriteFailed ==>
                meta.meta == if outcome == WriteLost then old(meta.meta)
                             else old(meta.meta)[CATALOG_KEY := Encode(old(Mem()))]
      ensures r == Flushed ==> dirty == DirtiesAny(old(Mem()), window)
      ensures r == WriteFailed ==> dirty
    {
      var early, snap := FlushBegin();
      if early.Some? {
        return early.value;
      }
      ghost var before := Mem();
      PerformAll(window);
      assert snap.Value() == before;
      r := FlushEnd(snap, meta, outcome);
    }

    /** Encoding reads through the clone's pointers. */
    static function Marshal(snap: Clone): (doc: Document)
      reads snap.Cells()
      ensures doc == Encode(snap.Value())
    {
      var recs: map<Day, Option<Counts>> := map d | d in snap.days :: Some(snap.days[d].counts);
      assert recs == Encode(snap.Value()).days.value;
      Document(snap.totals, Some(recs), Some(snap.entries))
    }

    /** The rest of Flush: encode, write, and set the flag again after a failure. */
    method FlushEnd(snap: Clone, meta: Memory<Document>, outcome: WriteOutcome) returns (r: FlushResult)
      modifies this`dirty, meta`meta
      ensures r == if outcome == WriteOk then Flushed else WriteFailed
      ensures dirty == (old(dirty) || outcome != WriteOk)
      ensures meta.meta == if outcome == WriteLost then old(meta.meta)
                           else old(meta.meta)[CATALOG_KEY := Encode(old(snap.Value()))]
    {
      var data := Marshal(snap);
      if outcome != WriteLost {
        meta.PutMeta(CATALOG_KEY, data);
      }
      if outcome != WriteOk {
        dirty := true;
        return WriteFailed;
      }
      return Flushed;
    }

    /** Several mutators in a row. */
    method PerformAll(ms: seq<Mutation>)
      requires Valid()
      modifies this, Cells()
      ensures Valid() && loadFailed == old(loadFailed) && fresh(Cells() - old(Cells()))
      ensures Mem() == ApplyAll(old(Mem()), ms)
      ensures dirty == (old(dirty) || DirtiesAny(old(Mem()), ms))
    {
      for i := 0 to |ms|
        invariant Valid() && loadFailed == old(loadFailed) && fresh(Cells() - old(Cells()))
        invariant Mem() == ApplyAll(old(Mem()), ms[..i])
        invariant dirty == (old(dirty) || DirtiesAny(old(Mem()), ms[..i]))
      {
        ApplyAllSnoc(old(Mem()), ms[..i], ms[i]);
        assert ms[..i + 1] == ms[..i] + [ms[i]];
        Perform(ms[i]);
      }
      assert ms[..|ms|] == ms;
    }
  }
}
