/** The store wrapper that announces successful mutations (internal/store/notifying.go). */
module Notifying {
  import opened CatalogSpec
  import opened LongPoll
  import Catalog
  import Polling

  class NotifyingStore {
    const store: Catalog.Object
    const notifier: Hub?

    /** The catalog at the moment of the last notification. */
    ghost var seen: Snapshot

    constructor (store: Catalog.Object, notifier: Hub?)
      ensures this.store == store && this.notifier == notifier
    {
      this.store, this.notifier := store, notifier;
    }

    ghost function Footprint(): set<object>
      reads this, store, notifier
    {
      {this, store} + store.Cells() + (if notifier == null then {} else {notifier} + notifier.subscribers)
    }

    /**
      The store performs the mutation; the hub is notified at most once, exactly for the
      mutations that call for it, and only after the mutation is in place.
     */
    twostate predicate Announced(m: Mutation, now: int)
      requires old(store.Valid())
      reads Footprint()
    {
      && store.Performed(m)
      && (notifier != null ==>
            notifier.Value() == if Polling.Notifies(m) then Notified(old(notifier.Value()), now) else old(notifier.Value()))
      && (notifier != null && Polling.Notifies(m) ==> seen == store.Mem())
      && (notifier != null ==> notifier.subscribers == old(notifier.subscribers))
    }

    method Notify(now: int)
      modifies this`seen, notifier, if notifier == null then {} else notifier.subscribers
      ensures notifier != null ==>
                notifier.Value() == Notified(old(notifier.Value()), now) && notifier.subscribers == old(notifier.subscribers)
      ensures notifier != null ==> seen == old(store.Mem())
      ensures store.Mem() == old(store.Mem()) && store.Cells() == old(store.Cells())
    {
      if notifier != null {
        seen := store.Mem();
        notifier.Notify(now);
      }
    }

    method UpsertEntry(hash: string, size: int, at: Time, info: TaskInfo, now: int)
      requires store.Valid()
      modifies Footprint()
      ensures Announced(Upsert(hash, size, at, info), now)
      ensures notifier != null && !notifier.closed ==> notifier.version == old(notifier.version) + 1
    {
      ghost var was := store.Mem();
      store.UpsertEntry(hash, size, at, info);
      ghost var now' := store.Mem();
      Notify(now);
      assert store.Mem() == now' == Apply(was, Upsert(hash, size, at, info));
    }

    method RecordHit(hash: string, at: Time, now: int)
      requires store.Valid()
      modifies Footprint()
      ensures Announced(Hit(hash, at), now)
      ensures notifier != null && !notifier.closed ==> notifier.version == old(notifier.version) + 1
    {
      ghost var was := store.Mem();
      store.RecordHit(hash, at);
      ghost var now' := store.Mem();
      Notify(now);
      assert store.Mem() == now' == Apply(was, Hit(hash, at));
    }

    method RecordMiss(at: Time, now: int)
      requires store.Valid()
      modifies Footprint()
      ensures Announced(Miss(at), now)
      ensures notifier != null && !notifier.closed ==> notifier.version == old(notifier.version) + 1
    {
      ghost var was := store.Mem();
      store.RecordMiss(at);
      ghost var now' := store.Mem();
      Notify(now);
      assert store.Mem() == now' == Apply(was, Miss(at));
    }

    method Delete(hashes: seq<string>, now: int)
      requires store.Valid()
      modifies Footprint()
      ensures Announced(Remove(hashes), now)
      ensures notifier != null && !notifier.closed ==> notifier.version == old(notifier.version) + (if hashes == [] then 0 else 1)
    {
      store.Delete(hashes);
      if |hashes| > 0 {
        Notify(now);
      }
    }

    method EnsureEntry(hash: string, size: int, at: Time, now: int)
      requires store.Valid()
      modifies Footprint()
      ensures Announced(Ensure(hash, size, at), now)
      ensures notifier != null && !notifier.closed ==> notifier.version == old(notifier.version) + 1
    {
      store.EnsureEntry(hash, size, at);
      Notify(now);
    }

    method UpdateTaskInfo(hash: string, info: TaskInfo, now: int)
      requires store.Valid()
      modifies Footprint()
      ensures Announced(Update(hash, info), now)
      ensures notifier != null && !notifier.closed ==> notifier.version == old(notifier.version) + (if info.project == "" && info.target == "" && info.kind == "" then 0 else 1)
    {
      store.UpdateTaskInfo(hash, info);
      if !info.Empty() {
        Notify(now);
      }
    }

    method SeedEntry(e: Entry, now: int)
      requires store.Valid()
      modifies Footprint()
      ensures Announced(Seed(e), now)
      ensures notifier != null && !notifier.closed ==> notifier.version == old(notifier.version) + 1
    {
      store.SeedEntry(e);
      Notify(now);
    }

    /** Any of the mutations, as another request might perform it. */
    method Perform(m: Mutation, now: int)
      requires store.Valid()
      modifies Footprint()
      ensures Announced(m, now)
    {
      match m
      case Upsert(h, size, at, info) => UpsertEntry(h, size, at, info, now);
      case Hit(h, at) => RecordHit(h, at, now);
      case Miss(at) => RecordMiss(at, now);
      case Remove(hs) => Delete(hs, now);
      case Ensure(h, size, at) => EnsureEntry(h, size, at, now);
      case Update(h, info) => UpdateTaskInfo(h, info, now);
      case Seed(e) => SeedEntry(e, now);
    }
  }
}
