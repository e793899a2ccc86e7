/** Removal of expired artifacts (internal/cleanup/cleanup.go). */
module Cleanup {
  import opened CatalogSpec
  import opened Storage
  import opened Listing
  import Catalog

  /** The hashes that old entries carry; a catalog read from elsewhere may hold them under other keys. */
  function OldEntries(entries: map<string, Entry>, cutoff: Time): set<string> {
    set k | k in entries && entries[k].createdAt < cutoff :: entries[k].hash
  }

  /** An unknown modification time is never old. */
  function OldObjects(objs: Objects, cutoff: Time): set<string> {
    set h | h in objs && objs[h].modified != ZERO_TIME && objs[h].modified < cutoff
  }

  /** Too old by the catalog's creation time, or by the object's own known modification time. */
  function Expired(objs: Objects, entries: map<string, Entry>, cutoff: Time): set<string> {
    OldEntries(entries, cutoff) + OldObjects(objs, cutoff)
  }

  function Hashes(entries: seq<Entry>): set<string> {
    set e | e in entries :: e.hash
  }

  function OldListed(objects: seq<Listed>, cutoff: Time): set<string> {
    set o | o in objects && o.lastModified != ZERO_TIME && o.lastModified < cutoff :: o.hash
  }

  lemma ListedEntries(entries: map<string, Entry>, out: seq<Entry>, cutoff: Time)
    requires Lists(entries, OlderThan(entries, cutoff), out)
    ensures Hashes(out) == OldEntries(entries, cutoff)
  {
    var old' := OlderThan(entries, cutoff);
    var ks :| Spells(entries, old', ks, out);
    forall k | k in old' ensures entries[k].hash in Hashes(out) {
      var i :| 0 <= i < |ks| && ks[i] == k;
      assert out[i] in out;
    }
    forall e | e in out ensures e.hash in OldEntries(entries, cutoff) {
      var i :| 0 <= i < |out| && out[i] == e;
      assert ks[i] in ks;
    }
  }

  lemma ListedObjects(objs: Objects, out: seq<Listed>, cutoff: Time)
    requires IsListing(objs, out)
    ensures OldListed(out, cutoff) == OldObjects(objs, cutoff)
  {
    forall h | h in OldObjects(objs, cutoff) ensures h in OldListed(out, cutoff) {
      var i :| 0 <= i < |out| && out[i].hash == h;
      assert out[i] in out;
    }
    forall h | h in OldListed(out, cutoff) ensures h in OldObjects(objs, cutoff) {
      var o :| o in out && o.lastModified != ZERO_TIME && o.lastModified < cutoff && o.hash == h;
      var i :| 0 <= i < |out| && out[i] == o;
      assert out[i].hash in objs;
    }
  }

  function Surviving<V>(m: map<string, V>, gone: set<string>): map<string, V> {
    map h | h in m && h !in gone :: m[h]
  }

  lemma NothingGone<V>(m: map<string, V>)
    ensures Surviving(m, {}) == m
  {
  }

  datatype Faults = Faults(listCatalog: bool, listBackend: bool, deleteBackend: bool, deleteCatalog: bool)

  /** A delete that is never reached cannot fail. */
  predicate Succeeds(f: Faults, expired: set<string>) {
    !f.listCatalog && !f.listBackend && (expired == {} || (!f.deleteBackend && !f.deleteCatalog))
  }

  predicate Distinct(hs: seq<string>) {
    forall i, j | 0 <= i < j < |hs| :: hs[i] != hs[j]
  }

  function Members(hs: seq<string>): set<string> {
    set h | h in hs
  }

  lemma {:induction false} DistinctCount(hs: seq<string>)
    requires Distinct(hs)
    ensures |Members(hs)| == |hs|
  {
    if hs != [] {
      var n := |hs| - 1;
      DistinctCount(hs[..n]);
      assert Members(hs) == Members(hs[..n]) + {hs[n]};
      assert hs[n] !in Members(hs[..n]);
    }
  }

  class Cleaner {
    const backend: Memory<Document>
    const store: Catalog.Object
    const ttl: int

    constructor (backend: Memory<Document>, store: Catalog.Object, ttl: int)
      ensures this.backend == backend && this.store == store && this.ttl == ttl
    {
      this.backend, this.store, this.ttl := backend, store, ttl;
    }

    /**
      Without a fault exactly the expired hashes are removed from both stores and each is
      counted once. Any fault returns zero; only a failing catalog delete comes after the
      objects are gone.
     */
    method Run(now: Time, f: Faults) returns (n: int, ok: bool)
      requires store.Valid()
      modifies backend`objects, store, store.Cells()
      ensures store.Valid() && fresh(store.Cells() - old(store.Cells()))
      ensures ok ==>
                var x := Expired(old(backend.objects), old(store.entries), now - ttl);
                && n == |x|
                && backend.objects == Surviving(old(backend.objects), x)
                && store.Mem() == old(store.Mem()).(entries := Surviving(old(store.entries), x))
      ensures !ok ==> n == 0 && store.Mem() == old(store.Mem())
      ensures !ok && (f.listCatalog || f.listBackend || f.deleteBackend) ==> backend.objects == old(backend.objects)
      ensures ok <==> Succeeds(f, Expired(old(backend.objects), old(store.entries), now - ttl))
      ensures n == 0 ==> store.dirty == old(store.dirty)
    {
      var cutoff := now - ttl;
      ghost var x := Expired(backend.objects, store.entries, cutoff);
      if f.listCatalog || f.listBackend {
        return 0, false;
      }
      var hashes := FindExpired(cutoff);
      ok := Remove(hashes, x, f);
      n := if ok then |hashes| else 0;
    }

    /** Nothing to do without a hash; else backend first, then catalog, and the first failure stops. */
    method Remove(hashes: seq<string>, ghost x: set<string>, f: Faults) returns (ok: bool)
      requires store.Valid()
      requires x == Members(hashes)
      modifies backend`objects, store, store.Cells()
      ensures store.Valid() && fresh(store.Cells() - old(store.Cells()))
      ensures ok <==> x == {} || (!f.deleteBackend && !f.deleteCatalog)
      ensures ok || !f.deleteBackend ==> backend.objects == Surviving(old(backend.objects), x)
      ensures !ok && f.deleteBackend ==> backend.objects == old(backend.objects)
      ensures x == {} ==> store.dirty == old(store.dirty)
      ensures ok ==> store.Mem() == old(store.Mem()).(entries := Surviving(old(store.entries), x))
      ensures !ok ==> store.Mem() == old(store.Mem()) && store.dirty == old(store.dirty)
    {
      if |hashes| == 0 {
        assert x == {};
        NothingGone(backend.objects);
        NothingGone(store.entries);
        return true;
      }
      assert hashes[0] in x;
      if f.deleteBackend {
        return false;
      }
      DeleteObjects(hashes);
      if f.deleteCatalog {
        return false;
      }
      DeleteEntries(hashes);
      return true;
    }

    method DeleteObjects(hashes: seq<string>)
      modifies backend`objects
      ensures backend.objects == Surviving(old(backend.objects), Members(hashes))
    {
      backend.Delete(hashes);
    }

    method DeleteEntries(hashes: seq<string>)
      requires store.Valid()
      modifies store, store.Cells()
      ensures store.Valid() && fresh(store.Cells() - old(store.Cells()))
      ensures store.Mem() == old(store.Mem()).(entries := Surviving(old(store.entries), Members(hashes)))
    {
      store.Delete(hashes);
      assert store.entries == Surviving(old(store.entries), Members(hashes));
    }

    /** Both listings, each expired hash once. */
    method FindExpired(cutoff: Time) returns (hashes: seq<string>)
      ensures Members(hashes) == Expired(backend.objects, store.entries, cutoff)
      ensures |hashes| == |Expired(backend.objects, store.entries, cutoff)|
    {
      var entries := store.ListOlderThan(cutoff);
      ListedEntries(store.entries, entries, cutoff);
      hashes := Collect(entries);
      var objects := backend.List();
      ListedObjects(backend.objects, objects, cutoff);
      hashes := CollectListed(hashes, objects, cutoff);
      DistinctCount(hashes);
    }

    /** The hashes of the catalog entries, without repetition. */
    method Collect(entries: seq<Entry>) returns (hashes: seq<string>)
      ensures Distinct(hashes)
      ensures Members(hashes) == Hashes(entries)
    {
      var seen: set<string> := {};
      hashes := [];
      for i := 0 to |entries|
        invariant Distinct(hashes) && seen == Members(hashes)
        invariant seen == Hashes(entries[..i])
      {
        assert entries[..i + 1] == entries[..i] + [entries[i]];
        var h := entries[i].hash;
        if h !in seen {
          seen := seen + {h};
          hashes := hashes + [h];
        }
      }
      assert entries[..|entries|] == entries;
    }

    /** Adds the hashes of old objects that are not listed yet; an unknown modification time is never old. */
    method CollectListed(found: seq<string>, objects: seq<Listed>, cutoff: Time) returns (hashes: seq<string>)
      requires Distinct(found)
      ensures Distinct(hashes)
      ensures Members(hashes) == Members(found) + OldListed(objects, cutoff)
    {
      var seen := Members(found);
      hashes := found;
      for i := 0 to |objects|
        invariant Distinct(hashes) && seen == Members(hashes)
        invariant seen == Members(found) + OldListed(objects[..i], cutoff)
      {
        assert objects[..i + 1] == objects[..i] + [objects[i]];
        var o := objects[i];
        if o.lastModified == ZERO_TIME || !(o.lastModified < cutoff) {
          continue;
        }
        if o.hash !in seen {
          seen := seen + {o.hash};
          hashes := hashes + [o.hash];
        }
      }
      assert objects[..|objects|] == objects;
    }
  }

  /**
    After a run nothing is expired at the same cutoff exactly when every old entry sits under
    a hash that was found: what survives is an old entry under a key nothing names.
   */
  lemma CleanedExactlyWhen(objs: Objects, entries: map<string, Entry>, cutoff: Time)
    ensures var x := Expired(objs, entries, cutoff);
            Expired(Surviving(objs, x), Surviving(entries, x), cutoff) == {}
            <==> forall k | k in entries && entries[k].createdAt < cutoff :: k in x
  {
    var x := Expired(objs, entries, cutoff);
    var kept := Surviving(entries, x);
    assert OldObjects(Surviving(objs, x), cutoff) == {};
    if k :| k in entries && entries[k].createdAt < cutoff && k !in x {
      assert k in kept && kept[k].hash in OldEntries(kept, cutoff);
    }
  }

  /** The mutators keep every entry under its own hash, and then a run leaves nothing to do. */
  lemma KeyedIsCleaned(objs: Objects, entries: map<string, Entry>, cutoff: Time)
    requires Keyed(entries)
    ensures var x := Expired(objs, entries, cutoff);
            Expired(Surviving(objs, x), Surviving(entries, x), cutoff) == {}
  {
    CleanedExactlyWhen(objs, entries, cutoff);
    forall k | k in entries && entries[k].createdAt < cutoff ensures k in OldEntries(entries, cutoff) {
      assert entries[k].hash == k;
    }
  }

  /** Two runs at the same moment: on a catalog keyed by hash the second finds nothing. */
  method RunTwice(c: Cleaner, now: Time) returns (first: int, second: int)
    requires c.store.Valid()
    modifies c.backend`objects, c.store, c.store.Cells()
    ensures var x := Expired(old(c.backend.objects), old(c.store.entries), now - c.ttl);
            && first == |x|
            && second == |Expired(Surviving(old(c.backend.objects), x), Surviving(old(c.store.entries), x), now - c.ttl)|
    ensures Keyed(old(c.store.entries)) ==> second == 0
  {
    if Keyed(c.store.entries) {
      KeyedIsCleaned(c.backend.objects, c.store.entries, now - c.ttl);
    }
    var ok;
    first, ok := c.Run(now, Faults(false, false, false, false));
    second, ok := c.Run(now, Faults(false, false, false, false));
  }

  /** An old entry carries the hash, or the object has a known modification time that is old. */
  ghost predicate TooOld(objs: Objects, entries: map<string, Entry>, cutoff: Time, h: string) {
    || (exists k :: k in entries && entries[k].hash == h && entries[k].createdAt < cutoff)
    || (h in objs && objs[h].modified != 0 && objs[h].modified < cutoff)
  }

  /** What a run leaves is what is not too old, unchanged. */
  lemma SweepMeans(objs: Objects, entries: map<string, Entry>, cutoff: Time)
    ensures var x := Expired(objs, entries, cutoff);
            && (forall h :: h in x <==> TooOld(objs, entries, cutoff, h))
            && (forall h :: h in Surviving(objs, x) <==> h in objs && !TooOld(objs, entries, cutoff, h))
            && (forall h :: h in Surviving(entries, x) <==> h in entries && !TooOld(objs, entries, cutoff, h))
            && (forall h | h in Surviving(objs, x) :: Surviving(objs, x)[h] == objs[h])
            && (forall h | h in Surviving(entries, x) :: Surviving(entries, x)[h] == entries[h])
  {
    forall h ensures h in Expired(objs, entries, cutoff) <==> TooOld(objs, entries, cutoff, h) {
      if k :| k in entries && entries[k].hash == h && entries[k].createdAt < cutoff {
        assert h in OldEntries(entries, cutoff);
      }
    }
  }
}
