/** Listings of the in-memory catalog: order, completeness and pages (internal/store/object.go). */
module Listing {
  import opened Wrappers
  import opened CatalogSpec
  import Filter

  /** limit and offset as List clips them. */
  function Page(all: seq<Entry>, limit: int, offset: nat): seq<Entry> {
    var size := if limit <= 0 then 25 else limit;
    var from := Min(offset, |all|);
    all[from..Min(from + size, |all|)]
  }

  /** Twenty-five entries unless told otherwise, from the offset on, as many as there are. */
  lemma PageHolds(all: seq<Entry>, limit: int, offset: nat)
    ensures var page := Page(all, limit, offset);
            && (offset >= |all| ==> page == [])
            && (offset < |all| && limit > 0 ==> |page| == (if |all| - offset < limit then |all| - offset else limit))
            && (offset < |all| && limit <= 0 ==> |page| == (if |all| - offset < 25 then |all| - offset else 25))
            && forall k | 0 <= k < |page| :: page[k] == all[offset + k]
  {
  }

  /** The first `n` pages one after the other. */
  function Pages(all: seq<Entry>, limit: int, n: nat): seq<Entry>
    requires limit > 0
  {
    if n == 0 then [] else Pages(all, limit, n - 1) + Page(all, limit, (n - 1) * limit)
  }

  lemma PageAfter(all: seq<Entry>, limit: int, from: nat)
    requires limit > 0
    ensures all[..Min(from, |all|)] + Page(all, limit, from) == all[..Min(from + limit, |all|)]
  {
    if from < |all| {
      var to := Min(from + limit, |all|);
      assert all[..to] == all[..from] + all[from..to];
    }
  }

  /** Pages neither overlap nor leave gaps: n of them are the first n*limit entries. */
  lemma {:induction false} PagesAreAPrefix(all: seq<Entry>, limit: int, n: nat)
    requires limit > 0
    ensures n * limit >= 0 && Pages(all, limit, n) == all[..Min(n * limit, |all|)]
  {
    if n > 0 {
      PagesAreAPrefix(all, limit, n - 1);
      var from := (n - 1) * limit;
      assert n * limit == from + limit;
      PageAfter(all, limit, from);
    }
  }

  predicate NewestFirst(all: seq<Entry>) {
    forall i, j | 0 <= i <= j < |all| :: all[i].createdAt >= all[j].createdAt
  }

  function Matching(entries: map<string, Entry>, query: string): set<string> {
    set h | h in entries && Filter.MatchesQuery(entries[h], query)
  }

  function OlderThan(entries: map<string, Entry>, cutoff: Time): set<string> {
    set h | h in entries && entries[h].createdAt < cutoff
  }

  /** `all` holds the entries found under `keys`, one for each key, in the order of `ks`. */
  ghost predicate Spells(entries: map<string, Entry>, keys: set<string>, ks: seq<string>, all: seq<Entry>) {
    && |ks| == |all|
    && (forall i, j | 0 <= i < j < |ks| :: ks[i] != ks[j])
    && (forall i | 0 <= i < |ks| :: ks[i] in entries && all[i] == entries[ks[i]])
    && (forall k :: k in keys <==> k in ks)
  }

  /** Newest first, each entry once. Where creation times are equal any order will do. */
  ghost predicate Lists(entries: map<string, Entry>, keys: set<string>, all: seq<Entry>) {
    NewestFirst(all) && exists ks :: Spells(entries, keys, ks, all)
  }

  lemma KeysAreCounted(ks: seq<string>, keys: set<string>)
    requires forall i, j | 0 <= i < j < |ks| :: ks[i] != ks[j]
    requires forall k :: k in keys <==> k in ks
    ensures |ks| == |keys|
    decreases |ks|
  {
    if ks == [] {
      assert keys == {};
    } else {
      var n := |ks| - 1;
      assert ks == ks[..n] + [ks[n]];
      KeysAreCounted(ks[..n], keys - {ks[n]});
    }
  }

  /** No newer entry comes behind an older one, every wanted entry is there, and nothing else is. */
  lemma ListsMeans(entries: map<string, Entry>, keys: set<string>, all: seq<Entry>)
    requires Lists(entries, keys, all)
    ensures forall i, j | 0 <= i < j < |all| :: all[i].createdAt >= all[j].createdAt
    ensures forall k | k in keys :: k in entries && entries[k] in all
    ensures forall e | e in all :: exists k :: k in keys && k in entries && e == entries[k]
    ensures |all| == |keys|
  {
    var ks :| Spells(entries, keys, ks, all);
    KeysAreCounted(ks, keys);
    forall k | k in keys ensures k in entries && entries[k] in all {
      var i :| 0 <= i < |ks| && ks[i] == k;
      assert all[i] == entries[k];
    }
    forall e | e in all ensures exists k :: k in keys && k in entries && e == entries[k] {
      var i :| 0 <= i < |all| && all[i] == e;
      assert ks[i] in ks;
    }
  }

  lemma PageIsPart(all: seq<Entry>, limit: int, offset: nat, e: Entry)
    requires e in Page(all, limit, offset)
    ensures e in all
  {
    PageHolds(all, limit, offset);
  }

  /** The total counts the matching entries, and a page holds no other. */
  lemma MatchesListed(entries: map<string, Entry>, query: string, all: seq<Entry>, limit: int, offset: nat)
    requires Lists(entries, Matching(entries, query), all)
    ensures |all| == |set h | h in entries && Filter.MatchesQuery(entries[h], query)|
    ensures forall e | e in Page(all, limit, offset) :: Filter.MatchesQuery(e, query)
  {
    var keys := Matching(entries, query);
    ListsMeans(entries, keys, all);
    assert keys == set h | h in entries && Filter.MatchesQuery(entries[h], query);
    forall e | e in Page(all, limit, offset) ensures Filter.MatchesQuery(e, query) {
      PageIsPart(all, limit, offset, e);
    }
  }

  /** A page and the total it comes with: both belong to one listing of all matching entries. */
  ghost predicate IsPageOf(entries: map<string, Entry>, query: string, limit: int, offset: nat,
                           page: seq<Entry>, total: nat) {
    exists all ::
      Lists(entries, Matching(entries, query), all) && total == |all| && page == Page(all, limit, offset)
  }

  /** Where an entry created at `at` belongs: before the first that is not newer. */
  function Place(all: seq<Entry>, at: Time): (n: nat)
    ensures n <= |all|
    ensures forall i | 0 <= i < n :: all[i].createdAt > at
    ensures n < |all| ==> all[n].createdAt <= at
  {
    if all == [] || all[0].createdAt <= at then 0 else 1 + Place(all[1..], at)
  }

  function InsertAt<T>(s: seq<T>, n: nat, x: T): (r: seq<T>)
    requires n <= |s|
    ensures |r| == |s| + 1
    ensures forall i | 0 <= i < |r| :: r[i] == if i < n then s[i] else if i == n then x else s[i - 1]
  {
    s[..n] + [x] + s[n..]
  }

  lemma InsertKeepsOrder(all: seq<Entry>, e: Entry)
    requires NewestFirst(all)
    ensures NewestFirst(InsertAt(all, Place(all, e.createdAt), e))
  {
  }

  lemma InsertMembers<T>(s: seq<T>, n: nat, x: T, y: T)
    requires n <= |s|
    ensures y in InsertAt(s, n, x) <==> y == x || y in s
  {
    var r := InsertAt(s, n, x);
    assert r[n] == x;
    if y in s {
      var i :| 0 <= i < |s| && s[i] == y;
      assert r[if i < n then i else i + 1] == y;
    }
  }

  lemma InsertSpells(entries: map<string, Entry>, keys: set<string>, ks: seq<string>, all: seq<Entry>, n: nat, h: string)
    requires Spells(entries, keys, ks, all) && n <= |all| && h in entries && h !in keys
    ensures Spells(entries, keys + {h}, InsertAt(ks, n, h), InsertAt(all, n, entries[h]))
  {
    forall k ensures k in InsertAt(ks, n, h) <==> k == h || k in ks {
      InsertMembers(ks, n, h, k);
    }
    forall i | 0 <= i < |ks| ensures ks[i] != h {
      assert ks[i] in ks;
    }
  }

  /** The keys of a listing that are wanted. */
  function Among(ks: seq<string>, wanted: set<string>): set<string> {
    set k | k in ks && k in wanted
  }

  /**
    `some` is what a filter for the keys `wanted` has kept of the first `n` entries of the
    listing `all`.
   */
  ghost predicate Filtered(entries: map<string, Entry>, ks: seq<string>, all: seq<Entry>, n: nat,
                           wanted: set<string>, found: seq<string>, some: seq<Entry>)
    requires n <= |ks|
  {
    && Spells(entries, Among(ks[..n], wanted), found, some) && NewestFirst(some)
    && (some != [] ==> 0 < n <= |all| && some[|some| - 1].createdAt >= all[n - 1].createdAt)
  }

  /** Appending an entry that is not newer than the last keeps the order. */
  lemma AppendSpells(entries: map<string, Entry>, keys: set<string>, ks: seq<string>, all: seq<Entry>, h: string)
    requires Spells(entries, keys, ks, all) && NewestFirst(all) && h in entries && h !in keys
    requires all != [] ==> all[|all| - 1].createdAt >= entries[h].createdAt
    ensures Spells(entries, keys + {h}, ks + [h], all + [entries[h]]) && NewestFirst(all + [entries[h]])
  {
    forall i | 0 <= i < |ks| ensures ks[i] != h {
      assert ks[i] in ks;
    }
  }

  lemma AmongNext(ks: seq<string>, n: nat, wanted: set<string>)
    requires n < |ks| && forall i, j | 0 <= i < j < |ks| :: ks[i] != ks[j]
    ensures Among(ks[..n + 1], wanted) == Among(ks[..n], wanted) + (if ks[n] in wanted then {ks[n]} else {})
    ensures ks[n] !in Among(ks[..n], wanted)
  {
    assert ks[..n + 1] == ks[..n] + [ks[n]];
  }

  /** One step of the filter: a wanted entry is appended, any other skipped. */
  lemma FilterNext(entries: map<string, Entry>, ks: seq<string>, all: seq<Entry>, n: nat,
                   wanted: set<string>, found: seq<string>, some: seq<Entry>)
    requires Spells(entries, entries.Keys, ks, all) && NewestFirst(all) && n < |all|
    requires Filtered(entries, ks, all, n, wanted, found, some)
    ensures ks[n] in wanted ==> Filtered(entries, ks, all, n + 1, wanted, found + [ks[n]], some + [all[n]])
    ensures ks[n] !in wanted ==> Filtered(entries, ks, all, n + 1, wanted, found, some)
  {
    AmongNext(ks, n, wanted);
    if ks[n] in wanted {
      AppendSpells(entries, Among(ks[..n], wanted), found, some, ks[n]);
    }
  }

  lemma FilterEnd(entries: map<string, Entry>, ks: seq<string>, all: seq<Entry>,
                  wanted: set<string>, found: seq<string>, some: seq<Entry>)
    requires Spells(entries, entries.Keys, ks, all) && wanted <= entries.Keys
    requires Filtered(entries, ks, all, |all|, wanted, found, some)
    ensures Lists(entries, wanted, some)
  {
    assert ks[..|all|] == ks;
    assert Among(ks, wanted) == wanted;
  }
}
