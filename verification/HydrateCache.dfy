// The short-lived per-account id-set cache (parser-api/src/db/hydrate_cache.rs).
module HydrateCache {
  import opened Sorting
  import opened Eviction

  const CACHE_MAX_ENTRIES: nat := 1024
  const RECENT_SEEN_TTL: real := 20.0
  const LONG_TERM_SEEN_TTL: real := 30.0

  datatype SetEntry = SetEntry(ids: set<int>, insertedAt: real)

  type Entries = map<int, SetEntry>

  function EntryTime(e: SetEntry): real {
    e.insertedAt
  }

  predicate IsWarm(es: Entries, key: int, ttl: real, now: real) {
    key in es && now - es[key].insertedAt < ttl
  }

  function Unexpired(es: Entries, ttl: real, now: real): Entries {
    map k | k in es && now - es[k].insertedAt < ttl :: es[k]
  }

  // Ids are added to a warm entry without extending its life.
  function Merged(es: Entries, key: int, ids: set<int>, ttl: real, now: real): Entries {
    if IsWarm(es, key, ttl, now) then es[key := SetEntry(es[key].ids + ids, es[key].insertedAt)] else es
  }

  // Several accounts' ids at once.
  function MergedAll(es: Entries, posts: map<int, set<int>>, ttl: real, now: real): Entries {
    map k | k in es ::
      if k in posts && now - es[k].insertedAt < ttl
      then SetEntry(es[k].ids + posts[k], es[k].insertedAt)
      else es[k]
  }

  function Refilled(es: Entries, key: int, ids: set<int>, ttl: real, now: real): Entries {
    Unexpired(es, ttl, now)[key := SetEntry(ids, now)]
  }

  function Excess(es: Entries): nat {
    if |es| > CACHE_MAX_ENTRIES then |es| - CACHE_MAX_ENTRIES else 0
  }

  ghost predicate LegalEviction(es: Entries, evicted: set<int>) {
    IsOldestChoice(es, EntryTime, Excess(es), evicted)
  }

  lemma WithoutEvicted(full: Entries, evicted: set<int>, key: int)
    requires LegalEviction(full, evicted) && key in full
    ensures |full - evicted| == |full| - Excess(full) && (evicted != {} ==> |full| > CACHE_MAX_ENTRIES)
    ensures key in evicted ==> forall k | k in full - evicted :: full[k].insertedAt >= full[key].insertedAt
  {
    assert (full - evicted).Keys == full.Keys - evicted;
    assert |full.Keys - evicted| == |full.Keys| - |evicted|;
    forall k | k in full - evicted && key in evicted ensures full[k].insertedAt >= full[key].insertedAt {
      assert EntryTime(full[key]) <= EntryTime(full[k]);
    }
  }

  class SetCache {
    var entries: Entries
    const ttl: real

    constructor (ttl: real)
      ensures entries == map[] && this.ttl == ttl
    {
      entries := map[];
      this.ttl := ttl;
    }

    method Lookup(key: int, now: real) returns (hit: bool, ids: set<int>)
      ensures hit == IsWarm(entries, key, ttl, now)
      ensures hit ==> ids == entries[key].ids
    {
      if key in entries && now - entries[key].insertedAt < ttl {
        return true, entries[key].ids;
      }
      return false, {};
    }

    // put_set: drop the expired, insert, and trim to the limit.
    method Put(key: int, ids: set<int>, now: real) returns (ghost evicted: set<int>)
      modifies this
      ensures var full := Refilled(old(entries), key, ids, ttl, now);
              LegalEviction(full, evicted) && entries == full - evicted
      // The expired go, of the others only the oldest beyond the limit.
      ensures forall k | k != key ::
                k in entries <==> k in old(entries) && now - old(entries)[k].insertedAt < ttl && k !in evicted
      ensures forall k | k in entries && k != key :: entries[k] == old(entries)[k]
      ensures |entries| <= 1024 && (evicted != {} ==> |entries| == 1024)
      // The new entry is there, unless a full cache holds only entries as new.
      ensures key in entries ==> entries[key] == SetEntry(ids, now)
      ensures key !in entries ==>
                |entries| == 1024 && forall k | k in entries :: entries[k].insertedAt >= now
    {
      entries := Unexpired(entries, ttl, now);
      entries := entries[key := SetEntry(ids, now)];
      ghost var full := entries;
      entries, evicted := DropOldest(entries, EntryTime, Excess(entries));
      WithoutEvicted(full, evicted, key);
    }

    method MergeInto(key: int, ids: set<int>, now: real)
      modifies this
      ensures entries == Merged(old(entries), key, ids, ttl, now)
    {
      if key !in entries || now - entries[key].insertedAt >= ttl {
        return;
      }
      entries := entries[key := SetEntry(entries[key].ids + ids, entries[key].insertedAt)];
    }

    method Clear(key: int)
      modifies this
      ensures entries == old(entries) - {key}
    {
      entries := entries - {key};
    }
  }
}
