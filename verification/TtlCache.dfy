/**
 The in-memory cache of per-item Garage info (backend/list_enrich.go): a class whose map is
 changed in place, and its meaning as a function of the history of calls.
 */
module TtlCache {
  import opened Options

  /** listInfoCacheTTL, 15 seconds in nanoseconds, used when a cache sets no ttl of its own. */
  const DEFAULT_TTL := 15_000_000_000

  datatype Entry<T> = Entry(val: T, expires: int)

  function Lookup<T>(entries: map<string, Entry<T>>, key: string, now: int): Option<T> {
    if key !in entries || now > entries[key].expires then None else Some(entries[key].val)
  }

  function Purged<T>(entries: map<string, Entry<T>>, now: int): map<string, Entry<T>> {
    map k | k in entries && now <= entries[k].expires :: entries[k]
  }

  class Cache<T> {
    var entries: map<string, Entry<T>>
    const ttl: int

    constructor (ttl: int)
      ensures entries == map[] && this.ttl == ttl
    {
      this.ttl := ttl;
      entries := map[];
    }

    method Get(key: string, now: int) returns (r: Option<T>)
      ensures r == Lookup(entries, key, now)
    {
      if key !in entries {
        return None;
      }
      var e := entries[key];
      if now > e.expires {
        return None;
      }
      return Some(e.val);
    }

    /** The entry lives for ttl, or for 15 seconds when ttl is zero. */
    method Put(key: string, val: T, now: int)
      modifies this
      ensures entries == old(entries)[key := Entry(val, now + if ttl == 0 then 15_000_000_000 else ttl)]
    {
      var life := ttl;
      if life == 0 {
        life := DEFAULT_TTL;
      }
      entries := entries[key := Entry(val, now + life)];
    }

    /** Visits the keys in some order, deleting as it goes. */
    method PurgeExpired(now: int)
      modifies this
      ensures entries == Purged(old(entries), now)
    {
      var keys := entries.Keys;
      while keys != {}
        invariant keys <= old(entries).Keys
        invariant entries == map k | k in old(entries)
            && (k in keys || now <= old(entries)[k].expires) :: old(entries)[k]
        decreases |keys|
      {
        var k :| k in keys;
        keys := keys - {k};
        if now > entries[k].expires {
          entries := entries - {k};
        }
      }
    }

    method Clear()
      modifies this
      ensures entries == map[]
    {
      entries := map[];
    }
  }

  /** invalidateListCaches: a mutation forgets both caches. */
  method InvalidateListCaches<A, B>(buckets: Cache<A>, keys: Cache<B>)
    modifies buckets, keys
    ensures buckets.entries == map[] && keys.entries == map[]
  {
    buckets.Clear();
    keys.Clear();
  }

  // ---- The history of a cache ----

  /** One call that changes the cache. */
  datatype Event<T> = PutAt(key: string, val: T, at: int) | PurgeAt(at: int) | ClearAll

  /** The entries after a history, oldest event first, as the methods compute them. */
  function Replay<T>(history: seq<Event<T>>, life: int): map<string, Entry<T>> {
    if history == [] then map[]
    else
      var entries := Replay(history[..|history| - 1], life);
      match history[|history| - 1]
      case PutAt(key, val, at) => entries[key := Entry(val, at + life)]
      case PurgeAt(at) => Purged(entries, at)
      case ClearAll => map[]
  }

  /** The latest put of key that no clear followed, if any. */
  ghost predicate IsLatestPut<T(!new)>(history: seq<Event<T>>, key: string, p: nat) {
    && p < |history|
    && history[p].PutAt? && history[p].key == key
    && forall q :: p < q < |history| ==> !history[q].ClearAll? && !(history[q].PutAt? && history[q].key == key)
  }

  /** No event happens later than now. */
  ghost predicate Before<T(!new)>(history: seq<Event<T>>, now: int) {
    forall q :: 0 <= q < |history| && !history[q].ClearAll? ==> history[q].at <= now
  }

  ghost predicate Visible<T(!new)>(history: seq<Event<T>>, life: int, key: string, now: int, p: nat) {
    IsLatestPut(history, key, p) && now <= history[p].at + life
  }

  /**
   The cache refines its history. With a clock that does not run backwards, a lookup hits
   exactly when the latest put of the key that no clear followed has not expired, and then it
   returns that put's value; purges leave no trace.
   */
  lemma {:induction false} CacheRefinesHistory<T(!new)>(history: seq<Event<T>>, life: int, key: string, now: int)
    requires Before(history, now)
    ensures Lookup(Replay(history, life), key, now).Some? <==> exists p: nat :: Visible(history, life, key, now, p)
    ensures forall p: nat :: Visible(history, life, key, now, p) ==>
              Lookup(Replay(history, life), key, now) == Some(history[p].val)
    decreases |history|
  {
    if history != [] {
      var n := |history| - 1;
      var before, last := history[..n], history[n];
      CacheRefinesHistory(before, life, key, now);
      if last.PutAt? && last.key == key {
        assert IsLatestPut(history, key, n);
        assert Visible(history, life, key, now, n) <==> now <= last.at + life;
        assert forall p: nat :: IsLatestPut(history, key, p) ==> p == n;
      } else if last.ClearAll? {
        assert forall p: nat :: !IsLatestPut(history, key, p);
      } else {
        forall p: nat ensures Visible(history, life, key, now, p) <==> Visible(before, life, key, now, p) {
          assert IsLatestPut(history, key, p) ==> p < n && IsLatestPut(before, key, p);
          assert IsLatestPut(before, key, p) ==> IsLatestPut(history, key, p);
        }
        assert Lookup(Replay(history, life), key, now) == Lookup(Replay(before, life), key, now);
        if exists p: nat :: Visible(before, life, key, now, p) {
          var p: nat :| Visible(before, life, key, now, p);
          assert Visible(history, life, key, now, p);
        }
      }
    }
  }

  /** Purging at any moment changes no lookup made then or later. */
  lemma PurgeIsInvisible<T>(entries: map<string, Entry<T>>, purge: int, key: string, now: int)
    requires purge <= now
    ensures Lookup(Purged(entries, purge), key, now) == Lookup(entries, key, now)
  {
  }
}
