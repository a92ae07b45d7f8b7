/**
  The shared-memory cache of diag_quicksearch.php as a plain map, the
  `?rebuild` admin operation, and the MAIN block that decides whether the
  cached index is served, rebuilt or kept while another request holds the
  build lock.
 */
module Cache {
  import opened Wrappers
  import opened Text
  import opened SourceIndex
  import opened Search

  /** What the cache holds under a key: the index (a PHP array of records) or an integer (a time stamp). */
  datatype Value = Docs(docs: seq<Doc>) | Num(n: int)

  const IndexKey: string := "qs_src_idx"
  const TsKey: string := "qs_src_idx_ts"
  const LockKey: string := "qs_build_lock"

  /** Seconds an index stays fresh, and seconds a build lock is held. */
  const IndexTtl: int := 1800
  const LockTtl: int := 20

  /** The number of results the endpoint asks search_ranked for. */
  const Limit: int := 50

  // ---------------------------------------------------------------------
  // The key/value map
  // ---------------------------------------------------------------------

  /** `$map[$k] ?? null` */
  function Lookup(m: map<string, Value>, k: string): Option<Value>
  {
    if k in m then Some(m[k]) else None
  }

  /** The map after `set($k, $v)`: null removes the key, anything else replaces its value. */
  function Put(m: map<string, Value>, k: string, v: Option<Value>): map<string, Value>
  {
    if v.None? then m - {k} else m[k := v.value]
  }

  /** Reading a key just written gives the written value, null included. */
  lemma PutGet(m: map<string, Value>, k: string, v: Option<Value>)
    ensures Lookup(Put(m, k, v), k) == v
  {
  }

  /** Writing a key leaves every other key as it was. */
  lemma PutOther(m: map<string, Value>, k: string, v: Option<Value>, j: string)
    requires j != k
    ensures Lookup(Put(m, k, v), j) == Lookup(m, j)
  {
  }

  /** Writing null removes the key and adds none; writing a value adds exactly that key. */
  lemma PutKeys(m: map<string, Value>, k: string, v: Option<Value>)
    ensures Put(m, k, v).Keys == if v.None? then m.Keys - {k} else m.Keys + {k}
  {
  }

  class QsCache {
    var store: map<string, Value>

    /** A cache whose shared segment holds no map yet reads as empty. */
    constructor ()
      ensures store == map[]
    {
      store := map[];
    }

    method Get(k: string) returns (v: Option<Value>)
      ensures v == Lookup(store, k)
    {
      if k in store {
        v := Some(store[k]);
      } else {
        v := None;
      }
    }

    method Set(k: string, v: Option<Value>)
      modifies this
      ensures store == Put(old(store), k, v)
    {
      if v.None? {
        store := store - {k};
      } else {
        store := store[k := v.value];
      }
    }
  }

  // ---------------------------------------------------------------------
  // PHP conversions used by the MAIN block
  // ---------------------------------------------------------------------

  /** `(int)($v ?? 0)`: an integer as is, an array as 0 when empty and 1 otherwise. */
  function IntOf(v: Option<Value>): int
  {
    match v
    case None => 0
    case Some(Num(n)) => n
    case Some(Docs(d)) => if d == [] then 0 else 1
  }

  /** `$docs = $v ?: []` followed by `is_array($docs) && count($docs)`: the cached index, or [] when it must be built. */
  function Usable(v: Option<Value>): (d: seq<Doc>)
    ensures d != [] <==> v == Some(Docs(d)) && d != []
  {
    if v.Some? && v.value.Docs? then v.value.docs else []
  }

  // ---------------------------------------------------------------------
  // The refresh policy
  // ---------------------------------------------------------------------

  /** The cache after the MAIN block, and the index it goes on to search. */
  datatype Outcome = Outcome(store: map<string, Value>, docs: seq<Doc>)

  /**
    The MAIN block at time `now`, where `build` is what build_source_index
    returns if it is called.
   */
  function Refreshed(m: map<string, Value>, now: int, build: seq<Doc>): Outcome
  {
    var docs := Usable(Lookup(m, IndexKey));
    var ts := IntOf(Lookup(m, TsKey));
    if docs == [] then
      Outcome(Put(Put(m, IndexKey, Some(Docs(build))), TsKey, Some(Num(now))), build)
    else if now - ts > IndexTtl then
      var lu := IntOf(Lookup(m, LockKey));
      if lu < now then
        var locked := Put(m, LockKey, Some(Num(now + LockTtl)));
        var stored := if build != [] then Put(Put(locked, IndexKey, Some(Docs(build))), TsKey, Some(Num(now))) else locked;
        Outcome(Put(stored, LockKey, None), if build != [] then build else docs)
      else
        Outcome(m, docs)
    else
      Outcome(m, docs)
  }

  /** Keys other than the index, its time stamp and the lock. */
  predicate OtherKey(j: string)
  {
    j != IndexKey && j != TsKey && j != LockKey
  }

  /** A missing, empty or non-array index is built, stored and stamped with `now`, and the build is served. */
  lemma RefreshMissing(m: map<string, Value>, now: int, build: seq<Doc>)
    requires Usable(Lookup(m, IndexKey)) == []
    ensures var o := Refreshed(m, now, build);
      && o.docs == build
      && Lookup(o.store, IndexKey) == Some(Docs(build))
      && Lookup(o.store, TsKey) == Some(Num(now))
      && Lookup(o.store, LockKey) == Lookup(m, LockKey)
      && (forall j :: OtherKey(j) ==> Lookup(o.store, j) == Lookup(m, j))
  {
  }

  /** An index at most IndexTtl seconds old is served and the cache is left as it is. */
  lemma RefreshFresh(m: map<string, Value>, now: int, build: seq<Doc>)
    requires Usable(Lookup(m, IndexKey)) != []
    requires now - IntOf(Lookup(m, TsKey)) <= IndexTtl
    ensures Refreshed(m, now, build) == Outcome(m, Usable(Lookup(m, IndexKey)))
  {
  }

  /**
    A stale index whose lock has expired is replaced and restamped only by a
    non-empty build, and is otherwise kept and served; the lock ends cleared
    and no other key changes.
   */
  lemma RefreshStaleUnlocked(m: map<string, Value>, now: int, build: seq<Doc>)
    requires Usable(Lookup(m, IndexKey)) != []
    requires now - IntOf(Lookup(m, TsKey)) > IndexTtl
    requires IntOf(Lookup(m, LockKey)) < now
    ensures var o := Refreshed(m, now, build);
      && Lookup(o.store, LockKey) == None
      && (build != [] ==> o.docs == build && Lookup(o.store, IndexKey) == Some(Docs(build)) && Lookup(o.store, TsKey) == Some(Num(now)))
      && (build == [] ==> (o.docs == Usable(Lookup(m, IndexKey))
          && Lookup(o.store, IndexKey) == Lookup(m, IndexKey) && Lookup(o.store, TsKey) == Lookup(m, TsKey)))
      && (forall j :: OtherKey(j) ==> Lookup(o.store, j) == Lookup(m, j))
  {
  }

  /** A stale index is served unchanged while another request holds the lock. */
  lemma RefreshStaleLocked(m: map<string, Value>, now: int, build: seq<Doc>)
    requires Usable(Lookup(m, IndexKey)) != []
    requires now - IntOf(Lookup(m, TsKey)) > IndexTtl
    requires IntOf(Lookup(m, LockKey)) >= now
    ensures Refreshed(m, now, build) == Outcome(m, Usable(Lookup(m, IndexKey)))
  {
  }

  /**
    Whatever branch is taken, the served index is the one the cache holds
    afterwards, and a usable index is never replaced by an empty one.
   */
  lemma RefreshCoherent(m: map<string, Value>, now: int, build: seq<Doc>)
    ensures Lookup(Refreshed(m, now, build).store, IndexKey) == Some(Docs(Refreshed(m, now, build).docs))
    ensures Usable(Lookup(m, IndexKey)) != [] ==> Refreshed(m, now, build).docs != []
  {
  }

  /** After `?rebuild`, the next request builds the index afresh and serves the build. */
  lemma RebuildForcesBuild(m: map<string, Value>, now: int, build: seq<Doc>)
    ensures var o := Refreshed(m - {IndexKey, TsKey, LockKey}, now, build);
      && o.docs == build
      && Lookup(o.store, TsKey) == Some(Num(now))
      && Lookup(o.store, LockKey) == None
  {
  }

  // ---------------------------------------------------------------------
  // The request handlers
  // ---------------------------------------------------------------------

  /** `?rebuild`: clears the index, its time stamp and the lock, and nothing else. */
  method Rebuild(cache: QsCache)
    modifies cache
    ensures cache.store == old(cache.store) - {IndexKey, TsKey, LockKey}
  {
    cache.Set(IndexKey, None);
    cache.Set(TsKey, None);
    cache.Set(LockKey, None);
  }

  /** The MAIN block's cache reads and writes, in the source's order. */
  method Refresh(cache: QsCache, now: int, build: seq<Doc>) returns (docs: seq<Doc>)
    modifies cache
    ensures Outcome(cache.store, docs) == Refreshed(old(cache.store), now, build)
  {
    var v := cache.Get(IndexKey);
    docs := Usable(v);
    var t := cache.Get(TsKey);
    var ts := IntOf(t);
    if docs == [] {
      docs := build;
      cache.Set(IndexKey, Some(Docs(docs)));
      cache.Set(TsKey, Some(Num(now)));
    } else if now - ts > IndexTtl {
      var l := cache.Get(LockKey);
      var lu := IntOf(l);
      if lu < now {
        cache.Set(LockKey, Some(Num(now + LockTtl)));
        var built := build;
        if built != [] {
          docs := built;
          cache.Set(IndexKey, Some(Docs(docs)));
          cache.Set(TsKey, Some(Num(now)));
        }
        cache.Set(LockKey, None);
      }
    }
  }

  /** A search request: `q` is trimmed, an empty query answers [] without touching the cache, otherwise refresh then rank. */
  method Answer(cache: QsCache, q: Option<string>, now: int, build: seq<Doc>) returns (items: seq<Item>)
    modifies cache
    ensures var qt := if q.Some? then Trim(q.value, PhpTrimChars) else [];
      && (qt == [] ==> items == [] && cache.store == old(cache.store))
      && (qt != [] ==> var o := Refreshed(old(cache.store), now, build);
            cache.store == o.store && items == SearchSpec(o.docs, qt, Limit))
  {
    var qt := if q.Some? then Trim(q.value, PhpTrimChars) else [];
    if qt == [] {
      return [];
    }
    var docs := Refresh(cache, now, build);
    items := SearchRanked(docs, qt, Limit);
  }
}
