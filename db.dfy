/**
  The read-through cache policy of `query` in the database layer: derive the cache key
  from the SQL text and its parameters, answer from the cache when asked to and the
  cached value is truthy, otherwise run the query and, when it was slow, store the rows.

  The database call is an oracle: its outcome (the rows and the milliseconds the query
  took, or an error) is a parameter, as is the clock reading `now` at the start. The
  rows are written at `now + queryTime`. JavaScript truthiness of a cached value is the
  parameter `truthy`.
 */
module Db {
  import opened Optional
  import opened Json
  import opened Cache

  /** `generateCacheKey(sql, params)`: the SQL text, a dash, and `JSON.stringify(params)`. */
  function GenerateCacheKey(sql: string, params: seq<Param>): (r: string)
    ensures |r| >= |sql| + 3 && r[..|sql|] == sql && r[|sql|] == '-'
    ensures r[|sql| + 1..] == ParamsJson(params) && r[|r| - 1] == ']'
  {
    assert (sql + "-" + ParamsJson(params))[..|sql|] == sql;
    sql + "-" + ParamsJson(params)
  }

  /** The statement the messages endpoint reads its list with, without parameters. */
  const MessagesListSql: string := "SELECT * FROM messages ORDER BY created_at DESC"
  /** The cache key the messages endpoint invalidates after an insert. */
  const MessagesListKey: string := "SELECT * FROM messages ORDER BY created_at DESC-[]"
  /** The key under which the messages endpoint stores its ETag in the same cache. */
  const MessagesEtagKey: string := "messages-list-etag"

  /** A query without parameters is keyed by its SQL text followed by `-[]`. */
  lemma EmptyParamsKey(sql: string)
    ensures GenerateCacheKey(sql, []) == sql + "-[]"
  {
  }

  /** The key the insert path invalidates is the key the list query is cached under. */
  lemma MessagesListKeyMatches()
    ensures GenerateCacheKey(MessagesListSql, []) == MessagesListKey
  {
    EmptyParamsKey(MessagesListSql);
  }

  /** No query result is ever cached under the ETag's key: query keys end in `]`. */
  lemma QueryKeyIsNotEtagKey(sql: string, params: seq<Param>)
    ensures GenerateCacheKey(sql, params) != MessagesEtagKey
  {
    var k := GenerateCacheKey(sql, params);
    assert k[|k| - 1] == ']';
  }

  /**
    For one SQL text, the key determines the parameters up to `undefined` versus `null`,
    which `JSON.stringify` writes alike.
   */
  lemma KeyDeterminesParams(sql: string, p1: seq<Param>, p2: seq<Param>)
    ensures GenerateCacheKey(sql, p1) == GenerateCacheKey(sql, p2) <==> Canonical(p1) == Canonical(p2)
  {
    ParamsJsonInjective(p1, p2);
    var n := |sql| + 1;
    assert GenerateCacheKey(sql, p1)[n..] == ParamsJson(p1);
    assert GenerateCacheKey(sql, p2)[n..] == ParamsJson(p2);
  }

  // ---------------------------------------------------------------------------
  // query

  /** The `options` argument: `cache`, `ttl` and `forceRefresh`. */
  datatype QueryOptions = QueryOptions(cache: bool, ttl: Option<int>, forceRefresh: bool)

  /** What the database call does: return rows after `queryTime` milliseconds, or fail. */
  datatype DbOutcome<T> = Executed(rows: T, queryTime: int) | Failed(error: string)

  /** What `query` does: resolve with a value, or reject with the database's error. */
  datatype QueryResult<T> = Returned(value: T) | Thrown(error: string)

  /** The cache afterwards, the result, and whether the database was called. */
  datatype QueryOutcome<T> = QueryOutcome(store: Store<T>, result: QueryResult<T>, executed: bool)

  /** `options.cache && !options.forceRefresh`: the cache is read first. */
  predicate ReadsCache(opts: QueryOptions) {
    opts.cache && !opts.forceRefresh
  }

  /** `options.cache && queryTime > 50`: fresh rows are written back. */
  predicate WritesCache(opts: QueryOptions, queryTime: int) {
    opts.cache && queryTime > 50
  }

  /** The cache after the optional read; a read can delete an expired entry. */
  function Consulted<T>(s: Store<T>, key: string, opts: QueryOptions, now: int): (r: Store<T>)
    requires WellFormed(s)
    ensures WellFormed(r)
  {
    if ReadsCache(opts) then GetStep(s, key, now).0 else s
  }

  /** The read returned a truthy value. */
  predicate Hit<T>(s: Store<T>, key: string, opts: QueryOptions, truthy: T -> bool, now: int)
    requires WellFormed(s)
  {
    ReadsCache(opts) && GetStep(s, key, now).1.Some? && truthy(GetStep(s, key, now).1.value)
  }

  /** `query(sql, params, options)` on the cache state `s`, with `key = generateCacheKey(sql, params)`. */
  function QueryStep<T>(s: Store<T>, key: string, opts: QueryOptions, truthy: T -> bool,
                        sizeOf: T -> nat, db: DbOutcome<T>, now: int): (r: QueryOutcome<T>)
    requires WellFormed(s)
    ensures WellFormed(r.store)
    // The database is skipped exactly on a truthy cache hit, which is returned as is.
    ensures !r.executed <==> Hit(s, key, opts, truthy, now)
    ensures !r.executed ==>
              r.result == Returned(GetStep(s, key, now).1.value) && r.store == GetStep(s, key, now).0
    // Otherwise the result is the database's: its rows, or its error re-thrown.
    ensures r.executed && db.Executed? ==> r.result == Returned(db.rows)
    ensures r.executed && db.Failed? ==> r.result == Thrown(db.error)
    // A failure writes nothing; rows are written only when caching is on and the query was slow.
    ensures r.executed && (db.Failed? || !WritesCache(opts, db.queryTime)) ==>
              r.store == Consulted(s, key, opts, now)
    ensures r.executed && db.Executed? && WritesCache(opts, db.queryTime) ==>
              r.store == SetStep(Consulted(s, key, opts, now), key, db.rows, sizeOf(db.rows), opts.ttl, now + db.queryTime)
  {
    var s1 := Consulted(s, key, opts, now);
    if Hit(s, key, opts, truthy, now) then
      QueryOutcome(s1, Returned(GetStep(s, key, now).1.value), false)
    else
      match db
      case Failed(e) => QueryOutcome(s1, Thrown(e), true)
      case Executed(rows, queryTime) =>
        var s2 := if WritesCache(opts, queryTime) then SetStep(s1, key, rows, sizeOf(rows), opts.ttl, now + queryTime) else s1;
        QueryOutcome(s2, Returned(rows), true)
  }

  /**
    Read-through: rows written back by a slow query are served, without calling the
    database, to the next query with the same key that reads the cache within the TTL.
   */
  lemma ReadThrough<T>(s: Store<T>, key: string, opts: QueryOptions, opts2: QueryOptions, truthy: T -> bool,
                       sizeOf: T -> nat, rows: T, queryTime: int, now: int, db2: DbOutcome<T>, later: int)
    requires WellFormed(s)
    requires WritesCache(opts, queryTime) && sizeOf(rows) <= MaxItemSize && truthy(rows)
    requires ReadsCache(opts2) && later <= now + queryTime + EffectiveTtl(opts.ttl)
    ensures var first := QueryStep(s, key, opts, truthy, sizeOf, Executed(rows, queryTime), now);
            var second := QueryStep(first.store, key, opts2, truthy, sizeOf, db2, later);
            first.executed ==> !second.executed && second.result == Returned(rows)
  {
    var first := QueryStep(s, key, opts, truthy, sizeOf, Executed(rows, queryTime), now);
    SetThenGet(Consulted(s, key, opts, now), key, rows, sizeOf(rows), opts.ttl, now + queryTime, later);
  }

  /** `forceRefresh` skips the read but not the write-back. */
  lemma ForceRefreshStillWrites<T>(s: Store<T>, key: string, ttl: Option<int>, truthy: T -> bool,
                                   sizeOf: T -> nat, rows: T, queryTime: int, now: int)
    requires WellFormed(s) && queryTime > 50 && sizeOf(rows) <= MaxItemSize
    ensures var r := QueryStep(s, key, QueryOptions(true, ttl, true), truthy, sizeOf, Executed(rows, queryTime), now);
            && r.executed && r.result == Returned(rows)
            && key in r.store.cache.values
            && r.store.cache.values[key] == Item(rows, now + queryTime + EffectiveTtl(ttl), sizeOf(rows))
  {
  }

  /** After the insert path invalidates the list key, the next cached list query goes to the database. */
  lemma ListQueryMissesAfterInvalidate<T>(s: Store<T>, opts: QueryOptions, truthy: T -> bool,
                                         sizeOf: T -> nat, db: DbOutcome<T>, now: int)
    requires WellFormed(s)
    ensures QueryStep(InvalidateStep(s, MessagesListKey), GenerateCacheKey(MessagesListSql, []),
                      opts, truthy, sizeOf, db, now).executed
  {
    MessagesListKeyMatches();
  }

  /**
    `query`: `qc` is the shared cache, and the database's answer and the clock are
    parameters; `executed` says whether the database was called.
   */
  method Query<T>(qc: QueryCache<T>, sql: string, params: seq<Param>, opts: QueryOptions,
                  truthy: T -> bool, db: DbOutcome<T>, now: int)
    returns (result: QueryResult<T>, executed: bool)
    requires qc.Valid()
    modifies qc
    ensures qc.Valid()
    ensures QueryOutcome(qc.State(), result, executed)
            == QueryStep(old(qc.State()), GenerateCacheKey(sql, params), opts, truthy, qc.sizeOf, db, now)
  {
    var key := GenerateCacheKey(sql, params);
    if ReadsCache(opts) {
      var cached := qc.Get(key, now);
      if cached.Some? && truthy(cached.value) {
        return Returned(cached.value), false;
      }
    }
    executed := true;
    match db {
      case Failed(e) =>
        result := Thrown(e);
      case Executed(rows, queryTime) =>
        if WritesCache(opts, queryTime) {
          qc.Set(key, rows, opts.ttl, now + queryTime);
        }
        result := Returned(rows);
    }
  }
}
