/**
 The stateful and protocol parts of index.js, as pure functions: the
 module-level cached database path and the path `initDb` opens, the statement
 sequence `executeBatch` issues, and the decision `recordExists` takes from
 the outcome of its select. The database engine itself is not modelled: the
 outcome of the engine call is a parameter.
 */
module DbFacade {
  import opened Outcomes
  import opened JsStrings
  import opened SqlBuilder

  // ---------------------------------------------------------------------------
  // Cached database path

  /** The module-level `cachedDbPath` variable. */
  datatype PathCache = PathCache(cachedDbPath: string)

  /** The cache at module load: the empty path. */
  const InitialCache := PathCache("")

  /** `cacheDbPath(dbPath)`: overwrite the cached path, whatever it held. */
  function CacheDbPath(cache: PathCache, dbPath: string): PathCache {
    PathCache(dbPath)
  }

  /** JavaScript truthiness of a path argument: an omitted, `null` or empty path is falsy. */
  predicate PathGiven(dbPath: Option<string>) {
    dbPath.Some? && dbPath.value != ""
  }

  /** The path `initDb(dbPath)` hands to the database engine. */
  function ResolvePath(cache: PathCache, dbPath: Option<string>): string {
    if !PathGiven(dbPath) then cache.cachedDbPath else dbPath.value
  }

  /** A truthy path is used unchanged, whatever the cache holds. */
  lemma ExplicitPathWins(cache1: PathCache, cache2: PathCache, dbPath: string)
    requires dbPath != ""
    ensures ResolvePath(cache1, Some(dbPath)) == dbPath
    ensures ResolvePath(cache1, Some(dbPath)) == ResolvePath(cache2, Some(dbPath))
  {
  }

  /** After `cacheDbPath(p)`, a call with no path, or an empty one, targets `p`. */
  lemma CachedPathUsed(cache: PathCache, p: string)
    ensures ResolvePath(CacheDbPath(cache, p), None) == p
    ensures ResolvePath(CacheDbPath(cache, p), Some("")) == p
  {
  }

  /** Before any caching, a call without a path opens the empty path. */
  lemma InitialPathEmpty(dbPath: Option<string>)
    requires !PathGiven(dbPath)
    ensures ResolvePath(InitialCache, dbPath) == ""
  {
  }

  /** A call of the module's surface that touches the cached path. */
  datatype Call = Cache(path: string) | Open(dbPath: Option<string>)

  /** The cache after the calls run in order. */
  function CacheAfter(cache: PathCache, calls: seq<Call>): PathCache
    decreases |calls|
  {
    if |calls| == 0 then cache
    else
      var before := CacheAfter(cache, calls[..|calls| - 1]);
      match calls[|calls| - 1]
      case Cache(p) => CacheDbPath(before, p)
      case Open(_) => before
  }

  /** For each call, the path it opens: `None` for `cacheDbPath`, the resolved path for the others. */
  function Opened(cache: PathCache, calls: seq<Call>): (r: seq<Option<string>>)
    ensures |r| == |calls|
    decreases |calls|
  {
    if |calls| == 0 then []
    else
      var last := match calls[|calls| - 1]
        case Cache(_) => None
        case Open(d) => Some(ResolvePath(CacheAfter(cache, calls[..|calls| - 1]), d));
      Opened(cache, calls[..|calls| - 1]) + [last]
  }

  /** `k` is the position of the most recent `cacheDbPath` call in `calls`. */
  ghost predicate IsLastCache(calls: seq<Call>, k: int) {
    0 <= k < |calls| && calls[k].Cache? && forall j :: k < j < |calls| ==> !calls[j].Cache?
  }

  /** The cached path is the one given to the most recent `cacheDbPath` call. */
  lemma {:induction false} CacheAfterLast(cache: PathCache, calls: seq<Call>, k: int)
    requires IsLastCache(calls, k)
    ensures CacheAfter(cache, calls).cachedDbPath == calls[k].path
    decreases |calls|
  {
    if k < |calls| - 1 {
      var init := calls[..|calls| - 1];
      assert IsLastCache(init, k) by {
        forall j | k < j < |init| ensures !init[j].Cache? {
          assert init[j] == calls[j];
        }
      }
      CacheAfterLast(cache, init, k);
    }
  }

  /** Without any `cacheDbPath` call, the cache keeps its initial value. */
  lemma {:induction false} CacheAfterNone(cache: PathCache, calls: seq<Call>)
    requires forall j :: 0 <= j < |calls| ==> !calls[j].Cache?
    ensures CacheAfter(cache, calls) == cache
    decreases |calls|
  {
    if |calls| > 0 {
      var init := calls[..|calls| - 1];
      assert forall j :: 0 <= j < |init| ==> init[j] == calls[j];
      CacheAfterNone(cache, init);
    }
  }

  /** Later calls do not change what earlier calls opened. */
  lemma {:induction false} OpenedPrefix(cache: PathCache, calls: seq<Call>, n: nat)
    requires n <= |calls|
    ensures Opened(cache, calls)[..n] == Opened(cache, calls[..n])
    decreases |calls|
  {
    if n < |calls| {
      var init := calls[..|calls| - 1];
      OpenedPrefix(cache, init, n);
      assert init[..n] == calls[..n];
      assert Opened(cache, calls)[..n] == Opened(cache, init)[..n];
    } else {
      assert calls[..n] == calls;
    }
  }

  /** What the `k`-th call opens depends only on the calls before it. */
  lemma OpenedAt(cache: PathCache, calls: seq<Call>, k: nat)
    requires k < |calls| && calls[k].Open?
    ensures Opened(cache, calls)[k] == Some(ResolvePath(CacheAfter(cache, calls[..k]), calls[k].dbPath))
  {
    OpenedPrefix(cache, calls, k + 1);
    assert calls[..k + 1][..k] == calls[..k];
    assert Opened(cache, calls)[k] == Opened(cache, calls)[..k + 1][k];
  }

  /**
   A call with a falsy path opens the path given to the most recent earlier
   `cacheDbPath` call.
   */
  lemma OpenUsesLatestCache(cache: PathCache, calls: seq<Call>, k: nat, j: nat)
    requires k < |calls| && calls[k].Open? && !PathGiven(calls[k].dbPath)
    requires IsLastCache(calls[..k], j)
    ensures Opened(cache, calls)[k] == Some(calls[j].path)
  {
    OpenedAt(cache, calls, k);
    CacheAfterLast(cache, calls[..k], j);
  }

  /** A call with a falsy path and no earlier `cacheDbPath` call opens the initial cached path. */
  lemma OpenWithoutCache(cache: PathCache, calls: seq<Call>, k: nat)
    requires k < |calls| && calls[k].Open? && !PathGiven(calls[k].dbPath)
    requires forall j :: 0 <= j < k ==> !calls[j].Cache?
    ensures Opened(cache, calls)[k] == Some(cache.cachedDbPath)
  {
    OpenedAt(cache, calls, k);
    CacheAfterNone(cache, calls[..k]);
  }

  /** A call with a truthy path opens exactly that path. */
  lemma OpenExplicit(cache: PathCache, calls: seq<Call>, k: nat)
    requires k < |calls| && calls[k].Open? && PathGiven(calls[k].dbPath)
    ensures Opened(cache, calls)[k] == calls[k].dbPath
  {
    OpenedAt(cache, calls, k);
  }

  /** `cacheDbPath(p)` followed by a call without a path targets `p`. */
  lemma CacheThenExecute(p: string)
    ensures Opened(InitialCache, [Cache(p), Open(None)]) == [None, Some(p)]
  {
    var calls := [Cache(p), Open(None)];
    assert calls[..1] == [Cache(p)];
    assert IsLastCache(calls[..1], 0);
    OpenUsesLatestCache(InitialCache, calls, 1, 0);
  }

  // ---------------------------------------------------------------------------
  // executeBatch

  /** The statements `executeBatch` hands to the engine, in order, and the outcome it resolves with. */
  datatype BatchRun<E> = BatchRun(issued: seq<string>, result: Result<(), E>)

  /**
   `executeBatch(statements)`, given the error (if any) the engine reports for
   the joined body. `executeBatch` passes no callback to the `BEGIN`,
   `COMMIT` and `ROLLBACK` calls, so their outcomes are ignored.
   */
  function ExecuteBatch<E>(statements: seq<string>, bodyError: Option<E>): BatchRun<E> {
    var body := Join(statements, "; ");
    match bodyError
    case None => BatchRun(["BEGIN", body, "COMMIT"], Ok(()))
    case Some(e) => BatchRun(["BEGIN", body, "ROLLBACK"], Err(e))
  }

  /**
   The batch protocol: `BEGIN`, then the statements joined by `"; "` as one
   unit, then `COMMIT` exactly when the body succeeded and `ROLLBACK` exactly
   when it failed, in which case the body's error is the batch's error.
   */
  lemma BatchProtocol<E>(statements: seq<string>, bodyError: Option<E>)
    ensures var run := ExecuteBatch(statements, bodyError);
      && |run.issued| == 3
      && run.issued[0] == "BEGIN"
      && run.issued[1] == Join(statements, "; ")
      && (run.issued[2] == "COMMIT" <==> run.result.Ok?)
      && (run.issued[2] == "ROLLBACK" <==> run.result.Err?)
      && (run.result.Err? <==> bodyError.Some?)
      && (run.result.Err? ==> run.result.error == bodyError.value)
  {
  }

  // ---------------------------------------------------------------------------
  // recordExists

  /** `recordExists`, given the outcome of its select: rows found, or any error swallowed into `false`. */
  function RecordExists<E>(selected: Result<seq<Row>, E>): bool {
    match selected
    case Ok(rows) => |rows| > 0
    case Err(_) => false
  }

  /** A record exists exactly when the select succeeded with at least one row. */
  lemma RecordExistsMeaning<E>(selected: Result<seq<Row>, E>)
    ensures RecordExists(selected) <==> selected.Ok? && |selected.value| > 0
  {
  }

  /** A failed select is indistinguishable from one that matched no row. */
  lemma RecordExistsSwallowsErrors<E>(e: E)
    ensures RecordExists<E>(Err(e)) == RecordExists<E>(Ok([])) == false
  {
  }
}
