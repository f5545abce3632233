/** The behaviour of one `table_initializer` as functions on values: the
    candidate search, the outcome of loading a table for a device kind, one
    cache lookup, and a run of lookups. The class in module
    FunctionTableInitializer is proved against these. */
module CacheSpec {
  import opened LoaderTypes

  /** What one cache instance is built for: the candidate library names per
      device kind (its domain's row of the backends table), the name of the
      exported table symbol, and whether the build enables a generic backend. */
  datatype Config = Config(
    libraries: map<Device, seq<string>>,
    tableName: string,
    genericSupported: bool)

  /** The candidate list for `key`; a device kind absent from the backends
      table has no candidates. */
  function Candidates(cfg: Config, key: Device): seq<string>
  {
    if key in cfg.libraries then cfg.libraries[key] else []
  }

  /** No candidate opens. */
  predicate NoneOpens(cands: seq<string>, loadable: set<string>)
  {
    forall j :: 0 <= j < |cands| ==> cands[j] !in loadable
  }

  /** Candidate `i` opens and none before it does. */
  predicate FirstOpensAt(cands: seq<string>, loadable: set<string>, i: int)
  {
    && 0 <= i < |cands|
    && cands[i] in loadable
    && forall j :: 0 <= j < i ==> cands[j] !in loadable
  }

  lemma FirstOpensAtUnique(cands: seq<string>, loadable: set<string>, i: int, k: int)
    requires FirstOpensAt(cands, loadable, i) && FirstOpensAt(cands, loadable, k)
    ensures i == k
  {
  }

  /** The index of the candidate the search stops at, if any. */
  function FirstOpenable(cands: seq<string>, loadable: set<string>): (r: Option<nat>)
    ensures r.None? ==> NoneOpens(cands, loadable)
    ensures r.Some? ==> FirstOpensAt(cands, loadable, r.value)
    decreases |cands|
  {
    if cands == [] then None
    else if cands[0] in loadable then Some(0)
    else
      match FirstOpenable(cands[1..], loadable)
      case None => None
      case Some(i) => Some(i + 1)
  }

  /** The library names the search passes to the loader, in order. */
  function Attempted(cands: seq<string>, loadable: set<string>): seq<string>
  {
    match FirstOpenable(cands, loadable)
    case None => cands
    case Some(i) => cands[..i + 1]
  }

  /** The search tries the candidates in list order, never tries one after the
      first that opens, and tries them all when none opens. */
  lemma SearchStopsAtFirstOpen(cands: seq<string>, loadable: set<string>)
    ensures var tried := Attempted(cands, loadable);
      && tried <= cands
      && (forall j :: 0 <= j < |tried| - 1 ==> tried[j] !in loadable)
      && (NoneOpens(cands, loadable) <==> tried == cands && (tried == [] || tried[|tried| - 1] !in loadable))
      && (!NoneOpens(cands, loadable) <==> tried != [] && tried[|tried| - 1] in loadable)
  {
  }

  /** The error raised when no candidate opens. */
  function NoBackendError(cfg: Config, key: Device, q: Queue): LoadError
  {
    if !cfg.genericSupported && key == GenericDevice then UnsupportedDevice(q) else BackendNotFound
  }

  /** The outcome of `add_table`: search, resolve the table symbol, check the
      version. */
  function Load(cfg: Config, host: Host, key: Device, q: Queue): Result<Table>
  {
    var cands := Candidates(cfg, key);
    match FirstOpenable(cands, host.loadable)
    case None => Err(NoBackendError(cfg, key, q))
    case Some(i) =>
      match SymbolOf(host, cands[i], cfg.tableName)
      case None => Err(FunctionNotFound)
      case Some(t) => if t.version != SPEC_VERSION then Err(SpecificationMismatch) else Ok(t)
  }

  /** When no candidate opens, including an empty list, the generic device in
      a build without a generic backend is unsupported, and every other case
      has no backend; the symbol table is never consulted. */
  lemma LoadWhenNoneOpens(cfg: Config, host: Host, key: Device, q: Queue)
    requires NoneOpens(Candidates(cfg, key), host.loadable)
    ensures Load(cfg, host, key, q) ==
      if key == GenericDevice && !cfg.genericSupported then Err(UnsupportedDevice(q)) else Err(BackendNotFound)
  {
  }

  /** When candidate `i` is the first that opens, the outcome depends only on
      the table that library exports: a missing symbol, then a wrong version,
      are errors; otherwise that very table is the result. */
  lemma LoadWhenOpens(cfg: Config, host: Host, key: Device, q: Queue, i: int)
    requires FirstOpensAt(Candidates(cfg, key), host.loadable, i)
    ensures var cands := Candidates(cfg, key);
      Load(cfg, host, key, q) ==
        if (cands[i], cfg.tableName) !in host.exports then Err(FunctionNotFound)
        else if host.exports[(cands[i], cfg.tableName)].version != SPEC_VERSION then Err(SpecificationMismatch)
        else Ok(host.exports[(cands[i], cfg.tableName)])
  {
  }

  /** A loaded table always has the expected version, and it is the one the
      first library that opens exports under the table symbol. */
  lemma LoadedTableIsValidated(cfg: Config, host: Host, key: Device, q: Queue)
    requires Load(cfg, host, key, q).Ok?
    ensures Load(cfg, host, key, q).value.version == SPEC_VERSION
    ensures exists i ::
      && FirstOpensAt(Candidates(cfg, key), host.loadable, i)
      && (Candidates(cfg, key)[i], cfg.tableName) in host.exports
      && Load(cfg, host, key, q).value == host.exports[(Candidates(cfg, key)[i], cfg.tableName)]
  {
  }

  /** One `operator[]` call: a hit returns the cached table, a miss loads one
      and caches it only when loading succeeded. Returns the result and the
      cache afterwards. */
  function Lookup(cache: map<Device, Table>, cfg: Config, host: Host, key: Device, q: Queue)
    : (Result<Table>, map<Device, Table>)
  {
    if key in cache then (Ok(cache[key]), cache)
    else
      var r := Load(cfg, host, key, q);
      (r, if r.Ok? then cache[key := r.value] else cache)
  }

  /** A hit returns the stored table whatever the queue and whatever the
      loader would now answer, and changes nothing. */
  lemma LookupHit(cache: map<Device, Table>, cfg: Config, host: Host, key: Device, q: Queue)
    requires key in cache
    ensures forall host': Host, q': Queue ::
      Lookup(cache, cfg, host', key, q') == (Ok(cache[key]), cache)
  {
  }

  /** An entry is never replaced or removed, and at most the looked-up key is
      added. */
  lemma LookupWriteOnce(cache: map<Device, Table>, cfg: Config, host: Host, key: Device, q: Queue)
    ensures var after := Lookup(cache, cfg, host, key, q).1;
      && after.Keys <= cache.Keys + {key}
      && forall k :: k in cache ==> k in after && after[k] == cache[k]
  {
  }

  /** A failed lookup leaves the cache exactly as it was, so the key is still
      absent and the next lookup searches again. */
  lemma LookupFailureNotCached(cache: map<Device, Table>, cfg: Config, host: Host, key: Device, q: Queue)
    requires Lookup(cache, cfg, host, key, q).0.Err?
    ensures key !in cache
    ensures Lookup(cache, cfg, host, key, q).1 == cache
  {
  }

  /** A successful lookup leaves the returned table stored under the key, and
      a second lookup of that key, with any queue, returns the same table and
      changes nothing. */
  lemma LookupIdempotent(cache: map<Device, Table>, cfg: Config, host: Host, key: Device, q: Queue,
                         host': Host, q': Queue)
    requires Lookup(cache, cfg, host, key, q).0.Ok?
    ensures var (r, after) := Lookup(cache, cfg, host, key, q);
      && key in after && after[key] == r.value
      && Lookup(after, cfg, host', key, q') == (r, after)
  {
  }

  /** Every cached table carries the expected version. */
  ghost predicate AllValidated(cache: map<Device, Table>)
  {
    forall k :: k in cache ==> cache[k].version == SPEC_VERSION
  }

  lemma LookupKeepsValidated(cache: map<Device, Table>, cfg: Config, host: Host, key: Device, q: Queue)
    requires AllValidated(cache)
    ensures AllValidated(Lookup(cache, cfg, host, key, q).1)
    ensures Lookup(cache, cfg, host, key, q).0.Ok? ==> Lookup(cache, cfg, host, key, q).0.value.version == SPEC_VERSION
  {
  }

  /** One call to the cache: the device kind, the queue, and what the loader
      answers at the time of the call. */
  datatype Request = Request(key: Device, q: Queue, host: Host)

  /** A run of lookups from `cache`: the cache at the end, and the device kinds
      for which a load sequence ran and succeeded, in order. */
  function Replay(cache: map<Device, Table>, cfg: Config, reqs: seq<Request>)
    : (map<Device, Table>, seq<Device>)
    decreases |reqs|
  {
    if reqs == [] then (cache, [])
    else
      var req := reqs[0];
      var (r, next) := Lookup(cache, cfg, req.host, req.key, req.q);
      var (final, loads) := Replay(next, cfg, reqs[1..]);
      (final, if req.key !in cache && r.Ok? then [req.key] + loads else loads)
  }

  /** Over any run of lookups, each device kind is loaded successfully at most
      once, only if it was not cached at the start, and stays cached; entries
      present at the start are never replaced; and every cached table keeps
      the expected version. */
  lemma {:induction false} ReplayLoadsEachKeyOnce(cache: map<Device, Table>, cfg: Config, reqs: seq<Request>)
    requires AllValidated(cache)
    ensures var (final, loads) := Replay(cache, cfg, reqs);
      && (forall i, j :: 0 <= i < j < |loads| ==> loads[i] != loads[j])
      && (forall i :: 0 <= i < |loads| ==> loads[i] !in cache && loads[i] in final)
      && (forall k :: k in cache ==> k in final && final[k] == cache[k])
      && AllValidated(final)
    decreases |reqs|
  {
    if reqs != [] {
      var req := reqs[0];
      var (r, next) := Lookup(cache, cfg, req.host, req.key, req.q);
      LookupWriteOnce(cache, cfg, req.host, req.key, req.q);
      LookupKeepsValidated(cache, cfg, req.host, req.key, req.q);
      ReplayLoadsEachKeyOnce(next, cfg, reqs[1..]);
      var (final, rest) := Replay(next, cfg, reqs[1..]);
      if req.key !in cache && r.Ok? {
        assert req.key in next;
        var loads := [req.key] + rest;
        forall i, j | 0 <= i < j < |loads|
          ensures loads[i] != loads[j]
        {
          if i == 0 {
            assert loads[j] == rest[j - 1];
          } else {
            assert loads[i] == rest[i - 1] && loads[j] == rest[j - 1];
          }
        }
      }
    }
  }
}
