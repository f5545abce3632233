# A verified model of oneMKL's backend function-table cache

`table_initializer` (src/include/function_table_initializer.hpp) is a
write-once, per-device memoising cache of backend function tables, one
instance per domain. `operator[]` looks the device kind up in `tables`; on a
miss, `add_table` opens the domain's candidate libraries for that device in
list order and stops at the first that opens. It then resolves the domain's
table symbol and checks the table's version against `SPEC_VERSION`. Only
then does it store the library handle in `handles` and a copy of the table
in `tables`. Any failure raises one of four errors, releases the handle that
was opened, and caches nothing.

The model has five modules:

- `LoaderTypes` (loader_types.dfy): device kinds, queues, function tables,
  the four errors, and `Host`, which says what the dynamic loader answers.
- `Platform` (platform.dfy): the abstract dynamic loader, a class whose answers
  come from a `Host`. `Open`, `Symbol` and `Close` stand for
  `dlopen`/`LoadLibrary`, `dlsym`/`GetProcAddress` and
  `dlclose`/`FreeLibrary`. `LibHandle` is one successful open, the resource
  a `dlhandle` owns. Ghost fields record every open attempt (`attempts`),
  the handles still open (`live`) and the handles released (`released`).
  `Valid()` says that no handle is released twice.
- `CacheSpec` (cache_spec.dfy): the cache's behaviour as functions on values.
  - `FirstOpenable` and `Attempted` give the candidate search.
  - `Load` gives the outcome of `add_table`.
  - `Lookup` gives one `operator[]` call.
  - `Replay` gives a run of calls.
  - The lemmas state cache hits, candidate order, error classification,
    write-once entries, that failures are not cached, and at most one
    successful load per device kind.
- `FunctionTableInitializer` (table_initializer.dfy): the class
  `TableInitializer`, with the `tables` and `handles` maps as fields.
  - `Lookup` is `operator[]`. `AddTable` is `add_table`.
    `OpenFirstCandidate` is its `for` loop with the `break`. `Destroy` is
    the implicit destructor.
  - `Lookup`, `AddTable` and `OpenFirstCandidate` are proved against
    `CacheSpec`. Their contracts also say what happens to the loader's
    handles: on success the stored handle is that of the first candidate
    that opens, the library the table was read from. `Destroy` and the
    constructor are specified by the state they leave.
  - `Valid()` holds these invariants: `tables` and `handles` have the same
    keys; every cached table has version `SPEC_VERSION`; every stored handle
    is open, came from its key's candidate list, and belongs to exactly one
    key.
- `ClientScenarios` (client_scenarios.dfy): callers that rely only on the
  contracts above. Examples: the list [A, B, C] where only B opens; a
  missing symbol, then a retry; the two errors for the generic device.

The inputs the cache takes from outside are constructor parameters:
- the domain's row of the `libraries` backends table;
- the `table_names` symbol for the domain;
- `is_generic_device_supported`, which the build's backend flags decide;
- the loader.

## Model

| member | source | states |
|---|---|---|
| Platform.Loader.Open | src/include/function_table_initializer.hpp:34 | opening a name is logged as an attempt; it succeeds exactly when the library is loadable, and each success is a fresh open handle |
| Platform.Loader.Symbol | src/include/function_table_initializer.hpp:116-117 | resolving the table symbol in an open library yields the table that library exports under that name, or nothing when it is absent |
| Platform.Loader.Close | src/include/function_table_initializer.hpp:53-59 | the deleter releases an open handle once: it leaves the live set and joins the released log, and a handle not open cannot be released |
| CacheSpec.FirstOpenable | src/include/function_table_initializer.hpp:102-106 | the search result is the index of a candidate that opens with none opening before it, or none when no candidate opens |
| CacheSpec.SearchStopsAtFirstOpen | src/include/function_table_initializer.hpp:102-106 | candidates are tried in list order, the last one tried is the only one that opened, no later candidate is tried, and all are tried when none opens |
| CacheSpec.LoadWhenNoneOpens | src/include/function_table_initializer.hpp:107-115 | when no candidate opens, including an empty list, the generic device without a generic backend is unsupported_device and every other case is backend_not_found |
| CacheSpec.LoadWhenOpens | src/include/function_table_initializer.hpp:116-124 | once the first candidate opens, a missing symbol is function_not_found, else a version other than SPEC_VERSION is specification_mismatch, else the result is that library's table |
| CacheSpec.LoadedTableIsValidated | src/include/function_table_initializer.hpp:123-128 | a loaded table has version SPEC_VERSION and is the one the first library that opens exports under the table symbol |
| CacheSpec.LookupHit | src/include/function_table_initializer.hpp:62-66 | a cached key returns its stored table and changes nothing, whatever the queue and whatever the loader would now answer |
| CacheSpec.LookupWriteOnce | src/include/function_table_initializer.hpp:126-127 | a lookup never replaces or removes an entry and adds at most the looked-up key |
| CacheSpec.LookupFailureNotCached | src/include/function_table_initializer.hpp:63-66 | a failed lookup was a miss and leaves the cache unchanged, so the key stays absent and the next lookup searches again |
| CacheSpec.LookupIdempotent | src/include/function_table_initializer.hpp:62-66 | after a successful lookup the key holds the returned table, and a second lookup with any queue returns the same table and changes nothing |
| CacheSpec.LookupKeepsValidated | src/include/function_table_initializer.hpp:123-127 | if every cached table has version SPEC_VERSION, this still holds after a lookup, and a returned table has that version |
| CacheSpec.ReplayLoadsEachKeyOnce | src/include/function_table_initializer.hpp:62-66 | over any run of lookups, each device kind is loaded successfully at most once and only if it was not cached at the start; loaded kinds stay cached; initial entries are never replaced; all cached tables stay validated |
| FunctionTableInitializer.TableInitializer.constructor | src/include/function_table_initializer.hpp:131-132 | a new cache has empty tables and handles and satisfies the cache invariant |
| FunctionTableInitializer.TableInitializer.Lookup | src/include/function_table_initializer.hpp:62-66 | the result and the new tables are those of CacheSpec.Lookup; a hit touches neither handles nor the loader; a miss behaves as AddTable, storing on success the handle of the first candidate that opens |
| FunctionTableInitializer.TableInitializer.OpenFirstCandidate | src/include/function_table_initializer.hpp:100-106 | the loader sees exactly the attempted prefix of the candidates; the handle is null iff no candidate opens, else it is a fresh open handle of the first candidate that opens |
| FunctionTableInitializer.TableInitializer.AddTable | src/include/function_table_initializer.hpp:99-129 | the result is CacheSpec.Load; only on success are the handle and the table stored, under the key alone, and the stored handle is that of the first candidate that opens; on failure both maps and the live handles are unchanged and the opened handle, if any, was released once |
| FunctionTableInitializer.TableInitializer.Destroy | src/include/function_table_initializer.hpp:53-59 | teardown releases every owned handle exactly once, leaves all other handles open, and empties both maps |

## Left out

- The platform loader macros (`dlopen`/`dlsym`/`dlclose`, `LoadLibrary`/`GetProcAddress`/`FreeLibrary`) are foreign OS calls. `Platform.Loader` replaces them with a `Host` value that says which names open and which tables they export. The `RTLD_LAZY | RTLD_GLOBAL` flags and the loader's reference counting are not modelled. Each successful open is its own handle.
- `GetLastErrorStdStr` and the `std::cerr` printing of `ERROR_MSG` before `backend_not_found` and `function_not_found` are Windows buffer handling and I/O. The errors carry no message.
- The `reinterpret_cast` of the symbol address is memory reinterpretation. A symbol lookup directly yields an optional `Table`, whose entry points are opaque numbers.
- The queue is opaque. Its only role is to be carried into `UnsupportedDevice` as diagnostic context, as `q.get_device()` is in the source.
- `libraries` and `table_names` are defined in oneapi/math/detail/backends_table.hpp, which is not part of this model. They enter as constructor parameters. A device kind missing from the domain's row is taken to have no candidates, which is what `std::map::operator[]` yields for a missing key.
- The device enumeration is reduced to the generic device and numbered specific kinds. The cache distinguishes only the generic device.
- FunctionTableInitializer.TableInitializer.Lookup: returns the table's contents, not a reference. So the difference between the first call (a reference to the library's table) and later calls (a reference to the map's copy) is not captured.
- Concurrency is not modelled. The component's design asks that concurrent lookups be safe and that concurrent misses for one device kind load it only once. The source takes no lock and keeps plain `std::map`s. The model is sequential, like the code.
- Destruction order: the source declares `handles` after `tables`, so its implicit destructor releases the handles before the table copies are destroyed. The component's design asks for the opposite order, each table before the handle that backs it. The model follows the code: `Destroy` releases the handles and then empties `tables`. The table copies have trivial destructors, so the order has no observable effect.
- The loader's answers are held in `Loader.host`. A caller may change them between lookups to model a library installed later. `Platform.Loader` has no operation for this, because the source has none.
