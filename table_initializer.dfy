/** The per-domain, per-device memoising cache of backend function tables:
    `operator[]`, `add_table`, the `tables` and `handles` maps, and the release
    of every owned handle when the cache is destroyed. */
module FunctionTableInitializer {
  import opened LoaderTypes
  import opened CacheSpec
  import opened Platform

  class TableInitializer {
    /** This domain's candidate library names per device kind. */
    const libraries: map<Device, seq<string>>
    /** The name of the exported table symbol for this domain. */
    const tableName: string
    /** Whether the build enables a backend for the generic device. */
    const genericSupported: bool
    /** The host's dynamic loader. */
    const os: Loader

    var tables: map<Device, Table>
    var handles: map<Device, LibHandle>

    function Cfg(): Config
    {
      Config(libraries, tableName, genericSupported)
    }

    /** The cache invariant: both maps have the same keys, every cached table
        was validated, every stored handle is open, came from the key's
        candidate list, and belongs to one key only. */
    ghost predicate Valid()
      reads this, os
    {
      && os.Valid()
      && tables.Keys == handles.Keys
      && AllValidated(tables)
      && (forall k :: k in handles ==> handles[k] in os.live)
      && (forall k :: k in handles ==> handles[k].library in Candidates(Cfg(), k))
      && Injective(handles)
    }

    constructor (libraries: map<Device, seq<string>>, tableName: string, genericSupported: bool, os: Loader)
      requires os.Valid()
      ensures Valid()
      ensures this.libraries == libraries && this.tableName == tableName
      ensures this.genericSupported == genericSupported && this.os == os
      ensures tables == map[] && handles == map[]
    {
      this.libraries := libraries;
      this.tableName := tableName;
      this.genericSupported := genericSupported;
      this.os := os;
      tables := map[];
      handles := map[];
    }

    /** `operator[]`: the cached table for `key`, loading it on a miss. The
        queue plays no part in the lookup. */
    method Lookup(key: Device, q: Queue) returns (r: Result<Table>)
      requires Valid()
      modifies this, os
      ensures Valid()
      ensures (r, tables) == CacheSpec.Lookup(old(tables), Cfg(), old(os.host), key, q)
      ensures os.host == old(os.host)
      ensures key in old(tables) ==>
        && handles == old(handles)
        && os.attempts == old(os.attempts) && os.live == old(os.live) && os.released == old(os.released)
      ensures key !in old(tables) ==> HandledMiss(key, r)
    {
      if key in tables {
        return Ok(tables[key]);
      }
      r := AddTable(key, q);
    }

    /** What a miss does to the loader and to `handles`: the candidates are
        tried in order up to the first that opens; on success the handle of
        that first candidate, the library the table was read from, is stored
        under `key` alone and nothing else changes; on failure
        `handles` is unchanged and the handle opened, if any, was released. */
    twostate predicate HandledMiss(key: Device, r: Result<Table>)
      reads this, os
    {
      var cands := Candidates(Cfg(), key);
      var n := |old(os.released)|;
      && os.attempts == old(os.attempts) + Attempted(cands, old(os.host).loadable)
      && (r.Ok? ==>
        && key in handles && fresh(handles[key])
        && handles == old(handles)[key := handles[key]]
        && FirstOpenable(cands, old(os.host).loadable).Some?
        && handles[key].library == cands[FirstOpenable(cands, old(os.host).loadable).value]
        && os.live == old(os.live) + {handles[key]}
        && os.released == old(os.released))
      && (r.Err? ==>
        && handles == old(handles)
        && os.live == old(os.live)
        && (NoneOpens(cands, old(os.host).loadable) ==> os.released == old(os.released))
        && (!NoneOpens(cands, old(os.host).loadable) ==>
          && |os.released| == n + 1 && os.released[..n] == old(os.released)
          && fresh(os.released[n])))
    }

    /** The candidate search of `add_table`: open the candidates in list
        order and stop at the first that opens. */
    method OpenFirstCandidate(key: Device) returns (handle: LibHandle?, ghost i: int)
      requires os.Valid()
      modifies os
      ensures os.Valid()
      ensures os.host == old(os.host) && os.released == old(os.released)
      ensures os.attempts == old(os.attempts) + Attempted(Candidates(Cfg(), key), os.host.loadable)
      ensures handle == null <==> NoneOpens(Candidates(Cfg(), key), os.host.loadable)
      ensures handle == null ==> os.live == old(os.live)
      ensures handle != null ==>
        && FirstOpensAt(Candidates(Cfg(), key), os.host.loadable, i)
        && fresh(handle) && handle.library == Candidates(Cfg(), key)[i]
        && os.live == old(os.live) + {handle}
    {
      var cands := Candidates(Cfg(), key);
      handle := null;
      var n := 0;
      while n < |cands|
        invariant 0 <= n <= |cands|
        invariant handle == null
        invariant forall j :: 0 <= j < n ==> cands[j] !in os.host.loadable
        invariant os.attempts == old(os.attempts) + cands[..n]
        invariant os.host == old(os.host) && os.live == old(os.live) && os.released == old(os.released)
        invariant os.Valid()
      {
        handle := os.Open(cands[n]);
        if handle != null {
          break;
        }
        n := n + 1;
      }
      i := n;
      if handle == null {
        assert cands[..n] == cands;
      } else {
        assert FirstOpensAt(cands, os.host.loadable, n);
        var r := FirstOpenable(cands, os.host.loadable);
        FirstOpensAtUnique(cands, os.host.loadable, n, r.value);
      }
    }

    /** `add_table`: search the candidates, resolve and check the table, and
        only then store the handle and the table together. */
    method AddTable(key: Device, q: Queue) returns (r: Result<Table>)
      requires Valid() && key !in tables
      modifies this, os
      ensures Valid()
      ensures r == Load(Cfg(), old(os.host), key, q)
      ensures tables == if r.Ok? then old(tables)[key := r.value] else old(tables)
      ensures os.host == old(os.host)
      ensures HandledMiss(key, r)
    {
      var handle;
      ghost var i;
      handle, i := OpenFirstCandidate(key);
      if handle == null {
        LoadWhenNoneOpens(Cfg(), os.host, key, q);
        if !genericSupported && key == GenericDevice {
          r := Err(UnsupportedDevice(q));
        } else {
          r := Err(BackendNotFound);
        }
        return;
      }
      LoadWhenOpens(Cfg(), os.host, key, q, i);
      var t := os.Symbol(handle, tableName);
      if t.None? {
        os.Close(handle);
        r := Err(FunctionNotFound);
        return;
      }
      if t.value.version != SPEC_VERSION {
        os.Close(handle);
        r := Err(SpecificationMismatch);
        return;
      }
      handles := handles[key := handle];
      tables := tables[key := t.value];
      r := Ok(t.value);
    }

    /** The destructor: `handles` is destroyed before `tables`, releasing every
        owned handle exactly once; the cache ends empty. */
    method Destroy()
      requires Valid()
      modifies this, os
      ensures Valid()
      ensures tables == map[] && handles == map[]
      ensures os.host == old(os.host) && os.attempts == old(os.attempts)
      ensures os.live == old(os.live) - old(handles.Values)
      ensures |os.released| >= |old(os.released)|
      ensures os.released[..|old(os.released)|] == old(os.released)
      ensures forall h :: h in os.released[|old(os.released)|..] <==> h in old(handles.Values)
    {
      ghost var n := |os.released|;
      ghost var owned := handles.Values;
      ghost var closed: set<LibHandle> := {};
      while handles != map[]
        invariant os.Valid()
        invariant Injective(handles)
        invariant handles.Values <= os.live
        invariant closed !! handles.Values && closed + handles.Values == owned
        invariant os.host == old(os.host) && os.attempts == old(os.attempts)
        invariant os.live == old(os.live) - closed
        invariant |os.released| >= n && os.released[..n] == old(os.released)
        invariant forall h :: h in os.released[n..] <==> h in closed
        decreases handles.Keys
      {
        var k :| k in handles;
        var h := handles[k];
        RemoveOwner(handles, k);
        ghost var before := os.released;
        os.Close(h);
        handles := handles - {k};
        closed := closed + {h};
        assert os.released[n..] == before[n..] + [h];
      }
      tables := map[];
    }
  }

  /** No handle is owned by two device kinds. */
  ghost predicate Injective(m: map<Device, LibHandle>)
  {
    forall k1, k2 :: k1 in m && k2 in m && k1 != k2 ==> m[k1] != m[k2]
  }

  /** Dropping one key of a map that shares no value drops exactly its value. */
  lemma RemoveOwner(m: map<Device, LibHandle>, k: Device)
    requires Injective(m) && k in m
    ensures Injective(m - {k})
    ensures (m - {k}).Values == m.Values - {m[k]}
  {
    var m' := m - {k};
    forall h | h in m.Values - {m[k]}
      ensures h in m'.Values
    {
      var k' :| k' in m && m[k'] == h;
      assert k' in m';
    }
  }
}
