/** The abstract dynamic loader of the host (open a library, resolve a
    symbol, close a library), whose answers come from a `Host` value, with
    ghost records of every open attempt and of every handle still open or
    already released. */
module Platform {
  import opened LoaderTypes

  /** One successful open of a library: the resource an owning handle holds. */
  class LibHandle {
    const library: string

    constructor (library: string)
      ensures this.library == library
    {
      this.library := library;
    }
  }

  class Loader {
    /** The loader's answers; a library installed later shows up here. */
    var host: Host
    /** Every library name passed to open, in call order. */
    ghost var attempts: seq<string>
    /** The handles opened and not yet released. */
    ghost var live: set<LibHandle>
    /** The handles released, in release order. */
    ghost var released: seq<LibHandle>

    /** No handle is released twice, and a released handle is no longer open. */
    ghost predicate Valid()
      reads this
    {
      && (forall i, j :: 0 <= i < j < |released| ==> released[i] != released[j])
      && (forall i :: 0 <= i < |released| ==> released[i] !in live)
    }

    constructor (host: Host)
      ensures Valid()
      ensures this.host == host && attempts == [] && live == {} && released == []
    {
      this.host := host;
      attempts := [];
      live := {};
      released := [];
    }

    /** Opens the library `name`; null when it cannot be opened. Every success
        yields a handle of its own, even for a name opened before. */
    method Open(name: string) returns (h: LibHandle?)
      requires Valid()
      modifies this
      ensures Valid()
      ensures host == old(host) && released == old(released)
      ensures attempts == old(attempts) + [name]
      ensures h != null <==> name in host.loadable
      ensures h != null ==> fresh(h) && h.library == name && live == old(live) + {h}
      ensures h == null ==> live == old(live)
    {
      if name in host.loadable {
        h := new LibHandle(name);
        live := live + {h};
      } else {
        h := null;
      }
      attempts := attempts + [name];
    }

    /** Resolves `symbol` in the open library `h` and reads the table there. */
    method Symbol(h: LibHandle, symbol: string) returns (t: Option<Table>)
      requires h in live
      ensures t.Some? <==> (h.library, symbol) in host.exports
      ensures t.Some? ==> t.value == host.exports[(h.library, symbol)]
    {
      t := SymbolOf(host, h.library, symbol);
    }

    /** Releases the open handle `h`; a handle that is not open cannot be
        released, so no handle is released twice. */
    method Close(h: LibHandle)
      requires Valid() && h in live
      modifies this
      ensures Valid()
      ensures host == old(host) && attempts == old(attempts)
      ensures live == old(live) - {h} && released == old(released) + [h]
    {
      live := live - {h};
      released := released + [h];
    }
  }
}
