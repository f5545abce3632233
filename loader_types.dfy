/** Values shared by the loader model and the table cache: device kinds,
    function tables, the errors `add_table` raises, and what the host's
    dynamic loader can see. */
module LoaderTypes {

  /** The specification version every accepted function table must carry. */
  const SPEC_VERSION: int := 1

  /** A device kind, the cache key. The cache singles out only the generic
      device; every other kind is known by its identity alone. */
  datatype Device = GenericDevice | Specific(id: nat)

  /** The queue handed in beside the device kind. The cache never inspects it;
      it only travels into the unsupported-device error as diagnostic context. */
  datatype Queue = Queue(device: nat)

  /** A domain's function table: the leading version number, then the entry
      points (opaque here). */
  datatype Table = Table(version: int, entryPoints: seq<nat>)

  /** The four exceptions a lookup can raise. */
  datatype LoadError =
    | BackendNotFound
    | UnsupportedDevice(context: Queue)
    | FunctionNotFound
    | SpecificationMismatch

  datatype Option<T> = None | Some(value: T)

  datatype Result<T> = Ok(value: T) | Err(error: LoadError)

  /** What the host's dynamic loader answers: the library names that open, and
      the table a library exports under a given symbol name. */
  datatype Host = Host(loadable: set<string>, exports: map<(string, string), Table>)

  /** The symbol lookup in `library` for `symbol`; None when it does not resolve. */
  function SymbolOf(host: Host, library: string, symbol: string): Option<Table>
  {
    if (library, symbol) in host.exports then Some(host.exports[(library, symbol)]) else None
  }
}
