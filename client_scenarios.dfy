/** Callers of the cache that use nothing but the contracts of
    FunctionTableInitializer and Platform. */
module ClientScenarios {
  import opened LoaderTypes
  import opened CacheSpec
  import opened Platform
  import opened FunctionTableInitializer

  /** Candidates [A, B, C] where only B opens: A is tried before B, C is never
      tried, and a second lookup of the same device, through another queue,
      returns the same table without opening anything. */
  method FirstOpenWinsAndIsCached()
  {
    var dev := Specific(0);
    var good := Table(SPEC_VERSION, [7, 8]);
    var os := new Loader(Host({"B"}, map[("B", "table") := good]));
    var cache := new TableInitializer(map[dev := ["A", "B", "C"]], "table", false, os);
    SearchStopsAtFirstOpen(["A", "B", "C"], {"B"});
    assert FirstOpenable(["A", "B", "C"], {"B"}) == Some(1);
    var r1 := cache.Lookup(dev, Queue(1));
    assert os.attempts == ["A", "B"];
    assert r1 == Ok(good);
    assert cache.handles[dev].library == "B";
    var r2 := cache.Lookup(dev, Queue(2));
    assert r2 == r1;
    assert os.attempts == ["A", "B"];
  }

  /** A library that opens but lacks the table symbol: the lookup fails, its
      handle is released, nothing is cached, and a later lookup searches
      again and succeeds once the symbol is there. */
  method FailureIsReleasedAndRetried()
  {
    var dev := Specific(3);
    var good := Table(SPEC_VERSION, [1]);
    var os := new Loader(Host({"L"}, map[]));
    var cache := new TableInitializer(map[dev := ["L"]], "table", false, os);
    assert FirstOpenable(["L"], {"L"}) == Some(0);
    var r1 := cache.Lookup(dev, Queue(0));
    assert r1 == Err(FunctionNotFound);
    assert os.live == {} && |os.released| == 1;
    assert dev !in cache.tables;
    os.host := Host({"L"}, map[("L", "table") := good]);
    assert cache.Valid();
    var r2 := cache.Lookup(dev, Queue(0));
    assert r2 == Ok(good);
    assert os.attempts == ["L", "L"];
  }

  /** The generic device with no candidate that opens is unsupported in a build
      without a generic backend, and has no backend in one with it. */
  method GenericDeviceErrors()
  {
    var os := new Loader(Host({}, map[]));
    var without := new TableInitializer(map[], "table", false, os);
    var r1 := without.Lookup(GenericDevice, Queue(5));
    assert r1 == Err(UnsupportedDevice(Queue(5)));
    var with := new TableInitializer(map[GenericDevice := ["G"]], "table", true, os);
    var r2 := with.Lookup(GenericDevice, Queue(5));
    assert r2 == Err(BackendNotFound);
  }
}
