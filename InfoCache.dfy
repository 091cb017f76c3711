/** The module-level snapshot of `getInfo`: the first call builds the box
    information and keeps it; later calls return the kept snapshot unless the
    caller asks for full information, which rebuilds and replaces it. */
module InfoCache {
  import opened Wrappers

  class BoxInfoCache<T> {
    /** The kept snapshot, `None` until the first build. */
    var cached: Option<T>

    constructor ()
      ensures cached == None
    {
      cached := None;
    }

    /** `getInfo(need_fullinfo)`, with `build` standing for the collection of
        a new snapshot from the receiver. */
    method GetInfo(needFullInfo: bool, build: () -> T) returns (info: T)
      modifies this
      ensures old(cached).Some? && !needFullInfo ==> info == old(cached).value
      ensures old(cached).None? || needFullInfo ==> info == build()
      ensures cached == Some(info)
    {
      if cached.Some? && !needFullInfo {
        return cached.value;
      }
      info := build();
      cached := Some(info);
    }
  }

  /** A second plain call returns the snapshot of the first one, whatever the
      builder would now produce, and a call for full information replaces it. */
  method CacheExample<T>(first: () -> T, second: () -> T, third: () -> T)
    returns (a: T, b: T, c: T, d: T)
    ensures a == first() && b == first()
    ensures c == third() && d == third()
  {
    var cache := new BoxInfoCache<T>();
    a := cache.GetInfo(false, first);
    b := cache.GetInfo(false, second);
    c := cache.GetInfo(true, third);
    d := cache.GetInfo(false, second);
  }
}
