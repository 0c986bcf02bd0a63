/**
 * `EvtCache`: a store of providers keyed by name, in which the first
 * provider added under a name stays until it is removed.
 */
module MetadataCache {
  import opened Wrappers
  import opened Provider

  /** The outcome of an I/O step the cache depends on. */
  datatype IoError = NotFound | InvalidCacheData | OtherIo(code: int)

  /**
   * What opening the cache file gave: its parsed contents (None when they do
   * not parse as a provider map), or the error `File::open` reported.
   */
  datatype FileOpen = Opened(parsed: Option<map<string, EvtProvider>>) | OpenFailed(error: IoError)

  /** Every entry is stored under its provider's own name. */
  predicate KeyedByName(data: map<string, EvtProvider>) {
    forall n :: n in data ==> data[n].name == n
  }

  /** The map after adding `p`: unchanged when the name is taken, else one new entry. */
  function Added(data: map<string, EvtProvider>, p: EvtProvider): map<string, EvtProvider> {
    if p.name in data then data else data[p.name := p]
  }

  /** The map after removing `name`. */
  function Removed(data: map<string, EvtProvider>, name: string): map<string, EvtProvider> {
    data - {name}
  }

  /** `get_provider` on a map. */
  function Lookup(data: map<string, EvtProvider>, name: string): Option<EvtProvider> {
    if name in data then Some(data[name]) else None
  }

  class EvtCache {
    var path: string
    var data: map<string, EvtProvider>

    constructor (path: string, data: map<string, EvtProvider>)
      ensures this.path == path && this.data == data
    {
      this.path := path;
      this.data := data;
    }

    /**
     * `EvtCache::new`: the parsed file contents, an error for unparsable
     * contents, an empty cache when the file is missing and can be created,
     * and the I/O error otherwise.
     */
    static method Open(path: string, openOutcome: FileOpen, create: Result<(), IoError>) returns (r: Result<EvtCache, IoError>)
      ensures openOutcome.Opened? && openOutcome.parsed.Some? ==> r.Ok? && fresh(r.value) && r.value.path == path && r.value.data == openOutcome.parsed.value
      ensures openOutcome.Opened? && openOutcome.parsed.None? ==> r == Err(InvalidCacheData)
      ensures openOutcome == OpenFailed(NotFound) ==>
                if create.Err? then r == Err(create.error)
                else r.Ok? && fresh(r.value) && r.value.path == path && r.value.data == map[]
                     && KeyedByName(r.value.data) && forall n :: !r.value.ProviderExists(n)
      ensures openOutcome.OpenFailed? && openOutcome.error != NotFound ==> r == Err(openOutcome.error)
    {
      match openOutcome {
        case Opened(parsed) =>
          if parsed.None? {
            return Err(InvalidCacheData);
          }
          var cache := new EvtCache(path, parsed.value);
          return Ok(cache);
        case OpenFailed(error) =>
          if error != NotFound {
            return Err(error);
          }
          if create.Err? {
            return Err(create.error);
          }
          var cache := new EvtCache(path, map[]);
          return Ok(cache);
      }
    }

    /** `add_provider`: inserts only when no provider of that name is stored. */
    method AddProvider(provider: EvtProvider)
      modifies this
      ensures data == Added(old(data), provider) && path == old(path)
      ensures old(KeyedByName(data)) ==> KeyedByName(data)
    {
      var providerName := provider.name;
      if providerName !in data {
        data := data[providerName := provider];
      }
    }

    function GetProvider(name: string): (r: Option<EvtProvider>)
      reads this
      ensures r.Some? <==> ProviderExists(name)
      ensures r.Some? ==> r.value == data[name]
    {
      Lookup(data, name)
    }

    /** `remove_provider`: drops the entry, if any. */
    method RemoveProvider(name: string)
      modifies this
      ensures data == Removed(old(data), name) && path == old(path)
      ensures old(KeyedByName(data)) ==> KeyedByName(data)
    {
      data := data - {name};
    }

    predicate ProviderExists(name: string)
      reads this
    {
      name in data
    }

    /** `get_all_providers`: every key once, in the map's (unspecified) iteration order. */
    method GetAllProviders() returns (names: seq<string>)
      ensures forall i, j :: 0 <= i < j < |names| ==> names[i] != names[j]
      ensures forall n :: n in names <==> n in data
    {
      names := [];
      var remaining := data.Keys;
      while remaining != {}
        invariant remaining <= data.Keys
        invariant forall n :: n in names <==> n in data && n !in remaining
        invariant forall i, j :: 0 <= i < j < |names| ==> names[i] != names[j]
        decreases remaining
      {
        var n :| n in remaining;
        names := names + [n];
        remaining := remaining - {n};
      }
    }

    /**
     * `get_data`: the map `get_provider` and `provider_exists` answer from,
     * so it holds a name exactly when the cache reports it present, with the
     * provider `get_provider` gives.
     */
    function GetData(): (r: map<string, EvtProvider>)
      reads this
      ensures r == data
      ensures forall n :: n in r <==> ProviderExists(n)
      ensures forall n :: n in r ==> GetProvider(n) == Some(r[n])
      ensures KeyedByName(data) ==> KeyedByName(r)
    {
      data
    }
  }

  /** Adding never replaces a stored provider; it inserts under the provider's name only when absent. */
  lemma AddedFirstWriteWins(data: map<string, EvtProvider>, p: EvtProvider)
    ensures p.name in data ==> Added(data, p) == data
    ensures p.name !in data ==> Added(data, p)[p.name] == p
    ensures forall n :: n != p.name ==> Lookup(Added(data, p), n) == Lookup(data, n)
    ensures Lookup(Added(data, p), p.name).Some?
  {
  }

  /** Adding keeps every entry keyed by its own provider name. */
  lemma AddedKeepsKeyedByName(data: map<string, EvtProvider>, p: EvtProvider)
    requires KeyedByName(data)
    ensures KeyedByName(Added(data, p))
  {
  }

  /** Removing makes the name absent and leaves every other entry as it was. */
  lemma RemovedExactly(data: map<string, EvtProvider>, name: string)
    ensures Lookup(Removed(data, name), name) == None
    ensures forall n :: n != name ==> Lookup(Removed(data, name), n) == Lookup(data, n)
    ensures KeyedByName(data) ==> KeyedByName(Removed(data, name))
  {
  }

  /**
   * A cache started on a missing file that then gets one provider holds
   * exactly that provider, under its name.
   */
  method MissingFileThenAdd(path: string, p: EvtProvider) returns (cache: EvtCache)
    ensures cache.path == path
    ensures cache.GetData() == map[p.name := p]
    ensures cache.GetProvider(p.name) == Some(p)
    ensures KeyedByName(cache.data)
  {
    var outcome := EvtCache.Open(path, OpenFailed(NotFound), Ok(()));
    cache := outcome.value;
    cache.AddProvider(p);
  }
}
