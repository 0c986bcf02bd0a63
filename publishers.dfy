/**
 * `enumerate_publishers`: every publisher the enumerator names is built
 * into a provider; those that fail to build are skipped, the rest gathered
 * into a set whose equality is by name, so a name already present keeps
 * its first provider. Running out of names ends the loop; any other error
 * from the enumerator is a panic.
 */
module Publishers {
  import opened Wrappers
  import opened WinTypes
  import opened WinApi
  import opened Provider

  /**
   * The `HashSet<EvtProvider>` of the result. Its elements hash and compare
   * by name only, so it is a map from each name to the one provider kept.
   */
  type ProviderSet = map<string, EvtProvider>

  const UNWRAP_ENUM: string := "unwrap on a failed publisher enumerator"
  const ENUMERATION_PANIC: string := "Problem enumerating local providers"

  /**
   * `results.insert(prv)`: an equal element already present stays and `prv`
   * is dropped; otherwise `prv` joins under its name.
   */
  function Insert(results: ProviderSet, prv: EvtProvider): (r: ProviderSet)
    ensures r.Keys == results.Keys + {prv.name}
    ensures forall n :: n in results ==> r[n] == results[n]
    ensures prv.name !in results ==> r[prv.name] == prv
  {
    if prv.name in results then results else results[prv.name := prv]
  }

  /** `evt_next_publisher_id` on the i-th call: the i-th name, then the error that ends the names. */
  function NextPublisherId(api: Api, i: nat): Result<string, WinError> {
    if i < |api.publisherIds| then Ok(api.publisherIds[i]) else Err(api.publisherIdsEnd)
  }

  /**
   * The set after the first k names: a provider that builds is inserted, a
   * Win32 failure is skipped, and a panic inside the build ends everything.
   */
  function Collected(api: Api, k: nat): Result<ProviderSet, Fault>
    requires k <= |api.publisherIds|
  {
    if k == 0 then Ok(map[])
    else
      var results :- Collected(api, k - 1);
      match Build(api, api.publisherIds[k - 1])
      case Ok(prv) => Ok(Insert(results, prv))
      case Err(Win(_)) => Ok(results)
      case Err(Panic(reason)) => Err(Panic(reason))
  }

  /** The outcome of `enumerate_publishers`. */
  function Publishers(api: Api): Result<ProviderSet, Fault> {
    if api.openPublisherEnum.Err? then Err(Panic(UNWRAP_ENUM))
    else
      var results :- Collected(api, |api.publisherIds|);
      if api.publisherIdsEnd.code == ERROR_NO_MORE_ITEMS then Ok(results)
      else Err(Panic(ENUMERATION_PANIC))
  }

  /** The providers as the set the rest of the program works on. */
  function Providers(results: ProviderSet): set<EvtProvider> {
    results.Values
  }

  /**
   * The loop of `enumerate_publishers`: ask for the next name until the
   * enumerator fails, building and inserting a provider for each name.
   */
  method EnumeratePublishers(api: Api) returns (r: Result<ProviderSet, Fault>)
    ensures r == Publishers(api)
  {
    if api.openPublisherEnum.Err? {
      return Err(Panic(UNWRAP_ENUM));
    }
    var results: ProviderSet := map[];
    var i := 0;
    while true
      invariant 0 <= i <= |api.publisherIds|
      invariant Collected(api, i) == Ok(results)
      decreases |api.publisherIds| - i
    {
      var next := NextPublisherId(api, i);
      if next.Err? {
        if next.error.code == ERROR_NO_MORE_ITEMS {
          break;
        }
        return Err(Panic(ENUMERATION_PANIC));
      }
      var prv := New(api, next.value);
      if prv.Ok? {
        results := Insert(results, prv.value);
      } else if prv.error.Panic? {
        CollectedFailureSticks(api, i + 1, |api.publisherIds|);
        return Err(prv.error);
      }
      i := i + 1;
    }
    return Ok(results);
  }

  // ----- properties -----

  /** A set whose every provider sits under its own name. */
  predicate KeyedByName(results: ProviderSet) {
    forall n :: n in results ==> results[n].name == n
  }

  /** Building the j-th name panics. */
  predicate PanicsAt(api: Api, j: nat)
    requires j < |api.publisherIds|
  {
    Build(api, api.publisherIds[j]).Err? && Build(api, api.publisherIds[j]).error.Panic?
  }

  /** Among the first k names, the j-th is the first whose build panics. */
  predicate FirstPanicAt(api: Api, k: nat, j: nat)
    requires k <= |api.publisherIds|
  {
    j < k && PanicsAt(api, j) && forall i: nat :: i < j ==> !PanicsAt(api, i)
  }

  /**
   * The set after k names fails exactly when some build among them panics,
   * and then with the first such panic.
   */
  lemma {:induction false} CollectedFails(api: Api, k: nat)
    requires k <= |api.publisherIds|
    ensures Collected(api, k).Err? <==> exists j: nat :: j < k && PanicsAt(api, j)
    ensures Collected(api, k).Err? ==>
              exists j: nat :: FirstPanicAt(api, k, j) && Collected(api, k).error == Build(api, api.publisherIds[j]).error
  {
    if k > 0 {
      CollectedFails(api, k - 1);
      if Collected(api, k - 1).Err? {
        var j: nat :| FirstPanicAt(api, k - 1, j) && Collected(api, k - 1).error == Build(api, api.publisherIds[j]).error;
        assert FirstPanicAt(api, k, j);
      } else if PanicsAt(api, k - 1) {
        assert FirstPanicAt(api, k, k - 1);
      }
    }
  }

  /**
   * When the set after k names is gathered, it holds exactly the names
   * among the first k that build, each under its name with the provider
   * built for it.
   */
  lemma {:induction false} CollectedContents(api: Api, k: nat)
    requires k <= |api.publisherIds|
    requires Collected(api, k).Ok?
    ensures KeyedByName(Collected(api, k).value)
    ensures forall n :: n in Collected(api, k).value <==> n in api.publisherIds[..k] && Build(api, n).Ok?
    ensures forall n :: n in Collected(api, k).value ==> Build(api, n) == Ok(Collected(api, k).value[n])
  {
    if k > 0 {
      CollectedContents(api, k - 1);
      var name := api.publisherIds[k - 1];
      BuildOutcome(api, name);
      assert api.publisherIds[..k] == api.publisherIds[..k - 1] + [name];
    }
  }

  /**
   * The publishers the enumeration gathers: a panic when the enumerator
   * cannot be opened, ends on an error other than "no more items", or a
   * build panics; otherwise every name that builds, once, with its provider.
   */
  lemma PublishersExactly(api: Api)
    ensures Publishers(api).Err? <==>
              || api.openPublisherEnum.Err?
              || (exists j: nat :: j < |api.publisherIds| && PanicsAt(api, j))
              || api.publisherIdsEnd.code != ERROR_NO_MORE_ITEMS
    ensures Publishers(api).Err? ==> Publishers(api).error.Panic?
    ensures Publishers(api).Ok? ==>
              var results := Publishers(api).value;
              && KeyedByName(results)
              && (forall n :: n in results <==> n in api.publisherIds && Build(api, n).Ok?)
              && (forall n :: n in results ==> Build(api, n) == Ok(results[n]))
  {
    var k := |api.publisherIds|;
    CollectedFails(api, k);
    assert api.publisherIds[..k] == api.publisherIds;
    if Collected(api, k).Ok? {
      CollectedContents(api, k);
    }
  }

  /** A panic after k names is the panic of the whole enumeration. */
  lemma {:induction false} CollectedFailureSticks(api: Api, k: nat, m: nat)
    requires k <= m <= |api.publisherIds|
    requires Collected(api, k).Err?
    ensures Collected(api, m) == Collected(api, k)
    decreases m - k
  {
    if k < m {
      CollectedFailureSticks(api, k, m - 1);
    }
  }

  /** No two providers of the gathered set share a name, and each is what building its name gives. */
  lemma ProvidersDistinctByName(api: Api)
    requires Publishers(api).Ok?
    ensures forall p, q :: p in Providers(Publishers(api).value) && q in Providers(Publishers(api).value) && p.name == q.name ==> p == q
    ensures forall p :: p in Providers(Publishers(api).value) ==>
              Build(api, p.name) == Ok(p)
  {
    var results := Publishers(api).value;
    PublishersExactly(api);
    forall p | p in Providers(results)
      ensures p == results[p.name]
    {
      var n :| n in results && results[n] == p;
    }
  }
}
