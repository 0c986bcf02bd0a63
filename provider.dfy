/**
 * `EvtProvider`: one event publisher, its channel set and its four symbol
 * tables, built through the metadata oracle. Identity is the name alone.
 */
module Provider {
  import opened Wrappers
  import opened WinTypes
  import opened ManagedVariant
  import opened WinApi

  datatype EvtProvider = EvtProvider(
    name: string,
    handle: Handle,
    channels: set<string>,
    levels: map<U32, string>,
    tasks: map<U32, string>,
    opcodes: map<U32, string>,
    keywords: map<U32, string>)

  /** `PartialEq::eq`: providers are the same when their names are. */
  predicate Equal(a: EvtProvider, b: EvtProvider) {
    a.name == b.name
  }

  /** What `Hash::hash` feeds the hasher: the name and nothing else. */
  function HashInput(p: EvtProvider): string {
    p.name
  }

  /**
   * Equality is an equivalence that ignores handles, channels and tables, and
   * equal providers hash alike under every hasher.
   */
  lemma EqualityIsByName(a: EvtProvider, b: EvtProvider, c: EvtProvider, hasher: string -> int)
    ensures Equal(a, b) <==> a.name == b.name
    ensures Equal(a, a) && (Equal(a, b) ==> Equal(b, a)) && (Equal(a, b) && Equal(b, c) ==> Equal(a, c))
    ensures Equal(a, b) ==> hasher(HashInput(a)) == hasher(HashInput(b))
  {
  }

  /** Two providers with one name, whatever their handles and tables, are equal and hash alike. */
  lemma SameNameDifferentTables(p: EvtProvider, q: EvtProvider, hasher: string -> int)
    requires p.name == q.name
    ensures Equal(p, q) && hasher(HashInput(p)) == hasher(HashInput(q))
  {
  }

  // ----- enumerate_channels -----

  /** The channel paths of array entries 0..k-1 whose path could be read. */
  function ReadableChannels(api: Api, hArray: Handle, k: nat): set<string>
  {
    if k == 0 then {}
    else
      ReadableChannels(api, hArray, k - 1) +
      match GetProperty(api, hArray, k - 1, ChannelReferencePath)
      case Ok(managed) => {GetString(managed).value}
      case Err(_) => {}
  }

  /** A channel path is collected exactly when some entry below k yields it. */
  lemma {:induction false} ReadableChannelsExactly(api: Api, hArray: Handle, k: nat, c: string)
    ensures c in ReadableChannels(api, hArray, k) <==>
              exists n :: 0 <= n < k && api.arrayProperty(hArray, n, ChannelReferencePath).Ok?
                          && api.arrayProperty(hArray, n, ChannelReferencePath).value.text == c
  {
    if k > 0 {
      ReadableChannelsExactly(api, hArray, k - 1, c);
      var raw := api.arrayProperty(hArray, k - 1, ChannelReferencePath);
      if raw.Ok? && raw.value.text == c {
        assert c in ReadableChannels(api, hArray, k);
      }
    }
  }

  /** What `enumerate_channels` returns for a provider handle. */
  function Channels(api: Api, hProvider: Handle): Result<set<string>, Fault>
  {
    var hArray :- Lift(api.publisherProperty(hProvider, ChannelReferences));
    var size :- Lift(api.arraySize(hArray));
    Ok(ReadableChannels(api, hArray, size))
  }

  /**
   * `enumerate_channels` fails, with a Win32 error, exactly when the channel
   * array or its size cannot be fetched; otherwise it holds exactly the
   * paths of the entries whose path could be read.
   */
  lemma ChannelsOutcome(api: Api, hProvider: Handle, c: string)
    ensures Channels(api, hProvider).Err? <==>
              || api.publisherProperty(hProvider, ChannelReferences).Err?
              || api.arraySize(api.publisherProperty(hProvider, ChannelReferences).value).Err?
    ensures Channels(api, hProvider).Err? ==> Channels(api, hProvider).error.Win?
    ensures Channels(api, hProvider).Ok? ==>
              var hArray := api.publisherProperty(hProvider, ChannelReferences).value;
              (c in Channels(api, hProvider).value <==>
                 exists n :: 0 <= n < api.arraySize(hArray).value && api.arrayProperty(hArray, n, ChannelReferencePath).Ok?
                             && api.arrayProperty(hArray, n, ChannelReferencePath).value.text == c)
  {
    var arrayResult := api.publisherProperty(hProvider, ChannelReferences);
    if arrayResult.Ok? && api.arraySize(arrayResult.value).Ok? {
      ReadableChannelsExactly(api, arrayResult.value, api.arraySize(arrayResult.value).value, c);
    }
  }

  /**
   * `enumerate_channels`: collects the path of every readable entry of the
   * channel-reference array, skipping unreadable ones; fails only when the
   * array or its size cannot be fetched.
   */
  method EnumerateChannels(api: Api, hProvider: Handle) returns (r: Result<set<string>, Fault>)
    ensures r == Channels(api, hProvider)
    ensures r.Err? ==> r.error.Win?
  {
    var arrayResult := api.publisherProperty(hProvider, ChannelReferences);
    if arrayResult.Err? {
      return Err(Win(arrayResult.error));
    }
    var hArray := arrayResult.value;
    var sizeResult := api.arraySize(hArray);
    if sizeResult.Err? {
      return Err(Win(sizeResult.error));
    }
    var size := sizeResult.value;
    var channelResults: set<string> := {};
    var n := 0;
    while n < size
      invariant 0 <= n <= size
      invariant channelResults == ReadableChannels(api, hArray, n)
    {
      match GetProperty(api, hArray, n, ChannelReferencePath) {
        case Ok(managed) =>
          channelResults := channelResults + {GetString(managed).value};
        case Err(_) =>
      }
      n := n + 1;
    }
    return Ok(channelResults);
  }

  // ----- get_metadata_property -----

  datatype TableKind = LevelTable | TaskTable | OpcodeTable | KeywordTable

  /** The publisher property that holds the table's array. */
  function TableProperty(kind: TableKind): PropertyId {
    match kind
    case LevelTable => Levels
    case TaskTable => Tasks
    case OpcodeTable => Opcodes
    case KeywordTable => Keywords
  }

  /** The properties read, in order, before the message id of each entry. */
  function LeadingProperties(kind: TableKind): seq<PropertyId> {
    match kind
    case LevelTable => [LevelName, LevelValue]
    case TaskTable => [TaskName, TaskValue, TaskEventGuid]
    case OpcodeTable => [OpcodeName, OpcodeValue]
    case KeywordTable => [KeywordName, KeywordValue]
  }

  function MessageProperty(kind: TableKind): PropertyId {
    match kind
    case LevelTable => LevelMessageID
    case TaskTable => TaskMessageID
    case OpcodeTable => OpcodeMessageID
    case KeywordTable => KeywordMessageID
  }

  /**
   * The message ids entry n looks up with `EvtFormatMessage` once `props`
   * remain to be read: a Win32 error on any read ends the entry with no
   * lookup, a message id reading -1 means "no message", and a panic in a
   * read ends everything.
   */
  function EntryReads(api: Api, hArray: Handle, n: nat, props: seq<PropertyId>, msg: PropertyId): Result<seq<U32>, Fault>
    decreases |props|
  {
    if props == [] then
      match GetProperty(api, hArray, n, msg)
      case Err(Panic(reason)) => Err(Panic(reason))
      case Err(Win(_)) => Ok([])
      case Ok(managed) => if GetInt32(managed) == -1 then Ok([]) else Ok([GetU32(managed)])
    else
      match GetProperty(api, hArray, n, props[0])
      case Err(Panic(reason)) => Err(Panic(reason))
      case Err(Win(_)) => Ok([])
      case Ok(_) => EntryReads(api, hArray, n, props[1..], msg)
  }

  /** The message lookups of one table entry (the body of the `for n` loop). */
  function EntryLookups(api: Api, hArray: Handle, kind: TableKind, n: nat): Result<seq<U32>, Fault>
  {
    EntryReads(api, hArray, n, LeadingProperties(kind), MessageProperty(kind))
  }

  /** The message lookups of entries 0..k-1 in order, or the first panic. */
  function ScanLookups(api: Api, hArray: Handle, kind: TableKind, k: nat): Result<seq<U32>, Fault>
  {
    if k == 0 then Ok([])
    else
      var before :- ScanLookups(api, hArray, kind, k - 1);
      var here :- EntryLookups(api, hArray, kind, k - 1);
      Ok(before + here)
  }

  /** The lookups `get_metadata_property` makes, or why it fails. */
  function MetadataLookups(api: Api, hProvider: Handle, kind: TableKind): Result<seq<U32>, Fault>
  {
    var hArray :- Lift(api.publisherProperty(hProvider, TableProperty(kind)));
    var size :- Lift(api.arraySize(hArray));
    ScanLookups(api, hArray, kind, size)
  }

  /** The table `get_metadata_property` returns: nothing is ever inserted into it. */
  function MetadataTable(api: Api, hProvider: Handle, kind: TableKind): Result<map<U32, string>, Fault>
  {
    var lookups :- MetadataLookups(api, hProvider, kind);
    Ok(map[])
  }

  /**
   * `get_metadata_property` succeeds with an empty map unless the array or
   * its size cannot be fetched (a Win32 error) or reading some entry panics.
   */
  lemma MetadataTableOutcome(api: Api, hProvider: Handle, kind: TableKind)
    ensures MetadataTable(api, hProvider, kind).Ok? ==> MetadataTable(api, hProvider, kind).value == map[]
    ensures MetadataTable(api, hProvider, kind).Err? <==>
              || api.publisherProperty(hProvider, TableProperty(kind)).Err?
              || api.arraySize(api.publisherProperty(hProvider, TableProperty(kind)).value).Err?
              || (var hArray := api.publisherProperty(hProvider, TableProperty(kind)).value;
                  exists n :: 0 <= n < api.arraySize(hArray).value && EntryLookups(api, hArray, kind, n).Err?)
    ensures MetadataTable(api, hProvider, kind).Err? && MetadataTable(api, hProvider, kind).error.Win? ==>
              || api.publisherProperty(hProvider, TableProperty(kind)).Err?
              || api.arraySize(api.publisherProperty(hProvider, TableProperty(kind)).value).Err?
  {
    var arrayResult := api.publisherProperty(hProvider, TableProperty(kind));
    if arrayResult.Ok? && api.arraySize(arrayResult.value).Ok? {
      ScanFailsOnlyOnPanic(api, arrayResult.value, kind, api.arraySize(arrayResult.value).value);
    }
  }

  /**
   * `get_metadata_property`: walks the table's array, reading each entry's
   * name, value (and task GUID) and message id, and asks for the message
   * text of every entry whose message id is not -1. The map it returns is
   * created and never written, so on success it is empty. `lookups` lists
   * the message ids passed to `EvtFormatMessage`, in order.
   */
  method GetMetadataProperty(api: Api, hProvider: Handle, kind: TableKind)
    returns (r: Result<map<U32, string>, Fault>, lookups: seq<U32>)
    ensures r == MetadataTable(api, hProvider, kind)
    ensures r.Ok? ==> r.value == map[] && MetadataLookups(api, hProvider, kind) == Ok(lookups)
  {
    lookups := [];
    var arrayResult := api.publisherProperty(hProvider, TableProperty(kind));
    if arrayResult.Err? {
      r := Err(Win(arrayResult.error));
      return;
    }
    var hArray := arrayResult.value;
    var sizeResult := api.arraySize(hArray);
    if sizeResult.Err? {
      r := Err(Win(sizeResult.error));
      return;
    }
    var size := sizeResult.value;
    var propertyResults: map<U32, string> := map[];
    var n := 0;
    while n < size
      invariant 0 <= n <= size
      invariant ScanLookups(api, hArray, kind, n) == Ok(lookups)
    {
      var entry := EntryLookups(api, hArray, kind, n);
      if entry.Err? {
        ScanFailureSticks(api, hArray, kind, n + 1, size);
        r := Err(entry.error);
        return;
      }
      lookups := lookups + entry.value;
      n := n + 1;
    }
    r := Ok(propertyResults);
  }

  /** Reading an entry fails only by panicking; Win32 errors just end the entry. */
  lemma {:induction false} EntryFailsOnlyByPanic(api: Api, hArray: Handle, n: nat, props: seq<PropertyId>, msg: PropertyId)
    ensures EntryReads(api, hArray, n, props, msg).Err? ==> EntryReads(api, hArray, n, props, msg).error.Panic?
    ensures EntryReads(api, hArray, n, props, msg).Ok? ==> |EntryReads(api, hArray, n, props, msg).value| <= 1
    decreases |props|
  {
    if props != [] && GetProperty(api, hArray, n, props[0]).Ok? {
      EntryFailsOnlyByPanic(api, hArray, n, props[1..], msg);
    }
  }

  /** An entry never asks for the "no message" id 0xFFFFFFFF. */
  lemma {:induction false} EntryNeverLooksUpNoMessage(api: Api, hArray: Handle, n: nat, props: seq<PropertyId>, msg: PropertyId)
    ensures EntryReads(api, hArray, n, props, msg).Ok? ==> 0xFFFF_FFFF !in EntryReads(api, hArray, n, props, msg).value
    decreases |props|
  {
    if props == [] {
      match GetProperty(api, hArray, n, msg) {
        case Ok(managed) => Int32MinusOneIsU32Max(managed);
        case Err(_) =>
      }
    } else if GetProperty(api, hArray, n, props[0]).Ok? {
      EntryNeverLooksUpNoMessage(api, hArray, n, props[1..], msg);
    }
  }

  /**
   * A table scan fails exactly when some entry panics, and then with a
   * panic: a Win32 error on one entry's property only skips that entry.
   */
  lemma {:induction false} ScanFailsOnlyOnPanic(api: Api, hArray: Handle, kind: TableKind, k: nat)
    ensures ScanLookups(api, hArray, kind, k).Err? <==> exists n :: 0 <= n < k && EntryLookups(api, hArray, kind, n).Err?
    ensures ScanLookups(api, hArray, kind, k).Err? ==> ScanLookups(api, hArray, kind, k).error.Panic?
  {
    if k > 0 {
      ScanFailsOnlyOnPanic(api, hArray, kind, k - 1);
      EntryFailsOnlyByPanic(api, hArray, k - 1, LeadingProperties(kind), MessageProperty(kind));
    }
  }

  /** No message id looked up during a scan is the "no message" id. */
  lemma {:induction false} ScanNeverLooksUpNoMessage(api: Api, hArray: Handle, kind: TableKind, k: nat)
    ensures ScanLookups(api, hArray, kind, k).Ok? ==> 0xFFFF_FFFF !in ScanLookups(api, hArray, kind, k).value
  {
    if k > 0 {
      ScanNeverLooksUpNoMessage(api, hArray, kind, k - 1);
      EntryNeverLooksUpNoMessage(api, hArray, k - 1, LeadingProperties(kind), MessageProperty(kind));
    }
  }

  /** An entry whose first property cannot be read contributes no lookup. */
  lemma UnreadableNameSkipsEntry(api: Api, hArray: Handle, kind: TableKind, n: nat)
    requires api.arrayProperty(hArray, n, LeadingProperties(kind)[0]).Err?
    ensures EntryLookups(api, hArray, kind, n) == Ok([])
  {
  }

  /** An entry whose message id reads -1 through `get_int32` gets no lookup. */
  lemma MinusOneMessageIdSkipsLookup(api: Api, hArray: Handle, kind: TableKind, n: nat)
    requires forall i :: 0 <= i < |LeadingProperties(kind)| ==> GetProperty(api, hArray, n, LeadingProperties(kind)[i]).Ok?
    requires GetProperty(api, hArray, n, MessageProperty(kind)).Ok?
    requires GetInt32(GetProperty(api, hArray, n, MessageProperty(kind)).value) == -1
    ensures EntryLookups(api, hArray, kind, n) == Ok([])
  {
    ReadableEntryReachesMessage(api, hArray, n, LeadingProperties(kind), MessageProperty(kind));
  }

  /** When every leading property reads, the entry's outcome is decided by its message id alone. */
  lemma {:induction false} ReadableEntryReachesMessage(api: Api, hArray: Handle, n: nat, props: seq<PropertyId>, msg: PropertyId)
    requires forall i :: 0 <= i < |props| ==> GetProperty(api, hArray, n, props[i]).Ok?
    ensures EntryReads(api, hArray, n, props, msg) == EntryReads(api, hArray, n, [], msg)
    decreases |props|
  {
    if props != [] {
      assert GetProperty(api, hArray, n, props[0]).Ok?;
      forall i | 0 <= i < |props[1..]| ensures GetProperty(api, hArray, n, props[1..][i]).Ok? {
        assert props[1..][i] == props[i + 1];
      }
      ReadableEntryReachesMessage(api, hArray, n, props[1..], msg);
    }
  }

  /** Once a scan has panicked, scanning further entries keeps that panic. */
  lemma {:induction false} ScanFailureSticks(api: Api, hArray: Handle, kind: TableKind, k: nat, k': nat)
    requires k <= k' && ScanLookups(api, hArray, kind, k).Err?
    ensures ScanLookups(api, hArray, kind, k') == ScanLookups(api, hArray, kind, k)
    decreases k'
  {
    if k < k' {
      ScanFailureSticks(api, hArray, kind, k, k' - 1);
    }
  }

  // ----- EvtProvider::new -----

  /** What `EvtProvider::new` returns: the first failing step's error, or the provider. */
  function Build(api: Api, name: string): Result<EvtProvider, Fault>
  {
    var hProvider :- Lift(api.openPublisherMetadata(name));
    var channels :- Channels(api, hProvider);
    var levels :- MetadataTable(api, hProvider, LevelTable);
    var tasks :- MetadataTable(api, hProvider, TaskTable);
    var opcodes :- MetadataTable(api, hProvider, OpcodeTable);
    var keywords :- MetadataTable(api, hProvider, KeywordTable);
    Ok(EvtProvider(name, hProvider, channels, levels, tasks, opcodes, keywords))
  }

  /**
   * `EvtProvider::new`: opens the publisher's metadata, then reads its
   * channels, levels, tasks, opcodes and keywords, giving up at the first
   * failure.
   */
  method New(api: Api, name: string) returns (r: Result<EvtProvider, Fault>)
    ensures r == Build(api, name)
  {
    var openResult := api.openPublisherMetadata(name);
    if openResult.Err? {
      return Err(Win(openResult.error));
    }
    var hProvider := openResult.value;
    var providerChannels := EnumerateChannels(api, hProvider);
    if providerChannels.Err? {
      return Err(providerChannels.error);
    }
    var levels, levelLookups := GetMetadataProperty(api, hProvider, LevelTable);
    if levels.Err? {
      return Err(levels.error);
    }
    var tasks, taskLookups := GetMetadataProperty(api, hProvider, TaskTable);
    if tasks.Err? {
      return Err(tasks.error);
    }
    var opcodes, opcodeLookups := GetMetadataProperty(api, hProvider, OpcodeTable);
    if opcodes.Err? {
      return Err(opcodes.error);
    }
    var keywords, keywordLookups := GetMetadataProperty(api, hProvider, KeywordTable);
    if keywords.Err? {
      return Err(keywords.error);
    }
    return Ok(EvtProvider(name, hProvider, providerChannels.value, levels.value, tasks.value,
                          opcodes.value, keywords.value));
  }

  /**
   * A built provider carries the requested name, the handle that was opened,
   * the readable channels and four empty tables; the build fails exactly when
   * one of the six steps does, with no empty-table fallback.
   */
  lemma BuildOutcome(api: Api, name: string)
    ensures Build(api, name).Ok? <==>
              && api.openPublisherMetadata(name).Ok?
              && Channels(api, api.openPublisherMetadata(name).value).Ok?
              && (forall kind: TableKind :: MetadataTable(api, api.openPublisherMetadata(name).value, kind).Ok?)
    ensures Build(api, name).Ok? ==>
              var p := Build(api, name).value;
              && p.name == name
              && p.handle == api.openPublisherMetadata(name).value
              && p.channels == Channels(api, p.handle).value
              && p.levels == map[] && p.tasks == map[] && p.opcodes == map[] && p.keywords == map[]
  {
    if api.openPublisherMetadata(name).Ok? {
      var h := api.openPublisherMetadata(name).value;
      if Channels(api, h).Ok? && MetadataTable(api, h, LevelTable).Ok? && MetadataTable(api, h, TaskTable).Ok?
         && MetadataTable(api, h, OpcodeTable).Ok? && MetadataTable(api, h, KeywordTable).Ok? {
        forall kind: TableKind ensures MetadataTable(api, h, kind).Ok? {
          match kind
          case LevelTable =>
          case TaskTable =>
          case OpcodeTable =>
          case KeywordTable =>
        }
      }
    }
  }
}
