/**
 * The Win32 event-log metadata interface the core calls, as an oracle: each
 * call either succeeds with a value or fails with a Win32 error, and the same
 * call always gives the same answer.
 */
module WinApi {
  import opened Wrappers
  import opened WinTypes
  import opened ManagedVariant

  /** The `EVT_PUBLISHER_METADATA_PROPERTY_ID`s the core asks for. */
  datatype PropertyId =
    | ChannelReferences | ChannelReferencePath
    | Levels | LevelName | LevelValue | LevelMessageID
    | Tasks | TaskName | TaskEventGuid | TaskValue | TaskMessageID
    | Opcodes | OpcodeName | OpcodeValue | OpcodeMessageID
    | Keywords | KeywordName | KeywordValue | KeywordMessageID

  /**
   * What a successful size-then-fill `EvtGetObjectArrayProperty` leaves
   * behind: the variant, and the string or GUID its pointer designates.
   */
  datatype RawProperty = RawProperty(variant: EvtVariant, text: string, guid: Guid)

  /**
   * The calls: the publisher enumerator (`EvtOpenPublisherEnum`, then the
   * names `EvtNextPublisherId` yields one by one and the error that ends
   * them), `EvtOpenPublisherMetadata`, `EvtGetPublisherMetadataProperty`
   * (an array handle), `EvtGetObjectArraySize` and `EvtGetObjectArrayProperty`.
   */
  datatype Api = Api(
    openPublisherEnum: Result<Handle, WinError>,
    publisherIds: seq<string>,
    publisherIdsEnd: WinError,
    openPublisherMetadata: string -> Result<Handle, WinError>,
    publisherProperty: (Handle, PropertyId) -> Result<Handle, WinError>,
    arraySize: Handle -> Result<U32, WinError>,
    arrayProperty: (Handle, nat, PropertyId) -> Result<RawProperty, WinError>)

  /** The properties `get_property` reads as strings. */
  predicate IsStringProperty(pid: PropertyId) {
    pid in {ChannelReferencePath, LevelName, TaskName, OpcodeName, KeywordName}
  }

  /**
   * `get_property`: one array element's property, routed by its id to
   * `from_string`, `from_guid` or (every other id) `from_variant`.
   */
  function GetProperty(api: Api, hArray: Handle, index: nat, pid: PropertyId): (r: Result<ManagedEvtVariant, Fault>)
    ensures api.arrayProperty(hArray, index, pid).Err? ==> r == Err(Win(api.arrayProperty(hArray, index, pid).error))
    ensures IsStringProperty(pid) ==> (r.Ok? <==> api.arrayProperty(hArray, index, pid).Ok?)
    ensures IsStringProperty(pid) && r.Ok? ==> GetString(r.value) == Some(api.arrayProperty(hArray, index, pid).value.text)
    ensures pid == TaskEventGuid ==> (r.Ok? <==> api.arrayProperty(hArray, index, pid).Ok?)
    ensures pid == TaskEventGuid && r.Ok? ==> GetGuid(r.value) == Some(api.arrayProperty(hArray, index, pid).value.guid)
    ensures !IsStringProperty(pid) && pid != TaskEventGuid && api.arrayProperty(hArray, index, pid).Ok? ==>
              var raw := api.arrayProperty(hArray, index, pid).value.variant;
              && r == FromVariant(raw)
              && (r.Ok? <==> Decode(raw.vtype, raw.payload).Some?)
              && (r.Ok? ==> GetData(r.value) == Decode(raw.vtype, raw.payload) && r.value.variant.vtype == raw.vtype)
    ensures r.Err? && r.error.Panic? ==>
              !IsStringProperty(pid) && pid != TaskEventGuid && api.arrayProperty(hArray, index, pid).Ok?
              && Decode(api.arrayProperty(hArray, index, pid).value.variant.vtype,
                        api.arrayProperty(hArray, index, pid).value.variant.payload).None?
  {
    match api.arrayProperty(hArray, index, pid)
    case Err(e) => Err(Win(e))
    case Ok(raw) =>
      if IsStringProperty(pid) then Ok(FromString(raw.text))
      else if pid == TaskEventGuid then Ok(FromGuid(raw.guid))
      else FromVariant(raw.variant)
  }
}
