# EvtRustler core, modelled in Dafny

EvtRustler exports Windows event logs to CSV. It enumerates the local event
publishers and builds an `EvtProvider` for each. It then splits the work into
one task per channel, optionally restricted to the `.evtx` files named on the
command line. Finally it sorts the collected events by timestamp and writes one
CSV row per event. This project models the program's own logic around the
Win32 event-log API and proves properties of it:

- **Provider** (`src/provider.rs`):
  - provider identity, which is by name;
  - `enumerate_channels`;
  - the table walk of `get_metadata_property`;
  - the fallible step sequence of `EvtProvider::new`.
- **GuidDisplay**: the 8-4-4-4-12 rendering of `GuidWrapper`, with a parser that inverts it.
- **ManagedVariant** (`src/managed_variant.rs`):
  - the `EVT_VARIANT` tagged union, as a type tag plus a 64-bit payload word;
  - its decoding constructors and typed accessors;
  - the in-place `update_variant`.
- **WinApi**: the Win32 calls, modelled as a value of total functions. Each call answers `Ok` or `Err(WinError)`. `GetProperty` models the property-id routing of `get_property` (`src/winevt.rs`).
- **EventMeta**: the keyword arm of the event metadata reader (`src/event_meta.rs`). A 64-bit flag word is turned into keyword names.
- **MetadataCache**: `EvtCache`, a first-write-wins store of providers keyed by name (`src/metadata_cache.rs`).
- **TaskPartition** (`divvy_tasks_from_providers`):
  - the channel → provider-names map;
  - the derivation of a channel key from a log-file path;
  - the re-keying of claimed channels by path.
- **Publishers**: the loop of `enumerate_publishers`.
- **EventOrdering**: the unstable in-place sort of the events by timestamp string.
- **CsvExport**: the header and row assembly of `write_to_csv`.
- **Supporting modules**:
  - **Text**: `str::replace`, `lines().next()`, `join`, and `String` ordering;
  - **Radix**: digit strings;
  - **WinTypes**: fixed-width integers, `GUID`, and `GUID::from_u128`;
  - **Wrappers**: `Option` and `Result`.

Failures are modelled in two kinds:

- A Win32 error is a `Fault.Win`. Callers may skip it.
- A panic is a `Fault.Panic`, which always propagates. This covers `unwrap` on an error and an explicit `panic!`.

`HashMap` and `HashSet` iteration order is not fixed. Where the order matters, it is a parameter: a listing of the keys. Otherwise it is an arbitrary choice (`:|`), so every result holds for every order.

On these points the model follows what the code does:

- The sort is `sort_unstable_by`. Events with equal timestamps have no promised order (`EventOrdering.EqualTimesEitherOrder`).
- A failing metadata table makes `EvtProvider::new` fail. There is no fallback to an empty table (`Provider.BuildOutcome`).
- `get_metadata_property` never inserts into the map it returns, so on success the level, task, opcode and keyword tables are empty (`Provider.MetadataTableOutcome`).
- In the keyword arm, only the gate masks the flag with the low 56 bits. The per-key test uses the unmasked flag (`EventMeta.TopBitsStillMatch`).
- A per-entry read inside `get_metadata_property` can panic when `from_variant` sees an unsupported type tag. The table walk then fails with that panic rather than skipping the entry (`Provider.ScanFailsOnlyOnPanic`).

## Model

| member | source | states |
|---|---|---|
| WinTypes.U128RoundTrip | src/managed_variant.rs:164-175 | splitting a 128-bit number into GUID fields (`GUID::from_u128`) and packing it again gives the number back |
| WinTypes.GuidRoundTrip | src/managed_variant.rs:164-175 | packing a GUID into 128 bits and splitting it again gives the same GUID, so `from_guid_128` can produce every GUID |
| ManagedVariant.Decode | src/managed_variant.rs:88-149 | a tag decodes exactly when it is 4, 7, 8, 10 or 32; each decodes to its own variant (byte, int32, uint32, uint64, handle) read from the payload |
| ManagedVariant.Store | src/managed_variant.rs:46-86 | writing a scalar into the union and decoding it under its tag gives the scalar back |
| ManagedVariant.New | src/managed_variant.rs:30-43 | `new()` holds `ByteVal(0)` under the byte tag, with count 0, and the buffer agrees with the union |
| ManagedVariant.FromVariant | src/managed_variant.rs:88-149 | accepts exactly the decodable tags and otherwise panics; on success it keeps the tag and the decoded value, sets the count to 0 and keeps buffer and union coherent |
| ManagedVariant.FromString | src/managed_variant.rs:151-162 | the string tag; `get_string` gives the string back and `get_guid` gives nothing |
| ManagedVariant.FromGuid | src/managed_variant.rs:177-188 | the GUID tag; `get_guid` gives the GUID back and `get_string` gives nothing |
| ManagedVariant.FromGuid128 | src/managed_variant.rs:164-175 | the GUID tag; `get_guid` gives a GUID that packs back to the given 128-bit number, and `get_string` gives nothing |
| ManagedVariant.GetData | src/managed_variant.rs:194-205 | some copy of the buffer exactly for string, byte, int32, uint32, uint64, GUID and handle buffers; nothing for the others |
| ManagedVariant.GetString | src/managed_variant.rs:207-212 | the text exactly when the buffer is a string |
| ManagedVariant.GetGuid | src/managed_variant.rs:229-235 | the GUID exactly when the buffer is a GUID |
| ManagedVariant.GetByte | src/managed_variant.rs:214-217 | for a coherent byte value, the union's byte field is the stored byte |
| ManagedVariant.GetInt32 | src/managed_variant.rs:218-221 | for a coherent int32 value, the stored integer; for a coherent uint32 value, -1 exactly when it is 0xFFFFFFFF |
| ManagedVariant.GetU32 | src/managed_variant.rs:222-225 | for a coherent uint32 value, the stored integer |
| ManagedVariant.GetU64 | src/managed_variant.rs:226-228 | for a coherent uint64 value, the stored integer |
| ManagedVariant.GetEvtHandle | src/managed_variant.rs:236-239 | for a coherent handle value, the stored handle |
| ManagedVariant.GetVariant | src/managed_variant.rs:190-192 | the union handed back cannot desync from the buffer: for a coherent value its tag names the buffer's kind, and for a scalar its union field decodes to exactly what `get_data` returns |
| ManagedVariant.DecodeEncode | src/managed_variant.rs:88-149 | `from_variant` of a union built from a scalar gives that scalar and that union back |
| ManagedVariant.EncodeDecode | src/managed_variant.rs:88-149 | whatever `from_variant` accepts is a scalar whose encoding is the stored union, with count 0 and the source tag |
| ManagedVariant.Int32MinusOneIsU32Max | src/managed_variant.rs:214-225 | `get_int32` reads -1 exactly when `get_u32` reads 0xFFFFFFFF: both read the same 32 bits |
| ManagedVariant.NoMessageSentinelReadsMinusOne | src/provider.rs:140-145 | a uint32 message id 0xFFFFFFFF, whatever its count, is accepted and reads as -1 through `get_int32`, the "no message" test |
| ManagedVariant.StoreKeepsUpperBytes | src/managed_variant.rs:46-86 | writing a byte or a 32-bit value into the union leaves the payload bytes above it untouched |
| ManagedVariant.ManagedEvtVariantCell.UpdateVariant | src/managed_variant.rs:46-86 | in place: rejects with a panic, changing nothing, exactly the tags `from_variant` rejects; otherwise the buffer becomes the decoded value, Type and Count are copied, and the value is written into the old union |
| ManagedVariant.UpdateAgreesWithFromVariant | src/managed_variant.rs:46-149 | `update_variant` and `from_variant` accept the same tags and decode the same value |
| GuidDisplay.Parse | src/provider.rs:425-438 | parsing succeeds exactly on text with the 8-4-4-4-12 lower-case hex layout |
| GuidDisplay.Format | src/provider.rs:425-438 | the rendering is 36 characters, with hyphens at 8, 13, 18 and 23 and lower-case hex digits elsewhere |
| GuidDisplay.ParseFormat | src/provider.rs:425-438 | parsing the rendering gives the GUID back, so no two GUIDs render alike |
| GuidDisplay.ZeroGuidText | src/provider.rs:185-193 | a GUID renders as `00000000-0000-0000-0000-000000000000`, the "no task GUID" text, exactly when it is all zero |
| WinApi.GetProperty | src/winevt.rs:30-104 | a Win32 error of the array read is passed on; string properties give their text; the task GUID property gives its GUID; every other property is `from_variant` of the raw variant: it panics exactly when the tag is not decodable, and otherwise holds the decoded value under the same tag |
| Provider.EqualityIsByName | src/provider.rs:409-421 | providers are equal exactly when their names are; equality is an equivalence; equal providers hash alike |
| Provider.SameNameDifferentTables | src/provider.rs:409-421 | two providers with one name are equal and hash alike, whatever their handles and tables |
| Provider.ReadableChannelsExactly | src/provider.rs:329-345 | a path is collected exactly when some array entry below the size yields it |
| Provider.ChannelsOutcome | src/provider.rs:308-348 | fails, with a Win32 error, exactly when the channel array or its size cannot be fetched; otherwise holds exactly the readable entries' paths |
| Provider.EnumerateChannels | src/provider.rs:308-348 | the loop returns exactly the value of `Channels`, and fails only with a Win32 error |
| Provider.EntryFailsOnlyByPanic | src/provider.rs:117-304 | one table entry fails only by panicking, and asks for at most one message |
| Provider.EntryNeverLooksUpNoMessage | src/provider.rs:140-145 | an entry never asks for the message of id 0xFFFFFFFF |
| Provider.ScanFailsOnlyOnPanic | src/provider.rs:117-304 | the walk fails exactly when some entry fails, and then only with a panic: a Win32 error on an entry skips it |
| Provider.ScanNeverLooksUpNoMessage | src/provider.rs:140-145 | no message id the walk looks up is the "no message" id |
| Provider.UnreadableNameSkipsEntry | src/provider.rs:122-129 | an entry whose name cannot be read is skipped with no lookup |
| Provider.MinusOneMessageIdSkipsLookup | src/provider.rs:140-145 | an entry whose properties read but whose message id reads -1 gets no lookup |
| Provider.ReadableEntryReachesMessage | src/provider.rs:117-304 | when every leading property of an entry reads, only its message id decides the entry |
| Provider.ScanFailureSticks | src/provider.rs:117-304 | once an entry panics, the walk's outcome is that panic, however many entries follow |
| Provider.MetadataTableOutcome | src/provider.rs:97-306 | succeeds with an empty map unless the array or its size cannot be fetched (the only Win32 failures) or some entry panics |
| Provider.GetMetadataProperty | src/provider.rs:97-306 | the loop returns exactly `MetadataTable`: an empty map on success, with the message lookups made in entry order |
| Provider.New | src/provider.rs:25-79 | the step sequence returns exactly `Build`: the first failing step's error, or the provider |
| Provider.BuildOutcome | src/provider.rs:25-79 | succeeds exactly when opening, channels and all four tables succeed; the provider then carries the argument's name, the opened handle, those channels and empty tables |
| EventMeta.ResolveKeywords | src/event_meta.rs:68-81 | the loop returns exactly `KeywordNames` for the map's visiting order |
| EventMeta.CollectStep | src/event_meta.rs:72-79 | visiting one more key adds exactly that key's contribution |
| EventMeta.CollectAppend | src/event_meta.rs:72-79 | visiting two runs of keys gives the names of the first run followed by those of the second |
| EventMeta.ClosedGateYieldsNothing | src/event_meta.rs:70 | a flag with none of its low 56 bits set, 0 included, yields no names |
| EventMeta.CollectExactly | src/event_meta.rs:72-79 | a name is collected exactly when some visited key overlaps the flag and has that "Keyword Name" |
| EventMeta.KeywordNamesExactly | src/event_meta.rs:68-81 | a name is returned exactly when the gate is open and some table entry with that name has a key overlapping the flag |
| EventMeta.TopBitsStillMatch | src/event_meta.rs:70-74 | once the gate is open, a key overlapping the flag only in its top 8 bits still contributes its name |
| EventMeta.NamesComeFromDistinctEntries | src/event_meta.rs:72-79 | each returned name comes from its own table entry, one whose key overlaps the flag and which has a name; no entry gives two names |
| EventMeta.OrderIndependent | src/event_meta.rs:72-79 | two visiting orders of one table give the same multiset of names |
| EventMeta.ListingWithout | src/event_meta.rs:72 | removing one key from a listing of the keys lists the remaining keys |
| EventMeta.CollectWithout | src/event_meta.rs:72-79 | removing one visited key removes exactly its contribution from the multiset of names |
| MetadataCache.EvtCache.Open | src/metadata_cache.rs:12-36 | a readable file gives its data; unreadable data gives "Invalid cache data"; a missing file is created and the cache starts empty, with no provider present; any other open error is passed on |
| MetadataCache.EvtCache.AddProvider | src/metadata_cache.rs:38-46 | in place: the data becomes `Added`, inserting under the provider's name only when that name is absent; keying by name is preserved |
| MetadataCache.EvtCache.GetProvider | src/metadata_cache.rs:48-50 | some provider exactly when `provider_exists`, namely the stored one |
| MetadataCache.EvtCache.RemoveProvider | src/metadata_cache.rs:52-54 | in place: the data loses that name and nothing else; keying by name is preserved |
| MetadataCache.EvtCache.GetAllProviders | src/metadata_cache.rs:60-62 | every stored name exactly once |
| MetadataCache.EvtCache.GetData | src/metadata_cache.rs:64-66 | the map holds a name exactly when `provider_exists` reports it, with the provider `get_provider` returns, and stays keyed by name |
| MetadataCache.AddedFirstWriteWins | src/metadata_cache.rs:38-46 | adding a present name changes nothing; adding an absent one stores the provider; other names are untouched; the name then exists |
| MetadataCache.AddedKeepsKeyedByName | src/metadata_cache.rs:39-43 | adding keeps every entry under its provider's own name |
| MetadataCache.RemovedExactly | src/metadata_cache.rs:52-58 | after removal the name is absent, every other lookup is unchanged, and keying by name is kept |
| MetadataCache.MissingFileThenAdd | src/metadata_cache.rs:23-46 | a cache started on a missing file that then gets one provider holds exactly that provider under its name |
| Text.LexLeReflexive | src/main.rs:127-131 | `String` ordering: every string is at most itself |
| Text.LexLeTotal | src/main.rs:127-131 | any two strings are ordered one way or the other |
| Text.LexLeAntisymmetric | src/main.rs:127-131 | strings ordered both ways are equal |
| Text.LexLeTransitive | src/main.rs:127-131 | the ordering is transitive |
| Text.ReplaceAbsent | src/main.rs:157 | text with no occurrence of the pattern comes back from `replace` unchanged |
| Text.ReplaceCharRemovesIt | src/main.rs:328 | replacing a one-character pattern by text free of it leaves no occurrence |
| Text.ReplaceKeepsAbsentChar | src/main.rs:328 | `replace` introduces no character found in neither the text nor the replacement |
| Text.FirstLine | src/main.rs:319-324 | the first line exists exactly when the message is non-empty; it is a newline-free prefix ending at a "\n", at a "\r\n" or at the end; the '\r' of a "\r\n" is never kept, and a line reaching the end means the text has no "\n" |
| Text.SplitJoin | src/main.rs:335-337 | a joined line splits back into its fields when no field holds the separator |
| Text.SeparatorInFieldBreaksRoundTrip | src/main.rs:335-337 | whenever some field holds the separator, the joined line splits back into more fields than were joined, so the round trip fails |
| Text.CommaInFieldExample | src/main.rs:335-337 | for example, the one field "a,b" reads back as the two fields "a" and "b" |
| EventOrdering.SortByTimestamp | src/main.rs:126-131 | in place: afterwards the array is a permutation of what it held, non-decreasing by timestamp string |
| EventOrdering.MinimumFrom | src/main.rs:127-131 | an index of an earliest event in the rest of the array |
| EventOrdering.SortedStringsUnique | src/main.rs:126-131 | two sorted sequences of strings with one multiset are equal |
| EventOrdering.PermutedTimes | src/main.rs:126-131 | permuting events permutes their timestamps |
| EventOrdering.SortedArrangementsAgreeOnTimes | src/main.rs:126-131 | any two sorted arrangements of the same events have the same timestamp sequence |
| EventOrdering.EqualTimesEitherOrder | src/main.rs:126-131 | two events with one timestamp are sorted in either order, so the unstable sort promises neither |
| CsvExport.BuildRecord | src/main.rs:284-328 | the loop and pushes produce exactly `Headers` and `RowFields` of the System children |
| CsvExport.WriteToCsv | src/main.rs:282-337 | exactly `CsvText`: an error when there is no System element, otherwise the header line when the file is empty, then the row line |
| CsvExport.DedupExactly | src/main.rs:309-311 | the header list keeps every child name, holds each once, and lists them in the order of their first appearance |
| CsvExport.DedupOfDistinct | src/main.rs:309-311 | distinct child names pass through as they stand, in their own order |
| CsvExport.HeadersExactly | src/main.rs:305-327 | the headers are exactly the child names, "Message" and "XML", each once: first the deduplicated child names, then "Message" unless a child bears it, then "XML" unless a child bears it |
| CsvExport.HeadersOfDistinct | src/main.rs:305-327 | distinct child names other than "Message" and "XML" give the headers: those names in order, then "Message", then "XML" |
| CsvExport.ColumnsAlign | src/main.rs:305-327 | with such names and a non-empty message, header i labels row field i: each child's value under its name, the first line under "Message", the flattened XML under "XML" |
| CsvExport.FirstChildAttributeIsFirst | src/main.rs:291-294 | an attribute child's field is the attribute of the first child sharing its name, "" when that child lacks it |
| CsvExport.RowShape | src/main.rs:295-328 | one field per child, in order; then the first message line exactly when the message is non-empty; then the XML, last and free of line breaks |
| CsvExport.EmptyMessageShortRow | src/main.rs:316-324 | with distinct child names, an empty message leaves the row one field shorter than the headers, and the flattened XML sits under the "Message" header |
| CsvExport.DedupLength | src/main.rs:309-311 | distinct child names give as many headers as children |
| CsvExport.CsvTextShape | src/main.rs:330-337 | the header line is written exactly when the file is empty, and the row line splits back into its fields when none holds a comma |
| TaskPartition.TrimTrailingSeparators | src/main.rs:157 | a prefix of the path that does not end in a separator, and only separators were cut off |
| TaskPartition.ComponentStart | src/main.rs:157 | the start of the last path component: nothing after it is a separator, and the character before it, if any, is one |
| TaskPartition.FileName | src/main.rs:157 | `file_name().unwrap()`: a non-empty last component other than "..", free of separators, or a panic |
| TaskPartition.StripExtension | src/main.rs:157 | `with_extension("")`: a prefix of the name, changed exactly when a '.' follows the first character, and then cut at the last '.' |
| TaskPartition.KeyOfName | src/main.rs:158-163 | a name without the "Archive-" prefix is its own key; an archive name's key is a non-empty hyphen-free capture, and only an archive name can panic |
| TaskPartition.FileKeyOfPath | src/main.rs:153-163 | a directory prefix and its '\\' or '/' separator do not change the file name or the key of a path |
| TaskPartition.LastDot | src/main.rs:157 | the position of the last '.' of the name, if any |
| TaskPartition.DeclarersAdd | src/main.rs:143-149 | adding a provider adds its name to the declarers of exactly the channels it declares |
| TaskPartition.CollectTasks | src/main.rs:141-149 | the nested loops build exactly `Tasks` of the providers |
| TaskPartition.TasksExactly | src/main.rs:141-149 | a channel is a key exactly when some provider declares it, and its set holds exactly the names of the providers declaring it |
| TaskPartition.ClaimChannels | src/main.rs:151-171 | panics exactly when some path's key derivation panics; otherwise each result key is a path whose channel is a task, mapped to that channel's unchanged set; no two keys share a channel; every matched channel is claimed |
| TaskPartition.DivvyTasks | src/main.rs:140-175 | without paths the channel map itself; with paths the claimed map, or the panic |
| TaskPartition.ClaimedChannelsExactly | src/main.rs:164-171 | the claimed channels are exactly the task channels some path derives |
| TaskPartition.ClaimsAgree | src/main.rs:164-171 | two visiting orders may pick different paths for a channel, but claim the same channels with the same sets |
| TaskPartition.StemOfFileName | src/main.rs:157 | a separator-free `stem.ext` has itself as file name and `stem` as stem, and its key is that of the unescaped stem |
| TaskPartition.PlainFileKey | src/main.rs:157-163 | a name not starting with "Archive-" is keyed by its unescaped stem |
| TaskPartition.ArchiveFileKey | src/main.rs:153-161 | `Archive-<x>-<rest>.<ext>` with a hyphen-free x is keyed x |
| TaskPartition.ArchiveStemUnescaped | src/main.rs:157-158 | an archive stem without '%' unescapes to itself and starts with "Archive-" |
| TaskPartition.ArchiveWithoutHyphenFileKey | src/main.rs:158-160 | `Archive-<x>.<ext>` with no hyphen after the prefix makes the capture fail, a panic |
| TaskPartition.ArchiveNameWithoutHyphen | src/main.rs:158-160 | `Archive-<x>` without a further hyphen has no capture, a panic |
| TaskPartition.ArchiveExample | src/main.rs:153-161 | "Archive-Security-2023-01-01.evtx" is keyed "Security" |
| TaskPartition.UnescapeOne | src/main.rs:157 | replacing "%4" in `<a>%4<b>` without other '%' gives `<a>/<b>` |
| TaskPartition.EscapedFileKey | src/main.rs:157-163 | a plain `<a>%4<b>.<ext>` is keyed `<a>/<b>` |
| TaskPartition.PlainExample | src/main.rs:157-163 | "MyApp%4Operational.evtx" is keyed "MyApp/Operational" |
| TaskPartition.ReplaceNoLeadChar | src/main.rs:157 | text free of the pattern's first character passes through `replace` unchanged, whatever follows |
| TaskPartition.ArchiveCapture | src/main.rs:153-161 | the pattern `Archive-([^-]+)-.*` captures x in `Archive-<x>-<rest>` |
| TaskPartition.ArchiveWithoutHyphenPanics | src/main.rs:158-160 | with no hyphen after the prefix the pattern does not match, so the key derivation panics |
| Publishers.Insert | src/main.rs:258 | `HashSet::insert` keeps the provider already present under a name and adds a new name's provider |
| Publishers.EnumeratePublishers | src/main.rs:237-280 | the loop returns exactly `Publishers` of the enumerator |
| Publishers.CollectedFails | src/main.rs:252-266 | the gathering fails exactly when some build panics, and then with the first such panic |
| Publishers.CollectedContents | src/main.rs:252-266 | the gathered set holds exactly the names that build, each under its own name with the provider built for it |
| Publishers.PublishersExactly | src/main.rs:237-280 | a panic exactly when the enumerator cannot be opened, a build panics, or the names end on an error other than "no more items"; otherwise every name that builds, once |
| Publishers.CollectedFailureSticks | src/main.rs:252-266 | once a build panics, that panic is the outcome, however many names follow |
| Publishers.ProvidersDistinctByName | src/main.rs:249-258 | no two gathered providers share a name, and each is what building its name gives |

## Left out

- Win32 calls are not modelled; each is an oracle answer. This covers the size-probe convention (`ERROR_INSUFFICIENT_BUFFER`), the buffers, `EvtClose`, `Drop`, and the rest of `src/winevt.rs`. The oracle answers by name, so building a repeated publisher name gives an equal provider, and the first-kept rule of `HashSet::insert` is stated on `Publishers.Insert` alone.
- The union bytes a single-field constructor leaves unwritten are modelled as zero. Rust leaves them uninitialised.
- Float variants and the other never-constructed `VariantBuffer` cases are not modelled. Nothing builds them.
- Threads, channels and joins in `main`, and the per-thread `EvtNext` poll loop, are not modelled: they are concurrency and FFI.
- Command-line parsing, the directory scan, file seeking, `BufWriter`, `write_to_txt`, and the JSON load and save of `EvtCache` are I/O. `EvtCache.Open` takes the file's outcome as a parameter.
- XML parsing (`xmltree`) is not modelled. The `System` element is a sequence of children with a name, attributes and optional text, and `Element::parse` failure is not modelled.
- `src/events.rs` is not part of this model. An event is a record with its XML, timestamp string, record id and message.
- `format_event_message` and all logging are left out. `Provider.GetMetadataProperty` reports the message ids it would look up; their text is not stored anyway.
- `EvtEventMetadata::from_event`, the empty channel arm, the call to `to_json` and the serde derives do not compile and are not modelled. `EventMeta.ResolveKeywords` models only the keyword arm.
- `EventOrdering.SortByTimestamp`: the sort algorithm (`sort_unstable_by`) is modelled by a selection sort. Only its promise is stated: a permutation, non-decreasing by timestamp.
- `TaskPartition.FileKey`: `Path::file_name` and `with_extension("")` are modelled on the text after the last separator, and the extension is stripped after the last component is taken, while the code strips it from the whole path first. The two orders differ only when the stem of the last component is "." or "..": the code keys `dir\..evtx` by the directory's name and panics on `dir\...x`, whereas the model keys them "." and "..". Three cases are covered: a final ".." or an empty name panics, a leading dot is kept, and a name without a dot is kept whole. `Path` component normalisation is not modelled. A trailing "." component is kept as the name rather than skipped. Windows drive and UNC prefixes are not modelled either.
- `TaskPartition.FileKey`: the regular expression is modelled only for its one pattern, `Archive-([^-]+)-.*`, as a leftmost search.
- `Text.FirstLine`: `lines()` is modelled only for its first item.
- Strings are sequences of characters; no UTF-16 or UTF-8 encoding is modelled.
- WinApi.GetProperty: the `PCWSTR::to_string().unwrap()` of each string arm (src/winevt.rs lines 79, 83, 87, 91 and 95) panics on invalid UTF-16; the model's string properties never panic, because the oracle hands over decoded text.
