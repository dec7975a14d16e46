# Anonymous chat on an ESP32: a Dafny model of the message store

The firmware serves a small anonymous chat over HTTP. This project models its core and proves properties of the model:

- **The message store.** A 100-slot ring of fixed-size message records with a count and a write cursor.
  - Readers copy it out oldest first.
  - A "since timestamp" query keeps only newer messages.
  - A 30-second cache holds the rendered history.
  - A batch counter starts a save every fifth insert.
- **Persistence.** The `uuid|username|message|timestamp` entry codec, the per-message storage keys, the save loop that stops at the first failed write, and the start-up load loop.
- **Identity.** Version-4 UUID generation from sixteen random bytes, following section 4.4 of RFC 4122.
- **Push delivery.**
  - The server-sent-events client registry, a head-first singly linked list.
  - The event frame a broadcast sends.
  - A reader of the text/event-stream format from section 9.2 of the WHATWG HTML Living Standard. The reader says what a browser makes of a frame.
- **The older store in `chat_server.c`.** It saves after every insert, and its post handler checks the length.
- **Static-file helpers.** The content type chosen from a file suffix, the file path built from the web root and the URI, and the size guard on a posted body.

Modules follow the source files:

| Module | File | Models |
|---|---|---|
| `CStr` | `cstr.dfy` | `strlcpy`, `strlcat`, `strchr`, `%d`, `atoi` and `strcasecmp` |
| `ChatTypes` | `chat_types.dfy` | `chat_storage.h` |
| `RingBuffer` | `ring.dfy` | the ring shared by both stores |
| `ChatStorage` | `chat_storage.dfy` | the store in `chat_storage.c` |
| `Persistence` | `persistence.dfy` | the codec, save and load |
| `Bytes`, `Uuid` | `uuid.dfy` | UUID generation |
| `Sse` | `sse.dfy` | the client registry, the frame and the reader |
| `ChatServer` | `chat_server.dfy` | the store and post handler of `chat_server.c` |
| `Rest` | `rest.dfy` | the helpers in `rest_server.c` |

The following become parameters of the model:

- the clock (`now`);
- the random bytes;
- whether each storage operation succeeds;
- whether the lock of the since-query is obtained within its timeout.

Every other lock waits without bound, so it is treated as always obtained.

Strings are Dafny `string`s, sequences of `char`. Each `char` stands for one byte of the C string, and the terminating NUL is not part of the sequence. So every length below is a byte count: a field "fits a 150-byte buffer" when it has at most 149 characters.

JSON printing is modelled as the ordered sequence of message records it prints. The two places where the firmware parses or prints JSON become function parameters:

- the legacy JSON entry decoder (`LegacyDecoder`);
- the printer of an announced message (`render`).

## Model

| member | source | states |
|---|---|---|
| CStr.Strlcpy | main/chat_storage.c:587-589 | the copy is the longest prefix of the source that leaves room for the terminator; a source that fits is copied whole |
| CStr.Strlcat | main/rest_server.c:94-96 | appending keeps the destination and adds the longest prefix of the suffix that still fits the buffer |
| CStr.StrlcpyThenStrlcat | main/rest_server.c:91-96 | copying then appending into one buffer keeps the longest fitting prefix of the concatenation |
| CStr.IndexOf | main/chat_storage.c:96 | `strchr` finds the first occurrence, or reports none exactly when the character is absent |
| CStr.Decimal | main/chat_storage.c:58 | `%lu` prints at least one decimal digit and no leading zero for a positive number |
| CStr.DecimalValue | main/chat_storage.c:58-59 | reading back the digits `%lu` prints gives the number printed |
| CStr.DecimalInjective | main/chat_storage.c:54 | distinct indices print as distinct decimal strings |
| CStr.Uint32DecimalLength | main/chat_storage.c:57 | every `uint32_t` prints in at most ten digits, so an encoded entry with fitting fields fits the buffer |
| CStr.Atoi | main/chat_storage.c:115 | `atoi` yields a value in `int` range |
| CStr.AtoiDecimal | main/chat_storage.c:115 | `atoi` reads back what `%lu` wrote when the value fits an `int` |
| CStr.ToUint32 | main/chat_storage.c:141 | the `(uint32_t)` cast keeps values in range and otherwise reduces modulo 2^32 |
| CStr.ToLower | main/rest_server.c:43 | upper-case letters map to lower case and every other character is unchanged |
| ChatTypes.CopyFields | main/chat_server.c:143-146 | the three copies cut each field to its buffer, keep a prefix of the text, stamp the record, and leave fields that already fit unchanged |
| ChatTypes.StoreFields | main/chat_storage.c:587-590 | each stored field fits its buffer with the terminator, and fields that already fit are stored unchanged |
| RingBuffer.Empty | main/chat_storage.c:25-28 | the zero-initialised store satisfies the ring invariant and holds nothing |
| RingBuffer.Snapshot | main/chat_storage.c:224-233 | the oldest-first view holds exactly `count` messages |
| RingBuffer.CopyOut | main/chat_storage.c:224-233 | the copy loop starting at `next_index` when full (else at 0) yields the oldest-first view |
| RingBuffer.CopyOutIsSnapshot | main/chat_server.c:169-182 | any sequence matching the copy loop's slot arithmetic equals the oldest-first view |
| RingBuffer.Push | main/chat_storage.c:584-596 | the insert writes the slot at the old cursor, changes no other slot, advances the cursor modulo 100 and counts up only below capacity, keeping the ring invariant |
| RingBuffer.PushSnapshot | main/chat_storage.c:584-596 | one insert appends to the oldest-first view and evicts the oldest message at capacity |
| RingBuffer.PushBelowCapacity | main/chat_storage.c:593-595 | below capacity an insert appends to the held prefix |
| RingBuffer.PushAtCapacity | main/chat_storage.c:593-595 | at capacity an insert drops the oldest message and appends the new one |
| RingBuffer.PushAllSnapshot | main/chat_storage.c:584-596 | any run of inserts leaves the last 100 of the old view followed by the inserted messages |
| RingBuffer.PushAllFromEmpty | main/chat_storage.c:584-596 | after k inserts from empty the view is the last min(k,100) messages in insertion order, with `count == min(k,100)` and `next_index == k % 100` |
| RingBuffer.SnapshotUnwrapped | main/chat_storage.c:553-554 | a ring filled from slot 0 without wrapping shows its first `count` slots |
| ChatStorage.Initial | main/chat_storage.c:25-36 | the store starts empty, with no cache and no pending inserts |
| ChatStorage.Invalidate | main/chat_storage.c:165-171 | invalidation leaves no valid cache and no cached text |
| ChatStorage.AddMessage | main/chat_storage.c:576-623 | a NULL field gives `InvalidArg` exactly and changes nothing; otherwise the message joins the view (evicting the oldest at capacity), the cache is dropped, and the counter wraps at 5 with a save started exactly then |
| ChatStorage.GetMessagesJson | main/chat_storage.c:182-281 | the cache is served exactly when valid, present and under 30 s old by `uint32_t` difference; otherwise the view is rendered and cached with the current time; a coherent store always returns its current history |
| ChatStorage.ClockRollbackRebuilds | main/chat_storage.c:186-190 | a clock that stepped back makes the unsigned age huge, so the cache is not served |
| ChatStorage.KeepNewer | main/chat_storage.c:365-379 | the filter keeps exactly the messages with timestamp strictly greater than the cursor |
| ChatStorage.KeepNewerConcat | main/chat_storage.c:365-379 | filtering keeps relative order: it distributes over concatenation |
| ChatStorage.KeepNewerSortedIsSuffix | main/chat_storage.c:365-379 | with non-decreasing timestamps the kept messages are a suffix of the history |
| ChatStorage.KeepAllNewer | main/chat_storage.c:368 | when every timestamp exceeds the cursor nothing is dropped |
| ChatStorage.NoRedelivery | main/chat_storage.c:368 | polling again with the newest timestamp seen never resends a seen message |
| ChatStorage.GetMessagesSince | main/chat_storage.c:290-396 | on lock timeout the reply is empty with no news and the busy error; otherwise it lists exactly the held messages newer than the cursor in view order, and news is reported exactly when one exists |
| ChatStorage.Deinit | main/chat_storage.c:643-662 | a flush is started exactly when inserts are pending; the counter is zeroed, the cache dropped and the ring kept |
| ChatStorage.StoredAll | main/chat_storage.c:587-590 | each posted message is stored with its fields cut to their buffers, in posting order |
| ChatStorage.BatchAccounting | main/chat_storage.c:599-617 | every insert is covered by a started save or is still pending: saves × 5 + pending = old pending + inserts |
| ChatStorage.AddManySnapshot | main/chat_storage.c:576-596 | after a run of inserts the view is the last 100 of the old view followed by the stored posts |
| ChatStorage.Step | main/chat_storage.c:576-662 | each operation keeps the store invariant and the agreement of cache and ring |
| ChatStorage.ReachableStoresServeCurrentHistory | main/chat_storage.c:604 | in every state reachable from start-up the cache agrees with the ring and a render returns the current oldest-first history |
| ChatStorage.RunKeepsCoherence | main/chat_storage.c:604 | any sequence of operations preserves the agreement of cache and ring |
| Persistence.EntryKey | main/chat_storage.c:54 | an entry key is `msg_` followed by the decimal index |
| Persistence.EntryKeysDistinct | main/chat_storage.h:13-14 | distinct indices have distinct keys, and no entry key is the count key |
| Persistence.SplitAt | main/chat_storage.c:96-98 | splitting at the first separator fails exactly when none exists, and otherwise rejoins to the input |
| Persistence.SplitAtJoined | main/chat_storage.c:96-108 | a separator-free first piece splits back off |
| Persistence.Encode | main/chat_storage.c:57-59 | the entry fits its buffer and is a prefix of the full text; a message whose fields fit is never cut |
| Persistence.SplitFields | main/chat_storage.c:96-109 | a successful three-way split rejoins to the entry with separator-free fields |
| Persistence.SplitFieldsJoined | main/chat_storage.c:96-109 | three separator-free fields and any remainder split back apart |
| Persistence.FromRaw | main/chat_storage.c:138-141 | decoded fields are cut to fit their buffers |
| Persistence.LegacyInput | main/chat_storage.c:96-124 | the JSON fallback sees the entry cut at its first separator |
| Persistence.Decode | main/chat_storage.c:96-148 | a three-separator entry always decodes by the simple format; otherwise decoding succeeds exactly when the legacy decoder accepts the cut entry |
| Persistence.DecodeEncode | main/chat_storage.c:58-115 | encode then decode returns the message when no field holds a separator and the timestamp fits an `int` |
| Persistence.SeparatorInTextCutsText | main/chat_storage.c:58-115 | a separator in the text cuts the text there, and the timestamp is `atoi` of what follows |
| Persistence.SeparatorInTextZeroesTimestamp | main/chat_storage.c:105-115 | when the text after the separator starts with a letter the message comes back with its text cut and timestamp 0 |
| Persistence.OverlayHoldsEntries | main/chat_storage.c:482-491 | each written entry holds its encoded message |
| Persistence.OverlayFrame | main/chat_storage.c:482-491 | the writes touch only the keys of the entries written |
| Persistence.CountKeyNotWritten | main/chat_storage.h:13-14 | no entry write overwrites the count |
| Persistence.SaveHistory | main/chat_storage.c:406-510 | an empty store writes nothing and reports success; an open or count failure changes nothing; otherwise the count and then the entries are written in logical order, the first failed write stops the save without a commit; each status is reported exactly when its step is the first to fail, and success exactly when every step succeeded; and only the count key and the written entries change |
| Persistence.WriteEntries | main/chat_storage.c:482-491 | the loop writes a prefix of the entries and stops exactly at the first failed write |
| Persistence.ReadEntry | main/chat_storage.c:72-93 | a loaded entry fits the slot buffers |
| Persistence.LoadLoop | main/chat_storage.c:542-550 | entry i lands in slot i when it decodes, a failed entry leaves its slot alone, and the loaded count is the number that decoded |
| Persistence.LoadHistory | main/chat_storage.c:519-563 | without an open storage or a positive count nothing changes; otherwise entries below min(count,100) go to their own slots, `count` is the number decoded and `next_index` that number modulo 100 |
| Persistence.LoadAllPresent | main/chat_storage.c:542-554 | when every visited entry decodes, the load shows them in index order |
| Persistence.SaveLoadRoundTrip | main/chat_storage.c:406-554 | what a successful save leaves behind loads back as the same oldest-first history, when no field holds the `SEP` separator and every timestamp fits an `int` |
| Persistence.LoadLeavesHole | main/chat_storage.c:542-554 | a failed entry 0 followed by a good entry 1 loads as count 1 showing the stale slot 0 |
| Persistence.HoleStorageHasHole | main/chat_storage.c:72-81 | a storage missing entry 0 but holding entry 1 has such a hole |
| Persistence.HoleStorageLoad | main/chat_storage.c:542-554 | loaded into the empty store, such a storage shows a zeroed message instead of the saved one |
| Persistence.CompactingLoadLoop | main/chat_storage.c:542-554 | the corrected loop places decoded entries into consecutive slots |
| Persistence.LoadHistoryCompacting | main/chat_storage.c:519-563 | the corrected load rebuilds exactly the decoded entries in stored order |
| Persistence.CompactingLoadFillsHole | main/chat_storage.c:542-554 | on a storage with a hole the corrected load keeps entry 1's message |
| Persistence.HoleStorageCompactingLoad | main/chat_storage.c:542-554 | loaded into the empty store, the corrected load shows the saved message |
| Persistence.SaveLoadCompactingRoundTrip | main/chat_storage.c:406-554 | the corrected load also reads back a successful save, when no field holds the `SEP` separator and every timestamp fits an `int` |
| Uuid.StampVersion | main/chat_server.c:57-59 | byte 6 gets version nibble 4 and byte 8 variant bits `10`; their other bits and every other byte are kept |
| Uuid.StampVersionFixedPoints | main/chat_server.c:57-59 | stamping changes nothing exactly when the bytes are already version 4 |
| Uuid.StampVersionIdempotent | main/chat_server.c:57-59 | stamping twice is stamping once |
| Uuid.Format | main/chat_server.c:61-66 | the text form has 36 characters |
| Uuid.Parse | main/chat_server.c:61-66 | exactly canonical 8-4-4-4-12 lower-case hex text reads back, to sixteen bytes |
| Uuid.FormatIsUuidText | main/chat_server.c:61-66 | the text has hyphens at 8, 13, 18 and 23 and lowercase hex elsewhere |
| Uuid.ParseFormat | main/chat_server.c:61-66 | parsing the text of any sixteen bytes gives the bytes back |
| Uuid.FormatParse | main/chat_server.c:61-66 | formatting what canonical text parses to gives the text back |
| Uuid.GenerateUuid | main/chat_server.c:52-67 | the identifier is canonical text that fits its buffer, with `4` at position 14, one of `89ab` at 19, and it parses back to the stamped bytes |
| Uuid.GenerateUuidInjective | main/chat_server.c:52-67 | two identifiers are equal exactly when the random bytes agree outside the forced bits |
| Sse.AddClient | main/chat_server.c:194-206 | a successful allocation prepends the connection with no duplicate check or bound; a failed one changes nothing |
| Sse.FirstIndex | main/chat_server.c:211-221 | the walk finds the first node matching both handle and socket, or none exactly when absent |
| Sse.RemoveClient | main/chat_server.c:209-224 | removal shortens the list by one exactly when the connection is registered |
| Sse.RemoveClientSpec | main/chat_server.c:211-221 | removal unlinks only the first matching node and keeps the rest in order; with no match the list is unchanged |
| Sse.RemoveClientMultiset | main/chat_server.c:211-221 | removal takes out exactly one copy of the connection |
| Sse.RemoveAfterAdd | main/chat_server.c:194-224 | registering and then removing a connection restores the registry |
| Sse.RemoveTwice | main/chat_server.c:211-221 | a second removal of a single registration changes nothing |
| Sse.DuplicateSurvivesRemoval | main/chat_server.c:196-221 | a connection registered twice stays registered after one removal |
| Sse.Notify | main/chat_server.c:227-240 | every registered client, in list order, receives the same frame, and the registry is returned whole |
| Sse.NotifyReachesEveryClient | main/chat_server.c:229-237 | every registered connection receives the frame and stays registered |
| Sse.Frame | main/chat_server.c:232-233 | when name and data hold no line feed, the frame's lines are the event line, the data line, a blank line, the retry line and a blank line |
| Sse.FrameText | main/chat_server.c:232-233 | the frame is `event: ` name, `\ndata: ` data, `\n\nretry: 3000\n\n` |
| Sse.ReadFrame | main/chat_server.c:232-233 | to a reader between events a frame is one event with the broadcast's name and data, and it sets the reconnection time to 3000 |
| Sse.ReadSingleFrame | main/chat_server.c:232-233 | a fresh reader given one frame holds exactly that event and the retry time |
| Sse.LinesJoin | main/chat_server.c:232-233 | lines without line feeds, each terminated, split back into the same lines |
| Sse.ParseFieldOf | main/chat_server.c:232-233 | a `field: value` line parses back to its field and value |
| ChatServer.AddChatMessage | main/chat_server.c:139-162 | the insert keeps the ring invariant, appends the stored message to the view (evicting at capacity) and starts one save |
| ChatServer.AddAllFromInitial | main/chat_server.c:139-182 | after k posts from start-up the listing is the last min(k,100) stored messages in order, and k saves were started |
| ChatServer.Rejection | main/chat_server.c:311-331 | a post is rejected exactly unless it is JSON with all three members and a text within the limit; invalid JSON and an overlong text get their own messages |
| ChatServer.Handle | main/chat_server.c:311-354 | invalid JSON, a missing member and an overlong text are each rejected with 400 and change nothing; status 201 happens exactly for a complete body within the limit, which is stored and announced with the submitted fields |
| ChatServer.PostMessage | main/chat_server.c:287-361 | 201 exactly for a complete body whose text has at most 150 bytes; a longer text gives 400 "Message too long" and changes nothing |
| ChatServer.AcceptedIsNewest | main/chat_server.c:334 | after an accepted post the newest stored message is the posted one as stored |
| ChatServer.ExactCapTruncates | main/chat_server.c:327-331 | a 150-byte text passes the length check and is announced whole, but the 150-byte buffer it is copied into (line 145) keeps only its first 149 bytes |
| ChatServer.PostMessageChecked | main/chat_server.c:327-331 | the narrower repair (limit lowered to 149 bytes): 201 exactly for a complete body whose text has fewer than 150 bytes |
| ChatServer.CheckedStoresWhatItAnnounces | main/chat_server.c:334-350 | with the narrower repair the stored text is the announced text |
| ChatServer.AddWide | main/chat_server.c:139-156 | with a 151-byte text slot an insert appends the copied record to the history, drops the oldest at capacity and starts one save |
| ChatServer.PostMessageWide | main/chat_server.c:311-354 | the documented limit with a 151-byte text slot: 201 exactly for a complete body whose text has at most 150 bytes, and the newest stored text is then the submitted text, as announced |
| ChatServer.WideStoresWhatItAnnounces | main/chat_server.c:327-350 | with the 151-byte slot every text of at most 150 bytes is accepted, stored whole and announced whole |
| ChatServer.WideAgreesBelowCap | main/chat_server.c:327-345 | for texts under 150 bytes the widened store answers, announces and lists exactly what the as-written store does |
| Rest.ContentType | main/rest_server.c:54-71 | the type is one of the six listed types or `text/plain`; a `.html` suffix in any case gives `text/html`; `text/plain` only when no listed suffix matches |
| Rest.FirstMatchSpec | main/rest_server.c:57-69 | the table lookup finds nothing exactly when no suffix matches, and otherwise gives the type of the first matching suffix |
| Rest.ContentTypeIsFirstMatch | main/rest_server.c:54-71 | the chain of checks is the first match in the order .html, .js, .css, .png, .ico, .svg, and `text/plain` otherwise |
| Rest.DefaultIffNoSuffix | main/rest_server.c:56 | `text/plain` is chosen exactly when no listed suffix matches |
| CStr.EndsWithIgnoreCase | main/rest_server.c:43 | the macro's test holds exactly when each of the last characters equals the suffix's character up to letter case; a suffix spelled as listed always matches |
| Rest.ContentTypeIgnoresCase | main/rest_server.c:43 | paths that agree up to letter case get the same type |
| Rest.SameSuffixIgnoringCase | main/rest_server.c:43 | the suffix test cannot tell apart paths that agree up to letter case |
| Rest.SuffixSelectsType | main/rest_server.c:57-69 | any name ending in a listed suffix gets exactly that suffix's type |
| Rest.FilePath | main/rest_server.c:91-96 | the path is the web root followed by `/index.html` for a URI ending in `/` (else the URI), cut to fit `FILE_PATH_MAX`, and whole when it fits |
| Rest.DirectoryUriServesRootIndex | main/rest_server.c:92-93 | every URI ending in `/` opens the root's index page, whatever directory it names |
| Rest.TerminatorIndex | main/rest_server.c:149-167 | the body is accepted exactly when its length read as an `int` is below 10240, and the terminator goes at that index; lengths below 2^31 are accepted exactly when below 10240 |
| Rest.ToInt32 | main/rest_server.c:149 | a length up to `INT_MAX` keeps its value; a larger one wraps to a negative one |
| Rest.HugeLengthPassesGuard | main/rest_server.c:149-157 | every length of 2^31 or more passes the guard and puts the terminator before the buffer |
| Rest.TerminatorIndexChecked | main/rest_server.c:154-157 | with an unsigned comparison a body is accepted exactly when its length is below 10240 |
| Rest.CheckedTerminatorInBuffer | main/rest_server.c:154-167 | with the unsigned comparison an accepted terminator lies inside the buffer, and acceptance agrees with the original guard on every length up to `INT_MAX` |

## Left out

- Sockets, HTTP request reception, file reading and chunked sending: I/O with no logic to state beyond the helpers modelled.
- The system-information and temperature handlers, and the body parsing after the size guard: they only print and parse JSON.
- FreeRTOS locks, tasks and `vTaskDelay`. The code is modelled as sequential.
  - Locks that wait without bound always succeed.
  - The 1000 ms lock of the since-query is a boolean input.
  - The separate save task is a "save requested" flag.
  - A failure to create that task falls back to the same save, so it is not distinguished.
- cJSON parsing, printing and string escaping, which is a foreign library.
  - Rendering is the ordered sequence of records.
  - The legacy entry decoder and the printer of an announced message are function parameters.
- Allocation failures: every `malloc`, `strdup` and `asprintf` is taken to succeed.
  - Exception: `add_sse_client`, whose allocation result is an input.
  - So the out-of-memory replies of the since-query, a failed cache copy and a dropped frame for one client are not modelled.
- The storage library's internals. Storage is a map from key to value.
  - The success of open, count write, each entry write and commit are inputs to a save.
  - A commit failure is reported, but the written keys are modelled as present anyway.
  - The failure of storage initialisation at start-up is not modelled.
- The raw-memory blob persistence of the older store (`main/chat_server.c:70-136`): a memory image, not a codec. `ChatServer.AddChatMessage` counts the saves it starts instead.
- The NULL dereferences in `post_message_handler` when a member is missing (`main/chat_server.c:316-318`): a crash path. `ChatServer.Body` reads a missing member as absent, so the handler's own "Missing required fields" branch is taken.
- The keep-alive loop of `sse_handler`, its one-second ping, and the initial `messages` frame it sends: they run on a socket until a send fails.
- `Sse.Notify`: sends are not observed, as in the source. A client whose socket fails stays registered.
- The reader models line-feed line endings only. Carriage returns and the `id` field of the event-stream format are not modelled, because the frame never uses them.
- `ESP_VFS_PATH_MAX`: `esp_vfs.h` is not part of this model. Its ESP-IDF value of 15 is taken.
- `Rest.ContentType` requires a path of at least 5 bytes. The macro indexes `strlen(path) - strlen(".html")`, which reads before a shorter path.
- `ChatStorage.GetMessagesSince`: the NULL reply for a store that has no lock (`main/chat_storage.c:296-299`), before `chat_storage_init` creates it or after `chat_storage_deinit` deletes it, is not modelled. The store is always taken to have its lock, and `ChatStorage.Run` lets operations follow `DeinitOp`.
- `ChatStorage.AddMessage` accepts empty fields, because the code rejects only NULL ones.
- The since reply has no `server_time` member, because the code adds none.
- `Sse.AddClient`: the registry has no capacity bound and no purge of idle clients, because the code has neither.
- `Sse.RemoveClient`: its own contract states only the length change. The full behaviour (first match unlinked, order kept) is in `Sse.RemoveClientSpec`.
- `Persistence.SaveLoadRoundTrip`: the round trip is claimed only when no field holds `|` and every timestamp is at most `INT_MAX`, because outside that domain the code loses data across a reboot. A field holding `|` comes back cut at the separator, and the timestamp becomes `atoi` of what follows (`Persistence.SeparatorInTextCutsText`): a saved text `x|y` with timestamp 5 loads back as `x` with timestamp 0.
- `Persistence.SaveLoadCompactingRoundTrip`: claimed on the same domain as `Persistence.SaveLoadRoundTrip`, for the same reason.
- `Persistence.DecodeEncode`: the round trip is claimed only for timestamps up to `INT_MAX`. `atoi` saturates on larger ones, which then come back as `INT_MAX`.
- `ChatServer.WideServer`: the store with the widened text slot is modelled only through the history it lists, oldest first, and its save count. Its ring layout and its blob image are not modelled: the ring invariant `RingBuffer.Valid` is stated for the 150-byte slot.
- `ChatServer.Handle` does not check the uuid or username length: the handler stores them cut to their buffers and announces them whole, as written.

## Findings

| source | as written | input that shows it | evidently intended | confidence | as-written member | corrected member |
|---|---|---|---|---|---|---|
| main/chat_storage.c:542-554 | entry i is loaded into slot i and `count` becomes the number of entries that decoded, so a failed entry leaves a stale slot inside the visible range and a later good entry falls outside it | a count of 2, entry 0 missing and entry 1 a valid message `m`: the store shows one zeroed message instead of `m` | each decoded entry goes to the next free slot, so the store holds exactly the decoded entries in order | not executed | Persistence.HoleStorageLoad | Persistence.HoleStorageCompactingLoad |
| main/chat_server.c:327-331 | the length check rejects only texts longer than 150 bytes, but the text buffer holds 149 bytes and a terminator | a 150-byte text: accepted with 201 and announced whole, but stored without its last byte | a text of up to 150 bytes, the largest message length `chat_storage.h` declares, is stored whole, so the history holds what the clients were told. The repair that keeps the documented limit gives the text slot 151 bytes; the narrower one, rejecting 150-byte texts, is `ChatServer.PostMessageChecked` | not executed | ChatServer.ExactCapTruncates | ChatServer.WideStoresWhatItAnnounces |
| main/rest_server.c:149-157 | the body length is read into an `int` and compared signed, so a length of 2^31 or more turns negative and passes the guard | a content length of 2^31 on a 32-bit target: accepted, and the terminator index is negative | the length is compared before the conversion, so only bodies that fit the scratch buffer are accepted | not executed | Rest.HugeLengthPassesGuard | Rest.CheckedTerminatorInBuffer |
