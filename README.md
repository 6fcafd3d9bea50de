# Presence hub, wire codecs, client view and version sync — a Dafny model

This project models four parts of a personal website's repository.

- **The presence hub** (`apps/presence`). This WebSocket server hands every
  connection a small numeric id. It keeps a registry of open connections by
  id and a directory of rooms, each room an insertion-ordered set of its
  members. Clients switch rooms and report pointer coordinates. The hub
  answers each connection and publishes room changes and pointer moves to the
  room's topic `room:<name>`.
- **The wire format** (`packages/net-utils`). Server-to-client and
  client-to-server updates are Borsh structs. They are built from
  `option`, `u16`, `u32`, `f32`, `string` (u32 length + UTF-8) and `vec`
  (u32 count + items).
- **The browser-side reducer** (`apps/web/src/presence`). It folds decoded
  server updates into the client's presence state, clears that state on
  disconnect, and maps the socket's ready state to a connection state.
- **Version sync** (`tooling/package-version-sync`). Given Cargo.toml and
  package.json contents, it decides whether the versions agree. If they do
  not, it decides which file to rewrite, using an optional source of truth
  and otherwise semantic-version order. The rewrite is a textual replace of
  the version line.

## How the model is organised

| file | module | form |
|---|---|---|
| wrappers.dfy | `Wrappers` | `Option`/`Result` and `Overwrite` (a nullable field update) |
| bytes.dfy | `ByteSeq` | bytes, proper prefixes |
| utf8.dfy | `Utf8` | strict UTF-8 encoding and decoding, both round trips |
| borsh.dfy | `Borsh` | primitive encoders and decoders as functions, with generic round-trip and truncation laws |
| server_update.dfy | `ServerCodec` | the `ServerUpdate` schema |
| client_update.dfy | `ClientCodec` | the `ClientUpdate` schema |
| client_data.dfy | `PresenceClient` | the per-socket `ClientData` object (a class) and the id counter (a class with a mutable field) |
| insertion_set.dfy | `InsertionSet` | a JavaScript `Set` as a duplicate-free sequence in insertion order |
| presence_server.dfy | `PresenceHub` | the hub as a class. Its fields are the registry, the room directory, the transport's subscription relation and an append-only outbox of sent, published and closed events. Each handler is a method proved against pure functions of the old state. |
| presence_state.dfy | `PresenceView` | the client's presence state as a class. `handleServerUpdate` is a method with the source's two loops, proved against `UpsertAll`/`RemoveAll`. |
| semver.dfy | `SemVer` | parsed versions and their order |
| version_sync.dfy | `VersionSync` | `sync_contents` and the two patch functions, pure |

The hub's invariant `PresenceHub.Hub.Valid` relates these parts of the state:
- A client is in room `r`'s member set exactly when its `roomName` is `r`.
- No room is empty.
- The subscription relation is exactly "member of `r` listens to `room:r`".
- The registry holds open connections under their own ids.
- Every id is below 65535.

Every handler preserves the invariant.

## Model

| member | source | states |
|---|---|---|
| Wrappers.Overwrite | apps/web/src/presence/controller.tsx:43-55 | a present update replaces the stored value, an absent one keeps it, and a stored value never becomes absent |
| ByteSeq.SplitPrefix | packages/net-utils/src/net/server.ts:3-17 | a proper prefix of `b + t` is a proper prefix of `b`, or `b` followed by a proper prefix of `t` |
| Utf8.EncodeChar | packages/net-utils/src/net/server.ts:5 | every character encodes in 1 to 4 bytes |
| Utf8.DecodeChar | packages/net-utils/src/net/server.ts:5 | a decoded character consumes 1 to 4 bytes that are present |
| Utf8.DecodeEncodeChar | packages/net-utils/src/net/server.ts:5 | a character's encoding decodes to that character, consuming exactly its bytes, whatever follows |
| Utf8.EncodeAppend | packages/net-utils/src/net/server.ts:5 | encoding distributes over concatenation |
| Utf8.DecodeEncode | packages/net-utils/src/net/server.ts:5 | strict decoding inverts encoding on every string |
| Utf8.DecodeCharCanonical | packages/net-utils/src/net/server.ts:5 | every accepted byte sequence is the canonical encoding of the character it decodes to |
| Utf8.TwoByteCanonical | packages/net-utils/src/net/server.ts:5 | an accepted two-byte sequence is its character's canonical encoding |
| Utf8.ThreeByteCanonical | packages/net-utils/src/net/server.ts:5 | an accepted three-byte sequence is its character's canonical encoding |
| Utf8.FourByteCanonical | packages/net-utils/src/net/server.ts:5 | an accepted four-byte sequence is its character's canonical encoding |
| Utf8.DecodeFront | packages/net-utils/src/net/server.ts:5 | decoding non-empty bytes yields the first character followed by the decoding of the rest |
| Utf8.EncodeFront | packages/net-utils/src/net/server.ts:5 | a character's bytes followed by the rest's encoding are the encoding of the whole string |
| Utf8.EncodeDecode | packages/net-utils/src/net/server.ts:5 | encoding inverts decoding: every accepted byte string is re-encoded byte for byte |
| Borsh.EncodeU16 | packages/net-utils/src/net/server.ts:6 | succeeds exactly below 2^16, in 2 bytes |
| Borsh.DecodeU16 | packages/net-utils/src/net/server.ts:6 | succeeds exactly when 2 bytes remain; the value is below 2^16, and the rest follows those bytes |
| Borsh.EncodeU32 | packages/net-utils/src/net/server.ts:4 | succeeds exactly below 2^32, in 4 bytes |
| Borsh.DecodeU32 | packages/net-utils/src/net/server.ts:4 | succeeds exactly when 4 bytes remain; the value is below 2^32, and the rest follows those bytes |
| Borsh.EncodeF32 | packages/net-utils/src/net/server.ts:11 | every float encodes in 4 bytes |
| Borsh.DecodeF32 | packages/net-utils/src/net/server.ts:11 | succeeds exactly when 4 bytes remain |
| Borsh.U16Laws | packages/net-utils/src/net/server.ts:6 | u16 decoding inverts encoding whatever follows, and rejects every proper prefix of an encoding |
| Borsh.U32Digits | packages/net-utils/src/net/server.ts:4 | a value below 2^32 is the sum of its four little-endian bytes |
| Borsh.U32Laws | packages/net-utils/src/net/server.ts:4 | u32 decoding inverts encoding whatever follows, and rejects every proper prefix of an encoding |
| Borsh.F32Laws | packages/net-utils/src/net/server.ts:11 | f32 decoding inverts encoding, and rejects every proper prefix |
| Borsh.EncodeString | packages/net-utils/src/net/server.ts:5 | succeeds exactly when the UTF-8 length fits the u32 length prefix |
| Borsh.DecodeString | packages/net-utils/src/net/server.ts:5 | a decoded string's UTF-8 length fits a u32 |
| Borsh.StringLaws | packages/net-utils/src/net/server.ts:5 | string decoding inverts encoding whatever follows, and rejects every proper prefix of an encoding |
| Borsh.EncodeOption | packages/net-utils/src/net/server.ts:4-7 | an option encodes exactly when its value (if any) encodes |
| Borsh.DecodeTag | packages/net-utils/src/net/server.ts:4-7 | an accepted tag consumes exactly one byte |
| Borsh.OptionRoundTrip | packages/net-utils/src/net/server.ts:4-7 | option decoding inverts option encoding, given that the item codec round-trips |
| Borsh.OptionTruncated | packages/net-utils/src/net/server.ts:4-7 | a proper prefix of an encoded option is rejected, given that the item decoder rejects proper prefixes |
| Borsh.EncodeItems | packages/net-utils/src/net/server.ts:8-14 | a sequence of items encodes exactly when each item does |
| Borsh.EncodeVec | packages/net-utils/src/net/server.ts:8-14 | a vec encodes exactly when its length fits the u32 count and each item encodes |
| Borsh.SingletonVec | packages/net-utils/src/net/server.ts:8-14 | a one-item vec is the count 1 in four little-endian bytes, then the item's bytes |
| Borsh.DecodeItems | packages/net-utils/src/net/server.ts:8-14 | decoding `n` items yields exactly `n` items |
| Borsh.DecodeVec | packages/net-utils/src/net/server.ts:8-14 | a decoded vec's length fits a u32 |
| Borsh.ItemsRoundTrip | packages/net-utils/src/net/server.ts:8-14 | decoding `|xs|` items inverts encoding them, given a round-tripping item codec |
| Borsh.ItemsTruncated | packages/net-utils/src/net/server.ts:8-14 | a proper prefix of encoded items is rejected |
| Borsh.VecRoundTrip | packages/net-utils/src/net/server.ts:8-14 | vec decoding inverts vec encoding whatever follows |
| Borsh.VecTruncated | packages/net-utils/src/net/server.ts:8-14 | a proper prefix of an encoded vec is rejected |
| Borsh.DecodedItemsSatisfy | packages/net-utils/src/net/server.ts:8-14 | every decoded item meets what the item decoder guarantees |
| Borsh.DecodedVecSatisfies | packages/net-utils/src/net/server.ts:8-14 | every item of a decoded vec meets what the item decoder guarantees |
| Borsh.TestStringBytes | packages/net-utils/src/net/server.ts:5 | `Some("test")` encodes as tag 1, length 4, then the ASCII bytes |
| ServerCodec.EncodePointer | packages/net-utils/src/net/server.ts:11-12 | an optional pointer coordinate always encodes |
| ServerCodec.EncodeEntry | packages/net-utils/src/net/server.ts:9-13 | a client entry encodes exactly when its id fits a u32 |
| ServerCodec.DecodeEntry | packages/net-utils/src/net/server.ts:9-13 | a decoded entry's id fits a u32 |
| ServerCodec.DecodeEntries | packages/net-utils/src/net/server.ts:7-15 | every decoded entry's id fits a u32 |
| ServerCodec.DecodeIds | packages/net-utils/src/net/server.ts:16 | every decoded removed id fits a u32 |
| ServerCodec.SerializeServerUpdate | packages/net-utils/src/net/server.ts:20-22 | serialization succeeds exactly on updates whose numbers fit their fields (u32 ids, u16 count) and whose lengths fit |
| ServerCodec.DeserializeServerUpdate | packages/net-utils/src/net/server.ts:24-26 | every accepted update is well typed |
| ServerCodec.PointerLaws | packages/net-utils/src/net/server.ts:11-12 | the optional-f32 codec round-trips and rejects proper prefixes |
| ServerCodec.EntryRoundTrip | packages/net-utils/src/net/server.ts:9-13 | entry decoding inverts entry encoding whatever follows |
| ServerCodec.EntryTruncated | packages/net-utils/src/net/server.ts:9-13 | a proper prefix of an encoded entry is rejected |
| ServerCodec.EntryLaws | packages/net-utils/src/net/server.ts:9-13 | the entry codec round-trips and rejects proper prefixes |
| ServerCodec.EntriesLaws | packages/net-utils/src/net/server.ts:8-14 | the entry-vec codec round-trips and rejects proper prefixes |
| ServerCodec.IdsLaws | packages/net-utils/src/net/server.ts:16 | the id-vec codec round-trips and rejects proper prefixes |
| ServerCodec.FieldsRoundTrip | packages/net-utils/src/net/server.ts:3-17 | the five fields decode back whatever follows |
| ServerCodec.RoundTrip | packages/net-utils/src/net/server.ts:20-26 | every well-typed update serializes, and deserializing the bytes gives it back |
| ServerCodec.TrailingBytesRejected | packages/net-utils/src/net/server.ts:24-26 | bytes after a complete update are an error that reports how many there are |
| ServerCodec.FieldsTruncated | packages/net-utils/src/net/server.ts:3-17 | a proper prefix of the five encoded fields is rejected |
| ServerCodec.TruncatedRejected | packages/net-utils/src/net/server.ts:24-26 | every proper prefix of a serialized update fails to deserialize |
| ServerCodec.ExampleEntryEncoding | packages/net-utils/src/net/server.test.ts:10 | the entry `{id 1, x 100, y 50}` has the given byte layout |
| ServerCodec.ExampleEntryVec | packages/net-utils/src/net/server.test.ts:10 | a vec of that entry is its count followed by its bytes |
| ServerCodec.ExampleEntryBytes | packages/net-utils/src/net/server.test.ts:10 | the present list of that entry is tag 1 followed by the vec |
| ServerCodec.FullExampleFields | packages/net-utils/src/net/server.test.ts:5-17 | the fully populated example's fields have the given bytes |
| ServerCodec.FullyPopulatedExample | packages/net-utils/src/net/server.test.ts:5-17 | that update serializes to those bytes, and they deserialize back to it |
| ServerCodec.AbsentCountExample | packages/net-utils/src/net/server.test.ts:34-45 | an update with absent client count deserializes back to itself |
| ServerCodec.ThreeAbsentTagsRejected | packages/net-utils/src/net/server.test.ts:47-51 | `[0,0,0]` runs out of input, so it is rejected |
| ClientCodec.SerializeClientUpdate | packages/net-utils/src/net/client.ts:14-16 | serialization succeeds exactly on well-typed updates (room name within the u32 length) |
| ClientCodec.DeserializeClientUpdate | packages/net-utils/src/net/client.ts:10-12 | every accepted update is well typed |
| ClientCodec.FieldsRoundTrip | packages/net-utils/src/net/client.ts:3-7 | the three fields decode back whatever follows |
| ClientCodec.RoundTrip | packages/net-utils/src/net/client.ts:10-16 | every well-typed update serializes and deserializes back to itself |
| ClientCodec.TrailingBytesRejected | packages/net-utils/src/net/client.ts:10-12 | bytes after a complete update are an error |
| ClientCodec.FieldsTruncated | packages/net-utils/src/net/client.ts:3-7 | a proper prefix of the encoded fields is rejected |
| ClientCodec.TruncatedRejected | packages/net-utils/src/net/client.ts:10-12 | every proper prefix of a serialized update fails to deserialize |
| ClientCodec.ExampleFields | packages/net-utils/src/net/client.test.ts:5-14 | the example `{"test", 100, 50}`'s fields have the given bytes |
| ClientCodec.Example | packages/net-utils/src/net/client.test.ts:29-38 | the example serializes to those bytes and deserializes back |
| ClientCodec.ShortInputRejected | packages/net-utils/src/net/client.test.ts:40-44 | `[1,2,3]` runs out of input, so it is rejected |
| PresenceClient.ClientData.constructor | apps/presence/src/client.ts:6-12 | a new client record has its id and no room or pointer |
| PresenceClient.NextId | apps/presence/src/client.ts:16-21 | the issued id is below 65535; a counter at 65535 or above restarts at 0; the counter moves one past the issued id |
| PresenceClient.ModSucc | apps/presence/src/client.ts:16-21 | counting modulo 65535 steps by one and wraps to 0 |
| PresenceClient.IdsCycle | apps/presence/src/client.ts:14-21 | the k-th id issued is k mod 65535 |
| PresenceClient.IdAllocator.constructor | apps/presence/src/client.ts:14 | the counter starts at 0 |
| PresenceClient.IdAllocator.NextClientId | apps/presence/src/client.ts:16-21 | the id and the new counter are `NextId` of the old counter, and the k-th call returns k mod 65535 |
| InsertionSet.AddFacts | apps/presence/src/main.ts:72-75 | adding keeps the elements and adds `x`, keeps them distinct, appends a new element at the end, and leaves the set alone when `x` is already there |
| InsertionSet.RemoveFacts | apps/presence/src/main.ts:118 | removing drops exactly `x`, keeps the order and distinctness, and shrinks the set by one when `x` was there |
| InsertionSet.RemoveAdd | apps/presence/src/main.ts:72-118 | removing what was just added restores the set |
| PresenceHub.RoomTopic | apps/presence/src/main.ts:18 | the topic is `room:` followed by the room name |
| PresenceHub.RoomTopicInjective | apps/presence/src/main.ts:18 | different rooms have different topics |
| PresenceHub.WelcomeSerializes | apps/presence/src/main.ts:42-48 | a welcome with an issued id and a registry size of at most 65535 fits the wire format |
| PresenceHub.Snapshot | apps/presence/src/main.ts:83-87 | one entry per member, in order, carrying its id and pointer |
| PresenceHub.Ids | apps/presence/src/main.ts:105-107 | the members' ids, in order |
| PresenceHub.JoinThenLeave | apps/presence/src/main.ts:72-135 | joining a room and leaving it restores the directory, deleting a room created by the join |
| PresenceHub.LeaveFacts | apps/presence/src/main.ts:118-135 | leaving drops exactly the client, deletes the room when it empties, and leaves other rooms alone |
| PresenceHub.JoinFacts | apps/presence/src/main.ts:72-76 | joining appends the client to the room, creating it if needed, and leaves other rooms alone |
| PresenceHub.SwitchRooms | apps/presence/src/main.ts:63-76 | a switch removes the client from the old room, appends it to the new one, and changes nothing else |
| PresenceHub.LeaveAgrees | apps/presence/src/main.ts:94-136 | leaving keeps the directory in agreement with the clients' room names |
| PresenceHub.JoinAgrees | apps/presence/src/main.ts:72-76 | joining keeps the directory in agreement with the clients' room names |
| PresenceHub.UnsubscribeAgrees | apps/presence/src/main.ts:120-122 | unsubscribing from the room's topic keeps subscriptions equal to memberships |
| PresenceHub.SubscribeAgrees | apps/presence/src/main.ts:78 | subscribing to the new room's topic keeps subscriptions equal to memberships |
| PresenceHub.DropAgrees | apps/presence/src/main.ts:176-182 | when a socket closes, its subscriptions go with it |
| PresenceHub.CloseAgrees | apps/presence/src/main.ts:176-182 | a closed client in no room can be forgotten without breaking the directory |
| PresenceHub.OpenAgrees | apps/presence/src/main.ts:168-174 | an opened socket in no room keeps both agreements |
| PresenceHub.LeaveEventsFacts | apps/presence/src/main.ts:105-131 | a leave tells the leaver every id of the room it leaves (unless closing) and tells the room the leaver's id and the new size |
| PresenceHub.JoinerListedLast | apps/presence/src/main.ts:72-87 | the join reply lists the room's other members in join order, then the joiner |
| PresenceHub.SnapshotAppend | apps/presence/src/main.ts:83-87 | snapshotting distributes over appending a member |
| PresenceHub.BelowCard | apps/presence/src/client.ts:16-21 | at most n distinct ids lie below n |
| PresenceHub.Hub.constructor | apps/presence/src/main.ts:36-37 | the hub starts with an empty registry, no rooms, no subscriptions and no messages |
| PresenceHub.Hub.HandleUpgrade | apps/presence/src/main.ts:141-166 | upgrade takes the next id and creates a pending client record with no room or pointer |
| PresenceHub.Hub.RegistryFits | apps/presence/src/client.ts:14-21 | the registry never holds more than 65535 clients, so its size fits the u16 client count |
| PresenceHub.Hub.AddClient | apps/presence/src/main.ts:39-49 | files the client under its id and sends it its id and the registry size, which serializes |
| PresenceHub.Hub.HandleOpen | apps/presence/src/main.ts:168-174 | opening a socket registers it and sends the welcome |
| PresenceHub.Hub.RemoveClientFromRoom | apps/presence/src/main.ts:94-139 | the room exists; the client leaves it; the room is deleted when it empties; the client is unsubscribed unless closing; the leave reply (unless closing) and the room notice are emitted in order |
| PresenceHub.Hub.LeaveCurrentRoom | apps/presence/src/main.ts:56-58 | leaves the current room if there is one, and otherwise changes nothing |
| PresenceHub.Hub.RemoveClient | apps/presence/src/main.ts:51-61 | leaves the room, then drops the id from the registry; afterwards no room lists the client |
| PresenceHub.Hub.HandleClose | apps/presence/src/main.ts:176-182 | a closing socket leaves its room without an unsubscribe or a leave reply, leaves the registry, and loses its subscriptions; the invariant holds again |
| PresenceHub.Hub.JoinRoom | apps/presence/src/main.ts:72-89 | appends the client to the room, subscribes it, and replies with the room name, the new size and every member's entry |
| PresenceHub.Hub.SetClientRoom | apps/presence/src/main.ts:63-92 | leaves the old room first, then joins the new one |
| PresenceHub.Hub.SwitchRoom | apps/presence/src/main.ts:203-205 | switches rooms only when the update names a room other than the current one |
| PresenceHub.Hub.MovePointer | apps/presence/src/main.ts:206-229 | present coordinates overwrite the stored ones; when either is present and the client is in a room, its entry is published there |
| PresenceHub.Hub.ApplyClientUpdate | apps/presence/src/main.ts:203-229 | the room step, then the pointer step, with their combined effect on the state and the outbox |
| PresenceHub.Hub.HandleMessage | apps/presence/src/main.ts:184-230 | a text frame or an undecodable one closes the socket and changes nothing else; a decoded update is applied |
| PresenceHub.Hub.RoomAudience | apps/presence/src/main.ts:78-122 | a room's topic reaches exactly the room's members |
| PresenceHub.Hub.Membership | apps/presence/src/main.ts:72-136 | no room is empty; each room lists only open clients that name it; an open client naming a room is listed there |
| PresenceHub.Hub.AtMostOneRoom | apps/presence/src/main.ts:68-76 | a client is listed in at most one room |
| PresenceView.ReadyStateToConnectionState | apps/web/src/presence/controller.tsx:19-36 | OPEN is connected, CONNECTING is connecting, CLOSING, CLOSED and UNINSTANTIATED are disconnected, and any other value is an error |
| PresenceView.ReadyStateTotal | apps/web/src/presence/controller.tsx:19-36 | the mapping is defined exactly on the five ready states, and connected exactly on OPEN |
| PresenceView.UpsertAllFacts | apps/web/src/presence/controller.tsx:57-74 | after the upserts, the map holds the old keys plus the mentioned ids, unmentioned entries are kept, and entries stay keyed by their own id |
| PresenceView.LastEntryWins | apps/web/src/presence/controller.tsx:61-72 | an id's pointer comes from its last entry in the update |
| PresenceView.RemoveAllFacts | apps/web/src/presence/controller.tsx:76-80 | after the removals, exactly the unlisted keys remain, with their entries unchanged |
| PresenceView.ApplyKeepsKeys | apps/web/src/presence/controller.tsx:57-80 | the clients map stays keyed by each client's own id |
| PresenceView.MapCreated | apps/web/src/presence/controller.tsx:57-60 | a client list creates the map when absent; otherwise presence is unchanged |
| PresenceView.RemovedIdsAbsent | apps/web/src/presence/controller.tsx:76-80 | a removed id is absent afterwards |
| PresenceView.UpsertedEntry | apps/web/src/presence/controller.tsx:57-80 | an upserted but not removed id is present with the pointer of its last entry |
| PresenceView.UnmentionedUnchanged | apps/web/src/presence/controller.tsx:57-80 | an id the update does not mention keeps its presence and its entry |
| PresenceView.PresenceState.constructor | apps/web/src/presence/state.ts:22-28 | the state starts disconnected with every field absent |
| PresenceView.PresenceState.HandleServerUpdate | apps/web/src/presence/controller.tsx:42-81 | present scalar fields overwrite; the clients map is upserted, created if need be, then pruned |
| PresenceView.PresenceState.UpsertClients | apps/web/src/presence/controller.tsx:61-73 | the loop's result is `UpsertAll` of the old map |
| PresenceView.PresenceState.RemoveClients | apps/web/src/presence/controller.tsx:77-79 | the loop's result is `RemoveAll` of the old map |
| PresenceView.PresenceState.OnClose | apps/web/src/presence/controller.tsx:106-110 | a disconnect clears id, room, count and clients |
| PresenceView.PresenceState.ReceiveBytes | apps/web/src/presence/controller.tsx:127-134 | bytes that do not deserialize change nothing; a decoded update is folded in as handleServerUpdate does |
| PresenceView.PresenceState.OnMessage | apps/web/src/presence/controller.tsx:117-135 | an ArrayBuffer is decoded and applied at once; a Blob only joins the reads awaiting `arrayBuffer()`, and the state is untouched; any other payload changes nothing |
| PresenceView.PresenceState.ResumeBlob | apps/web/src/presence/controller.tsx:121-134 | an awaited Blob, any one of them, finishes reading; its update is applied to the state as it is at that moment |
| PresenceView.StaleUpdateAfterClose | apps/web/src/presence/controller.tsx:106-134 | a Blob received before a disconnect and read after it restores the stale id and room that onClose cleared |
| PresenceView.PresenceState.SyncConnectionState | apps/web/src/presence/controller.tsx:140-142 | stores the mapped connection state, and keeps the old one when the mapping fails |
| SemVer.CompareNat | tooling/package-version-sync/src/lib.rs:240-251 | numeric comparison |
| SemVer.CompareTextLaws | tooling/package-version-sync/src/lib.rs:473-503 | text order is antisymmetric and equal only on equal text |
| SemVer.IdentifierLaws | tooling/package-version-sync/src/lib.rs:473-487 | identifier order is antisymmetric and equal only on equal identifiers |
| SemVer.IdentifiersLaws | tooling/package-version-sync/src/lib.rs:473-487 | pre-release lists order antisymmetrically and are equal only when identical |
| SemVer.PreLaws | tooling/package-version-sync/src/lib.rs:473-487 | the same for the pre-release order, in which an empty pre-release is highest |
| SemVer.DigitsDetermined | tooling/package-version-sync/src/lib.rs:489-503 | digit strings of equal length and value are equal |
| SemVer.BuildIdentifierLaws | tooling/package-version-sync/src/lib.rs:489-503 | build identifier order is antisymmetric and equal only on equal identifiers |
| SemVer.BuildLaws | tooling/package-version-sync/src/lib.rs:489-503 | build metadata order is antisymmetric and equal only on equal metadata |
| SemVer.CompareLaws | tooling/package-version-sync/src/lib.rs:212-260 | version order is antisymmetric, and two versions rank equal exactly when they are identical |
| SemVer.NewerTrichotomy | tooling/package-version-sync/src/lib.rs:240-262 | of two different versions exactly one is newer; equal ones are neither |
| SemVer.CoreDecides | tooling/package-version-sync/src/lib.rs:425-471 | a higher major, then minor, then patch is newer |
| SemVer.PreReleaseOlder | tooling/package-version-sync/src/lib.rs:473-487 | a pre-release is older than the plain release |
| SemVer.BuildMetadataNewer | tooling/package-version-sync/src/lib.rs:489-503 | build metadata makes a version newer than the same version without |
| SemVer.Examples | tooling/package-version-sync/src/lib.rs:425-503 | the orderings the tests rely on |
| VersionSync.CargoVersionLine | tooling/package-version-sync/src/lib.rs:42-45 | the searched line starts with `v` |
| VersionSync.JsonVersionMember | tooling/package-version-sync/src/lib.rs:53-56 | the searched member starts with `"v` |
| VersionSync.ErrorOrder | tooling/package-version-sync/src/lib.rs:193-210 | each error occurs exactly when every earlier check passed and its own failed; success exactly when both versions are valid |
| VersionSync.EqualVersionsUnchanged | tooling/package-version-sync/src/lib.rs:212-262 | with valid versions, no change is reported exactly when they are equal, whatever the source of truth |
| VersionSync.DifferentVersionsSynced | tooling/package-version-sync/src/lib.rs:216-260 | different versions rewrite the package.json with Cargo.toml's version when Cargo.toml is the source of truth or (without one) newer, and otherwise rewrite the Cargo.toml |
| VersionSync.NoOccurrence | tooling/package-version-sync/src/lib.rs:37-46 | text lacking one of the pattern's characters holds no occurrence |
| VersionSync.ReplaceNothing | tooling/package-version-sync/src/lib.rs:37-46 | replacing in text without occurrences changes nothing |
| VersionSync.NoOccurrenceAfterFirst | tooling/package-version-sync/src/lib.rs:37-46 | dropping a character keeps the absence of early occurrences |
| VersionSync.KeepFront | tooling/package-version-sync/src/lib.rs:37-46 | where no occurrence starts, the character is kept |
| VersionSync.ReplaceFirst | tooling/package-version-sync/src/lib.rs:37-46 | text before the first occurrence is kept, the occurrence is replaced, and the scan resumes after it |
| VersionSync.NoEarlyOccurrence | tooling/package-version-sync/src/lib.rs:37-46 | no occurrence starts in text lacking a pattern character that differs from the earlier ones |
| VersionSync.ReplaceSkips | tooling/package-version-sync/src/lib.rs:37-46 | text without the pattern's first character passes through, and the scan continues after it |
| VersionSync.ReplaceBetween | tooling/package-version-sync/src/lib.rs:37-46 | a single occurrence between pattern-free text is the only thing replaced |
| VersionSync.PatchCargoTemplate | tooling/package-version-sync/src/lib.rs:322-331 | patching the tests' Cargo.toml rewrites exactly its version |
| VersionSync.PatchJsonTemplate | tooling/package-version-sync/src/lib.rs:333-342 | patching the tests' package.json rewrites exactly its version |
| VersionSync.InlineTableRewritten | tooling/package-version-sync/src/lib.rs:37-46 | a dependency's inline table `foo = { version = "<v>" }` is rewritten to the new version too, for every `v` and `w` |
| VersionSync.ReplaceTail | tooling/package-version-sync/src/lib.rs:611-612 | the `[dev-dependencies]` table holds no version line |
| VersionSync.PatchComplexCargo | tooling/package-version-sync/src/lib.rs:601-635 | patching the complex Cargo.toml rewrites the package version and leaves both dependency tables alone |
| VersionSync.TestNewerWins | tooling/package-version-sync/src/lib.rs:344-389 | equal versions give no change; the older file takes the newer version |
| VersionSync.TestSourceOfTruth | tooling/package-version-sync/src/lib.rs:391-423 | the named source of truth wins even when it is older |
| VersionSync.TestNumericOrder | tooling/package-version-sync/src/lib.rs:425-471 | major, minor and patch differences rewrite the package.json |
| VersionSync.TestPreReleaseAndBuild | tooling/package-version-sync/src/lib.rs:473-503 | a pre-release Cargo.toml is rewritten to the release, and build metadata wins over none |
| VersionSync.TestComplexStructures | tooling/package-version-sync/src/lib.rs:601-661 | a complex Cargo.toml and a complex package.json are synced exactly as the tests expect |
| Utf8.Encode | packages/net-utils/src/net/server.ts:5 | no contract of its own; EncodeAppend, DecodeEncode and EncodeDecode describe it |
| Utf8.Decode | packages/net-utils/src/net/server.ts:5 | no contract of its own; DecodeFront, DecodeEncode and EncodeDecode describe it |
| Borsh.DecodeOption | packages/net-utils/src/net/server.ts:4-7 | no contract of its own; OptionRoundTrip and OptionTruncated describe it |
| ServerCodec.DecodePointer | packages/net-utils/src/net/server.ts:11-12 | no contract of its own; PointerLaws describes it |
| ServerCodec.EncodeEntries | packages/net-utils/src/net/server.ts:7-15 | no contract of its own; EntriesLaws and ExampleEntryVec describe it |
| ServerCodec.EncodeIds | packages/net-utils/src/net/server.ts:16 | no contract of its own; IdsLaws describes it |
| ServerCodec.EncodeFields | packages/net-utils/src/net/server.ts:3-17 | no contract of its own; FieldsRoundTrip, FieldsTruncated and FullExampleFields describe it |
| ServerCodec.DecodeFields | packages/net-utils/src/net/server.ts:3-17 | no contract of its own; FieldsRoundTrip and FieldsTruncated describe it |
| ClientCodec.EncodeFields | packages/net-utils/src/net/client.ts:3-7 | no contract of its own; FieldsRoundTrip, FieldsTruncated and ExampleFields describe it |
| ClientCodec.DecodeFields | packages/net-utils/src/net/client.ts:3-7 | no contract of its own; FieldsRoundTrip and FieldsTruncated describe it |
| PresenceClient.CounterAfter | apps/presence/src/client.ts:14-21 | no contract of its own; IdsCycle describes it |
| InsertionSet.Add | apps/presence/src/main.ts:74 | no contract of its own; AddFacts describes it |
| InsertionSet.Remove | apps/presence/src/main.ts:118 | no contract of its own; RemoveFacts and RemoveAdd describe it |
| PresenceHub.Welcome | apps/presence/src/main.ts:42-48 | no contract of its own; WelcomeSerializes and Hub.AddClient describe it |
| PresenceHub.Entry | apps/presence/src/main.ts:83-87 | no contract of its own; Snapshot and SnapshotAppend describe it |
| PresenceHub.JoinReply | apps/presence/src/main.ts:79-89 | no contract of its own; Hub.JoinRoom and JoinerListedLast describe it |
| PresenceHub.LeaveReply | apps/presence/src/main.ts:109-115 | no contract of its own; LeaveEventsFacts describes it |
| PresenceHub.LeftNotice | apps/presence/src/main.ts:125-131 | no contract of its own; LeaveEventsFacts describes it |
| PresenceHub.PointerNotice | apps/presence/src/main.ts:215-227 | no contract of its own; Hub.MovePointer describes it |
| PresenceHub.Members | apps/presence/src/main.ts:72 | no contract of its own; Hub.Membership and RoomAudience describe it |
| PresenceHub.Join | apps/presence/src/main.ts:72-76 | no contract of its own; JoinFacts, JoinAgrees and JoinThenLeave describe it |
| PresenceHub.Leave | apps/presence/src/main.ts:118-135 | no contract of its own; LeaveFacts, LeaveAgrees and JoinThenLeave describe it |
| PresenceHub.LeaveFrom | apps/presence/src/main.ts:56-58 | no contract of its own; Hub.LeaveCurrentRoom and JoinerListedLast describe it |
| PresenceHub.LeaveEvents | apps/presence/src/main.ts:105-131 | no contract of its own; LeaveEventsFacts and Hub.RemoveClientFromRoom describe it |
| PresenceHub.LeaveEventsFrom | apps/presence/src/main.ts:56-58 | no contract of its own; Hub.LeaveCurrentRoom describes it |
| PresenceHub.Unsubscribe | apps/presence/src/main.ts:120-122 | no contract of its own; UnsubscribeAgrees and Hub.RemoveClientFromRoom describe it |
| PresenceHub.Drop | apps/presence/src/main.ts:176-182 | no contract of its own; DropAgrees and Hub.HandleClose describe it |
| PresenceHub.JoinedMembers | apps/presence/src/main.ts:63-87 | no contract of its own; JoinerListedLast describes it |
| PresenceHub.Switches | apps/presence/src/main.ts:203 | no contract of its own; Hub.SwitchRoom describes it |
| PresenceHub.PointerEvents | apps/presence/src/main.ts:206-229 | no contract of its own; Hub.MovePointer describes it |
| PresenceView.UpsertAll | apps/web/src/presence/controller.tsx:57-74 | no contract of its own; UpsertAllFacts, LastEntryWins and PresenceState.UpsertClients describe it |
| PresenceView.RemoveAll | apps/web/src/presence/controller.tsx:76-80 | no contract of its own; RemoveAllFacts and PresenceState.RemoveClients describe it |
| PresenceView.ApplyClients | apps/web/src/presence/controller.tsx:57-80 | no contract of its own; ApplyKeepsKeys, MapCreated, RemovedIdsAbsent, UpsertedEntry, UnmentionedUnchanged and PresenceState.HandleServerUpdate describe it |
| SemVer.CompareText | tooling/package-version-sync/src/lib.rs:473-503 | no contract of its own; CompareTextLaws describes it |
| SemVer.CompareIdentifier | tooling/package-version-sync/src/lib.rs:473-487 | no contract of its own; IdentifierLaws describes it |
| SemVer.CompareIdentifiers | tooling/package-version-sync/src/lib.rs:473-487 | no contract of its own; IdentifiersLaws describes it |
| SemVer.ComparePre | tooling/package-version-sync/src/lib.rs:473-487 | no contract of its own; PreLaws and PreReleaseOlder describe it |
| SemVer.CompareBuildIdentifier | tooling/package-version-sync/src/lib.rs:489-503 | no contract of its own; BuildIdentifierLaws describes it |
| SemVer.CompareBuild | tooling/package-version-sync/src/lib.rs:489-503 | no contract of its own; BuildLaws and BuildMetadataNewer describe it |
| SemVer.Compare | tooling/package-version-sync/src/lib.rs:212-260 | no contract of its own; CompareLaws, CoreDecides, PreReleaseOlder and BuildMetadataNewer describe it |
| SemVer.Newer | tooling/package-version-sync/src/lib.rs:240-251 | no contract of its own; NewerTrichotomy and Examples describe it |
| VersionSync.Replace | tooling/package-version-sync/src/lib.rs:42-45 | no contract of its own; ReplaceNothing, ReplaceFirst, ReplaceSkips and ReplaceBetween describe it |
| VersionSync.PatchCargoTomlVersion | tooling/package-version-sync/src/lib.rs:37-46 | no contract of its own; PatchCargoTemplate, PatchComplexCargo and InlineTableRewritten describe it |
| VersionSync.PatchPackageJsonVersion | tooling/package-version-sync/src/lib.rs:48-57 | no contract of its own; PatchJsonTemplate describes it |
| VersionSync.SyncContents | tooling/package-version-sync/src/lib.rs:188-263 | no contract of its own; ErrorOrder, EqualVersionsUnchanged, DifferentVersionsSynced, TestNewerWins, TestSourceOfTruth, TestNumericOrder, TestPreReleaseAndBuild and TestComplexStructures describe it |

## Left out

- Transport, logging and process lifecycle. The uWebSockets.js app, pino logging, the idle timeout and the signal handlers (apps/presence/src/main.ts:232-255) are out. So is environment configuration (apps/presence/src/env.ts). The transport is modelled by the subscription set and the outbox; delivery itself is left out.
- What the transport does after `ws.close()`. A close is an outbox event, and the later close callback is the separate `HandleClose`.
- Logging in every handler.
- Floating point. `f32` coordinates are four opaque little-endian bytes, and the hub only copies them. `getPointerPercent` (apps/web/src/presence/controller.tsx:83-91) and the renderer compute with floats and are left out.
- React and WebSocket wiring in the browser. The reconnect policy and the effects that send client updates (apps/web/src/presence/controller.tsx:144 onward) are out.
- PresenceView.PresenceState.OnMessage: the await on a Blob's `arrayBuffer()` (apps/web/src/presence/controller.tsx:121-122) splits the handler in two. OnMessage parks the Blob in `reading`, and ResumeBlob finishes any parked read later, against the state as it is then. The model does not decide when a read finishes or in which order reads finish: ResumeBlob accepts any index. The browser's choice of Blob or ArrayBuffer for binary frames is an input.
- valtio reactivity and object identity. Client entries are values in a map: updating an existing entry in place and replacing it with a new record are the same in the model.
- The serializer's JavaScript type checks. The models are typed, so a wrong type cannot be written. ServerCodec.SerializeServerUpdate and ClientCodec.SerializeClientUpdate model only the range checks (u16, u32 and the length prefixes). The "invalid input" tests (server.test.ts:19-30, client.test.ts:16-25) pass values of the wrong type, which the typed model cannot express, so they are not modelled. That the library rejects out-of-range numbers is an assumption: the library's code is not part of this model.
- The zorsh library, which is not part of this model. The decoder is modelled after the Borsh format: strict UTF-8 that rejects overlong forms and surrogates, option tags 0 and 1 only, and trailing bytes rejected.
- Manifest and version parsing. JSON, TOML and semver parsing (serde_json, toml, semver) come into `sync_contents` as the `Extracted` value of each manifest. Its three cases are malformed, no version, and found, the last with parsed text or none.
- The error payloads. Each error keeps only its kind.
- `sync_files` (tooling/package-version-sync/src/lib.rs:296-316), which reads and writes files.
- VersionSync.Replace: requires a non-empty pattern. The source's patterns always begin `version = "` or `"version": "`.
- VersionSync.PatchCargoTomlVersion: like `str::replace`, it rewrites every occurrence of `version = "<old>"`, anywhere in a line. That includes a dependency's inline table (`InlineTableRewritten`) and any key that ends in `version`. The model keeps that behaviour. Only the tests' manifests are proved to change in the package's version line alone.
- PresenceClient.IdAllocator.NextClientId: ids wrap after 65535 connections. The registry then overwrites an old connection that still holds the same id (`clients.set`), as the source does. No lemma rules out such a collision, because the source does not.
