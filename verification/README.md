# p2p-file-tree-sharing in Dafny

A model of the core of a peer-to-peer client that shares a Merkle-style file tree over UDP. Peers exchange fixed-header datagrams:
- a 4-byte id, a 1-byte type and a 2-byte length;
- then a body.

Peers introduce themselves with Hello. They exchange public keys and root hashes. They fetch the tree node by node with GetDatum/Datum.

| file | module | what it models |
|---|---|---|
| `wrappers.dfy` | `Wrappers` | `Option`, and `Result` used for Go panics and errors |
| `primitives.dfy` | `Primitives` | bytes, fixed-width integers, big-endian conversion, Go's `string(byte)`, the panic kinds |
| `wire_types.dfy` | `WireTypes` | message type codes and the `UDPMessage`, `HelloBody`, `DatumBody` records |
| `codec.dfy` | `Codec` | the current wire codec, defects included |
| `corrected_codec.dfy` | `CorrectedCodec` | the same codec with the defects removed |
| `legacy_codec.dfy` | `LegacyCodec` | the older codec snapshot with signed field widths |
| `public_key.dfy` | `PublicKeyFormat` | the 64-byte X‖Y public-key layout |
| `file_tree.dfy` | `FileTree` | chunks, bigfiles, directories, and the chunk lookup `GetNode` |
| `save_plan.dfy` | `SavePlan` | bigfile flattening, and saving a tree as a plan of `Mkdir` and `Write` actions |
| `datum_value.dfy` | `DatumValue` | the tagged Datum value: built by the GetDatum branch, decoded by `DownloadNode` |
| `download.dfy` | `Download` | the recursive `DownloadNode`, over a fetch oracle, with fuel |
| `messages.dfy` | `Messages` | the outgoing message builders |
| `registry.dfy` | `PeerRegistry` | the peer map and the lookup by name |
| `dispatch.dfy` | `Dispatch` | `HandleReceive`: admission, signature gate, replies, state updates, forwarding |
| `correlation.dfy` | `Correlation` | `SendPacket`: three attempts, timeout doubling, id matching |

Conventions:
- A Go panic is a `Failure` carrying the kind of panic.
- SHA-256, `ExpandString`, ECDSA verification and the network fetch are function-typed parameters.
- The dispatcher and the downloader use the current codec as written, not the corrected one.

Observed behaviours the model records (these are not listed as findings):
- `DownloadNode` refuses a node when the SHA-256 of its child hashes *equals* its hash. The comparison is inverted.
- GetDatum serves only chunks, because the lookup returns nothing else. The bigfile and directory encodings in that branch are therefore unreachable.
- The slice `BytesToDatumBody` returns is 32 bytes short, but its capacity still reaches the end of the body. `DownloadNode` re-slices past the length, which Go allows up to the capacity. As a result, the as-written Datum decoder, given a served Datum body byte for byte, makes of it:
  - for a directory, its whole manifest;
  - for a bigfile, its manifest without the last child hash;
  - for a chunk, its bytes without the last 32.

  These facts hold only if the message layer hands the Datum body over intact. The current message codec does not do that. It reads the body one byte late (`Codec.BodyReadShiftedByOne`) and keeps only the low byte of the length (`Codec.LengthRoundTripIff`). The intended message codec does hand it over intact (`CorrectedCodec.MessageRoundTrip`).

  `DatumValue.ServedDirectoryKeepsManifest`, `DatumValue.ServedBigfileLosesLastChild` and `DatumValue.ServedChunkLosesTail` state these.
- The codec never decodes a signature, so the signature gate of `HandleReceive` is never reached for a decoded message.

Where the files do not agree with each other, the model follows the code:
- `NoDatum` is used but never declared. It is 133 here, the code after `Datum`.
- The Datum hash is a `string` in the record but is compared as `[32]byte`. Here it is always 32 bytes.
- `GetNode` is defined on `Directory` and `Bigfile` but called on `Node`. Both bodies are the same, so one lookup over a `Node` models them.

## Model

| member | source | states |
|---|---|---|
| WireTypes.ReplyCodeOf | src/udp/types.go:4-16 | exactly the requests 1-5 have a reply code; each reply code is a reply type and equals its request code plus 127 |
| WireTypes.CodeRanges | src/udp/types.go:3-17 | the declared request codes are 0-7, the reply codes 128-132, and no code is both |
| Codec.MessageToBytes | src/udp/format.go:21-39 | encoding panics unless 7 + Length fits 16 bits and the body has Length bytes; the output is 7 + Length bytes with byte 5 always 0 and the body at offset 7 |
| Codec.BytesToMessage | src/udp/format.go:3-19 | decoding needs 7 header bytes and, for a non-empty body, 8 + Length bytes; it yields a framed message with no signature |
| Codec.BytesToHelloBody | src/udp/format.go:41-54 | decoding needs 4 bytes; the name is every byte but the last |
| Codec.HelloBodyToBytes | src/udp/format.go:56-69 | the encoding is 4 + len(Name) bytes |
| Codec.DatumBodyToBytes | src/udp/format.go:86-98 | the encoding is 32 + len(Value) bytes |
| Codec.BytesToDatumBody | src/udp/format.go:71-84 | decoding succeeds exactly from 64 bytes on, and the value is 64 bytes shorter than the input |
| Codec.HeaderRoundTrip | src/udp/format.go:3-39 | decoding an encoded message followed by any byte gives back its id and type, Length modulo 256, and no signature |
| Codec.LengthRoundTripIff | src/udp/format.go:9-32 | the length survives a round trip exactly when it is below 256 |
| Codec.BodyReadShiftedByOne | src/udp/format.go:11-36 | for 0 < Length < 256 the decoded body is the original without its first byte, followed by the first byte after the datagram |
| Codec.ExactDecodeFailsIff | src/udp/format.go:3-39 | a datagram decoded with nothing after it fails exactly when 0 < Length < 256 |
| Codec.TrailingBytesIgnored | src/udp/format.go:3-19 | bytes appended after a decodable buffer, such as a signature, do not change the decoded message |
| Codec.HelloExtensionsRoundTrip | src/udp/format.go:41-69 | Extensions survive a Hello round trip under 32-bit two's complement |
| Codec.HelloNameIsShiftedEncoding | src/udp/format.go:51 | the decoded name is the four extension bytes, then the name without its last byte |
| Codec.HelloNameNeverRoundTrips | src/udp/format.go:41-69 | the decoded name is always three bytes longer than the encoded one, so it never equals it |
| Codec.DatumRoundTripLosesTail | src/udp/format.go:71-98 | a Datum body decodes only with a value of 32 bytes or more; it then keeps its hash but loses the last 32 value bytes |
| Codec.DatumNeverRoundTrips | src/udp/format.go:71-98 | no Datum body decodes back to itself |
| CorrectedCodec.MessageToBytes | src/udp/format.go:21-39 | the intended encoder succeeds under the same conditions as the original and yields 7 + Length bytes |
| CorrectedCodec.BytesToMessage | src/udp/format.go:3-19 | the intended decoder needs exactly 7 + Length bytes and yields a framed, unsigned message |
| CorrectedCodec.MessageRoundTrip | src/udp/format.go:3-39 | every framed, unsigned message whose length fits decodes back to itself, for all 16-bit lengths |
| CorrectedCodec.BytesToHelloBody | src/udp/format.go:41-54 | the intended decoder needs 4 bytes and takes the name after them |
| CorrectedCodec.HelloRoundTrip | src/udp/format.go:41-69 | every Hello body decodes back to itself |
| CorrectedCodec.BytesToDatumBody | src/udp/format.go:71-84 | the intended decoder needs 32 bytes and takes the value up to the end |
| CorrectedCodec.DatumRoundTrip | src/udp/format.go:71-98 | every Datum body decodes back to itself |
| LegacyCodec.Int32RoundTrip | src/udptypes/format.go:7-25 | a signed 32-bit id written big-endian reads back unchanged under two's-complement wrap-around |
| LegacyCodec.MessageToBytes | src/udptypes/format.go:19-37 | encoding succeeds exactly when 0 ≤ Length ≤ 32760 and the body has Length bytes; the output is 7 + Length bytes with byte 5 always 0 |
| LegacyCodec.BytesToMessage | src/udptypes/format.go:3-17 | a decoded message is framed and unsigned; a high length byte of 0x80 or more makes a negative length and a panic |
| LegacyCodec.MessageRoundTrip | src/udptypes/format.go:3-37 | a framed, unsigned message with 0 ≤ Length < 256 decodes back to itself, since both sides use offset 7 |
| LegacyCodec.LengthKeepsLowByte | src/udptypes/format.go:9-30 | every encodable message decodes with its length reduced to the low byte, so the length survives exactly when below 256 |
| LegacyCodec.HelloBodyToBytes | src/udptypes/format.go:51-64 | the encoding is 4 + len(Name) bytes |
| LegacyCodec.BytesToHelloBody | src/udptypes/format.go:39-49 | decoding needs 4 bytes; the name has at least len − 4 bytes, more when a byte from 0x80 on is expanded |
| LegacyCodec.HelloExtensionsRoundTrip | src/udptypes/format.go:39-64 | Extensions survive a Hello round trip |
| LegacyCodec.HelloNameFromOffsetZero | src/udptypes/format.go:43-46 | the decoded name is built from the first len(Name) bytes of the encoding, the extension bytes first |
| LegacyCodec.HelloNameCounterexample | src/udptypes/format.go:39-64 | the name "a" with zero extensions decodes as a single NUL byte |
| LegacyCodec.DatumBodyToBytes | src/udptypes/format.go:80-92 | encoding panics when the hash overruns 32 + len(Value); otherwise it yields 32 + len(Value) bytes with the value at offset 32 and a 32-byte hash in front |
| LegacyCodec.BytesToDatumBody | src/udptypes/format.go:66-78 | decoding succeeds exactly on 32 bytes, with an empty value |
| LegacyCodec.DatumRoundTrip | src/udptypes/format.go:66-92 | a Datum with a 32-byte hash decodes only when its value is empty, and decodes to itself only when the hash is also all ASCII |
| LegacyCodec.CorrectedMessageToBytes | src/udptypes/format.go:19-37 | with the high length byte written, encoding succeeds under the same conditions as before and puts Length / 256 in byte 5 |
| LegacyCodec.CorrectedMessageRoundTrip | src/udptypes/format.go:3-37 | with the high byte written, every framed unsigned message with 0 ≤ Length ≤ 32760 decodes back to itself under the snapshot's int16 length |
| LegacyCodec.CorrectedBytesToHelloBody | src/udptypes/format.go:39-49 | reading the name from offset 4 needs 4 bytes and gives at least len − 4 name bytes |
| LegacyCodec.CorrectedHelloRoundTrip | src/udptypes/format.go:39-64 | with the name read from offset 4, a Hello body decodes back to itself exactly when its name is ASCII |
| LegacyCodec.CorrectedBytesToDatumBody | src/udptypes/format.go:66-78 | with `Value` allocated, decoding needs 32 bytes and the value is everything after them |
| LegacyCodec.CorrectedDatumRoundTrip | src/udptypes/format.go:66-92 | with `Value` allocated, every value survives a round trip, and a Datum with a 32-byte hash comes back whole exactly when the hash is ASCII |
| PublicKeyFormat.FormatPublicKey | src/crypto/format.go:9-16 | formatting fails exactly when a coordinate needs more than 32 bytes, and otherwise yields 64 bytes |
| PublicKeyFormat.ParsePublicKey | src/crypto/format.go:18-28 | parsing a buffer of any length needs 32 bytes and always yields a P-256 key; X is the big-endian value of the first 32 bytes and Y that of all the rest |
| PublicKeyFormat.FormatLayout | src/crypto/format.go:11-13 | X is the big-endian value of bytes 0-31 and Y that of bytes 32-63 |
| PublicKeyFormat.ParseFormatRoundTrip | src/crypto/format.go:9-28 | parsing a formatted P-256 key gives back the key |
| PublicKeyFormat.FormatParseRoundTrip | src/crypto/format.go:9-28 | formatting a parsed 64-byte buffer gives back the buffer |
| FileTree.GetNode | src/filestructure/manipulate.go:3-14 | a found node is always a chunk with the target hash |
| FileTree.Scan | src/filestructure/manipulate.go:16-28 | a found node is always a chunk with the target hash |
| FileTree.SearchPath | src/filestructure/manipulate.go:3-28 | the chunks a lookup can see, in order, are all chunks |
| FileTree.GetNodeIsFirstOnSearchPath | src/filestructure/manipulate.go:3-28 | the lookup finds a node exactly when a chunk with the target hash is on the search path, and then returns the first such chunk |
| FileTree.FirstBigfileDecides | src/filestructure/manipulate.go:8-9 | the first bigfile met before any match decides the result, even a "not found" |
| FileTree.DirectoriesNotSearched | src/filestructure/manipulate.go:4-11 | replacing a subdirectory's contents never changes the result |
| FileTree.BigfileHidesLaterSiblings | src/filestructure/manipulate.go:3-14 | an illustration of `FileTree.FirstBigfileDecides`: a matching chunk after a bigfile that lacks it is not found |
| SavePlan.FlattenSucceedsIff | src/filestructure/save.go:10-27 | flattening a bigfile succeeds exactly when it holds only chunks and nested bigfiles; the result then has as many bytes as all those chunks |
| SavePlan.FlattenAppend | src/filestructure/save.go:10-27 | flattening lays the children's contents one after another, in order |
| SavePlan.TrimNuls | src/filestructure/save.go:47 | the trimmed name neither starts nor ends with NUL |
| SavePlan.TrimNulsSplits | src/filestructure/save.go:47 | the name is some NULs, then the trimmed name, then some NULs |
| SavePlan.TrimNulsIdempotent | src/filestructure/save.go:47 | trimming twice is trimming once |
| SavePlan.TopSaved | src/filestructure/save.go:29-43 | a saveable chunk is saved as one write of its bytes at the path, a bigfile as one write of its flattened content, and a directory's plan starts by creating the path |
| SavePlan.ChildrenSaved | src/filestructure/save.go:44-64 | saving a saveable directory's children writes each chunk child's bytes and each bigfile child's flattened content, and creates each directory child, at the directory's path joined with the child's NUL-trimmed name |
| SavePlan.SaveOutcome | src/filestructure/save.go:29-69 | a save ends without error exactly when every leaf is a chunk or pure bigfile and every inner node a directory. It then takes one action per node. Every action's path extends the start path, one uninterpreted component per child name |
| SavePlan.SaveChildrenOutcome | src/filestructure/save.go:44-64 | the children save without error exactly when each child does, one action per node. Every action's path extends the directory's path, one uninterpreted component per child name |
| SavePlan.SaveChildrenStopsAtFirstError | src/filestructure/save.go:44-64 | saving a child list whose first unsaveable child is `bad` ends with an error. The plan is the saveable children's plans, then what `bad` itself got done, and nothing for any child after it |
| DatumValue.DatumReplyBody | src/udp/scheduler.go:216-260 | a Datum reply body is the SHA-256 of the value followed by the value; another node type gets no body |
| DatumValue.ChildHashesIsManifest | src/udp/scheduler.go:224-235 | a bigfile value lists exactly the hashes of its chunk and bigfile children, in order |
| DatumValue.DirectoryEntriesIsManifest | src/udp/scheduler.go:240-256 | a directory value lists, for each known child, its 32-byte expanded name and its hash, in order |
| DatumValue.DecodeDatum | src/udp/scheduler.go:74-117 | decoding needs 64 body bytes; a decoded node is named after its manifest entry and carries the Datum's hash; a chunk holds the value without its tag; a bigfile or directory starts with no data |
| DatumValue.HashesFromManifest | src/udp/scheduler.go:96-101 | on a bigfile value, the loop reads every listed hash but the last |
| DatumValue.EntriesFromManifest | src/udp/scheduler.go:110-115 | on a directory value, the loop reads every listed entry |
| DatumValue.ServedChunkLosesTail | src/udp/scheduler.go:74-84 | a served chunk decodes exactly when it has at least 32 bytes, and then without its last 32 |
| DatumValue.ServedBigfileLosesLastChild | src/udp/scheduler.go:86-103 | a served bigfile decodes exactly when it lists a child, and then without its last child hash |
| DatumValue.ServedDirectoryKeepsManifest | src/udp/scheduler.go:104-117 | a served directory decodes exactly when it lists an entry, and then with its whole manifest |
| Download.FetchChildren | src/udp/scheduler.go:61-118 | fetching succeeds exactly when every manifest entry is answered and its answer decodes. It then yields, in manifest order, the node each answer decodes to, skipping unknown tags. Otherwise the error is that of the first entry that fails, either a failed exchange or a panic |
| Download.DownloadNode | src/udp/scheduler.go:41-139 | with fuel, the hash check refuses exactly the nodes whose child-hash digest equals their hash; a download keeps the node's name, hash and manifest, and refines its existing data in place |
| Download.DownloadAppendsFetched | src/udp/scheduler.go:61-136 | a finished download holds the node's data, then one node per decoded answer in manifest order. Each chunk is kept exactly as decoded. Each directory and bigfile, old or fetched, is replaced by its own download one level deeper |
| Download.DownloadAll | src/udp/scheduler.go:120-136 | every directory and bigfile of the data is replaced by the result of downloading it, keeping its kind, name, hash and manifest; every other file is kept as it is |
| Download.DownloadNodeFuelMonotone | src/udp/scheduler.go:41-139 | more fuel never changes a download that finished |
| Download.DownloadAllFuelMonotone | src/udp/scheduler.go:120-136 | more fuel never changes a completed pass over the data |
| Download.EmptyNodeDownload | src/udp/scheduler.go:41-50 | a node with no manifest and no data comes back unchanged, unless its hash is the digest of nothing |
| Download.EmptyReplyCrashes | src/udp/scheduler.go:66-76 | an empty reply body, as NoDatum carries, crashes the download |
| Download.ShortChunkCrashes | src/udp/scheduler.go:74-84 | a child served as a chunk under 32 bytes crashes the download |
| Messages.HelloMessage | src/udp/messages.go:46-57 | Hello uses the nonce and awaits a reply; it is framed exactly when 4 + len(name) fits 16 bits |
| Messages.HelloReplyMessage | src/udp/messages.go:67-78 | HelloReply echoes the id and is sent directly; it is framed exactly when 4 + len(name) fits 16 bits |
| Messages.PublicKeyMessage | src/udp/messages.go:95-101 | PublicKey is built exactly when the key formats, with Length 64, and awaits a reply |
| Messages.PublicKeyReplyMessage | src/udp/messages.go:111-117 | PublicKeyReply echoes the id, carries the 64-byte key, and is sent directly |
| Messages.RepliesAnswerRequests | src/udp/messages.go:46-157 | each reply builder produces the reply code of its request builder's type |
| Messages.HelloCarriesName | src/udp/messages.go:46-57 | under the intended codec, a Hello that fits arrives intact and carries the client name with zero extensions |
| Messages.LongHelloIsCut | src/udp/messages.go:51-57 | a name too long for the length field is sent without error, cut to the wrapped length |
| Messages.PublicKeyCarriesKey | src/udp/messages.go:95-117 | the PublicKey and PublicKeyReply bodies parse back to a P-256 key |
| Messages.NoOpRoundTrips | src/udp/messages.go:23-27 | a NoOp is encoded as a bare 7-byte header, and the current codec decodes it back to the same message |
| Messages.RootOnTheWire | src/udp/messages.go:135-157 | under the current codec, a Root or RootReply datagram decoded on its own fails; followed by a byte t it arrives with the root shifted by one byte and t last; under the intended codec it arrives intact |
| PeerRegistry.GetPeerIPFromName | src/udp/peer.go:5-14 | a found address has an entry with that name; the lookup fails exactly when no entry has the name |
| Dispatch.Admit | src/udp/scheduler.go:143-151 | a handshake panics on a body under 4 bytes; it registers only an unknown sender; no existing entry changes; other messages leave the registry alone |
| Dispatch.SignatureAccepts | src/udp/scheduler.go:162-168 | the check passes when the stored key or the signature is missing. Otherwise it panics exactly when the stored key is under 32 bytes, the message cannot be encoded, or the signature is under 32 bytes. If it does not panic, the verdict is `verify` over the first 7 + Length encoded bytes, the signature and the parsed stored key |
| Dispatch.SignedDataIsEncoding | src/udp/scheduler.go:162-168 | the data checked is the message's whole encoding without its signature, and the key is the stored key's two big-endian halves on P-256 |
| Dispatch.DatumReply | src/udp/scheduler.go:206-285 | a GetDatum reply echoes the id; it is NoDatum, with Length 0 and no body, exactly when the lookup finds nothing |
| Dispatch.Respond | src/udp/scheduler.go:173-377 | a branch never adds or removes an entry, changes at most the sender's, and never renames it |
| Dispatch.HandleReceive | src/udp/scheduler.go:141-378 | only the sender's entry can appear or change; a known entry keeps its name; only the five reply types are forwarded, as received; there is at most one reply, sent to the sender with the request's id, and only to the four request types |
| Dispatch.AdmissionGate | src/udp/scheduler.go:153-160 | a sender without a handshake changes nothing and gets nothing |
| Dispatch.HandshakeRegisters | src/udp/scheduler.go:143-151 | a handshake body under 4 bytes panics; otherwise an unknown sender is registered under the decoded name and a known entry stays as it was |
| Dispatch.BadSignatureDropped | src/udp/scheduler.go:162-168 | a message whose signature fails verification has no effect beyond the handshake registration |
| Dispatch.DecodedMessagesSkipVerification | src/udp/scheduler.go:162-168 | for a decoded message, verification is never consulted |
| Dispatch.RequestsAnswered | src/udp/scheduler.go:182-285 | Hello, PublicKey, Root and GetDatum from an admitted peer get exactly one reply of the matching reply type (or NoDatum) and nothing is forwarded |
| Dispatch.RepliesForwarded | src/udp/scheduler.go:286-368 | the five reply types from an admitted peer are forwarded as received, without a reply, when their bodies are long enough to read |
| Dispatch.DatumForwardedUnverified | src/udp/scheduler.go:328-358 | a Datum whose hash does not match its value is still forwarded |
| Dispatch.KeyAndRootStored | src/udp/scheduler.go:188-321 | PublicKey and PublicKeyReply store the body as the key, or clear it when Length is 0; Root and RootReply store the first 32 body bytes as the root; other types leave the registry alone |
| Dispatch.DatumRepliesAreChunks | src/udp/scheduler.go:213-267 | a Datum reply always carries a chunk: tag 0, the chunk's bytes, and a hash that verifies |
| Correlation.SendPacket | src/udp/scheduler.go:407-438 | at most three attempts; each wait is 2 to the number of earlier timeouts in seconds; the first reply with a matching id ends the exchange and records the RTT on the destination; "no response" exactly when none of the three waits brings a match; a missing destination entry crashes |
| Correlation.SilentPeerWaits | src/udp/scheduler.go:412-435 | with no reply at all, the waits are 1, 2 and 4 seconds |
| Correlation.MismatchKeepsTimeout | src/udp/scheduler.go:421-435 | a reply with another id does not lengthen the next wait |

## Left out

- Socket I/O (src/udp/socket.go) is left out: sending, receiving, read deadlines, and the oversized zero-filled receive buffer. The bytes that follow a datagram are the `trailing` argument of the codec lemmas. Replies are messages; encoding them is the socket's job and is not modelled.
- Concurrency is left out: the receive goroutine, the mutex, and the unbuffered channel. Forwarding an entry blocks the receive loop until a request is waiting; the model treats the entry as delivered.
- Wall-clock time is left out. A round-trip time is a field of the `Arrival` event, and timeouts are in seconds.
- Randomness is left out. A fresh request id is a `Nonce` argument. `DownloadNode` uses one random id for all requests of a node; the fetch oracle abstracts that.
- SHA-256, `ExpandString` and ECDSA verification are function parameters. Their internals are not modelled, and neither are key generation, signing and key storage. Of `VerifyMessage` (src/crypto/verification.go:9-16), the model keeps only the `signature[:32]` slice, which panics on a signature under 32 bytes. The signature is taken to have no spare capacity. The split into r and s, the hashing and `ecdsa.Verify` are the `verify` parameter.
- Debug-only branches are left out; they only print. With debugging on, the Datum branch would also index the first value byte.
- The `PrivateKey` field the builders set is left out. It is not a field of `UDPMessage`, so signing is not modelled. The builders call the socket's `SendPacket` with the message and the address in the reverse order of its declaration; the model ignores that.
- The `partialTree` field of a peer entry is left out. The modelled code never touches it.
- `from.String()` and the resolved `distantPeer.String()` are taken to be the same address.
- `SavePlan.SaveFileStructure`: paths are component lists. `filepath.Join` cleaning (`..`, empty components) is not interpreted. `MkdirAll` and `WriteFile` never fail in the plan. Child names come from a remote peer's directory entries. On disk, a trimmed name `..`, or a name containing `/`, makes `filepath.Join` put the write outside the start directory. The plan does not show this: there such a name stays a single component under the start path.
- `Download.DownloadNode`: the `fuel` argument bounds the recursion depth. In the source only the remote peer's answers bound it. Out of fuel is an error the source does not have. `DownloadNodeFuelMonotone` shows that enough fuel never changes a finished result.
- `Download.FetchChildren`: the fetch oracle stands for the scheduler's `SendPacket`. It returns the body of whatever reply matched the id, or nothing. The crash `SendPacket` suffers when the destination has no registry entry (see `Correlation.SendPacket`) is not carried into the download.
- `Dispatch.HandleReceive`: after a panic the model keeps no state, because an unrecovered panic ends the process.
- The root download in src/main.go, the GUI, the HTTPS peer directory, and the pretty-printer are left out.

## Findings

| source | as written | input that shows it | evidently intended | confidence | as-written member | corrected member |
|---|---|---|---|---|---|---|
| src/udp/format.go:31 | `bytes[5] = byte(udpMsg.Length * 256)` is always 0 | a message with Length 256 decodes with Length 0 | the high byte, `byte(udpMsg.Length >> 8)` | high, not executed | Codec.LengthRoundTripIff | CorrectedCodec.MessageRoundTrip |
| src/udptypes/format.go:29 | `bytes[5] = byte(udpMsg.Length * 256)` is always 0 | a message with Length 256 decodes with Length 0 | the high byte, `byte(udpMsg.Length >> 8)` | high, not executed | LegacyCodec.LengthKeepsLowByte | LegacyCodec.CorrectedMessageRoundTrip |
| src/udp/format.go:13 | the body is read from `bytes[i+8]` but written at `7+i` | Length 1, body `[0x41]`, next byte 0 decodes to body `[0x00]` | `bytes[i+7]`, as the older snapshot reads it | high, not executed | Codec.BodyReadShiftedByOne | CorrectedCodec.MessageRoundTrip |
| src/udp/format.go:51 | `body.Name = string(bytes[:len(bytes)-1])` | extensions 0 and name "a" decode as name `[0,0,0,0]` | `string(bytes[4:])` | high, not executed | Codec.HelloNameIsShiftedEncoding | CorrectedCodec.HelloRoundTrip |
| src/udptypes/format.go:44-45 | name built from offset 0, one `string(byte)` at a time | extensions 0 and name "a" decode as name `[0]` | `body.Name += string(bytes[i+4])`, reading from offset 4 (names still expand one rune per byte, so only ASCII names survive) | high, not executed | LegacyCodec.HelloNameCounterexample | LegacyCodec.CorrectedHelloRoundTrip |
| src/udp/format.go:81 | `body.Value = bytes[32 : len(bytes)-32]` | a 40-byte value decodes to its first 8 bytes; a value under 32 bytes panics | `bytes[32:]` | high, not executed | Codec.DatumRoundTripLosesTail | CorrectedCodec.DatumRoundTrip |
| src/udptypes/format.go:73-75 | value bytes are written into the nil `Value` slice | any Datum with a non-empty value panics on decoding | `body.Value = make([]byte, len(bytes)-32)`, then copy (the hash still expands one rune per byte, so only an ASCII hash survives) | high, not executed | LegacyCodec.DatumRoundTrip | LegacyCodec.CorrectedDatumRoundTrip |
