# GELF-over-UDP chunking encoder of `GelfLogger`

A Dafny model of the transport half of `DreamFactory\Managed\Support\GelfLogger`.
The logger turns a log call into Graylog Extended Log Format (GELF) datagrams.
It compresses the serialised message. A payload of at most 8154 bytes goes out
as one datagram with no header. A longer payload is cut into 8154-byte slices.
More than 128 slices reject the whole message. Otherwise every slice is packed
behind a chunk header: the magic bytes 0x1e 0x0f, a message id shared by the
whole set, a 16-bit big-endian sequence number and a 16-bit big-endian count.
This is the logger's own header layout. The chunk header of GELF 1.1 is
different: it has an 8-byte id and a one-byte sequence number and count. `send`
then writes the datagrams in order and gives up at the first failed write.

Files:

- `wrappers.dfy`: `Option`, used where the PHP code returns `false`.
- `chunking.dfy`, module `GelfChunking`:
  - the pure encoder: `Split` (`str_split`), `BigEndian16` (`pack('n')`),
    `PackChunk`, `PrepareChunks` and `PrepareMessage`;
  - the receiving side, which the encoder is checked against: `ParseChunk`,
    `Reassemble` and `Receive`.
- `logger.dfy`: module `AuditLevels` (the eight severities) and module
  `GelfLogger`, holding `Send`, `Log` and the severity methods.

What the model takes as parameters (fields of `GelfLogger.Transport`):

- the message's `toJson` serialisation;
- `gzcompress`, which may fail;
- the raw digest that becomes the message id;
- whether the UDP socket opens;
- the outcome of the k-th `fwrite` of one send, an oracle of write results.

Bytes are the newtype `Byte` (0..255). Byte payloads are `seq<Byte>`.

Two points about the message id:

- The docblock of `prepareChunks` calls `$msgId` "the 8-byte message id"
  (src/Support/GelfLogger.php:240). The code puts the whole raw output of
  `hash(..., true)` there (src/Support/GelfLogger.php:247). The model follows
  the code and leaves the id's length general, so the header is `6 + |id|`
  bytes long.
- `prepareChunks` keeps a caller-supplied id unless it is falsy in PHP's sense:
  null, `""` or `"0"`. Any of those falls back to the digest (`EffectiveId`).
  `prepareMessage` never passes an id, so on that path the id is always the
  digest.

## Model

| member | source | states |
|---|---|---|
| GelfChunking.Split | src/Support/GelfLogger.php:233 | `str_split` cuts the payload into at least one slice. Every slice but the last is exactly the slice size. The last holds 1..size bytes of a non-empty payload. |
| GelfChunking.SplitFlatten | src/Support/GelfLogger.php:233 | The slices concatenate back to the payload, unchanged. |
| GelfChunking.SplitUnique | src/Support/GelfLogger.php:233 | Any list of slices with those properties is exactly `Split`'s result, so they define the split. |
| GelfChunking.SplitCount | src/Support/GelfLogger.php:233 | A non-empty payload of S bytes splits into ceil(S / size) slices. |
| GelfChunking.SplitCountAtMost | src/Support/GelfLogger.php:252-254 | There are at most k slices exactly when S <= k * size. This is the byte form of the 128-chunk rejection. |
| GelfChunking.SplitSlices | src/Support/GelfLogger.php:233 | Slice i of an 8154-byte chunking is the i-th run of 8154 payload bytes, cut short by the end of the payload. |
| GelfChunking.BigEndian16 | src/Support/GelfLogger.php:259 | `pack('n', x)` yields two bytes. Read back most significant byte first, they give x mod 2^16. |
| GelfChunking.PackChunk | src/Support/GelfLogger.php:259 | A packed chunk is exactly 6 bytes plus the id length longer than its slice. `PackParse` states what a receiver reads back from it. |
| GelfChunking.PackParse | src/Support/GelfLogger.php:259 | A receiver reads back from a packed chunk the magic, the id, the sequence number and count (each mod 2^16) and the slice. |
| GelfChunking.EffectiveId | src/Support/GelfLogger.php:247 | A truthy caller id is kept as the message id. A falsy one (null, `""`, `"0"`) never reaches the header: the id used is the caller's id or the digest, and it is truthy unless it is the digest. |
| GelfChunking.PrepareChunks | src/Support/GelfLogger.php:244-266 | The slices are rejected exactly when there are more than 128 of them. Otherwise there is one datagram per slice. Datagram i reads back as chunk i of n, where n is the number of slices: every chunk carries the same id and the count n, sequence numbers run 0..n-1 in order with no gap or repeat, and chunk i carries slice i. Each datagram is exactly 6 bytes plus the id length longer than its slice. |
| GelfChunking.HeaderBytes | src/Support/GelfLogger.php:259 | Datagram i is, byte for byte, 0x1e 0x0f, the id, 0 and i, 0 and n, then slice i. |
| GelfChunking.ChunksReassemble | src/Support/GelfLogger.php:256-262 | Round trip of the chunk set: the datagrams reassemble to the concatenation of the slices. |
| GelfChunking.PrepareMessage | src/Support/GelfLogger.php:217-234 | A failed serialisation or compression yields no datagrams. A payload of at most 8154 bytes yields exactly one datagram equal to it, with no header. A longer payload is rejected exactly when it exceeds 128 * 8154 bytes. Otherwise it yields 1..128 datagrams. |
| GelfChunking.ChunkedCount | src/Support/GelfLogger.php:225-233 | A payload of S > 8154 bytes gives ceil(S / 8154) datagrams, at least two. |
| GelfChunking.ChunkedLayout | src/Support/GelfLogger.php:233-259 | On the chunked path, datagram i is chunk i of all of them, under the digest as id. It carries the i-th 8154-byte run of the payload and is at most 8154 bytes plus the header long. |
| GelfChunking.DatagramsNonEmpty | src/Support/GelfLogger.php:225-233 | For a payload within the limit, every datagram `prepareMessage` emits has at least one byte exactly when the payload does. |
| GelfChunking.MessageRoundTrip | src/Support/GelfLogger.php:217-234 | Round trip of `prepareMessage`: whatever it emits for a payload of at most 128 * 8154 bytes is received as that payload. |
| GelfLogger.Encode | src/Support/GelfLogger.php:220-222 | Encoding fails exactly when `toJson` fails or `gzcompress` returns false. |
| GelfLogger.WriteFrom | src/Support/GelfLogger.php:197-201 | The datagrams are written in list order. A write is delivered when the socket accepts it and it writes at least one byte; `fwrite` of an empty datagram writes zero bytes, which `!fwrite` treats as failure. The written datagrams are a prefix, all of them delivered. The loop succeeds exactly when every datagram is delivered. On failure, the datagram right after the prefix is the one that failed, and nothing after it is written. |
| GelfLogger.SendPrepared | src/Support/GelfLogger.php:189-201 | When `prepareMessage` returned false or the socket did not open, nothing is written and the send fails. Otherwise the written datagrams are a prefix of the prepared list, and every one of them was delivered. The send succeeds exactly when every datagram is delivered. On failure, the datagram right after the prefix is the one whose write failed. |
| GelfLogger.Send | src/Support/GelfLogger.php:187-208 | A failed encoding, an oversize message or an unopened socket writes nothing and reports failure. Otherwise the written datagrams are a prefix of `prepareMessage`'s list, and every one of them was delivered. The send succeeds exactly when the encoding succeeds, the payload is within 128 * 8154 bytes, the socket opens and every datagram is delivered. When the encoding succeeded and the socket opened, a failed send stopped at the datagram right after the prefix, whose write failed. |
| GelfLogger.SendSucceeds | src/Support/GelfLogger.php:187-208 | A send succeeds exactly when the payload encodes, is non-empty and within 128 * 8154 bytes, the socket opens, and the socket accepts every datagram. An empty payload always fails, because its one write writes zero bytes. |
| GelfLogger.SendWritesAll | src/Support/GelfLogger.php:187-208 | A successful send had an encoded payload within 128 * 8154 bytes, and it wrote every datagram `prepareMessage` produced. |
| GelfLogger.SendDelivers | src/Support/GelfLogger.php:187-208 | A successful send has written exactly the datagrams a receiver turns back into the compressed message. |
| GelfLogger.Log | src/Support/GelfLogger.php:59-65 | `log` sends the message built from the level, the text and the context. |
| GelfLogger.Emergency | src/Support/GelfLogger.php:75-78 | Forwards to `log` with the emergency level and drops its result. |
| GelfLogger.Alert | src/Support/GelfLogger.php:91-94 | Forwards to `log` with the alert level and drops its result. |
| GelfLogger.Critical | src/Support/GelfLogger.php:106-109 | Forwards to `log` with the critical level and drops its result. |
| GelfLogger.Error | src/Support/GelfLogger.php:120-123 | Forwards to `log` with the error level and drops its result. |
| GelfLogger.Warning | src/Support/GelfLogger.php:136-139 | Forwards to `log` with the warning level and drops its result. |
| GelfLogger.Notice | src/Support/GelfLogger.php:149-152 | Forwards to `log` with the notice level and drops its result. |
| GelfLogger.Info | src/Support/GelfLogger.php:164-167 | Forwards to `log` with the info level and drops its result. |
| GelfLogger.Debug | src/Support/GelfLogger.php:177-180 | Forwards to `log` with the debug level and drops its result. |

The receiving side (`ParseChunk`, `Reassemble`, `Receive`) is the reference
the encoder is proved against. Its reassembly expects the chunks in sequence
order, the order in which `send` writes them.

## Left out

- `GelfMessage` and its `toJson` serialisation: that class is not part of this model. Serialisation is a parameter that may fail.
- `gzcompress`: a foreign deflate library, modelled as a parameter that may fail.
- Message-id generation (`hash` of `microtime` and `rand`): non-deterministic and foreign. The digest is a parameter, so uniqueness across calls is not stated.
- `stream_socket_client` and `fwrite`: replaced by a flag for "the socket opened" and an oracle of write results. A partial `fwrite` that returns a non-zero byte count counts as a successful write, as it does in the code. A write of an empty datagram always fails, because `fwrite` returns 0 for it.
- GelfChunking.MessageRoundTrip: requires a payload that does not begin with 0x1e 0x0f. Without this, a lone datagram could not be told from a chunk. A zlib stream's first byte always carries compression method 8 in its low four bits (section 2.2 of RFC 1950), so compressed output never begins this way.
- GelfLogger.SendDelivers: carries the same requirement, for the same reason.
- Levels: the PHP `AuditLevels` enum class is not among the modelled sources. Its eight constants are modelled as the datatype `AuditLevels.Level`, without their numeric values. `log`'s `$level` may be any value in PHP, but the model only takes the eight named levels.
- The context array is a `map<string, string>`. Only how it is passed along matters here.
- The static host and port getters and setters (src/Support/GelfLogger.php:272-299): trivial global configuration with no logic. The destination does not appear in the model.
- The `try`/`catch` blocks of `send` and `prepareMessage` appear as failure results. An exception thrown while sending counts as an unopened socket or a failed write. One thrown by `toJson` or `gzcompress` makes `Encode` return `None`.
- `prepareChunks`' catch (src/Support/GelfLogger.php:263-266) is not modelled. Only the digest's `hash` call can throw there, and the digest is a parameter, so `PrepareChunks` fails only on more than 128 slices. The contracts of `PrepareMessage`, `Send` and `SendSucceeds` therefore describe a digest that could be computed.
- `str_split` on an empty string: the model returns one empty slice (PHP before 8.2). The encoder never splits a payload of 8154 bytes or fewer, so this case is unreachable.
- The HTTP controller, instance bootstrapping, service provider and middleware contract: application glue with no encoding logic.
