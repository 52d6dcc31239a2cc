# A verified model of a memcached binary-protocol server

This project models the request path of a small memcached server written in Go.
The server speaks the binary protocol of the Memcache Binary Protocol draft
(draft-stone-memcache-binary, section 3: the 24-byte packet header, section 3.2
status codes, section 3.3 opcodes). The connection is modelled without sockets:
a `Stream.Reader` over the bytes a client sends, and a `Stream.Writer` that
records each write call. The model covers these parts:

- **The CAS-versioned store** (`Store`, from server/datastore.go). A `DataStore`
  class holds a map from key to `Item(value, expiry, flags, cas)`. `Set` follows
  compare-and-swap rules:
  - a new key is inserted only with cas 0, and starts at version 1;
  - an existing key is overwritten with cas 0 or its own cas, and its version
    goes up by one.
  `ApplySet` is the specification function that `Set` is proved against.
- **The request header** (`Header`, from server/request.go). The header is nine
  big-endian fields, 24 bytes in all. The decoder is a loop over the field
  widths (`Stream.Reader.ReadFields`). It stops at the first field the stream is
  too short for, with io.ReadFull semantics.
- **The Get and Set commands** (`GetCommands`, `SetCommands`, from
  server/get_commands.go and server/set_commands.go). Each has a body decoder, a
  validity predicate and an `Execute` against the store. Each decoder is proved
  against a parse function, such as `ParseGetBody`, and against a client-side
  encoder (round-trip lemmas).
- **Responses** (`Responses`, from server/response.go):
  - the status constants;
  - `FillHeader`, which derives the lengths and echoes Opcode and Opaque;
  - the header and response encoders, which write only non-empty segments;
  - a round trip through the request decoder.
- **The dispatcher** (`MemcacheServer`, from server/server.go):
  - `CommandFor`, which maps the two opcodes to commands;
  - `Handle`, the step sequence of handleCommand as a function of the table and
    the input;
  - `Server.HandleCommand`, the imperative step sequence, proved equal to
    `Handle`;
  - lemmas about whole requests and a CAS session over the wire.
- **The root prototype** (`ProtoRequest`, `ProtoResponse`, `ProtoStore`, from
  request.go, response.go and datastore.go):
  - a codec that keeps CAS as 8 raw bytes and always sends eight zero CAS bytes;
  - a plain map store with an unconditional `Set`.
- **The older Execute methods** of server/request.go (`LegacyCommands`). They
  call the plain store's interface.

Values are modelled as follows:

- Integers are unbounded, with subset types `uint8` to `uint64`.
- Go's uint16/uint8/uint32 truncations in fillHeader are written out as `%`.
- The `it.cas++` on a uint64 wraps modulo 2^64.
- Byte strings are `seq<uint8>`.

## Model

| member | source | states |
|---|---|---|
| Store.DataStore.constructor | server/datastore.go:25-29 | a new store holds no keys |
| Store.DataStore.Get | server/datastore.go:32-39 | found exactly when the key is in the table, returning its item, and the table is only read |
| Store.DataStore.Set | server/datastore.go:45-79 | the new table is ApplySet's table on success and the old one on error; the error is returned exactly when ApplySet fails, and it is the same error |
| Store.SetSucceedsIff | server/datastore.go:51-76 | set succeeds iff (key present and cas is 0 or the stored cas) or (key absent and cas is 0) |
| Store.SetInsertsAtVersionOne | server/datastore.go:66-77 | an absent key with cas 0 is inserted with the given value, flags and expiry at cas 1 |
| Store.SetAbsentKeyWithCasFails | server/datastore.go:67-68 | an absent key with a non-zero cas fails with "key does not exist" and leaves the table unchanged |
| Store.SetStaleCasFails | server/datastore.go:54-58 | an existing key with a non-zero, different cas fails with "cas mismatch" and leaves the table unchanged |
| Store.SetUpdateBumpsCas | server/datastore.go:60-65 | an accepted update overwrites value and flags, changes expiry only when the one supplied is positive, and advances cas by one modulo 2^64 (exactly +1 below the maximum) |
| Store.SetTouchesOnlyKey | server/datastore.go:77 | every other key keeps its item; no key disappears and only k can appear |
| Store.SetThenGet | server/datastore.go:45-79 | after a successful set, the key is present with the value and flags written |
| Store.ObservedCasChainAdvances | server/datastore.go:54-65 | writers that each pass the cas they last observed all succeed; the version advances by their number, the last value wins and other keys are untouched |
| Store.CasSession | server/datastore.go:45-79 | insert "bar" at cas 1, overwrite with cas 1 giving cas 2, then a stale cas 1 fails with a mismatch and the value stays |
| Header.DecodeRequestHeader | server/request.go:125-137 | the stream's bytes decode to ParseRequestHeader of them; 24 bytes are consumed on success, everything that is left on a short read |
| Stream.Reader.ReadFields | server/request.go:131-135 | with enough bytes, returns the consecutive fields of the given widths and advances by their sum; otherwise ShortRead after consuming the rest |
| Stream.Reader.ReadFull | server/get_commands.go:28-34 | returns exactly the next n bytes and advances by n, or fails with ShortRead and consumes the rest |
| Stream.Reader.ReadKeyValue | server/get_commands.go:28-44 | the key is read only when KeyLen > 0 and the value only when BodyLen - KeyLen - ExtrasLen > 0, matching ParseKeyValue; it consumes their sizes |
| Stream.ParseKeyValueRoundTrip | server/get_commands.go:28-44 | a key followed by a value of the positive remaining length decodes back to both, whatever follows |
| Header.RequestHeaderLayout | server/request.go:17-27 | Magic is byte 0, Opcode byte 1, KeyLen bytes 2-3 and so on to CAS at bytes 16-23, each big-endian |
| Header.RequestHeaderFields | server/request.go:125-137 | the decoded header is the nine consecutive slices of the first 24 bytes, read big-endian |
| Header.ParseRequestHeaderPrefix | server/request.go:125-137 | the decoder looks only at the first 24 bytes |
| Header.RequestHeaderRoundTrip | server/request.go:125-137 | decoding a client's encoding of any header, whatever follows, recovers the header |
| Header.TestVector | server/request_hdr_test.go:17-31 | `80 00 00 05, 00 x4, 00 00 00 05, 00 x12` decodes to Magic 0x80, KeyLen 5, BodyLen 5 and all other fields 0 |
| GetCommands.NewGetCmd | server/server.go:117 | a new Get holds the header and empty body fields |
| GetCommands.Decode | server/get_commands.go:17-45 | the result is ParseGetBody of the bytes left: 4 bytes of flags when ExtrasLen > 0 (whatever its value), then KeyLen bytes of key, then the positive remainder as value; it consumes GetBodySize bytes or, on a short read, the rest |
| GetCommands.GetBodyRoundTrip | server/get_commands.go:17-45 | decoding a well-formed Get body, whatever follows, into a new command recovers the command, and the body is GetBodySize long |
| GetCommands.IsValid | server/get_commands.go:47-67 | accepts iff ExtrasLen is 0, KeyLen > 0, the key is non-empty and the value is empty; "extras fields empty" when ExtrasLen > 0 |
| GetCommands.DecodedGetLengths | server/get_commands.go:28-44 | a decoded Get holds a key of exactly KeyLen bytes, and a value of BodyLen - KeyLen - ExtrasLen bytes taken right after the key when that is positive, or no value otherwise |
| GetCommands.DecodedGetValidIff | server/request.go:139-159 | a decoded Get is accepted iff ExtrasLen is 0, KeyLen > 0 and BodyLen leaves no value bytes |
| GetCommands.Reply | server/get_commands.go:69-86 | a present key gives status 0 with the item's value, flags and cas; a missing key gives status 1 and "Item not found" with cas 0; no extras and no key, magic 0x81, Opcode and Opaque echoed, BodyLen = value length |
| GetCommands.Execute | server/get_commands.go:69-86 | returns Reply of the current table; with no modifies clause, the store is not changed |
| GetCommands.HelloRequest | server/request_test.go:17-35 | the test's request decodes to a Get of key "Hello" with no flags and no value, and it is accepted |
| SetCommands.Decode | server/set_commands.go:18-50 | the result is ParseSetBody of the bytes left: 8 bytes of big-endian Flags then Expiration when ExtrasLen > 0, then key and value as for Get; it consumes SetBodySize bytes or the rest |
| SetCommands.SetBodyRoundTrip | server/set_commands.go:18-50 | decoding a well-formed Set body, whatever follows, into a new command recovers the command, and the body is SetBodySize long |
| SetCommands.SetBodySizeIsBodyLen | server/set_commands.go:22-48 | with ExtrasLen 8 and BodyLen >= KeyLen + 8, Decode consumes exactly BodyLen bytes |
| SetCommands.SetShortExtrasOverread | server/set_commands.go:22-31 | with ExtrasLen from 1 to 7 and a value following, Decode still reads 8 extras bytes, which is 8 - ExtrasLen more than BodyLen |
| SetCommands.IsValid | server/set_commands.go:52-72 | accepts iff ExtrasLen > 0, KeyLen > 0, and key and value are non-empty; "missing extra length" when ExtrasLen is 0 |
| SetCommands.DecodedSetLengths | server/set_commands.go:33-48 | a decoded Set holds a key of exactly KeyLen bytes, and a value of BodyLen - KeyLen - ExtrasLen bytes taken right after the key when that is positive, or no value otherwise |
| SetCommands.DecodedSetValidIff | server/request.go:179-199 | a decoded Set is accepted iff ExtrasLen > 0, KeyLen > 0 and BodyLen leaves value bytes |
| SetCommands.Reply | server/set_commands.go:74-89 | succeeds iff the store's set does; a store error is returned as the error; on success the reply has no segments, status 0, cas 0, all lengths 0, magic 0x81, and Opcode and Opaque echoed |
| SetCommands.Execute | server/set_commands.go:74-89 | key, value, Flags, Expiration and the header's CAS go to the store's set: the new table is StoreAfterSet of them, and the result is Reply of the old table |
| Responses.FillHeader | server/response.go:88-99 | Magic 0x81; Opaque and Opcode copied; KeyLen, ExtrasLen and BodyLen are the segment lengths when they fit; Status, CAS, DataType and the segments unchanged |
| Responses.EncodeHeader | server/response.go:40-52 | appends one write per header field in wire order (Status in the Reserved slot), producing ResponseHeaderBytes |
| Responses.Encode | server/response.go:54-86 | writes the header, then Extras, Key and Value, skipping each empty one; the output grows by exactly ResponseBytes |
| Responses.EncodeWritesNoEmptySegment | server/response.go:64-84 | no write after the header is empty, and the segment bytes are Extras + Key + Value |
| Responses.ResponseHeaderSize | server/response.go:40-52 | the header encoding is 24 bytes |
| Responses.FilledLength | server/response.go:54-99 | after fillHeader, the encoded response is 24 + BodyLen bytes |
| Responses.ResponseHeaderRoundTrip | server/response.go:40-52 | read back with the request decoder, the encoded header gives every field, with Status in the Reserved slot |
| Responses.FilledRoundTrip | server/response.go:54-99 | a client decoding a filled, encoded response recovers magic 0x81, the echoed Opcode and Opaque and the lengths, and finds Extras, Key and Value after the 24 header bytes |
| MemcacheServer.CommandFor | server/server.go:114-124 | opcode 0x00 gives a new Get and 0x01 a new Set; any other opcode is "invalid command" |
| MemcacheServer.Server.constructor | server/server.go:22-31 | a server starts over a new, empty store |
| MemcacheServer.Server.HandleCommand | server/server.go:80-112 | the reply, the new table and the bytes consumed are those of Handle on the old table and the bytes left |
| MemcacheServer.Handle | server/server.go:80-112 | never consumes more bytes than the input holds |
| MemcacheServer.HandleShortHeader | server/server.go:88-93 | a stream shorter than a header gives ShortRead, consumes the rest, and leaves the table unchanged |
| MemcacheServer.HandleUnknownOpcode | server/server.go:95-98 | an unknown opcode is an error after exactly the 24 header bytes, and no body byte is read |
| MemcacheServer.HandleBodyError | server/server.go:100-103 | a body the decoder cannot read ends the request with the decoder's error (a short read) before validation; the rest of the stream is consumed and the table is unchanged |
| MemcacheServer.HandleInvalid | server/server.go:105-109 | a command that fails validation gives "invalid request" with the rule it broke, consumes its body, and does not touch the table |
| MemcacheServer.HandleErrorKeepsStore | server/server.go:88-109 | every error leaves the table as it was |
| MemcacheServer.HandleStoreChangesOnlyBySet | server/server.go:100-111 | the table changes only through a successful Set |
| MemcacheServer.HandleReplyEchoes | server/server.go:111 | every reply has magic 0x81 and echoes the request's Opcode and Opaque |
| MemcacheServer.HandleSetRequest | server/server.go:80-112 | a well-formed Set request, whatever follows, is consumed exactly and the result is exactly Execute's: Set's reply and the store's new table |
| MemcacheServer.HandleGetRequest | server/server.go:80-112 | a well-formed Get request, whatever follows, consumes 24 + KeyLen bytes, returns Get's reply and leaves the table unchanged |
| MemcacheServer.SetRequestOutcome | server/set_commands.go:82-88 | over the wire, a Set succeeds iff the store accepts it, with the store's error otherwise; a success reply has status 0, cas 0 and BodyLen 0 |
| MemcacheServer.GetRequestOutcome | server/get_commands.go:78-82 | over the wire, a Get of a stored key returns its value, flags and cas, and the table is unchanged |
| MemcacheServer.CasSessionOverTheWire | server/server.go:80-112 | Set "bar", Get (cas 1), Set "baz" with cas 1 (cas 2), then Set with the stale cas 1 gives a cas mismatch, and the value stays "baz" |
| ProtoRequest.DecodeHeader | request.go:66-79 | ParseHeader of the stream: eight big-endian fields, then CAS as 8 raw bytes; 24 bytes consumed, or the rest on a short read |
| ProtoRequest.HeaderRoundTrip | request.go:66-79 | decoding an encoded header with an 8-byte CAS, whatever follows, recovers it |
| ProtoRequest.DecodeBody | request.go:91-114 | Extras (ExtrasLen raw bytes), Key and Value are each read only when their length is positive, matching ParseBody |
| ProtoRequest.Decode | request.go:83-116 | the result is ParseRequest of the stream, and Consumed bytes are consumed |
| ProtoRequest.HeaderErrorStopsDecode | request.go:87-89 | a header error is the request's error, and no body byte is read |
| ProtoRequest.ConsumedIsHeaderPlusBody | request.go:83-116 | when BodyLen >= KeyLen + ExtrasLen, a decoded request consumed 24 + BodyLen bytes, with Extras of ExtrasLen bytes and Key of KeyLen bytes |
| ProtoRequest.RequestRoundTrip | request.go:83-116 | decoding a well-formed request's encoding, whatever follows, recovers it and consumes exactly its bytes |
| ProtoResponse.EncodeHeader | response.go:40-53 | CAS is overwritten with 8 zero bytes, then one write per field in wire order |
| ProtoResponse.Encode | response.go:55-87 | header, then each non-empty segment in the order Extras, Key, Value; the output grows by exactly ResponseBytes |
| ProtoResponse.ResponseLayout | response.go:55-87 | the output is 24 header bytes, then Extras + Key + Value, and nothing else |
| ProtoResponse.ResponseHeaderRoundTrip | response.go:40-53 | read back with the request layout, the header gives every field with Status in the Reserved slot and a zero CAS, whatever the response's CAS was |
| ProtoResponse.EmittedCasIsZero | response.go:41 | bytes 16 to 23 of every encoded response are zero |
| ProtoStore.DataStore.constructor | datastore.go:12-16 | a new store is empty |
| ProtoStore.DataStore.Get | datastore.go:18-24 | the stored value and true, or an empty value and false when the key is absent; the table is only read |
| ProtoStore.DataStore.Set | datastore.go:26-32 | the key is overwritten unconditionally, other keys unchanged, and the error is always nil |
| ProtoStore.Lookup | datastore.go:18-24 | found iff the key is present; the value is the stored one, or empty |
| ProtoStore.SetThenGet | server/datastore_test.go:12-17 | Set(k, v) then Get(k) returns (v, true) |
| ProtoStore.SetTouchesOnlyKey | datastore.go:30 | a Set leaves every other key's lookup unchanged |
| ProtoStore.LastSetWins | datastore.go:26-32 | after any history of Sets, the last Set of a key decides what Get returns |
| ProtoStore.NeverSetIsNotFound | datastore.go:18-24 | a key absent at the start that no Set wrote is not found, whatever other keys were set |
| LegacyCommands.GetReply | server/request.go:161-177 | the stored value, or nothing when the key is missing; 4 zero extras bytes; status 0 and cas 0; magic 0x81, Opcode and Opaque echoed; ExtrasLen 4 and BodyLen 4 + value length |
| LegacyCommands.GetExecute | server/request.go:161-177 | returns GetReply of the current table and never changes the store |
| LegacyCommands.GetMissIsEmptyHit | server/request.go:168-175 | a missing key and a key holding an empty value get the same reply |
| LegacyCommands.GetAfterSet | server/request.go:161-218 | a Get after a Set of the same key replies with the value set |
| LegacyCommands.SetReply | server/request.go:201-218 | an empty reply with status 0, cas 0, all lengths 0, magic 0x81, and Opcode and Opaque echoed |
| LegacyCommands.SetExecute | server/request.go:201-218 | the key is overwritten with the value (flags, expiration and cas are ignored), and the result is SetReply |

## Left out

The source is mid-refactor and would not compile as written. Where it cannot
run, the model follows the evident intent, and each such case is listed here.

- Names that do not match:
  - handleCommand calls `hdr.read` and `cmd.Read` (server/server.go:90,100), but
    the methods are named `decode` and `Decode`;
  - the commands call `ds.Get` and `ds.Set`, but server/datastore.go defines
    `get` and `set`.
  The model connects the calls to the methods that exist.
- server/request.go:57,96,100,128 pass values, not pointers, to `binary.Read`.
  As written, the value reads would consume their bytes and then fail, and so
  would the header's CAS field. The model reads into the fields, as
  set_commands.go does and as server/request_test.go:43-47 expect.
- `GetCmd` and `SetCmd` are defined twice. The `Decode` and `IsValid` in
  server/request.go are the same as those in the per-command files, so each is
  modelled once, in `GetCommands` and `SetCommands`. The older `Execute` methods
  differ, and they are `LegacyCommands`.
- `StatusKeyNotFound` (server/get_commands.go:76) is not defined anywhere. The
  model uses `StatusKeyError` (0x0001), which is "Key not found" in the
  protocol draft.
- `Response` has no `Flags` field, yet server/get_commands.go:80 assigns one.
  The model adds a `flags` field to `Responses.Response`. The encoder does not
  send it.
- `CommandRspWriter`, the declared result of handleCommand, is not defined.
  Neither is the `rsp.Write` that serveConnection uses. The model returns the
  `Response` itself.
- Only Get and Set are modelled. GetQ and SetQ are declared as constants but
  never dispatched, so they are "invalid command", like every other opcode.
- Magic, DataType and Reserved of a request are never checked, and neither is
  the model.
- Behaviour that differs from the protocol draft is modelled as the code
  behaves:
  - a negative value length (BodyLen < KeyLen + ExtrasLen) is no error, and no
    value is read;
  - a Get with ExtrasLen > 0 reads 4 flag bytes whatever ExtrasLen is;
  - a Set reads 8 extras bytes for any positive ExtrasLen;
  - invalid requests and store errors end the request with an error, which
    closes the connection, instead of sending a status code;
  - a successful Set replies with cas 0, because Execute never copies the new
    version into the response.
- Server.HandleCommand does not model writing the reply: serveConnection does
  that, and it is left out with the sockets.
- The model's writer never fails, so the error returns of the encoders are not
  modelled. `Stream.Writer` records each write call as a chunk, so the order of
  the writes and the segments that are skipped can still be stated.
- LegacyCommands.SetExecute: the `err != nil` branch of server/request.go:212-215
  is not modelled, because the plain store's `Set` always returns nil.
- Store.DataStore.Set and Store.DataStore.Get: Go stores a pointer to `item`.
  `set` updates that item in place, and `get` returns the pointer itself, which
  GetCmd.Execute reads after the lock is released
  (server/get_commands.go:73-81). So the alias does escape through `get`. The
  model stores item values, replaces the map entry, and returns a copy. A
  sequential model cannot observe the difference. Under concurrency, a `set`
  racing with that read is a data race: a reply could pair one write's value
  with another's cas. This is left out together with the locks.
- Responses.FillHeader, GetCommands.Decode, SetCommands.Decode and the
  ProtoRequest/ProtoResponse codecs:
  - the Go methods fill or update a struct in place through a pointer;
  - the model passes the struct in and gets the updated value back.
  - The CAS zeroing of response.go:41 is returned as the updated header.
- Other parts left out:
  - the locks (`sync.RWMutex`), because every operation is modelled as atomic
    and sequential;
  - the listener and per-connection goroutines (ListenAndServe, serve,
    serveConnection);
  - the `recover()` panic handler;
  - glog logging;
  - `Stop`, an empty stub;
  - New's address handling, configuration it ignores anyway;
  - main.go (flags and process exit);
  - test.py, an external client.
- Expiry is stored but never enforced, as in the source (server/datastore.go:36).
