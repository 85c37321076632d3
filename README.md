# con-go in Dafny

A model of the core of `con`, a small Go messaging library. Clients connect to a server
over TCP or unix sockets and exchange named binary messages. Both sides keep a table of
subscription rules and run the matching handlers for every incoming message.

The model covers:

- **Wire codec** (`utils.go`).
  - `writeMsg` lays out a frame: a 12-byte id, a meta byte, a name-length byte, the name, then an
    8-byte big-endian body length and the body when the body is non-empty.
  - `readStream` parses a byte stream chunk by chunk.
    - It keeps a buffer of unconsumed bytes and a cursor per frame field, and hands every completed
      message to a callback.
    - It stops when the callback answers false.
    - After a read error it hands over one synthetic `disconnect` message.
  - `BinEq`, the nil-aware byte comparison.
  - `UID` and `BID12`, the 12-character client id and the 12-byte message id.
- **Rules and dispatch** (`rule.go`, `msg.go`, and the scans in `server.go` and `client.go`).
  - A rule carries three wildcard filters (id, name, author) and a one-shot flag.
  - For each message the table is scanned in insertion order. Each launched handler is recorded
    as the index of its rule.
- **Session state.**
  - The server: its registry of connected clients (accept, handshake rename, cleanup, `Broadcast`,
    `Send`, `Disconnect`), its rule table (`On`, `Once`, the handshake rule `Listen` installs), and
    reply construction in `handleMessage`.
  - The client: its id (empty means disconnected), its rule table (`On`, `Req`), `Send`,
    `Disconnect`, the response scan and the handshake.

Modules, one per file:

| file | module | contents |
|---|---|---|
| base.dfy | `Base` | bytes, `uint64`, nil-aware slices, big-endian integers, `BinEq` |
| messages.dfy | `Messages` | meta flags and the `Msg` record |
| codec.dfy | `Codec` | frame encoding and a whole-buffer decoder that specifies the reader |
| ids.dfy | `Ids` | `alph`, `UID`, `BID12` |
| reader.dfy | `Reader` | the `readStream` state machine (a `StreamReader` class fed chunk by chunk) |
| rules.dfy | `Rules` | rules, matching outcome, the scan and its effect over many messages |
| transport.dfy | `Transport` | connections as values, `writeMsg` |
| server.dfy | `Server` | the `Server` class |
| client.dfy | `Client` | the `Client` class |

How the model is built:

- **The reader.**
  - `Reader.StreamReader.Feed` and `Reader.ReadStream` are imperative and follow the field steps of
    the source one by one.
  - They are proved against `Codec.Decode`, a pure decoder of the whole buffer.
  - `Codec.DecodeResume` and `Reader.ReadStream` together show that where the reads split the stream
    makes no difference.
- **Connections** are values: the bytes written so far plus a broken flag and a closed flag.
  - A write succeeds exactly on a connection that is neither broken nor closed.
  - A close fails on a connection already closed.
- **Clock and randomness.** The clock reading and random draw behind `UID` and `BID12` are
  parameters, and so is the fresh message id of each write.
- **Handlers** are opaque tokens.
  - The scans return which rules they launch.
  - A handler's answer is passed to `HandleMessage` as a parameter.

## Model

| member | source | states |
|---|---|---|
| Base.BinEq | utils.go:74-90 | equal exactly when both slices are nil, or both are non-nil with the same length and bytes; hence exactly when the slices are equal values |
| Base.BigEndianRoundTrip | utils.go:122 | reading back a big-endian field gives the number written, whenever it fits the width |
| Messages.Flags | msg.go:5-6 | the meta byte built from the two flags has exactly the requested HAS_BODY and request bits, and no other bit |
| Messages.DisconnectMsg | utils.go:241-244 | the final message has nil id and body, the connection's author, the name "disconnect", and neither flag |
| Codec.EncodeLayout | utils.go:105-130 | id in bytes 0-11, meta in byte 12, name length in byte 13, then the name; the length field reads back as the body length and the body follows it when the body is non-empty; nothing follows the name otherwise |
| Codec.WriteMsgTestFrame | utils_test.go:63-92 | the "Test name"/"Test body" frame is 40 bytes, and after the id it is exactly the byte list of the test |
| Codec.Decode | utils.go:163-240 | the leftover holds no complete frame; every decoded message carries the connection's id as author and a 12-byte id |
| Codec.ParseFramePrefix | utils.go:163-214 | a frame complete at the head of the buffer is the same frame whatever bytes arrive after it |
| Codec.ParseEncoded | utils.go:139-214 | a frame with a name whenever it has a body, and HAS_BODY exactly when the body is non-empty, is read back as the message written, with the receiver's author, taking exactly its own bytes |
| Codec.DecodeEncoded | utils.go:139-234 | the bytes of one such frame decode to exactly that message and leave nothing |
| Codec.DecodeEncodeAll | utils.go:139-234 | a run of such frames decodes to their messages in order and leaves nothing |
| Codec.DecodeResume | utils.go:155-162 | decoding a buffer, then its leftover followed by more bytes, yields the same messages and leftover as decoding it all at once |
| Codec.EmptyNameWithBodyStalls | utils.go:190-195 | a HAS_BODY frame with an empty name never completes, whatever follows it |
| Codec.FlagWithoutBodySwallowsNext | utils.go:121-130 | a HAS_BODY frame written with an empty body is incomplete alone, and what completes first takes at least 8 bytes of what follows |
| Codec.BodyWithoutFlagIsReframed | utils.go:177-185 | a body written without HAS_BODY is dropped from the message, and its length field and body are parsed as further frames |
| Ids.AlphSpelling | utils.go:12-18 | the 64-character table is the lower-case letters, the capitals, the digits, `-` and `_`, in that order |
| Ids.AlphIndexInverts | utils.go:12-18 | the table has 64 entries and no repeats: each character names a single 6-bit digit |
| Ids.AppendSpelling | utils.go:33-36 | the shift loop appends `count` table characters spelling `n` six bits at a time, lowest first |
| Ids.UID | utils.go:21-45 | the UID is seven characters spelling the random draw, then five spelling the clock |
| Ids.SpellAt | utils.go:33-42 | character k of a spelling of n is `alph[(n >> 6k) & 63]` |
| Ids.UnspellSpell | utils.go:33-42 | a spelling of `count` characters keeps exactly the low `6 * count` bits of the number |
| Ids.UidRoundTrip | utils.go:21-45 | every UID character is from the table; the first seven read back as the draw mod 2^42, the last five as the clock mod 2^30 |
| Ids.BigEndianBytes | utils.go:53-68 | byte i of a big-endian field is the masked and shifted byte `width - 1 - i` of the number |
| Ids.BID12 | utils.go:48-71 | the twelve masked shifts give the clock's low 32 bits big-endian, then the draw big-endian |
| Ids.BidRoundTrip | utils.go:48-71 | bytes 0-3 read back as the clock mod 2^32 and bytes 4-11 as the draw |
| Reader.DeliverPrefix | utils.go:207-215 | the callback sees a prefix of the messages, and all of them unless it refuses one |
| Reader.DeliverStopsAtFirstRefusal | utils.go:207-215 | delivery stops exactly when the callback refuses a message; that message is the last one it sees, and it accepted all before it |
| Reader.DeliverAppend | utils.go:155-162 | handing over two runs of messages one after the other is handing over their concatenation |
| Reader.CursorsComplete | utils.go:212-213 | the test `msgEnd > 0 && readLen >= msgEnd` holds exactly when the buffer starts with a complete frame, and the cursors then hold that frame's message and size |
| Reader.TracksExtend | utils.go:160-161 | bytes appended by a read do not change what the cursors read from the bytes before |
| Reader.ReadHeader | utils.go:164-186 | the id, meta and name-length steps leave those cursors holding what the buffer shows |
| Reader.ReadPayload | utils.go:188-210 | the name, body-length and body steps leave every cursor holding what the buffer shows |
| Reader.Cleanup | utils.go:217-234 | after a delivered message the cursors are reset, the frame's bytes are dropped, and `readLen` is the new buffer length |
| Reader.Drain | utils.go:163-240 | the inner loop hands over what the whole-buffer decoder finds, up to the first refusal; otherwise it leaves the decoder's leftover with matching cursors and no complete frame |
| Reader.StreamReader.Feed | utils.go:155-240 | one read hands over what the decoder finds in the old leftover plus the chunk, up to the first refusal; otherwise it keeps `readLen == len(msgBuff)` and leaves the decoder's leftover |
| Reader.ReadStream | utils.go:139-245 | over reads that end in an error, the callback gets the decoded messages of all the bytes up to its first refusal; if it refuses none, it also gets the disconnect message. How the reads split the bytes does not matter |
| Reader.StoppedStaysStopped | utils.go:213-215 | once the callback has refused a message, later reads hand over nothing more |
| Reader.KeepAllDeliversAll | utils.go:139-245 | a callback that always answers true gets every decoded message, then the disconnect message |
| Reader.ReadStreamRoundTrip | utils.go:139-245 | frames written by a well-behaved peer that then drops the connection reach an accepting callback one by one, in order, followed by the disconnect message |
| Rules.LaunchesExactly | server.go:233-243 | one scan launches exactly the rules that match and are persistent or not yet called, each once, in table order |
| Rules.MarkOnlyCalls | server.go:233-243 | one scan changes no filter and sets `called` exactly on the matching one-shot rules |
| Rules.LaunchCounts | server.go:233-243 | over any run of messages, a persistent rule is launched once per message it matches; a one-shot rule at most once in all, never once called, and ends up called exactly when it was or matched some message |
| Transport.Outgoing | server.go:96-100 | a sender's frame has the request flag as asked and HAS_BODY exactly when the body is not nil |
| Transport.OutgoingRoundTrips | utils.go:121-130 | such a frame is read back unchanged exactly when its body is not an empty non-nil slice and it has a name whenever it has a body |
| Transport.WriteMsg | utils.go:93-134 | the write succeeds exactly on a writable connection, and then appends the encoded frame; otherwise nothing is written |
| Transport.DeliveredAfter | utils.go:132 | a successful write of such a frame reaches the peer's reader as the same message, after what was written before, when the earlier bytes leave no partial frame |
| Server.UnixAddresses | server.go:32-36 | an address is a unix socket exactly when it starts with `/`, ends in `.sock`, and is at least 6 bytes long |
| Server.ConnTypeExamples | server.go:32-36 | the example socket path is unix; a host:port and two near misses are TCP |
| Server.ServerHitsIgnoreCalled | server.go:215-232 | which rules a message matches depends on the filters only, not on `called` |
| Server.UnknownAuthorPasses | server.go:224-232 | a message from an author with no registry entry passes every author filter |
| Server.FanoutStep | server.go:94-104 | writing to one more client changes that client's connection only, and only if it is addressed |
| Server.FanoutOnlyAppends | server.go:92-127 | a fan-out keeps ids, names and closed flags; it changes exactly the addressed clients before the first failure, and those were writable |
| Server.Reply | server.go:268-276 | a reply exists exactly for a request; it reuses the id (copied into 12 bytes) and name, has no request flag, and has HAS_BODY exactly when the answer is not nil |
| Server.PadId | server.go:273-274 | a 12-byte id is copied unchanged |
| Server.HandleMessage | server.go:263-277 | a request's reply is written to the sender's connection; nothing is written for other messages |
| Server.ReplyDelivered | server.go:263-277 | a reply with a nil answer, or with a non-empty answer to a request with a non-empty name, reaches the requester's reader with the request's id and name and the answer as returned |
| Server.AcceptThenRemove | server.go:251-260 | removing a client accepted under a fresh id restores the registry exactly |
| Server.RemovedEntries | server.go:251-260 | cleanup removes the first entry with the id (the last entry if none has it) and keeps every other entry in order |
| Server.Server.Listen | server.go:29-59 | the address picks the socket type; with a listener, exactly the handshake rule (name filter "handshake", persistent) is appended; without one, the error is returned and the rules are unchanged |
| Server.Server.On | server.go:69-77 | appends one persistent, uncalled rule with the author and name filters; nothing else changes |
| Server.Server.Once | server.go:80-89 | appends one one-shot, uncalled rule with the author and name filters; nothing else changes |
| Server.Server.WriteAll | server.go:94-104 | addressed clients are written in registry order until the first failing write; the error is returned exactly when one fails |
| Server.Server.Broadcast | server.go:92-107 | every client is written to, in order, until the first failing write; each frame has HAS_BODY exactly when the body is not nil |
| Server.Server.Send | server.go:110-127 | only clients with the name are written to, in order, until the first failing write |
| Server.Server.Disconnect | server.go:130-143 | closes only the first client whose id or name matches, keeps it in the registry, and returns the close error |
| Server.Server.HandshakeHandler | server.go:146-163 | only the client whose id is the author is renamed to the body, and its id is the answer; with no such client the last client's id is answered |
| Server.Server.Accept | server.go:195-203 | the connection is appended last under its UID with an empty name; existing entries and rules are unchanged |
| Server.Server.Matches | server.go:217-232 | the three filter tests compute the server's match |
| Server.Server.Dispatch | server.go:215-244 | one scan launches the rules `Launches` names and marks the table as `Mark` does |
| Server.Server.RemoveClient | server.go:251-260 | the registry loses the entry `Removed` names; the rules are unchanged |
| Server.Server.HandleMessages | server.go:211-261 | every message of the connection, then the disconnect message, is scanned in turn against the table each scan leaves; then the client is removed |
| Client.ClientHitsIgnoreCalled | client.go:111-119 | which rules a message matches depends on the filters only |
| Client.HandshakeReading | client.go:148-158 | the handshake callback's last message is a "handshake" message exactly when one arrives, and it is the first such message |
| Client.HandshakeAssignsId | client.go:148-158 | the server's handshake reply, arriving first, makes the id it carries the client's id |
| Client.Client.Send | client.go:34-53 | with an empty id, fails with `ErrDisconnected` and writes nothing; otherwise writes a frame with HAS_BODY exactly when the body is not nil, and no request flag |
| Client.Client.Req | client.go:56-86 | with an empty id, fails and changes nothing; otherwise appends one one-shot rule on the new id and the name, then writes the request; the rule stays if the write fails |
| Client.Client.On | client.go:89-96 | appends one persistent rule with only a name filter |
| Client.Client.Disconnect | client.go:99-105 | the id becomes empty, so later `Send` and `Req` fail; the connection is closed |
| Client.Client.Matches | client.go:113-119 | the id and name tests compute the client's match |
| Client.Client.Dispatch | client.go:111-132 | one scan launches the rules `Launches` names, with no author filter, and marks the table as `Mark` does |
| Client.Client.HandleResponses | client.go:107-137 | every message from the server, then the disconnect message, is scanned in turn; id and connection are unchanged |
| Client.Client.Handshake | client.go:140-161 | writes a "handshake" request with both flags and the name as body; if that write succeeds, the id becomes the body of the first "handshake" message |
| Client.ReplyMatchesReq | client.go:67-77 | an answer with the request's id and name matches the rule `Req` added, which fires once and not again |

## Left out

- Sockets: `Dial` (conn.go), `setupListener`, the accept loop of `handleClients`, `ListenAll`, and the dialing in `Connect`.
  - `Listen` takes whether a listener could be set up as a parameter.
  - The registry append of the accept loop is `Server.Server.Accept`.
- Goroutines, the `sync` locks and `Req`'s channel.
  - A launched handler is recorded as its rule's index and is not run.
  - The handshake rename (`HandshakeHandler`) and the reply (`HandleMessage`) are separate operations.
  - Interleavings of concurrent handlers are not modelled.
  - Not modelled: `Broadcast`, `Send` and `Disconnect` keep the lock on their error returns, and `handshakeHandler` reads `Clients[i]` after unlocking.
- Server.Server.HandleMessages: author filters are matched against the registry as it was before the scan. The handshake rename (server.go:153) happens in a launched handler, which the model does not run, so later author filters in the same scan do not see the new name.
- `time.Now` and `math/rand`: the clock reading, the random draw and each write's fresh message id are parameters.
  - The test that two successive UIDs differ depends on the clock and is not stated.
- `log.Fatal` for a name over 255 bytes is a precondition (`|name| <= 255`) of every operation that writes a frame.
- Reader.Drain: does not model uint64 wrap-around of `bodyStart + bodyLen`; the cursor arithmetic is unbounded. For a peer-sent body length near 2^64, Go's slice bounds become invalid and the reader panics.
- Connections: the 256-byte read buffer, short reads and partial writes.
  - A read is any chunk of bytes, and the stream ends with a read error.
  - A write puts all of its bytes or none of them.
- `ErrDisconnected` is declared outside the core files. It is the `Disconnected` error value here.
- Panics on an empty registry in `handshakeHandler` and in the cleanup of `handleMessages` (index out of range) are excluded by `|clients| > 0` preconditions.
- `Server.HandleMessage` writes to a connection value it is given. It does not update the registry entry that holds that connection.
- Client.Client.Handshake: the bytes the reader had buffered past the handshake reply are not carried over to `handleResponses`. In Go they are also dropped, because each `readStream` call starts a new buffer.
- The repository's example programs (a server and three clients) and the printing in the tests.
