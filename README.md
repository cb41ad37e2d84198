# bihttp in Dafny

A model of the two classes of bihttp, a library that builds a full-duplex
message channel out of two half-duplex HTTP requests on one endpoint.

- **`BiHTTPServer`** (`lib/server.ts`).
  - A client opens a long-lived GET. Its response body is the server's
    outbound stream to that client.
  - The client streams a POST whose body carries the client's messages.
  - Both requests are correlated by a `clientId`, which the server assigns
    and returns in the `X-Client-ID` header.
  - Messages are JSON texts, one per line.
- **`BiHTTPClient`** (`lib/client.ts`). Opens the GET, captures the id, opens
  the streaming POST, and keeps the connection state.

The model has five modules, one per file:

- **`Framing`** (`framing.dfy`). The newline framing both peers share:
  - `split("\n")`, and the reader's step `(buffer, chunk) -> (segments, buffer)`.
  - The left fold of that step over a stream of chunks.
  - ECMAScript `trim`, the dispatch filter that skips blank lines and drops
    lines the parser rejects.
  - The serializer, taken as a `Codec`: a pair of functions.
- **`Handlers`** (`handlers.dfy`).
  - The handler registry. A JavaScript `Set` of callbacks becomes an
    insertion-ordered, duplicate-free sequence of handler ids.
  - The record of handler calls (`Invocation`), and the fan-out of a message
    to every handler.
- **`Server`** (`server.dfy`).
  - `class ResponseStream`: the GET body with its controller.
  - `class BiHttpServer`: the `clients` map, the handler set and the log of
    handler calls.
  - `sendMessage`, `broadcastMessage` and the request handler. The request
    handler covers GET registration and cancel, the POST read loop, and the
    200/400/405/500 answers.
- **`Client`** (`client.dfy`).
  - `class BiHttpClient`: `connected`, `clientId`, the two abort handles, the
    POST body writer, the handlers, the log of handler calls and the
    requests issued.
  - `connect`, `disconnect`, `sendMessage`, the two setup steps, the POST
    rejection handler and the GET read loop.
- **`Protocol`** (`protocol.dfy`). How the peers fit together:
  - The id the server assigns is the one the client keeps and sends back.
  - What one peer writes is what the other peer's handlers receive.

Every loop of the source is a `while` loop with invariants:

- **The read loops and segment loops.** They are proved against the
  specification functions `Feed`, `Decoded` and `FanoutAll`. What the
  source promises is proved about those functions as lemmas.
- **The handler loops.** Both `Notify` loops are proved against `Fanout`.
- **The loop of `broadcastMessage`.** It is proved directly against its
  per-stream postcondition: when the message serializes, every open stream
  gets one frame, and every other stream is left as it was.

The model takes these things as parameters:

- **`JSON.stringify` and `JSON.parse`.** A `Codec` holds two total
  functions. `stringify` returns `None` where it would throw, and `parse`
  returns `None` where it would throw.
- **The lawful-codec assumption.** The protocol's round trips assume
  `Lawful(codec)`: serialized text has no newline, is not blank, and parses
  back to the message.
- **`crypto.randomUUID()`.** The `freshId` argument of `Handle`.
- **How a `fetch` settles.** A `GetReply` for the GET. A call of
  `OnPostError` for the POST.
- **What a body stream delivers.** A `ChunkStream`: the decoded text chunks,
  and whether the read after them fails.
- **Whether a stream or writer still accepts data.** Its `open` flag. The
  transport may clear it with `Close`.

Handlers are identified by number. Calling a handler appends an
`Invocation` to the peer's `log`.

In these places the code does something other than a reader of the protocol might expect; the model follows the code:

- **A normal end of the GET body.** On the client it does not disconnect;
  only a failed read does, and only while `connected`
  (`lib/client.ts:175-179`).
- **The id after `disconnect()`.** It does not clear `clientId`, so a
  reconnection sends the same id again.
- **No "connecting" state.** `connected` becomes true only after both
  setups. A second `connect()` issued while the first GET is still pending is
  not rejected. The model runs `connect` atomically, so it does not show this.
- **POSTs with an unknown id.** They are processed like any other; the
  server does not check that a GET stream exists for the id.

## Model

| member | source | states |
|---|---|---|
| Framing.Split | lib/server.ts:89 | `split("\n")` gives at least one piece; no piece holds a newline; the pieces but the last, each followed by a newline, and then the last piece, are exactly the text |
| Framing.SplitAfterFrame | lib/server.ts:89 | splitting a frame followed by more text gives the frame's payload, then the split of the rest |
| Framing.SplitUnique | lib/server.ts:89 | any newline-free decomposition that joins back to the text is the one `split` returns |
| Framing.Step | lib/server.ts:86-90 | one read-loop turn: the complete segments are newline-free, the kept text has no newline, and segments plus kept text are exactly buffer plus chunk |
| Framing.StepUnique | lib/server.ts:86-90 | those three properties determine the step's result completely |
| Framing.StepCompose | lib/server.ts:82-90 | stepping through `x + y` at once equals stepping through `x` and then `y` from the kept text |
| Framing.FeedIsStepOfFlatten | lib/client.ts:151-159 | the read loop over any chunking equals one step over the concatenated text (chunk-split independence) |
| Framing.FeedSpec | lib/server.ts:82-90 | the read loop loses and invents nothing: its segments are newline-free, and framed again and followed by the kept text they are the starting buffer plus every chunk; the kept text holds no newline when the starting buffer held none |
| Framing.ChunkBoundariesIrrelevant | lib/client.ts:151-159 | two chunkings with the same text yield the same segments and the same kept text |
| Framing.FlattenFrames | lib/server.ts:27-28 | the frames enqueued one by one form the same text as all payloads framed at once |
| Framing.FramesInOneChunk | lib/server.ts:86-90 | a chunk holding K complete frames yields exactly those K payloads, in order, and keeps nothing |
| Framing.FramesInAnyChunks | lib/client.ts:151-159 | frames cut into chunks anyhow yield exactly the payloads, in order, and keep nothing |
| Framing.FrameRoundTrip | lib/server.ts:82-90 | decode(encode(p)) = p for a payload without a newline, in any chunking |
| Framing.UnterminatedTailKept | lib/server.ts:90 | text after the last newline is kept as the buffer and never handed on |
| Framing.TrimStartSpec | lib/server.ts:93 | `trimStart` keeps a suffix that does not start with whitespace; everything it drops is whitespace |
| Framing.TrimEndSpec | lib/server.ts:93 | `trimEnd` keeps a prefix that does not end with whitespace; everything it drops is whitespace |
| Framing.TrimEmptyIffBlank | lib/server.ts:93 | `msgStr.trim()` is empty if and only if every character of the segment is whitespace |
| Framing.DecodeSegmentSpec | lib/server.ts:93-95 | a segment is handed on exactly when it holds a character other than whitespace and the parser accepts it, and then as the parsed message |
| Framing.DecodedNeverInvents | lib/server.ts:92-104 | the segment loop never yields more messages than it was given segments |
| Framing.DecodedBlankIsEmpty | lib/server.ts:92-104 | a run of blank segments dispatches nothing |
| Framing.DecodedAllDecodable | lib/server.ts:92-104 | when every segment decodes, each is dispatched, in order, as its parsed message |
| Framing.DecodedAppend | lib/server.ts:92-104 | the messages dispatched for two runs of segments are those of the first run followed by those of the second |
| Framing.DecodeSerialized | lib/server.ts:93-95 | under a lawful codec a serialized message passes the blank filter and parses back to itself |
| Framing.SerializedNoNewline | lib/server.ts:27 | under a lawful codec no serialized message contains a newline |
| Framing.SerializedDecodes | lib/server.ts:92-104 | under a lawful codec the dispatch filter and parser turn the serialized messages back into the messages |
| Framing.MessagesRoundTrip | lib/server.ts:82-104 | serialized, framed messages in any chunking are all dispatched, in order, and nothing is left buffered |
| Handlers.Add | lib/server.ts:8-12 | `Set.add`: `h` becomes a member; old members keep their order; a new member goes last; no duplicates arise |
| Handlers.Remove | lib/server.ts:15-19 | `Set.delete`: exactly `h` is removed; every other member stays, in order; no duplicates arise |
| Handlers.RemoveAbsent | lib/server.ts:18 | deleting a handler that is not registered changes nothing |
| Handlers.RemoveUndoesAdd | lib/server.ts:8-19 | removing a handler that was not registered, just after adding it, gives back the previous set (re-adding a registered one is a no-op, so deleting it then removes it) |
| Handlers.FanoutSpec | lib/server.ts:97-99 | the handler loop makes one call per registered handler, in registration order, each with the message |
| Handlers.FanoutAllSpec | lib/server.ts:92-104 | dispatching a run of messages makes one call per message and handler, and each call names a registered handler and one of the messages |
| Handlers.ReceivedFanout | lib/server.ts:97-99 | one message reaches every registered handler exactly once, and no other handler |
| Handlers.ReceivedFanoutAll | lib/server.ts:92-104 | each registered handler receives exactly the dispatched messages, in order; an unregistered one receives nothing |
| Server.EffectiveClientId | lib/server.ts:47 | the id used is the query parameter or the fresh id, and it is never empty when fresh ids are not |
| Server.Tagged | lib/server.ts:98 | each dispatched message is paired with the POST's client id |
| Server.PostedMessagesReachHandlers | lib/server.ts:82-104 | under a lawful codec, every registered server handler receives the posted messages in order, each with the client id, in any chunking |
| Server.ResponseStream.Enqueue | lib/server.ts:28 | `enqueue` succeeds exactly while the stream is open; then it appends one frame and nothing else changes |
| Server.ResponseStream.Close | lib/server.ts:56-58 | a cancelled or closed body refuses every later `enqueue`; what was enqueued stays |
| Server.BiHttpServer.constructor | lib/server.ts:1-5 | the registry and the handler set start empty |
| Server.BiHttpServer.OnMessage | lib/server.ts:8-12 | the handler set becomes `Add(handlers, h)` |
| Server.BiHttpServer.RemoveMessageHandler | lib/server.ts:15-19 | the handler set becomes `Remove(handlers, h)` |
| Server.BiHttpServer.SendMessage | lib/server.ts:22-34 | false for an unknown id, an unserializable message or a refused enqueue; otherwise exactly one frame `stringify(m) + "\n"` on that client's stream only; the registry never changes |
| Server.BiHttpServer.BroadcastMessage | lib/server.ts:37-41 | when the message serializes, every registered open stream receives exactly one frame `stringify(m) + "\n"`; otherwise none does; a closed stream does not stop the others; the registry is unchanged |
| Server.BiHttpServer.OpenStream | lib/server.ts:52-68 | GET start registers a new open stream under the id, replacing any earlier one; the response carries the four headers, with `X-Client-ID` set to the id |
| Server.BiHttpServer.Notify | lib/server.ts:97-99 | one handler call per registered handler, in registration order |
| Server.BiHttpServer.DispatchSegments | lib/server.ts:92-104 | blank and unparseable segments are skipped without stopping the loop; every other segment's message goes to every handler with the id, in order |
| Server.BiHttpServer.ConsumeChunk | lib/server.ts:86-104 | the kept text is the step's kept text; the handler calls are those for the step's complete segments |
| Server.BiHttpServer.ReadPostBody | lib/server.ts:77-118 | the handler calls are those for the whole body's complete segments; a normal end answers 200 "OK" with `X-Client-ID`, a failed read 500 |
| Server.BiHttpServer.Handle | lib/server.ts:45-122 | effective id is the non-empty query id or a fresh one; GET registers a stream; POST without a body answers 400 and changes nothing; POST with a body dispatches then answers 200 or 500; any other method answers 405 and changes nothing |
| Server.BiHttpServer.OnCancel | lib/server.ts:56-58 | cancel, as written: the stream closes and its id is deleted from the registry, whichever stream is registered under it |
| Server.BiHttpServer.OnCancelGuarded | lib/server.ts:56-58 | cancel, as intended: the id is deleted only if this stream is the one registered; every other entry is kept |
| Server.StaleCancelDropsLiveStream | lib/server.ts:52-59 | two GETs for one id, then the first stream is cancelled: the live second stream is no longer registered |
| Server.StaleCancelKeepsLiveStream | lib/server.ts:52-59 | the same sequence with the guarded cancel keeps the live stream registered |
| Client.CapturedClientId | lib/client.ts:103 | a present, non-empty `X-Client-ID` header replaces the id; otherwise the previous id stays; an empty id never arises |
| Client.BodyWriter.Write | lib/client.ts:75 | `write` succeeds exactly while the writer is open; then it appends one frame |
| Client.BodyWriter.Close | lib/client.ts:61-64 | `writer.close()`: the writer refuses every later write; what was written stays |
| Client.AbortHandle.Abort | lib/client.ts:51-59 | `controller.abort()`: the request it signals is aborted |
| Client.IsOk | lib/client.ts:96 | the Fetch `ok` attribute, a status in 200-299; a definition, whose use is stated by SetupGetConnection: a status outside that range is `GetFailed` |
| Client.BiHttpClient.constructor | lib/client.ts:1-12 | a new client is disconnected, has no id, no handlers, and has issued no request |
| Client.BiHttpClient.IsConnected | lib/client.ts:14-16 | returns `connected` |
| Client.BiHttpClient.GetClientId | lib/client.ts:18-20 | returns the captured id, null before any |
| Client.BiHttpClient.OnMessage | lib/client.ts:23-25 | the handler set becomes `Add(handlers, h)` |
| Client.BiHttpClient.Disconnect | lib/client.ts:48-65 | afterwards not connected, both controllers and the writer cleared; the old controllers are aborted and the old writer closed; id, handlers and logs kept; from a disconnected state nothing changes (idempotent) |
| Client.BiHttpClient.SetupGetConnection | lib/client.ts:83-110 | a new controller; a GET carrying the known id; rejection, a non-2xx status or a missing body is the error; the id is captured from the header after the status check |
| Client.BiHttpClient.SetupPostConnection | lib/client.ts:112-132 | a new controller and an open, empty writer; a POST with the id and `Content-Type: application/json` |
| Client.BiHttpClient.Connect | lib/client.ts:28-45 | when already connected, fails with "Already connected" and changes nothing, neither the client nor its live controllers and writer; otherwise connects exactly when the GET succeeds with a body, else ends disconnected and returns the GET's error; GET then POST are issued; on success both new controllers are live and the new writer is open and empty |
| Client.BiHttpClient.SendMessage | lib/client.ts:68-81 | false without writing when not connected, for an unserializable message, or when the write is refused; otherwise writes exactly `stringify(m) + "\n"` |
| Client.BiHttpClient.OnPostError | lib/client.ts:133-140 | POST rejection, as written: the client disconnects, whichever connection is current; the old controllers are aborted and the old writer closed, as a direct `disconnect()` does |
| Client.BiHttpClient.OnPostErrorGuarded | lib/client.ts:133-140 | POST rejection, as intended: only the current POST's failure disconnects, aborting both controllers and closing the writer; an earlier one's changes nothing, neither the client nor its live controllers and writer |
| Client.BiHttpClient.Notify | lib/client.ts:166-168 | one handler call per registered handler, in registration order |
| Client.BiHttpClient.DispatchSegments | lib/client.ts:161-173 | blank and unparseable segments are skipped without stopping the loop; every other segment's message goes to every handler, in order |
| Client.BiHttpClient.ConsumeChunk | lib/client.ts:155-173 | the kept text is the step's kept text; the handler calls are those for the step's complete segments |
| Client.BiHttpClient.ReadServerMessages | lib/client.ts:146-174 | the handler calls are those for the whole body's complete segments, in order |
| Client.BiHttpClient.ProcessServerMessages | lib/client.ts:143-181 | the read loop, then a disconnect exactly when the read failed while connected, aborting both controllers (the GET's abort is what cancels the server's stream) and closing the writer; otherwise the connection state is untouched: same fields, and the live controllers and writer are neither aborted nor closed |
| Client.StalePostErrorDropsNewConnection | lib/client.ts:133-140 | connect, disconnect, reconnect, then the first POST's rejection arrives: the new connection is torn down |
| Client.StalePostErrorKeepsNewConnection | lib/client.ts:133-140 | the same sequence with the guarded handler leaves the new connection up: still connected, its POST controller live and its writer open |
| Protocol.AssignedIdIsKept | lib/client.ts:83-103 | a client without an id adopts the server's fresh id from `X-Client-ID`; a client with an id keeps it; the server keeps an id sent back to it |
| Protocol.ClientMessagesReachServer | lib/server.ts:82-104 | what the client's writer holds after successful sends reaches each server handler as those messages, in order, with the client's id |
| Protocol.ServerMessagesReachClient | lib/client.ts:150-174 | what the server enqueued after successful sends reaches each client handler as those messages, in order |
| Protocol.SingleFrameDecodes | lib/client.ts:155-168 | a body of one serialized frame dispatches exactly that message |
| Protocol.OneFrameReachesServerHandler | lib/server.ts:92-99 | a one-frame body calls a lone server handler exactly once, with the message and the client id |
| Protocol.OneFrameReachesClientHandler | lib/client.ts:161-168 | a one-frame body calls a lone client handler exactly once, with the message |
| Protocol.ClientLearnsAssignedId | lib/client.ts:83-118 | against a server that hands out "c1", the client connects, holds "c1", and sends it on its POST |
| Protocol.GreetingReachesServer | lib/server.ts:92-99 | a connected client's greeting reaches the server handler once, paired with the client's id |
| Protocol.EchoReachesClient | lib/client.ts:161-168 | a client reading the "c1" stream, after the server sends one message to "c1", calls its handler once, with that message |

## Left out

- **Asynchrony and interleaving.** Every operation runs atomically. This
  leaves out:
  - a second `connect()` during a pending GET;
  - a stale POST rejection arriving while a reconnection's GET is pending,
    the likely way the lib/client.ts:133-140 finding shows itself;
  - the read loops running beside other calls;
  - concurrent requests on the server.
- **`fetch`, `Deno.serve`, `ReadableStream`, `TransformStream`,
  `AbortController`.** Each becomes a small object: a flag and the data it
  carries. Stream and writer failures are the `open` flag.
- **JSON.** `JSON.stringify` and `JSON.parse` are abstract, as a `Codec`.
  The model does not cover `stringify(undefined)` being `undefined`, which
  would frame the text "undefined".
- **`TextEncoder` and `TextDecoder`.** Chunks are already-decoded text, so
  a UTF-8 sequence split across chunks is not modelled. The final
  `decoder.decode(new Uint8Array(0))` (`lib/server.ts:108`) has no effect
  on the model.
- **`crypto.randomUUID()`.** It is the `freshId` parameter; its uniqueness
  is not modelled.
- **Handler side effects and exceptions.** A handler that throws inside the
  per-segment `try` skips the remaining handlers for that message. The
  model's handlers do not throw, so that case is not covered.
- **Logging.** `console.log` and `console.error` are left out.
- **`main.ts`, the demo.** Its timers and output are out of scope;
  `Protocol.GreetingReachesServer` and `Protocol.EchoReachesClient` model
  its echo exchange.
- **The full URL.** Only the `clientId` query parameter and the
  `Content-Type` header of the client's requests are modelled. The server
  URL is a constant.
- **Order of `broadcastMessage`.** The JavaScript `Map` iterates keys in
  insertion order. The model sends to the keys in an arbitrary order, which
  does not change any stream's result.
- **Server.BiHttpServer.DispatchSegments and
  Client.BiHttpClient.DispatchSegments.** The source's two-level test
  (`if (msgStr.trim())` around the `JSON.parse` that may fail) is one call of
  `DecodeSegment`, which is that test and that parse.

## Findings

| source | as written | input that shows it | evidently intended | confidence | as-written member | corrected member |
|---|---|---|---|---|---|---|
| lib/server.ts:56-58 | a GET stream's `cancel` deletes `clients[clientId]` whichever stream is registered under that id by then | a client reconnects with id "c1": the second GET registers a new stream before the first stream's cancel runs; the cancel removes the live entry, and `sendMessage("c1", m)` returns false although the client's stream is open | remove the entry only if it still belongs to the cancelled stream | not executed; needs that ordering of the two events | Server.StaleCancelDropsLiveStream | Server.BiHttpServer.OnCancelGuarded |
| lib/client.ts:133-140 | the POST's `catch` calls `disconnect()` whatever connection is current when the rejection arrives | `disconnect()` aborts the POST, and `connect()` is called in the same turn. The abort rejects the first POST's promise, so its `catch` runs as a microtask while the new GET is still pending (`getController` is already set at lib/client.ts:84). That `disconnect()` aborts the new GET, and `connect()` rejects. The model runs `connect` atomically, so its scenario delivers the rejection after the reconnect and shows the same unconditional disconnect tearing down the new connection | disconnect only if the failed POST is the current one; a pending reconnection, which has no POST controller yet, is then left alone | not executed; the likely symptom is a failed reconnection, not a dropped connection | Client.StalePostErrorDropsNewConnection | Client.BiHttpClient.OnPostErrorGuarded |
