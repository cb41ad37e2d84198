/** The server side of the protocol: a registry from client id to the
    client's open GET response stream, the handler set for inbound messages,
    and the request handler that answers GET and POST on the one endpoint. */
module Server {
  import opened Framing
  import opened Handlers

  /** The body of one GET response together with its controller. The
      `start` and `cancel` callbacks of the stream share the client id
      the request was given, kept here as `clientId`. */
  class ResponseStream {
    const clientId: string
    /** False once the stream is closed or cancelled: `enqueue` then throws. */
    var open: bool
    /** Everything enqueued so far, in order: what the client reads. */
    var frames: seq<string>

    constructor (clientId: string)
      ensures this.clientId == clientId && open && frames == []
    {
      this.clientId := clientId;
      open := true;
      frames := [];
    }

    /** `controller.enqueue(...)`: succeeds exactly while the stream is open. */
    method Enqueue(frame: string) returns (ok: bool)
      modifies this
      ensures ok == old(open) && open == old(open)
      ensures frames == if ok then old(frames) + [frame] else old(frames)
    {
      ok := open;
      if ok {
        frames := frames + [frame];
      }
    }

    /** The transport tears the body down (the peer went away). */
    method Close()
      modifies this
      ensures !open && frames == old(frames)
    {
      open := false;
    }
  }

  /** An HTTP request reaching the endpoint: its method, the `clientId`
      query parameter if there is one, and the request body if there is one. */
  datatype Request = Request(verb: string, clientIdParam: Option<string>, body: Option<ChunkStream>)

  /** An HTTP response: status, text body, headers, and for a GET the body
      stream that stays open. */
  datatype Response = Response(status: int, text: string, headers: map<string, string>, stream: Option<ResponseStream>)

  const ClientIdHeader: string := "X-Client-ID"

  /** `url.searchParams.get("clientId") || crypto.randomUUID()`: an absent or
      empty parameter is replaced by a fresh id. */
  function EffectiveClientId(param: Option<string>, freshId: string): (id: string)
    ensures id == freshId || param == Some(id)
    ensures freshId != "" ==> id != ""
  {
    if param.Some? && param.value != "" then param.value else freshId
  }

  function GetHeaders(clientId: string): map<string, string> {
    map[
      "Content-Type" := "text/plain; charset=utf-8",
      "Connection" := "keep-alive",
      ClientIdHeader := clientId,
      "Cache-Control" := "no-cache"
    ]
  }

  const NoBody: Response := Response(400, "No request body", map[], None)
  const ProcessingFailed: Response := Response(500, "Error processing message", map[], None)
  const MethodNotAllowed: Response := Response(405, "Method not allowed", map[], None)

  function PostCompleted(clientId: string): Response {
    Response(200, "OK", map[ClientIdHeader := clientId], None)
  }

  /** Each message paired with the id of the client that posted it: the
      arguments a server handler is called with. */
  function Tagged<M>(ms: seq<M>, clientId: string): (r: seq<(M, string)>)
    ensures |r| == |ms|
    ensures forall i :: 0 <= i < |ms| ==> r[i] == (ms[i], clientId)
  {
    if ms == [] then [] else Tagged(ms[..|ms| - 1], clientId) + [(ms[|ms| - 1], clientId)]
  }

  lemma TaggedAppend<M>(a: seq<M>, b: seq<M>, clientId: string)
    ensures Tagged(a + b, clientId) == Tagged(a, clientId) + Tagged(b, clientId)
  {
    var l, r := Tagged(a + b, clientId), Tagged(a, clientId) + Tagged(b, clientId);
    assert |l| == |r|;
    forall i | 0 <= i < |l| ensures l[i] == r[i] {
      if i < |a| {
        assert (a + b)[i] == a[i];
      } else {
        assert (a + b)[i] == b[i - |a|];
      }
    }
  }

  /** The messages a client posts reach every registered server handler
      exactly once each, in the order they were sent, each paired with that
      client's id, however the body was cut into chunks. */
  lemma PostedMessagesReachHandlers<M(!new)>(
    codec: Codec<M>, hs: seq<HandlerId>, ms: seq<M>, chunks: seq<string>, clientId: string, h: HandlerId)
    requires Lawful(codec) && Distinct(hs) && h in hs
    requires Serialized(codec, ms).Some?
    requires Flatten(chunks) == EncodeAll(Serialized(codec, ms).value)
    ensures Received(FanoutAll(hs, Tagged(DecodeStream(codec, chunks), clientId)), h) == Tagged(ms, clientId)
  {
    MessagesRoundTrip(codec, ms, chunks);
    ReceivedFanoutAll(hs, Tagged(ms, clientId), h);
  }

  /** Handing one more message to the handlers extends the calls made so
      far by that message's fan-out. */
  lemma FanoutTaggedSnoc<M>(hs: seq<HandlerId>, ms: seq<M>, m: M, clientId: string)
    ensures FanoutAll(hs, Tagged(ms + [m], clientId)) ==
      FanoutAll(hs, Tagged(ms, clientId)) + Fanout(hs, (m, clientId))
  {
    TaggedAppend(ms, [m], clientId);
    assert Tagged([m], clientId) == [(m, clientId)];
    FanoutSnoc(hs, Tagged(ms, clientId), (m, clientId));
  }

  class BiHttpServer<M> {
    const codec: Codec<M>
    /** Client id to the controller of that client's GET stream. */
    var clients: map<string, ResponseStream>
    /** The message handlers, in the order they were first added. */
    var handlers: seq<HandlerId>
    /** Every handler call made so far: handler, message, client id. */
    var log: seq<Invocation<(M, string)>>

    /** Each registered stream is keyed by the id its callbacks captured,
        and no handler is registered twice. */
    ghost predicate Valid()
      reads this
    {
      && Distinct(handlers)
      && forall id :: id in clients ==> clients[id].clientId == id
    }

    constructor (codec: Codec<M>)
      ensures Valid() && this.codec == codec
      ensures clients == map[] && handlers == [] && log == []
    {
      this.codec := codec;
      clients := map[];
      handlers := [];
      log := [];
    }

    /** `onMessage(handler)`. */
    method OnMessage(h: HandlerId)
      requires Valid()
      modifies this`handlers
      ensures Valid() && handlers == Add(old(handlers), h)
    {
      handlers := Add(handlers, h);
    }

    /** `removeMessageHandler(handler)`. */
    method RemoveMessageHandler(h: HandlerId)
      requires Valid()
      modifies this`handlers
      ensures Valid() && handlers == Remove(old(handlers), h)
    {
      handlers := Remove(handlers, h);
    }

    /** `sendMessage(clientId, message)`: false for an unknown id, for a
        message that does not serialize, and for a stream that refuses the
        frame; otherwise exactly one frame is enqueued on that client's
        stream. Nothing else changes, and it never throws. */
    method SendMessage(clientId: string, message: M) returns (ok: bool)
      requires Valid()
      modifies if clientId in clients then {clients[clientId]} else {}
      ensures ok == (clientId in clients && codec.stringify(message).Some? && old(clients[clientId].open))
      ensures clientId in clients ==>
        clients[clientId].open == old(clients[clientId].open) &&
        clients[clientId].frames ==
          if ok then old(clients[clientId].frames) + [Encode(codec.stringify(message).value)]
          else old(clients[clientId].frames)
    {
      if clientId !in clients {
        return false;
      }
      var controller := clients[clientId];
      match codec.stringify(message)
      case None =>
        ok := false;
      case Some(text) =>
        ok := controller.Enqueue(Encode(text));
    }

    /** `broadcastMessage(message)`: one `sendMessage` per registered id;
        a stream that refuses the frame does not stop the others. */
    method BroadcastMessage(message: M)
      requires Valid()
      modifies clients.Values
      ensures forall id :: id in clients ==>
        clients[id].open == old(clients[id].open) &&
        clients[id].frames ==
          if codec.stringify(message).Some? && old(clients[id].open)
          then old(clients[id].frames) + [Encode(codec.stringify(message).value)]
          else old(clients[id].frames)
    {
      var pending := clients.Keys;
      while pending != {}
        invariant pending <= clients.Keys
        invariant forall id :: id in clients && id !in pending ==>
          clients[id].open == old(clients[id].open) &&
          clients[id].frames ==
            if codec.stringify(message).Some? && old(clients[id].open)
            then old(clients[id].frames) + [Encode(codec.stringify(message).value)]
            else old(clients[id].frames)
        invariant forall id :: id in pending ==>
          clients[id].open == old(clients[id].open) && clients[id].frames == old(clients[id].frames)
        decreases pending
      {
        var id :| id in pending;
        var _ := SendMessage(id, message);
        pending := pending - {id};
      }
    }

    /** A GET: the stream's `start` callback registers it under the client
        id, replacing any earlier stream for that id. */
    method OpenStream(clientId: string) returns (response: Response)
      requires Valid()
      modifies this`clients
      ensures Valid()
      ensures response.status == 200 && response.text == "" && response.headers == GetHeaders(clientId)
      ensures response.stream.Some? && fresh(response.stream.value)
      ensures response.stream.value.clientId == clientId
      ensures response.stream.value.open && response.stream.value.frames == []
      ensures clients == old(clients)[clientId := response.stream.value]
    {
      var stream := new ResponseStream(clientId);
      clients := clients[clientId := stream];
      response := Response(200, "", GetHeaders(clientId), Some(stream));
    }

    /** The innermost loop: one parsed message goes to every handler, in
        registration order. */
    method Notify(message: M, clientId: string)
      modifies this`log
      ensures log == old(log) + Fanout(handlers, (message, clientId))
    {
      var k := 0;
      while k < |handlers|
        invariant 0 <= k <= |handlers|
        invariant log == old(log) + Fanout(handlers[..k], (message, clientId))
      {
        assert handlers[..k + 1][..k] == handlers[..k];
        log := log + [Invocation(handlers[k], (message, clientId))];
        k := k + 1;
      }
      assert handlers[..k] == handlers;
    }

    /** The loop over the complete segments of one chunk: blank segments are
        skipped, a segment that does not parse is dropped and the loop goes
        on, every other one is handed to the handlers. */
    method DispatchSegments(segments: seq<string>, clientId: string)
      modifies this`log
      ensures log == old(log) + FanoutAll(handlers, Tagged(Decoded(codec, segments), clientId))
    {
      var j := 0;
      ghost var messages: seq<M> := [];
      assert segments[..0] == [];
      while j < |segments|
        invariant 0 <= j <= |segments|
        invariant messages == Decoded(codec, segments[..j])
        invariant log == old(log) + FanoutAll(handlers, Tagged(messages, clientId))
      {
        var msgStr := segments[j];
        DecodedOneMore(codec, segments, j);
        // DecodeSegment is `if (msgStr.trim())` around the `JSON.parse`
        // whose failure is caught and the line dropped.
        var parsed := DecodeSegment(codec, msgStr);
        if parsed.Some? {
          Notify(parsed.value, clientId);
          FanoutTaggedSnoc(handlers, messages, parsed.value, clientId);
          SeqAssoc(old(log), FanoutAll(handlers, Tagged(messages, clientId)), Fanout(handlers, (parsed.value, clientId)));
          messages := messages + [parsed.value];
        }
        j := j + 1;
      }
      assert segments[..j] == segments;
    }

    /** One turn of the read loop: the chunk is appended to the kept text,
        which is split on newlines; the last piece is kept and the others
        are dispatched. */
    method ConsumeChunk(buffer: string, chunk: string, clientId: string) returns (rest: string)
      modifies this`log
      ensures rest == Step(buffer, chunk).rest
      ensures log == old(log) + FanoutAll(handlers, Tagged(Decoded(codec, Step(buffer, chunk).segments), clientId))
    {
      var text := buffer + chunk;
      var messages := Split(text);
      rest := messages[|messages| - 1];
      DispatchSegments(messages[..|messages| - 1], clientId);
    }

    /** A POST with a body: the read loop. Every complete, non-blank,
        parseable line goes to every handler with the client id, in order;
        other lines are dropped; text after the last newline is never
        dispatched. A normal end answers 200, a failed read 500. */
    method ReadPostBody(clientId: string, body: ChunkStream) returns (response: Response)
      modifies this`log
      ensures log == old(log) + FanoutAll(handlers, Tagged(DecodeStream(codec, body.chunks), clientId))
      ensures response == if body.readFails then ProcessingFailed else PostCompleted(clientId)
    {
      var buffer := "";
      var i := 0;
      while i < |body.chunks|
        invariant 0 <= i <= |body.chunks|
        invariant buffer == Feed("", body.chunks[..i]).rest
        invariant log == old(log) + FanoutAll(handlers, Tagged(DecodeStream(codec, body.chunks[..i]), clientId))
      {
        ghost var before := Feed("", body.chunks[..i]);
        ghost var segments := Step(before.rest, body.chunks[i]).segments;
        FeedOneMore(body.chunks, i);
        buffer := ConsumeChunk(buffer, body.chunks[i], clientId);
        DecodedAppend(codec, before.segments, segments);
        TaggedAppend(Decoded(codec, before.segments), Decoded(codec, segments), clientId);
        FanoutAllAppend(handlers, Tagged(Decoded(codec, before.segments), clientId),
          Tagged(Decoded(codec, segments), clientId));
        SeqAssoc(old(log), FanoutAll(handlers, Tagged(Decoded(codec, before.segments), clientId)),
          FanoutAll(handlers, Tagged(Decoded(codec, segments), clientId)));
        i := i + 1;
      }
      assert body.chunks[..i] == body.chunks;
      if body.readFails {
        response := ProcessingFailed;
      } else {
        response := PostCompleted(clientId);
      }
    }

    /** The request handler. The effective client id is the query parameter
        when present and non-empty, else `freshId` (a new random UUID). */
    method Handle(request: Request, freshId: string) returns (response: Response)
      requires Valid()
      modifies this`clients, this`log
      ensures Valid()
      ensures var id := EffectiveClientId(request.clientIdParam, freshId);
        if request.verb == "GET" then
          && response.status == 200 && response.headers == GetHeaders(id)
          && response.stream.Some? && fresh(response.stream.value)
          && response.stream.value.clientId == id
          && response.stream.value.open && response.stream.value.frames == []
          && clients == old(clients)[id := response.stream.value]
          && log == old(log)
        else if request.verb == "POST" && request.body.None? then
          response == NoBody && clients == old(clients) && log == old(log)
        else if request.verb == "POST" then
          && clients == old(clients)
          && log == old(log) + FanoutAll(handlers, Tagged(DecodeStream(codec, request.body.value.chunks), id))
          && response == if request.body.value.readFails then ProcessingFailed else PostCompleted(id)
        else
          response == MethodNotAllowed && clients == old(clients) && log == old(log)
    {
      var clientId := EffectiveClientId(request.clientIdParam, freshId);
      if request.verb == "GET" {
        response := OpenStream(clientId);
        return;
      }
      if request.verb == "POST" {
        if request.body.None? {
          return NoBody;
        }
        response := ReadPostBody(clientId, request.body.value);
        return;
      }
      response := MethodNotAllowed;
    }

    /** The GET stream's `cancel` callback as written: the stream is closed
        and its client id is deleted from the registry, whichever stream
        that id is registered to by now. */
    method OnCancel(stream: ResponseStream)
      requires Valid()
      modifies this`clients, stream
      ensures Valid()
      ensures !stream.open && stream.frames == old(stream.frames)
      ensures clients == old(clients) - {stream.clientId}
    {
      stream.Close();
      clients := clients - {stream.clientId};
    }

    /** The cancel callback as intended: the stream is closed and removed
        only if it is the one registered; a newer stream for the same id
        stays reachable. */
    method OnCancelGuarded(stream: ResponseStream)
      requires Valid()
      modifies this`clients, stream
      ensures Valid()
      ensures !stream.open && stream.frames == old(stream.frames)
      ensures clients ==
        if stream.clientId in old(clients) && old(clients[stream.clientId]) == stream
        then old(clients) - {stream.clientId}
        else old(clients)
      ensures forall id :: id in old(clients) && old(clients[id]) != stream ==>
        id in clients && clients[id] == old(clients[id])
    {
      stream.Close();
      if stream.clientId in clients && clients[stream.clientId] == stream {
        clients := clients - {stream.clientId};
      }
    }
  }

  /** A client reconnects under the same id before its first GET stream is
      cancelled. With the callback as written, cancelling the stale stream
      unregisters the live one: the live stream is open, yet `sendMessage`
      can no longer reach it. */
  method StaleCancelDropsLiveStream<M>(codec: Codec<M>) returns (server: BiHttpServer<M>, live: ResponseStream)
    ensures fresh(server) && fresh(live)
    ensures server.Valid() && live.open && live.clientId == "c1"
    ensures "c1" !in server.clients
  {
    server := new BiHttpServer(codec);
    var first := server.Handle(Request("GET", Some("c1"), None), "fresh-1");
    var second := server.Handle(Request("GET", Some("c1"), None), "fresh-2");
    server.OnCancel(first.stream.value);
    live := second.stream.value;
  }

  /** The same sequence with the guarded callback: the live stream stays
      registered under its id. */
  method StaleCancelKeepsLiveStream<M>(codec: Codec<M>) returns (server: BiHttpServer<M>, live: ResponseStream)
    ensures fresh(server) && fresh(live)
    ensures server.Valid() && live.open && live.clientId == "c1"
    ensures "c1" in server.clients && server.clients["c1"] == live
  {
    server := new BiHttpServer(codec);
    var first := server.Handle(Request("GET", Some("c1"), None), "fresh-1");
    var second := server.Handle(Request("GET", Some("c1"), None), "fresh-2");
    server.OnCancelGuarded(first.stream.value);
    live := second.stream.value;
  }
}
