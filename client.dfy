/** The client side of the protocol: one long-lived GET whose body carries
    the server's messages, and one streaming POST whose body carries the
    client's, both under the client id the server assigned. */
module Client {
  import opened Framing
  import opened Handlers

  /** An `AbortController`: aborting it cancels the request it signals. */
  class AbortHandle {
    var aborted: bool

    constructor ()
      ensures !aborted
    {
      aborted := false;
    }

    method Abort()
      modifies this
      ensures aborted
    {
      aborted := true;
    }
  }

  /** The writer of the POST body stream. */
  class BodyWriter {
    /** False once the writer is closed or its stream has failed: `write`
        then rejects. */
    var open: bool
    /** Everything written so far, in order: what the server reads. */
    var written: seq<string>

    constructor ()
      ensures open && written == []
    {
      open := true;
      written := [];
    }

    /** `writer.write(...)`: succeeds exactly while the writer is open. */
    method Write(frame: string) returns (ok: bool)
      modifies this
      ensures ok == old(open) && open == old(open)
      ensures written == if ok then old(written) + [frame] else old(written)
    {
      ok := open;
      if ok {
        written := written + [frame];
      }
    }

    /** `writer.close()`, or the transport failing underneath it. */
    method Close()
      modifies this
      ensures !open && written == old(written)
    {
      open := false;
    }
  }

  /** How the GET `fetch` settles: it rejects (network failure, abort), or it
      resolves with a status, the `X-Client-ID` header if present, and
      whether the response has a body. */
  datatype GetReply =
    | FetchRejected
    | Reply(status: int, clientIdHeader: Option<string>, hasBody: bool)

  /** Why `connect` throws. */
  datatype ConnectError =
    | AlreadyConnected
    | GetFailed(status: int)
    | NoResponseBody
    | FetchError

  datatype ConnectOutcome = Connected | Failed(error: ConnectError)

  /** A request the client issued: its method, its `clientId` query
      parameter if it set one, and its `Content-Type` header if any. */
  datatype Outgoing = Outgoing(verb: string, clientIdParam: Option<string>, contentType: Option<string>)

  /** `if (this.clientId) url.searchParams.set("clientId", this.clientId)`:
      the parameter is sent only for a known, non-empty id. */
  function RequestQuery(clientId: Option<string>): Option<string> {
    if clientId.Some? && clientId.value != "" then clientId else None
  }

  /** `response.headers.get("X-Client-ID") || this.clientId`: a present,
      non-empty header replaces the id; otherwise the id is kept. */
  function CapturedClientId(header: Option<string>, previous: Option<string>): (id: Option<string>)
    ensures header.Some? && header.value != "" ==> id == header
    ensures !(header.Some? && header.value != "") ==> id == previous
    ensures previous != Some("") ==> id != Some("")
  {
    if header.Some? && header.value != "" then header else previous
  }

  /** `response.ok`. */
  predicate IsOk(status: int) {
    200 <= status <= 299
  }

  class BiHttpClient<M> {
    const serverUrl: string
    const codec: Codec<M>
    /** The id the server assigned; kept across reconnections. */
    var clientId: Option<string>
    var getController: Option<AbortHandle>
    var postController: Option<AbortHandle>
    var postBodyWriter: Option<BodyWriter>
    /** The message handlers, in the order they were first added. */
    var handlers: seq<HandlerId>
    var connected: bool
    /** Every handler call made so far, in order. */
    var log: seq<Invocation<M>>
    /** Every request issued so far, in order. */
    var requests: seq<Outgoing>

    /** A connected client holds both controllers and the writer; a
        disconnected one holds none of them. A captured id is never empty,
        and no handler is registered twice. */
    ghost predicate Valid()
      reads this
    {
      && Distinct(handlers)
      && (connected ==> getController.Some? && postController.Some? && postBodyWriter.Some?)
      && (!connected ==> getController.None? && postController.None? && postBodyWriter.None?)
      && clientId != Some("")
    }

    predicate Disconnected()
      reads this
    {
      !connected && getController.None? && postController.None? && postBodyWriter.None?
    }

    /** The objects `disconnect` aborts or closes. */
    function Resources(): set<object>
      reads this
    {
      (if getController.Some? then {getController.value} else {}) +
      (if postController.Some? then {postController.value} else {}) +
      (if postBodyWriter.Some? then {postBodyWriter.value} else {})
    }

    constructor (serverUrl: string, codec: Codec<M>)
      ensures Valid() && Disconnected()
      ensures this.serverUrl == serverUrl && this.codec == codec
      ensures clientId == None && handlers == [] && log == [] && requests == []
    {
      this.serverUrl := serverUrl;
      this.codec := codec;
      clientId := None;
      getController := None;
      postController := None;
      postBodyWriter := None;
      handlers := [];
      connected := false;
      log := [];
      requests := [];
    }

    /** `isConnected()`. */
    method IsConnected() returns (r: bool)
      ensures r == connected
    {
      r := connected;
    }

    /** `getClientId()`: null until the server has assigned an id. */
    method GetClientId() returns (r: Option<string>)
      ensures r == clientId
    {
      r := clientId;
    }

    /** `onMessage(handler)`. */
    method OnMessage(h: HandlerId)
      requires Valid()
      modifies this`handlers
      ensures Valid() && handlers == Add(old(handlers), h)
    {
      handlers := Add(handlers, h);
    }

    /** `disconnect()`: the client is no longer connected, both requests
        are aborted and the writer is closed; the id, the handlers and
        everything sent and received stay. Calling it again changes
        nothing. */
    method Disconnect()
      modifies this, Resources()
      ensures old(Valid()) ==> Valid()
      ensures Disconnected()
      ensures old(Disconnected()) ==> unchanged(this)
      ensures clientId == old(clientId) && handlers == old(handlers)
      ensures log == old(log) && requests == old(requests)
      ensures old(getController).Some? ==> old(getController).value.aborted
      ensures old(postController).Some? ==> old(postController).value.aborted
      ensures old(postBodyWriter).Some? ==>
        !old(postBodyWriter).value.open && old(postBodyWriter).value.written == old(postBodyWriter.value.written)
    {
      connected := false;
      if getController.Some? {
        getController.value.Abort();
        getController := None;
      }
      if postController.Some? {
        postController.value.Abort();
        postController := None;
      }
      if postBodyWriter.Some? {
        postBodyWriter.value.Close();
        postBodyWriter := None;
      }
    }

    /** `setupGetConnection()` up to the point where it hands the body to
        the read loop: a controller is created, the GET is issued with the
        known id, and a failed fetch, a status outside 200-299 or a missing
        body is an error. The id is captured from the response before the
        body check. */
    method SetupGetConnection(reply: GetReply) returns (error: Option<ConnectError>)
      requires Valid() && Disconnected()
      modifies this`getController, this`clientId, this`requests
      ensures getController.Some? && fresh(getController.value) && !getController.value.aborted
      ensures requests == old(requests) + [Outgoing("GET", RequestQuery(old(clientId)), None)]
      ensures clientId ==
        if reply.Reply? && IsOk(reply.status) then CapturedClientId(reply.clientIdHeader, old(clientId))
        else old(clientId)
      ensures clientId != Some("")
      ensures error ==
        match reply
        case FetchRejected => Some(FetchError)
        case Reply(status, _, hasBody) =>
          if !IsOk(status) then Some(GetFailed(status))
          else if !hasBody then Some(NoResponseBody)
          else None
    {
      var controller := new AbortHandle();
      getController := Some(controller);
      requests := requests + [Outgoing("GET", RequestQuery(clientId), None)];
      match reply
      case FetchRejected =>
        return Some(FetchError);
      case Reply(status, header, hasBody) =>
        if !IsOk(status) {
          return Some(GetFailed(status));
        }
        clientId := CapturedClientId(header, clientId);
        if !hasBody {
          return Some(NoResponseBody);
        }
        error := None;
    }

    /** `setupPostConnection()`: a controller and the body writer are
        created and the POST is issued with the known id. Whether that
        request later fails is `OnPostError`. */
    method SetupPostConnection()
      modifies this`postController, this`postBodyWriter, this`requests
      ensures postController.Some? && fresh(postController.value) && !postController.value.aborted
      ensures postBodyWriter.Some? && fresh(postBodyWriter.value)
      ensures postBodyWriter.value.open && postBodyWriter.value.written == []
      ensures requests == old(requests) + [Outgoing("POST", RequestQuery(clientId), Some("application/json"))]
    {
      var controller := new AbortHandle();
      postController := Some(controller);
      var writer := new BodyWriter();
      postBodyWriter := Some(writer);
      requests := requests + [Outgoing("POST", RequestQuery(clientId), Some("application/json"))];
    }

    /** `connect()`: throws if already connected, without touching
        anything. Otherwise the GET is set up; if that fails the client
        disconnects and the error is rethrown; if it succeeds the POST is
        set up and the client is connected. */
    method Connect(reply: GetReply) returns (outcome: ConnectOutcome)
      requires Valid()
      modifies this, Resources()
      ensures Valid()
      ensures old(connected) ==>
        outcome == Failed(AlreadyConnected) && unchanged(this) && unchanged(old(Resources()))
      ensures !old(connected) ==> handlers == old(handlers) && log == old(log)
      ensures !old(connected) ==>
        clientId == if reply.Reply? && IsOk(reply.status)
                    then CapturedClientId(reply.clientIdHeader, old(clientId))
                    else old(clientId)
      ensures !old(connected) ==>
        (outcome == Connected <==> reply.Reply? && IsOk(reply.status) && reply.hasBody)
      ensures !old(connected) && outcome == Connected ==>
        && requests == old(requests) + [Outgoing("GET", RequestQuery(old(clientId)), None),
                                        Outgoing("POST", RequestQuery(clientId), Some("application/json"))]
        && connected && fresh(getController.value) && fresh(postController.value)
        && !getController.value.aborted && !postController.value.aborted
        && fresh(postBodyWriter.value)
        && postBodyWriter.value.open && postBodyWriter.value.written == []
      ensures !old(connected) && outcome != Connected ==>
        && requests == old(requests) + [Outgoing("GET", RequestQuery(old(clientId)), None)]
        && Disconnected()
        && outcome == Failed(
             match reply
             case FetchRejected => FetchError
             case Reply(status, _, _) => if !IsOk(status) then GetFailed(status) else NoResponseBody)
    {
      if connected {
        return Failed(AlreadyConnected);
      }
      var error := SetupGetConnection(reply);
      if error.Some? {
        Disconnect();
        return Failed(error.value);
      }
      SetupPostConnection();
      connected := true;
      outcome := Connected;
    }

    /** `sendMessage(message)`: false when not connected, when the message
        does not serialize and when the write is refused; otherwise exactly
        one frame is written to the POST body. Nothing else changes. */
    method SendMessage(message: M) returns (ok: bool)
      requires Valid()
      modifies if postBodyWriter.Some? then {postBodyWriter.value} else {}
      ensures ok == (connected && codec.stringify(message).Some? && old(postBodyWriter.value.open))
      ensures postBodyWriter.Some? ==>
        postBodyWriter.value.open == old(postBodyWriter.value.open) &&
        postBodyWriter.value.written ==
          if ok then old(postBodyWriter.value.written) + [Encode(codec.stringify(message).value)]
          else old(postBodyWriter.value.written)
    {
      if !connected || postBodyWriter.None? {
        return false;
      }
      match codec.stringify(message)
      case None =>
        ok := false;
      case Some(text) =>
        ok := postBodyWriter.value.Write(Encode(text));
    }

    /** The POST `fetch` rejecting, aborted or not: the catch handler
        disconnects, whichever connection is current by then. */
    method OnPostError(request: AbortHandle)
      requires Valid()
      modifies this, Resources()
      ensures Valid() && Disconnected()
      ensures old(getController).Some? ==> old(getController).value.aborted
      ensures old(postController).Some? ==> old(postController).value.aborted
      ensures old(postBodyWriter).Some? ==>
        !old(postBodyWriter).value.open && old(postBodyWriter).value.written == old(postBodyWriter.value.written)
      ensures clientId == old(clientId) && handlers == old(handlers)
      ensures log == old(log) && requests == old(requests)
    {
      Disconnect();
    }

    /** The catch handler as intended: only a failure of the current POST
        disconnects; a late rejection of an earlier, already aborted POST
        leaves a newer connection alone. */
    method OnPostErrorGuarded(request: AbortHandle)
      requires Valid()
      modifies this, Resources()
      ensures Valid()
      ensures old(postController) == Some(request) ==> Disconnected()
      ensures old(postController) == Some(request) ==>
        && request.aborted && old(getController).value.aborted
        && !old(postBodyWriter).value.open && old(postBodyWriter).value.written == old(postBodyWriter.value.written)
      ensures old(postController) != Some(request) ==> unchanged(this) && unchanged(old(Resources()))
      ensures clientId == old(clientId) && handlers == old(handlers)
      ensures log == old(log) && requests == old(requests)
    {
      if postController == Some(request) {
        Disconnect();
      }
    }

    /** The innermost loop: one parsed message goes to every handler, in
        registration order. */
    method Notify(message: M)
      modifies this`log
      ensures log == old(log) + Fanout(handlers, message)
    {
      var k := 0;
      while k < |handlers|
        invariant 0 <= k <= |handlers|
        invariant log == old(log) + Fanout(handlers[..k], message)
      {
        assert handlers[..k + 1][..k] == handlers[..k];
        log := log + [Invocation(handlers[k], message)];
        k := k + 1;
      }
      assert handlers[..k] == handlers;
    }

    /** The loop over the complete segments of one chunk: blank segments are
        skipped, a segment that does not parse is dropped and the loop goes
        on, every other one is handed to the handlers. */
    method DispatchSegments(segments: seq<string>)
      modifies this`log
      ensures log == old(log) + FanoutAll(handlers, Decoded(codec, segments))
    {
      var j := 0;
      ghost var messages: seq<M> := [];
      assert segments[..0] == [];
      while j < |segments|
        invariant 0 <= j <= |segments|
        invariant messages == Decoded(codec, segments[..j])
        invariant log == old(log) + FanoutAll(handlers, messages)
      {
        var msgStr := segments[j];
        DecodedOneMore(codec, segments, j);
        // DecodeSegment is `if (msgStr.trim())` around the `JSON.parse`
        // whose failure is caught and the line dropped.
        var parsed := DecodeSegment(codec, msgStr);
        if parsed.Some? {
          Notify(parsed.value);
          FanoutSnoc(handlers, messages, parsed.value);
          SeqAssoc(old(log), FanoutAll(handlers, messages), Fanout(handlers, parsed.value));
          messages := messages + [parsed.value];
        }
        j := j + 1;
      }
      assert segments[..j] == segments;
    }

    /** One turn of the read loop: the chunk is appended to the kept text,
        which is split on newlines; the last piece is kept and the others
        are dispatched. */
    method ConsumeChunk(buffer: string, chunk: string) returns (rest: string)
      modifies this`log
      ensures rest == Step(buffer, chunk).rest
      ensures log == old(log) + FanoutAll(handlers, Decoded(codec, Step(buffer, chunk).segments))
    {
      var text := buffer + chunk;
      var messages := Split(text);
      rest := messages[|messages| - 1];
      DispatchSegments(messages[..|messages| - 1]);
    }

    /** The read loop of `processServerMessages`: every complete,
        non-blank, parseable line of the GET body goes to every handler, in
        order; other lines are dropped, and text after the last newline is
        never dispatched. */
    method ReadServerMessages(body: ChunkStream)
      modifies this`log
      ensures log == old(log) + FanoutAll(handlers, DecodeStream(codec, body.chunks))
    {
      var buffer := "";
      var i := 0;
      while i < |body.chunks|
        invariant 0 <= i <= |body.chunks|
        invariant buffer == Feed("", body.chunks[..i]).rest
        invariant log == old(log) + FanoutAll(handlers, DecodeStream(codec, body.chunks[..i]))
      {
        ghost var before := Feed("", body.chunks[..i]);
        ghost var segments := Step(before.rest, body.chunks[i]).segments;
        FeedOneMore(body.chunks, i);
        buffer := ConsumeChunk(buffer, body.chunks[i]);
        DecodedAppend(codec, before.segments, segments);
        FanoutAllAppend(handlers, Decoded(codec, before.segments), Decoded(codec, segments));
        SeqAssoc(old(log), FanoutAll(handlers, Decoded(codec, before.segments)),
          FanoutAll(handlers, Decoded(codec, segments)));
        i := i + 1;
      }
      assert body.chunks[..i] == body.chunks;
    }

    /** `processServerMessages(body)`: the read loop, then, if the read
        failed and the client is still connected, a disconnect. A body that
        ends normally changes nothing but the handler calls. */
    method ProcessServerMessages(body: ChunkStream)
      requires Valid()
      modifies this, Resources()
      ensures Valid()
      ensures log == old(log) + FanoutAll(handlers, DecodeStream(codec, body.chunks))
      ensures handlers == old(handlers) && clientId == old(clientId) && requests == old(requests)
      ensures body.readFails && old(connected) ==> Disconnected()
      ensures body.readFails && old(connected) ==>
        && old(getController).value.aborted && old(postController).value.aborted
        && !old(postBodyWriter).value.open && old(postBodyWriter).value.written == old(postBodyWriter.value.written)
      ensures !(body.readFails && old(connected)) ==>
        && connected == old(connected) && getController == old(getController)
        && postController == old(postController) && postBodyWriter == old(postBodyWriter)
        && unchanged(old(Resources()))
    {
      ReadServerMessages(body);
      if body.readFails && connected {
        Disconnect();
      }
    }
  }

  /** A client disconnects and connects again at once; the rejection of
      the first POST, caused by its own abort, arrives afterwards. With the
      catch handler as written, it tears down the new connection. */
  method StalePostErrorDropsNewConnection<M>(codec: Codec<M>)
    returns (client: BiHttpClient<M>, stale: AbortHandle, reconnected: bool)
    ensures fresh(client) && reconnected && stale.aborted
    ensures client.Valid() && client.Disconnected()
  {
    client := new BiHttpClient("http://localhost:8000", codec);
    var first := client.Connect(Reply(200, Some("c1"), true));
    stale := client.postController.value;
    client.Disconnect();
    var second := client.Connect(Reply(200, Some("c1"), true));
    reconnected := second == Connected;
    client.OnPostError(stale);
  }

  /** The same sequence with the guarded catch handler: the new connection
      stays up. */
  method StalePostErrorKeepsNewConnection<M>(codec: Codec<M>)
    returns (client: BiHttpClient<M>, stale: AbortHandle, reconnected: bool)
    ensures fresh(client) && reconnected && stale.aborted
    ensures client.Valid() && client.connected && client.clientId == Some("c1")
    ensures client.postBodyWriter.value.open && !client.postController.value.aborted
  {
    client := new BiHttpClient("http://localhost:8000", codec);
    var first := client.Connect(Reply(200, Some("c1"), true));
    stale := client.postController.value;
    client.Disconnect();
    var second := client.Connect(Reply(200, Some("c1"), true));
    reconnected := second == Connected;
    client.OnPostErrorGuarded(stale);
  }
}
