/** How the two peers fit together: the id the server assigns is the one
    the client keeps and sends back, and the frames one peer writes are the
    messages the other peer's handlers receive. */
module Protocol {
  import opened Framing
  import opened Handlers
  import Server
  import Client

  /** A client without an id is given the server's fresh one, learns it
      from the GET response header, and sends it back on every later
      request, where the server keeps it. */
  lemma AssignedIdIsKept(previous: Option<string>, freshId: string)
    requires previous != Some("") && freshId != ""
    ensures var id := Server.EffectiveClientId(Client.RequestQuery(previous), freshId);
      && (previous.None? ==> id == freshId)
      && (previous.Some? ==> id == previous.value)
      && Client.CapturedClientId(Some(Server.GetHeaders(id)[Server.ClientIdHeader]), previous) == Some(id)
      && Server.EffectiveClientId(Client.RequestQuery(Some(id)), freshId) == id
  {
    var id := Server.EffectiveClientId(Client.RequestQuery(previous), freshId);
    assert Server.GetHeaders(id)[Server.ClientIdHeader] == id;
  }

  /** What the client's writer holds after a run of successful
      `sendMessage` calls reaches every server handler as those messages,
      in order, tagged with the client's id, however the request body is
      cut into chunks. */
  lemma ClientMessagesReachServer<M(!new)>(
    codec: Codec<M>, ms: seq<M>, written: seq<string>, chunks: seq<string>,
    hs: seq<HandlerId>, h: HandlerId, clientId: string)
    requires Lawful(codec) && Serialized(codec, ms).Some?
    requires written == Frames(Serialized(codec, ms).value)
    requires Flatten(chunks) == Flatten(written)
    requires Distinct(hs) && h in hs
    ensures Received(FanoutAll(hs, Server.Tagged(DecodeStream(codec, chunks), clientId)), h) ==
      Server.Tagged(ms, clientId)
  {
    FlattenFrames(Serialized(codec, ms).value);
    Server.PostedMessagesReachHandlers(codec, hs, ms, chunks, clientId, h);
  }

  /** What the server enqueued on a client's stream after a run of
      successful `sendMessage` calls reaches every client handler as those
      messages, in order, however the response body is cut into chunks. */
  lemma ServerMessagesReachClient<M(!new)>(
    codec: Codec<M>, ms: seq<M>, frames: seq<string>, chunks: seq<string>,
    hs: seq<HandlerId>, h: HandlerId)
    requires Lawful(codec) && Serialized(codec, ms).Some?
    requires frames == Frames(Serialized(codec, ms).value)
    requires Flatten(chunks) == Flatten(frames)
    requires Distinct(hs) && h in hs
    ensures Received(FanoutAll(hs, DecodeStream(codec, chunks)), h) == ms
  {
    FlattenFrames(Serialized(codec, ms).value);
    MessagesRoundTrip(codec, ms, chunks);
    ReceivedFanoutAll(hs, ms, h);
  }

  /** One frame holding a serialized message yields exactly that message. */
  lemma SingleFrameDecodes<M(!new)>(codec: Codec<M>, m: M)
    requires Lawful(codec) && codec.stringify(m).Some?
    ensures DecodeStream(codec, [Encode(codec.stringify(m).value)]) == [m]
  {
    var s := codec.stringify(m).value;
    assert [m][0] == m && [m][1..] == [];
    assert Serialized(codec, []) == Some([]);
    assert [s] + [] == [s];
    assert Serialized(codec, [m]) == Some([s]);
    assert [Encode(s)][..0] == [];
    assert Flatten([Encode(s)]) == Encode(s);
    assert EncodeAll([s]) == Encode(s) + EncodeAll([]);
    MessagesRoundTrip(codec, [m], [Encode(s)]);
  }

  /** A body holding one frame calls a lone server handler once, with the
      message and the client id. */
  lemma OneFrameReachesServerHandler<M(!new)>(codec: Codec<M>, m: M, h: HandlerId, clientId: string)
    requires Lawful(codec) && codec.stringify(m).Some?
    ensures FanoutAll([h], Server.Tagged(DecodeStream(codec, [Encode(codec.stringify(m).value)]), clientId)) ==
      [Invocation(h, (m, clientId))]
  {
    SingleFrameDecodes(codec, m);
    assert Server.Tagged([m], clientId) == [(m, clientId)];
    FanoutSingle(h, (m, clientId));
  }

  /** A body holding one frame calls a lone client handler once, with the
      message. */
  lemma OneFrameReachesClientHandler<M(!new)>(codec: Codec<M>, m: M, h: HandlerId)
    requires Lawful(codec) && codec.stringify(m).Some?
    ensures FanoutAll([h], DecodeStream(codec, [Encode(codec.stringify(m).value)])) == [Invocation(h, m)]
  {
    SingleFrameDecodes(codec, m);
    FanoutSingle(h, m);
  }

  /** A client that connects to a server which hands out "c1" learns that
      id from the GET response, and sends it on its POST. */
  method ClientLearnsAssignedId<M>(codec: Codec<M>)
    returns (server: Server.BiHttpServer<M>, client: Client.BiHttpClient<M>)
    ensures fresh(server) && fresh(client)
    ensures client.connected && client.clientId == Some("c1")
    ensures client.requests ==
      [Client.Outgoing("GET", None, None), Client.Outgoing("POST", Some("c1"), Some("application/json"))]
    ensures "c1" in server.clients && server.clients["c1"].open
  {
    server := new Server.BiHttpServer(codec);
    client := new Client.BiHttpClient("http://localhost:8000", codec);
    var getResponse := server.Handle(Server.Request("GET", Client.RequestQuery(client.clientId), None), "c1");
    var outcome := client.Connect(
      Client.Reply(getResponse.status, Some(getResponse.headers[Server.ClientIdHeader]), true));
  }

  /** A client that the server hands "c1" connects and sends its greeting:
      the POST body then holds exactly that one frame. */
  method ClientGreets<M>(codec: Codec<M>, greeting: M)
    returns (client: Client.BiHttpClient<M>, sent: bool, written: seq<string>)
    requires codec.stringify(greeting).Some?
    ensures fresh(client) && sent && client.connected && client.clientId == Some("c1")
    ensures client.postBodyWriter.Some? && written == client.postBodyWriter.value.written
    ensures written == [Encode(codec.stringify(greeting).value)]
  {
    client := new Client.BiHttpClient("http://localhost:8000", codec);
    var outcome := client.Connect(Client.Reply(200, Some("c1"), true));
    assert client.connected && client.clientId == Some("c1");
    assert client.postBodyWriter.value.open && client.postBodyWriter.value.written == [];
    sent := client.SendMessage(greeting);
    written := client.postBodyWriter.value.written;
  }

  /** The echo exchange, first half: the greeting a connected client sends
      reaches the server's handler paired with the client's id, the whole
      body arriving as the one chunk that was written. */
  method GreetingReachesServer<M(!new)>(codec: Codec<M>, greeting: M)
    returns (server: Server.BiHttpServer<M>, client: Client.BiHttpClient<M>, sent: bool)
    requires Lawful(codec) && codec.stringify(greeting).Some?
    ensures fresh(server) && fresh(client) && sent
    ensures server.log == [Invocation(1, (greeting, "c1"))]
  {
    var written;
    client, sent, written := ClientGreets(codec, greeting);
    var query := Client.RequestQuery(client.clientId);

    server := new Server.BiHttpServer(codec);
    server.OnMessage(1);
    OneFrameReachesServerHandler(codec, greeting, 1, "c1");
    assert query == Some("c1");
    var postResponse := server.ReadPostBody(query.value, ChunkStream(written, false));
  }

  /** The server opens the stream of "c1" and sends it one message: the
      stream then holds exactly that one frame. */
  method ServerEchoes<M>(codec: Codec<M>, echo: M)
    returns (server: Server.BiHttpServer<M>, replied: bool, frames: seq<string>)
    requires codec.stringify(echo).Some?
    ensures fresh(server) && replied && "c1" in server.clients
    ensures frames == server.clients["c1"].frames
    ensures frames == [Encode(codec.stringify(echo).value)]
  {
    server := new Server.BiHttpServer(codec);
    var getResponse := server.OpenStream("c1");
    var stream := getResponse.stream.value;
    replied := server.SendMessage("c1", echo);
    frames := stream.frames;
  }

  /** The echo exchange, second half: what the server sends to "c1" on that
      client's open stream reaches the client's handler, the whole body
      arriving as the one chunk that was enqueued. */
  method EchoReachesClient<M(!new)>(codec: Codec<M>, echo: M)
    returns (server: Server.BiHttpServer<M>, client: Client.BiHttpClient<M>, replied: bool)
    requires Lawful(codec) && codec.stringify(echo).Some?
    ensures fresh(server) && fresh(client) && replied
    ensures client.log == [Invocation(2, echo)]
  {
    var frames;
    server, replied, frames := ServerEchoes(codec, echo);

    client := new Client.BiHttpClient("http://localhost:8000", codec);
    client.OnMessage(2);
    assert client.Valid() && client.handlers == [2] && client.log == [];
    OneFrameReachesClientHandler(codec, echo, 2);
    client.ProcessServerMessages(ChunkStream(frames, false));
  }
}
