/** One call from end to end: a client and a server connection, from the request that is queued to the callback that runs. */
module CallRuns {
  import opened Bytes
  import opened BufferModel
  import opened TinyPB
  import opened Coder
  import opened Decoding
  import opened Receiving
  import opened Dispatching
  import opened Matching
  import opened Connections
  import opened EndToEnd
  import opened Wrappers

  lemma OneFrame(m: Message)
    requires Sendable(m)
    ensures Frames([m]) == Frame(m) && |Frames([m])| == FrameLength(m) && AllSendable([m])
  {
    hide Frame, FrameLength;
    assert [m][1..] == [];
    assert Frames([m]) == Frame(m) + [];
  }

  lemma OneWrite(m: Message)
    requires Sendable(m)
    ensures Writes(1, FrameLength(m), [INT_MAX]) == [Send(1, FrameLength(m))]
    ensures AllSendable([m]) && SendsOf([m], [Send(1, FrameLength(m))])
    ensures Wire([m], [Send(1, FrameLength(m))]) == Frame(m)
    ensures EndsBetweenFrames([m], [Send(1, FrameLength(m))], [1])
  {
    hide Frame, FrameLength, Frames;
    LongEnough(m);
    OneFrame(m);
    var sends := [Send(1, FrameLength(m))];
    assert [m][..1] == [m] && sends[1..] == [];
    assert Wire([m], sends) == Frame(m) + [];
  }

  method Connect(size: nat, kind: ConnectionType) returns (c: TcpConnection)
    requires 0 < size <= INT_MAX
    ensures fresh(c) && fresh(c.inBuffer) && fresh(c.inBuffer.buffer) && fresh(c.outBuffer) && fresh(c.outBuffer.buffer)
    ensures c.Valid() && c.kind == kind && c.size == size && c.state == Connected && c.inBuffer.State() == Fresh(size)
    ensures c.readDones == c.registered == map[] && c.writeDones == [] && c.fired == [] && c.started == []
    ensures c.encoded == [] && c.sends == [] && c.wire == [] && c.pieces == [] && c.decoded == [] && c.begun == []
    ensures c.finished == [] && !c.ended && !c.reused && !c.changed
  {
    hide Frames, Wire, Fresh, Feed;
    c := new TcpConnection(size, kind);
    c.SetState(Connected);
  }

  /** A connected client that has queued one request. */
  method Enqueue(size: nat, request: TinyPBProtocol, written: Callback, done: Callback) returns (client: TcpConnection)
    requires 0 < size <= INT_MAX
    ensures fresh(client) && fresh(client.inBuffer) && fresh(client.inBuffer.buffer)
    ensures fresh(client.outBuffer) && fresh(client.outBuffer.buffer)
    ensures client.Valid() && client.kind == ByClient && client.size == size && client.state == Connected
    ensures client.inBuffer.State() == Fresh(size) && client.pieces == [] && client.decoded == []
    ensures client.fired == [] && client.readDones == client.registered == map[request.msgId := done]
    ensures !client.ended && !client.reused
    ensures client.encoded == [] && client.sends == [] && client.wire == []
    ensures client.writeDones == [(request, written)]
  {
    hide Frames, Wire, Fresh, Feed;
    client := Connect(size, ByClient);
    client.PushSendMessage(request, written);
    client.PushReadMessage(request.msgId, done);
  }

  /** One onWrite that gives the socket all there is to send, which is one message. */
  method WriteAll(c: TcpConnection, ghost m: Message)
    requires c.Valid() && c.state == Connected && c.sends == [] && c.encoded + Queue(c) == [m] && AllSendable([m])
    requires c.kind == ByServer ==> c.writeDones == []
    modifies c`wire, c`sends, c`encoded, c`sent, c`writeDones, c`listensWrite
    modifies c.outBuffer, c.outBuffer.buffer, Messages(c.writeDones)
    ensures c.Valid() && c.inBuffer.State() == old(c.inBuffer.State()) && c.inBuffer.buffer == old(c.inBuffer.buffer)
    ensures c.outBuffer.buffer == old(c.outBuffer.buffer) || fresh(c.outBuffer.buffer)
    ensures c.encoded == [m] && c.sends == [Send(1, FrameLength(m))] && c.wire == Frame(m)
  {
    hide Frame, FrameLength, Frames, Wire, Writes, Fresh, Stamped, Values, Messages;
    OneFrame(m);
    OneWrite(m);
    c.OnWrite([INT_MAX]);
  }

  function Queue(c: TcpConnection): seq<Message>
    reads c, Messages(c.writeDones)
  {
    Values(Messages(c.writeDones))
  }

  /** The same client once it has given the socket the request. */
  method Submit(size: nat, request: TinyPBProtocol, written: Callback, done: Callback) returns (client: TcpConnection)
    requires 0 < size <= INT_MAX && Sendable(request.Value())
    modifies request
    ensures fresh(client) && fresh(client.inBuffer) && fresh(client.inBuffer.buffer)
    ensures client.Valid() && client.kind == ByClient && client.size == size && client.state == Connected
    ensures client.inBuffer.State() == Fresh(size) && client.pieces == [] && client.decoded == []
    ensures client.fired == [] && client.readDones == client.registered == map[old(request.msgId) := done]
    ensures !client.ended && !client.reused
    ensures var m := old(request.Value());
            client.encoded == [m] && client.sends == [Send(1, FrameLength(m))] && client.wire == Frame(m)
  {
    hide Frame, FrameLength, Fresh, Sendable, TcpConnection.Valid;
    ghost var m := request.Value();
    client := Enqueue(size, request, written, done);
    assert Queue(client) == [m];
    WriteAll(client, m);
  }

  /** One frame that the parser keeps and the buffer has room for is decodable. */
  lemma FrameDecodes(size: nat, m: Message)
    requires 0 < size <= INT_MAX && WithinLimits(m) && FrameLength(m) < size
    ensures Decodable(Arrived(Fresh(size), Frame(m)))
    ensures Feed(Fresh(size), [Frame(m)]).alive && Feed(Fresh(size), [Frame(m)]).out == [Stamped(m)]
    ensures Kept(Frame(m), Fresh(size).Writable()) == Frame(m) != []
  {
    hide Frame, FrameLength, Arrived, Feed, WithinLimits, Stamped;
    LongEnough(m);
    OneFrameIff(Fresh(size), m);
    FeedOnce(Fresh(size), Frame(m));
    KeptIff(Frame(m), Fresh(size).Writable());
  }

  /** A connected server that has read one frame. */
  method Accept(size: nat, dispatcher: RpcDispatcher, arrived: seq<byte>, ghost m: Message) returns (server: TcpConnection)
    requires 0 < size <= INT_MAX && WithinLimits(m) && FrameLength(m) < size && arrived == Frame(m)
    ensures fresh(server) && fresh(server.inBuffer) && fresh(server.inBuffer.buffer)
    ensures fresh(server.outBuffer) && fresh(server.outBuffer.buffer)
    ensures server.Valid() && server.kind == ByServer && server.size == size && server.state == Connected
    ensures server.pieces == [arrived] && server.decoded == [Stamped(m)] && !server.ended
    ensures server.services == dispatcher.services && !server.changed
    ensures server.begun == Starts(dispatcher.services, [Stamped(m)])
    ensures server.Handed(0, server.begun) && forall c <- server.started :: fresh(c.response)
    ensures server.finished == [] && server.encoded == [] && server.sends == [] && server.writeDones == []
  {
    hide Frame, FrameLength, Arrived, Feed, WithinLimits, Stamped, Decodable, Kept, Starts, Fresh;
    FrameDecodes(size, m);
    server := Connect(size, ByServer);
    server.OnRead(arrived, false, dispatcher);
  }

  /** The same server once it has run the closure of the method started and given the socket the reply. */
  method Serve(size: nat, dispatcher: RpcDispatcher, arrived: seq<byte>, result: Option<seq<byte>>, ghost m: Message)
    returns (server: TcpConnection)
    requires 0 < size <= INT_MAX && WithinLimits(m) && FrameLength(m) < size && arrived == Frame(m) && m.msgId != []
    requires Resolvable(dispatcher.services, m) && Sendable(Reply(dispatcher.services, m, result))
    ensures fresh(server) && fresh(server.inBuffer) && fresh(server.inBuffer.buffer)
    ensures fresh(server.outBuffer) && fresh(server.outBuffer.buffer)
    ensures server.Valid() && server.kind == ByServer && server.size == size
    ensures server.pieces == [arrived] && !server.ended && !server.changed && server.services == dispatcher.services
    ensures server.finished == [Finish(0, result)] && server.encoded == [Reply(dispatcher.services, m, result)]
    ensures var r := Reply(dispatcher.services, m, result);
            server.sends == [Send(1, FrameLength(r))] && server.wire == Frame(r)
  {
    hide Frame, FrameLength, Stamped, Starts, WithinLimits, Answered, Dispatch, TcpConnection.Valid, Sendable;
    OneStart(dispatcher.services, m);
    server := Accept(size, dispatcher, arrived, m);
    server.RunClosure(dispatcher, 0, result);
    WriteAll(server, Reply(dispatcher.services, m, result));
  }

  function Reply(services: map<seq<byte>, Service>, m: Message, result: Option<seq<byte>>): Message {
    Answered(Dispatch(services, m).response, result)
  }

  lemma OneStart(services: map<seq<byte>, Service>, m: Message)
    requires Sendable(m) && m.msgId != [] && Resolvable(services, m) && WithinLimits(m)
    ensures var d := Dispatch(services, m); Starts(services, [Stamped(m)]) == [Start(Stamped(m), d.response, d.name)]
  {
    StampedResolvable(services, m);
    AllStarted(services, [Stamped(m)]);
  }

  /** The exchange of a single call. */
  function Single(m: Message, done: Callback, services: map<seq<byte>, Service>, result: Option<seq<byte>>): Exchange {
    Exchange([m], map[m.msgId := done], [1], services, [result], [0], [1])
  }

  lemma ResentOnce(m: Message)
    ensures Within([1], 1) && Top([1]) == 1 && Resent([m], [1]) == [m]
  {
    assert [m][..1] == [m] && [1][1..] == [];
    assert Resent([m], [1]) == [m] + Resent([m], []);
  }

  lemma SingleIsProper(m: Message, done: Callback, services: map<seq<byte>, Service>, result: Option<seq<byte>>)
    requires Sendable(m) && WithinLimits(m) && m.msgId != [] && Resolvable(services, m) && Sendable(Reply(services, m, result))
    ensures var x := Single(m, done, services, result);
            && x.Proper() && x.Arriving() == [m] && x.Received() == [Stamped(m)]
            && x.Written() == [Reply(services, m, result)] && Resent(x.Written(), x.flushes) == x.Written()
            && Finishes(x.order, x.results) == [Finish(0, result)]
  {
    hide Stamped, Starts, WithinLimits, Answered, Dispatch, Sendable, Resent, Top;
    var x, r := Single(m, done, services, result), Reply(services, m, result);
    ResentOnce(m);
    ResentOnce(r);
    OneStart(services, m);
    assert AllStamped([m]) == [Stamped(m)];
    assert Permutation([0], 1);
    assert x.Written() == [r];
    assert Ids([m]) == {m.msgId};
  }

  lemma SingleCarried(size: nat, m: Message)
    requires 0 < size <= INT_MAX && Sendable(m) && WithinLimits(m) && FrameLength(m) < size
    ensures Carried(Fresh(size), [m], [Frame(m)]) && Joined([Frame(m)]) == Frame(m)
  {
    hide Frame, FrameLength, WithinLimits, Sendable, Admits;
    assert [m][1..] == [];
    OneFrame(m);
    assert FramePieces([m]) == [Frame(m)];
    FrameByFrameIff(Fresh(size), [m]);
  }

  lemma SingleFires(m: Message, done: Callback)
    ensures Fired(map[m.msgId := done], [m]) == [Firing(done, m)] && map[m.msgId := done] - Ids([m]) == map[]
  {
    assert [m][1..] == [];
  }

  lemma ReplyKept(m: Message, services: map<seq<byte>, Service>, result: Option<seq<byte>>)
    requires WithinLimits(m) && m.msgId != [] && Resolvable(services, m)
    ensures WithinLimits(Reply(services, m, result)) && Reply(services, m, result).msgId == m.msgId
  {
    hide WithinLimits;
    AnsweredWithinLimits(services, m, result);
    AnsweredFields(services, m, result);
  }

  /** The client reads the one frame that answers its one request. */
  method Collect(client: TcpConnection, dispatcher: RpcDispatcher, arrived: seq<byte>, done: Callback, ghost r: Message)
    requires client.Valid() && client.kind == ByClient && client.state == Connected && client.size <= INT_MAX
    requires client.inBuffer.State() == Fresh(client.size) && client.pieces == [] && client.decoded == [] && client.fired == []
    requires !client.ended && client.readDones == map[r.msgId := done] && r.msgId != []
    requires WithinLimits(r) && FrameLength(r) < client.size && arrived == Frame(r)
    modifies client`state, client`readDones, client`fired, client`started, client`pieces, client`decoded, client`ended
    modifies client`begun, client`services, client`changed, client.inBuffer, client.inBuffer.buffer
    ensures client.Valid() && client.pieces == [arrived] && !client.ended
    ensures client.fired == [Firing(done, Stamped(r))] && client.readDones == map[]
  {
    hide Frame, FrameLength, Arrived, Feed, Frames, Wire, Kept, Starts, WithinLimits, Fired, Ids, Fresh;
    FrameDecodes(client.size, r);
    SingleFires(Stamped(r), done);
    client.OnRead(arrived, false, dispatcher);
  }

  /** What the two objects hold after that is such an exchange. */
  lemma SingleExchanged(client: TcpConnection, server: TcpConnection, m: Message, done: Callback,
                        services: map<seq<byte>, Service>, result: Option<seq<byte>>)
    requires Sendable(m) && WithinLimits(m) && m.msgId != [] && Resolvable(services, m)
    requires client.kind == ByClient && !client.ended && !client.reused && client.registered == map[m.msgId := done]
    requires server.kind == ByServer && !server.ended && !server.changed && server.services == services
    requires 0 < client.size <= INT_MAX && 0 < server.size <= INT_MAX && FrameLength(m) < server.size
    requires client.encoded == [m] && client.sends == [Send(1, FrameLength(m))] && client.wire == Frame(m)
    requires FrameLength(Reply(services, m, result)) < client.size
    requires var r := Reply(services, m, result);
             && server.finished == [Finish(0, result)] && server.encoded == [r]
             && server.sends == [Send(1, FrameLength(r))] && server.wire == Frame(r) && client.pieces == [Frame(r)]
    requires server.pieces == [Frame(m)]
    ensures var x := Single(m, done, services, result); x.Proper() && Exchanged(x, client, server)
  {
    hide Frame, FrameLength, Frames, Dispatch, Answered, Stamped, WithinLimits, Carried, Exchange.Proper, Starts, Replies;
    var r := Reply(services, m, result);
    ReplyKept(m, services, result);
    SingleIsProper(m, done, services, result);
    SingleCarried(server.size, m);
    SingleCarried(client.size, r);
    OneWrite(m);
    OneWrite(r);
  }

  /** A call: the client queues the request and writes it; the server reads it, starts the method, which finishes, and writes
      the reply; the client reads that and runs the callback. Both messages need room in the buffer that reads them. */
  method CallOnce(size: nat, dispatcher: RpcDispatcher, request: TinyPBProtocol, written: Callback, done: Callback,
                  result: Option<seq<byte>>) returns (client: TcpConnection, server: TcpConnection, ghost x: Exchange)
    requires 0 < size <= INT_MAX && WithinLimits(request.Value()) && request.msgId != []
    requires Resolvable(dispatcher.services, request.Value()) && FrameLength(request.Value()) < size
    requires FrameLength(Reply(dispatcher.services, request.Value(), result)) < size
    modifies request
    ensures fresh(client) && fresh(server)
    ensures client.Valid() && server.Valid() && x.Proper() && Exchanged(x, client, server)
    ensures var m := old(request.Value());
            && x == Single(m, done, dispatcher.services, result)
            && client.fired == [Firing(done, Stamped(Reply(dispatcher.services, m, result)))] && client.readDones == map[]
  {
    hide Frame, FrameLength, Dispatch, Answered, Stamped, WithinLimits, Exchanged, Exchange.Proper, TcpConnection.Valid, Single;
    ghost var m, services := request.Value(), dispatcher.services;
    ReplyKept(m, services, result);
    client := Submit(size, request, written, done);
    server := Serve(size, dispatcher, client.wire, result, m);
    Collect(client, dispatcher, server.wire, done, Reply(services, m, result));
    x := Single(m, done, services, result);
    SingleExchanged(client, server, m, done, services, result);
  }
}
