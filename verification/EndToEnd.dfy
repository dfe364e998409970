/** From the requests a client writes to the callbacks its responses run: coder, buffers, dispatcher, connections and matching
    together. */
module EndToEnd {
  import opened Bytes
  import opened BufferModel
  import opened TinyPB
  import opened Receiving
  import opened Dispatching
  import opened Matching
  import opened Connections
  import opened ErrorCodes
  import opened Wrappers

  predicate Resolvable(services: map<seq<byte>, Service>, request: Message) {
    Dispatch(services, request).Started?
  }

  /** The order the methods finish in. */
  predicate Permutation(order: seq<nat>, n: nat) {
    && |order| == n
    && (forall k | 0 <= k < n :: order[k] < n)
    && (forall i, j | 0 <= i < j < n :: order[i] != order[j])
    && (forall r: nat | r < n :: r in order)
  }

  /** The methods finish in the order given, each once and with its result. */
  function Finishes(order: seq<nat>, results: seq<Option<seq<byte>>>): (r: seq<Finish>)
    requires Permutation(order, |results|)
    ensures |r| == |order| && forall k | 0 <= k < |r| :: r[k] == Finish(order[k], results[order[k]])
  {
    seq(|order|, k requires 0 <= k < |order| => Finish(order[k], results[order[k]]))
  }

  /** What the methods started reply, each once; `results[j]` is what the j-th computed, None if it cannot be serialised. */
  function Replies(starts: seq<Start>, order: seq<nat>, results: seq<Option<seq<byte>>>): (r: seq<Message>)
    requires Permutation(order, |starts|) && |results| == |starts|
    ensures |r| == |starts|
    ensures forall k | 0 <= k < |r| :: r[k] == Answered(starts[order[k]].response, results[order[k]])
  {
    RepliesOf(starts, Finishes(order, results))
  }

  lemma AnsweredFields(services: map<seq<byte>, Service>, request: Message, result: Option<seq<byte>>)
    ensures var r := Answered(Dispatch(services, request).response, result);
            && r.msgId == request.msgId && r.methodName == request.methodName
            && (Resolvable(services, request) && result.Some? ==>
                  r.errCode == 0 && r.errInfo == [] && r.pbData == result.value)
            && (result.None? ==> r.errCode == 10000004 && r.errInfo == Ascii("serilize error"))
  {
  }

  lemma StampedKeepsFields(m: Message)
    requires Sendable(m) && m.msgId != []
    ensures Stamped(m).msgId == m.msgId && Stamped(m).methodName == m.methodName && Stamped(m).pbData == m.pbData
    ensures Stamped(m).errCode == m.errCode && Stamped(m).errInfo == m.errInfo
  {
  }

  lemma ErrorInfoFits()
    ensures var info := Ascii("serilize error"); |info| < INFO_SIZE && 0 !in info
  {
  }

  lemma AnsweredWithinLimits(services: map<seq<byte>, Service>, request: Message, result: Option<seq<byte>>)
    requires Resolvable(services, request) && WithinLimits(request) && request.msgId != []
    ensures WithinLimits(Answered(Dispatch(services, request).response, result))
  {
    hide Ascii;
    ErrorInfoFits();
  }

  /** Filling in lengths does not change what a request is dispatched to. */
  lemma StampedResolvable(services: map<seq<byte>, Service>, m: Message)
    requires Sendable(m) && m.msgId != [] && Resolvable(services, m) && WithinLimits(m)
    ensures Resolvable(services, Stamped(m)) && WithinLimits(Stamped(m))
  {
  }

  /** The replies carry the requests' ids, whatever order they are written in. */
  lemma ReplyIds(services: map<seq<byte>, Service>, requests: seq<Message>, order: seq<nat>,
                 results: seq<Option<seq<byte>>>)
    requires Permutation(order, |requests|) && |results| == |requests|
    requires forall i | 0 <= i < |requests| :: Resolvable(services, requests[i])
    ensures |Starts(services, requests)| == |requests|
    ensures var rs := Replies(Starts(services, requests), order, results);
            && Ids(rs) == Ids(requests)
            && forall k | 0 <= k < |rs| :: rs[k].msgId == requests[order[k]].msgId
  {
    hide Dispatch, Answered, Starts;
    AllStarted(services, requests);
    var rs := Replies(Starts(services, requests), order, results);
    forall k | 0 <= k < |rs|
      ensures rs[k].msgId == requests[order[k]].msgId
    {
      AnsweredFields(services, requests[order[k]], results[order[k]]);
    }
    forall x | x in Ids(requests)
      ensures x in Ids(rs)
    {
      var r: nat :| r < |requests| && requests[r].msgId == x;
      assert r in order;
      var k :| 0 <= k < |order| && order[k] == r;
      assert rs[k].msgId == x && rs[k] in rs;
    }
    forall x | x in Ids(rs)
      ensures x in Ids(requests)
    {
      var k :| 0 <= k < |rs| && rs[k].msgId == x;
      assert requests[order[k]] in requests;
    }
  }

  /** Everything on the way from a set of requests to the callbacks waiting for their responses. */
  datatype Exchange = Exchange(
    requests: seq<Message>,
    dones: map<seq<byte>, Callback>,
    flushed: seq<nat>,
    services: map<seq<byte>, Service>,
    results: seq<Option<seq<byte>>>,
    order: seq<nat>,
    flushes: seq<nat>)
  {
    /** Requests with distinct non-empty ids, a callback each, fields the parser keeps, and methods that exist. The client
        flushes an out buffer that is never consumed until all requests have gone out; each method started replies once, in
        some order; the server flushes its buffer the same way until all replies have. */
    ghost predicate Proper() {
      && AllSendable(requests) && AllWithinLimits(requests) && DistinctIds(requests)
      && (forall i | 0 <= i < |requests| :: requests[i].msgId != [] && Resolvable(services, requests[i]))
      && dones.Keys == Ids(requests)
      && Within(flushed, |requests|) && Top(flushed) == |requests|
      && AllSendable(Arriving())
      && |results| == |Started()| && Permutation(order, |Started()|)
      && AllSendable(Written())
      && Within(flushes, |Written()|) && Top(flushes) == |Written()|
    }

    /** What the client puts on the wire. */
    ghost function Arriving(): seq<Message>
      requires Within(flushed, |requests|)
    {
      Resent(requests, flushed)
    }

    /** The requests as the server decodes them. */
    ghost function Received(): seq<Message>
      requires Within(flushed, |requests|) && AllSendable(Arriving())
    {
      AllStamped(Arriving())
    }

    ghost function Started(): seq<Start>
      requires Within(flushed, |requests|) && AllSendable(Arriving())
    {
      Starts(services, Received())
    }

    ghost function Written(): seq<Message>
      requires Within(flushed, |requests|) && AllSendable(Arriving())
      requires |results| == |Started()| && Permutation(order, |Started()|)
    {
      Replies(Started(), order, results)
    }
  }

  lemma SameIds(a: seq<Message>, b: seq<Message>)
    requires |a| == |b| && forall i | 0 <= i < |a| :: a[i].msgId == b[i].msgId
    ensures Ids(a) == Ids(b)
  {
    forall x | x in Ids(a)
      ensures x in Ids(b)
    {
      var i :| 0 <= i < |a| && a[i].msgId == x;
      assert b[i] in b;
    }
    forall x | x in Ids(b)
      ensures x in Ids(a)
    {
      var i :| 0 <= i < |b| && b[i].msgId == x;
      assert a[i] in a;
    }
  }

  /** Each request received is one of the client's, lengths filled in. */
  ghost predicate Origin(x: Exchange, got: Message, r: nat)
    requires AllSendable(x.requests)
  {
    r < |x.requests| && got == Stamped(x.requests[r])
  }

  lemma ReceivedRequests(x: Exchange)
    requires x.Proper()
    ensures Ids(x.Received()) == Ids(x.requests) && AllWithinLimits(x.Arriving())
    ensures forall j | 0 <= j < |x.Received()| ::
              var got := x.Received()[j];
              && got.msgId != [] && Resolvable(x.services, got) && WithinLimits(got) && exists r: nat :: Origin(x, got, r)
  {
    hide Resolvable, WithinLimits, Starts, Replies;
    var sent, got := x.Arriving(), x.Received();
    ResentAmong(x.requests, x.flushed);
    forall j | 0 <= j < |got|
      ensures WithinLimits(sent[j]) && got[j].msgId == sent[j].msgId
      ensures got[j].msgId != [] && Resolvable(x.services, got[j]) && WithinLimits(got[j])
      ensures exists r: nat :: Origin(x, got[j], r)
    {
      assert sent[j] in sent;
      var r: nat :| r < |x.requests| && x.requests[r] == sent[j];
      assert x.requests[r] in x.requests;
      assert Origin(x, got[j], r);
      StampedKeepsFields(sent[j]);
      StampedResolvable(x.services, sent[j]);
    }
    SameIds(got, sent);
    assert Ids(sent) == Ids(x.requests);
  }

  /** Every request received starts one method. */
  lemma OneStartEach(x: Exchange)
    requires x.Proper()
    ensures |x.Started()| == |x.Received()|
    ensures forall j | 0 <= j < |x.Started()| ::
              var got := x.Received()[j]; var d := Dispatch(x.services, got);
              d.Started? && x.Started()[j] == Start(got, d.response, d.name)
  {
    hide Resolvable, Dispatch, Starts, WithinLimits, Resent;
    ReceivedRequests(x);
    ResolvableStarts(x.services, x.Received());
    AllStarted(x.services, x.Received());
  }

  lemma WrittenReplies(x: Exchange)
    requires x.Proper()
    ensures var rs := AllStamped(x.Written());
            && Ids(rs) == x.dones.Keys && AllWithinLimits(x.Written())
            && forall k | 0 <= k < |rs| :: rs[k].msgId == x.Started()[x.order[k]].request.msgId
  {
    hide Resolvable, Answered, WithinLimits, Starts, Resent;
    ReceivedRequests(x);
    OneStartEach(x);
    var got, ws := x.Received(), x.Written();
    ReplyIds(x.services, got, x.order, x.results);
    var rs := AllStamped(ws);
    forall k | 0 <= k < |ws|
      ensures WithinLimits(ws[k]) && rs[k].msgId == ws[k].msgId
    {
      var q := x.order[k];
      assert ws[k] in ws;
      AnsweredWithinLimits(x.services, got[q], x.results[q]);
      StampedKeepsFields(ws[k]);
    }
    SameIds(rs, ws);
  }

  lemma ResolvableStarts(services: map<seq<byte>, Service>, ms: seq<Message>)
    requires forall i | 0 <= i < |ms| :: Resolvable(services, ms[i])
    ensures forall i | 0 <= i < |ms| :: Dispatch(services, ms[i]).Started?
  {
  }

  lemma {:induction false} ResentSendable(ms: seq<Message>, flushes: seq<nat>)
    requires AllSendable(ms) && AllWithinLimits(ms) && Within(flushes, |ms|)
    ensures AllSendable(Resent(ms, flushes)) && AllWithinLimits(Resent(ms, flushes))
    ensures AllStamped(Resent(ms, flushes)) == Resent(AllStamped(ms), flushes)
    decreases |flushes|
  {
    hide Sendable, WithinLimits, Stamped;
    if flushes != [] {
      ResentSendable(ms, flushes[1..]);
      AllStampedConcat(ms[..flushes[0]], Resent(ms, flushes[1..]));
      assert AllStamped(ms[..flushes[0]]) == AllStamped(ms)[..flushes[0]];
    }
  }

  // ---- How often methods are started ----

  /** A request is received, and its method started, as often as the client flushed it: exactly once if and only if it was
      flushed once. */
  lemma StartedAsOftenAsFlushed(x: Exchange, r: nat)
    requires x.Proper() && r < |x.requests|
    ensures |x.Started()| == |x.Received()|
    ensures forall j | 0 <= j < |x.Started()| :: x.Started()[j].request == x.Received()[j]
    ensures multiset(x.Received())[Stamped(x.requests[r])] == Times(x.flushed, r)
  {
    hide Resolvable, Dispatch, Starts, Stamped, WithinLimits, Replies;
    OneStartEach(x);
    ResentSendable(x.requests, x.flushed);
    StampedDistinct(x.requests);
    ResentTimes(AllStamped(x.requests), x.flushed, r);
  }

  lemma StampedDistinct(ms: seq<Message>)
    requires AllSendable(ms) && DistinctIds(ms) && forall i | 0 <= i < |ms| :: ms[i].msgId != []
    ensures DistinctIds(AllStamped(ms))
  {
    forall i | 0 <= i < |ms|
      ensures AllStamped(ms)[i].msgId == ms[i].msgId
    {
      assert ms[i] in ms;
    }
  }

  // ---- Every call is answered once ----

  /** A callback run with the k-th reply written, which answers request r. */
  ghost predicate AnswerTo(x: Exchange, firing: Firing, r: nat, k: nat)
    requires x.Proper()
  {
    && r < |x.requests| && k < |x.Written()|
    && Origin(x, x.Started()[x.order[k]].request, r)
    && x.requests[r].msgId in x.dones && firing.callback == x.dones[x.requests[r].msgId]
    && firing.message == Stamped(x.Written()[k]) && firing.message.msgId == x.requests[r].msgId
    && match x.results[x.order[k]]
       case Some(data) => firing.message.errCode == 0 && firing.message.errInfo == [] && firing.message.pbData == data
       case None => firing.message.errCode == 10000004 && firing.message.errInfo == Ascii("serilize error")
  }

  ghost predicate IsAnswer(x: Exchange, firing: Firing)
    requires x.Proper()
  {
    exists r: nat, k: nat :: AnswerTo(x, firing, r, k)
  }

  /** Given the messages `out`, one callback runs per request, no two for the same id, in the order in which the first replies
      to them were written, each with a reply to its own request, and none keeps waiting. */
  ghost predicate AllAnswered(x: Exchange, out: seq<Message>)
    requires x.Proper()
  {
    var fired := Fired(x.dones, out);
    && Ids(Firsts(AllStamped(x.Written()))) <= x.dones.Keys
    && fired == Firings(x.dones, Firsts(AllStamped(x.Written())))
    && |fired| == |x.requests| && x.dones - Ids(out) == map[]
    && (forall i, j | 0 <= i < j < |fired| :: fired[i].message.msgId != fired[j].message.msgId)
    && forall i | 0 <= i < |fired| :: IsAnswer(x, fired[i])
  }

  lemma ReplyAnswers(x: Exchange, k: nat)
    requires x.Proper() && k < |x.Written()|
    ensures var m := Stamped(x.Written()[k]);
            m.msgId in x.dones && IsAnswer(x, Firing(x.dones[m.msgId], m))
  {
    hide Resolvable, WithinLimits, Starts, Resent, Dispatch, Answered;
    WrittenReplies(x);
    ReceivedRequests(x);
    OneStartEach(x);
    var j, w := x.order[k], x.Written()[k];
    var r: nat :| Origin(x, x.Received()[j], r);
    var m := AllStamped(x.Written())[k];
    assert w in x.Written() && x.requests[r] in x.requests;
    assert m in AllStamped(x.Written()) && m.msgId in Ids(AllStamped(x.Written()));
    AnsweredFields(x.services, x.Received()[j], x.results[j]);
    StampedKeepsFields(w);
    StampedKeepsFields(x.requests[r]);
    assert AnswerTo(x, Firing(x.dones[m.msgId], m), r, k);
  }

  lemma ResentRepliesAnswer(x: Exchange)
    requires x.Proper()
    ensures Within(x.flushes, |AllStamped(x.Written())|)
    ensures AllAnswered(x, Resent(AllStamped(x.Written()), x.flushes))
  {
    hide New, Fired, Resent, Ids, IsAnswer, Stamped, Exchange.Written, Resolvable, WithinLimits, Starts;
    var rs := AllStamped(x.Written());
    RepliesKnown(x);
    ResendingIsHarmless(x.dones, rs, x.flushes);
    var fired := Firings(x.dones, Firsts(rs));
    NewAmong(rs, {});
    forall i | 0 <= i < |fired|
      ensures IsAnswer(x, fired[i])
    {
      var m := Firsts(rs)[i];
      assert m in rs;
      var k: nat :| k < |rs| && rs[k] == m;
      ReplyAnswers(x, k);
      assert fired[i] == Firing(x.dones[m.msgId], m);
    }
    AsManyIds(Firsts(rs));
    AsManyIds(x.requests);
  }

  lemma RepliesKnown(x: Exchange)
    requires x.Proper()
    ensures AllSendable(x.requests) && DistinctIds(x.requests) && x.dones.Keys == Ids(x.requests)
    ensures AllSendable(x.Written()) && Ids(AllStamped(x.Written())) == x.dones.Keys
    ensures Within(x.flushes, |AllStamped(x.Written())|) && Top(x.flushes) == |AllStamped(x.Written())|
  {
    WrittenReplies(x);
  }

  /** The pieces, cut anywhere admissible, bring messages within the limits into an empty buffer. */
  ghost predicate Carried(b: Buffer, ms: seq<Message>, pieces: seq<seq<byte>>) {
    && b.Valid() && b.write < |b.mem| && b.Contents() == []
    && AllSendable(ms) && AllWithinLimits(ms) && Admits(b, ms, pieces)
  }

  /** Requests with distinct ids for methods that exist, sent again at every flush of the client and cut anywhere admissible;
      methods that finish in any order; replies sent again at every flush of the server and cut anywhere admissible: the
      server decodes exactly what was sent, and every call is answered exactly once. */
  lemma EveryCallAnsweredOnce(x: Exchange, server: Buffer, pieces: seq<seq<byte>>, client: Buffer, replyPieces: seq<seq<byte>>)
    requires x.Proper()
    requires Carried(server, x.Arriving(), pieces) && Joined(pieces) == Frames(x.Arriving())
    requires Carried(client, Resent(x.Written(), x.flushes), replyPieces)
    requires Joined(replyPieces) == Frames(Resent(x.Written(), x.flushes))
    ensures Feed(server, pieces).alive && Feed(server, pieces).out == x.Received()
    ensures Feed(client, replyPieces).alive && AllAnswered(x, Feed(client, replyPieces).out)
  {
    hide Feed, Frames, AllAnswered, Starts, Replies, Resolvable, WithinLimits, Sendable, Resent;
    StreamDelivered(server, x.Arriving(), pieces);
    StreamDelivered(client, Resent(x.Written(), x.flushes), replyPieces);
    WrittenReplies(x);
    ResentSendable(x.Written(), x.flushes);
    ResentRepliesAnswer(x);
  }

  /** Two connections between which the exchange has taken place: the client has encoded the requests; the server has read
      what the client put on the wire and run the closure of every method it started; the client has read what the server
      put on the wire. Each write of either ended between two frames. */
  ghost predicate Exchanged(x: Exchange, client: TcpConnection, server: TcpConnection)
    requires x.Proper()
    reads client, server
  {
    && client.kind == ByClient && !client.ended && !client.reused && client.registered == x.dones
    && client.encoded == x.requests && EndsBetweenFrames(client.encoded, client.sends, x.flushed)
    && server.kind == ByServer && !server.ended && !server.changed && server.services == x.services
    && Joined(server.pieces) == client.wire && Carried(Fresh(server.size), x.Arriving(), server.pieces)
    && server.finished == Finishes(x.order, x.results)
    && AllSendable(server.encoded) && EndsBetweenFrames(server.encoded, server.sends, x.flushes)
    && Joined(client.pieces) == server.wire
    && Carried(Fresh(client.size), Resent(x.Written(), x.flushes), client.pieces)
  }

  /** Then the server has decoded the requests received and started one method for each, has encoded their replies and
      nothing else, and every call of the client is answered exactly once. */
  lemma ConnectionsAnswerEveryCall(x: Exchange, client: TcpConnection, server: TcpConnection)
    requires x.Proper() && client.Valid() && server.Valid() && Exchanged(x, client, server)
    ensures server.decoded == x.Received() && server.begun == x.Started() && server.encoded == x.Written()
    ensures |server.started| == |x.Received()|
    ensures forall k | 0 <= k < |server.started| :: server.started[k].name == x.Started()[k].name
    ensures AllAnswered(x, client.decoded) && client.fired == Fired(x.dones, client.decoded) && client.readDones == map[]
  {
    hide Feed, Frames, Starts, Resolvable, WithinLimits, Sendable, Resent, Exchange.Proper, Fired;
    hide TcpConnection.Buffers, Fresh, Carried, Exchange.Written, Replies;
    OneStartEach(x);
    ServerReplies(x, client, server);
    WireIsResent(client.encoded, client.sends, x.flushed);
    WireIsResent(server.encoded, server.sends, x.flushes);
    EveryCallAnsweredOnce(x, Fresh(server.size), server.pieces, Fresh(client.size), client.pieces);
  }

  lemma ServerReplies(x: Exchange, client: TcpConnection, server: TcpConnection)
    requires x.Proper() && client.Valid() && server.Valid() && Exchanged(x, client, server)
    ensures server.decoded == x.Received() && server.begun == x.Started() && server.encoded == x.Written()
  {
    hide Feed, Frames, Starts, Resolvable, WithinLimits, Sendable, Resent, Fired, TcpConnection.Buffers, Fresh;
    ReceivedRequests(x);
    WireIsResent(client.encoded, client.sends, x.flushed);
    StreamDelivered(Fresh(server.size), x.Arriving(), server.pieces);
  }

  /** In particular on fresh connections that get one frame at a time, each shorter than the free space it finds. */
  lemma AnsweredFrameByFrame(x: Exchange, size: nat)
    requires x.Proper() && 0 < size <= INT_MAX
    requires RoomForEach(0, size, x.Arriving()) && RoomForEach(0, size, Resent(x.Written(), x.flushes))
    ensures AllSendable(Resent(x.Written(), x.flushes))
    ensures Feed(Fresh(size), FramePieces(x.Arriving())).out == x.Received()
    ensures AllAnswered(x, Feed(Fresh(size), FramePieces(Resent(x.Written(), x.flushes))).out)
  {
    hide Feed, Frames, AllAnswered, Starts, Replies, Resolvable, WithinLimits, Sendable, Resent, Admits, RoomForEach;
    ReceivedRequests(x);
    WrittenReplies(x);
    ResentSendable(x.Written(), x.flushes);
    FrameByFrameIff(Fresh(size), x.Arriving());
    FrameByFrameIff(Fresh(size), Resent(x.Written(), x.flushes));
    EveryCallAnsweredOnce(x, Fresh(size), FramePieces(x.Arriving()), Fresh(size), FramePieces(Resent(x.Written(), x.flushes)));
  }

  /** And so wherever all frames, of the requests and of the replies, are at least a third of the capacity shorter than it. */
  lemma ShortFramesAnswered(x: Exchange, size: nat)
    requires x.Proper() && 0 < size <= INT_MAX
    requires forall m <- x.requests + x.Written() :: FrameLength(m) + size / 3 <= size
    ensures AllSendable(Resent(x.Written(), x.flushes))
    ensures Feed(Fresh(size), FramePieces(x.Arriving())).out == x.Received()
    ensures AllAnswered(x, Feed(Fresh(size), FramePieces(Resent(x.Written(), x.flushes))).out)
  {
    hide Feed, AllAnswered, FrameLength, Resolvable, WithinLimits, Starts, Replies;
    ResentAmong(x.requests, x.flushed);
    ResentAmong(x.Written(), x.flushes);
    ShortFramesFit(0, size, x.Arriving());
    ShortFramesFit(0, size, Resent(x.Written(), x.flushes));
    AnsweredFrameByFrame(x, size);
  }
}
