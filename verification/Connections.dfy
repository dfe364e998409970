/** TcpConnection: its two buffers, the callbacks waiting on it, and what it does when its socket is readable or writable. */
module Connections {
  import opened Bytes
  import opened BufferModel
  import opened TcpBuffers
  import opened TinyPB
  import opened Coder
  import opened Decoding
  import opened Receiving
  import opened Dispatching
  import opened Matching
  import opened Wrappers

  datatype ConnectionType = ByServer | ByClient

  datatype TcpState = NotConnected | Connected | HalfClosing | Closed

  function Messages(ws: seq<(TinyPBProtocol, Callback)>): (r: seq<TinyPBProtocol>)
    ensures |r| == |ws| && forall i | 0 <= i < |ws| :: r[i] == ws[i].0
  {
    seq(|ws|, i requires 0 <= i < |ws| => ws[i].0)
  }

  function Callbacks(ws: seq<(TinyPBProtocol, Callback)>): (r: seq<Callback>)
    ensures |r| == |ws| && forall i | 0 <= i < |ws| :: r[i] == ws[i].1
  {
    seq(|ws|, i requires 0 <= i < |ws| => ws[i].1)
  }

  lemma FeedSingle(b: Buffer, pending: seq<byte>)
    requires b.Ordered() && b.write < |b.mem| && Decodable(Arrived(b, pending))
    ensures var a := Arrived(b, pending); var d := DecodeRun(a, Iterations(a));
            Feed(b, [pending]) == Fed(d.buffer, d.out, true)
  {
    hide Arrived, DecodeRun;
    assert [pending][1..] == [];
    var a := Arrived(b, pending);
    DecodeRunOrdered(a, Iterations(a));
    assert DecodeRun(a, Iterations(a)).out + [] == DecodeRun(a, Iterations(a)).out;
  }

  lemma IdsStep(ms: seq<Message>, m: Message)
    ensures Ids([]) == {} && Ids(ms + [m]) == Ids(ms) + {m.msgId}
  {
  }

  lemma FiredStep(before: seq<Firing>, dones: map<seq<byte>, Callback>, ms: seq<Message>, i: nat)
    requires i < |ms|
    ensures ms[i].msgId in dones ==>
              var more := [Firing(dones[ms[i].msgId], ms[i])];
              before + Fired(dones, ms[i..]) == before + more + Fired(dones - {ms[i].msgId}, ms[i + 1..])
    ensures ms[i].msgId !in dones ==> before + Fired(dones, ms[i..]) == before + Fired(dones, ms[i + 1..])
  {
    assert ms[i..][1..] == ms[i + 1..];
    var id := ms[i].msgId;
    if id in dones {
      assert before + ([Firing(dones[id], ms[i])] + Fired(dones - {id}, ms[i + 1..]))
          == before + [Firing(dones[id], ms[i])] + Fired(dones - {id}, ms[i + 1..]);
    }
  }

  lemma NothingFires(dones: map<seq<byte>, Callback>)
    ensures Fired(dones, []) == []
  {
  }

  lemma ValueId(m: TinyPBProtocol)
    ensures m.Value().msgId == m.msgId
  {
  }

  lemma {:induction false} FiredWithout(dones: map<seq<byte>, Callback>, id: seq<byte>, done: Callback, ms: seq<Message>)
    requires id !in dones && id !in Ids(ms)
    ensures Fired(dones[id := done], ms) == Fired(dones, ms)
    decreases |ms|
  {
    if ms != [] {
      IdsFirst(ms);
      var first := ms[0].msgId;
      if first in dones {
        FiredWithout(dones - {first}, id, done, ms[1..]);
        assert dones[id := done] - {first} == (dones - {first})[id := done];
      } else {
        FiredWithout(dones, id, done, ms[1..]);
      }
    }
  }

  lemma FiredMore(dones: map<seq<byte>, Callback>, a: seq<Message>, b: seq<Message>)
    ensures Fired(dones, a + b) == Fired(dones, a) + Fired(dones - Ids(a), b)
    ensures dones - Ids(a + b) == dones - Ids(a) - Ids(b)
  {
    FiredConcat(dones, a, b);
    IdsConcat(a, b);
  }

  lemma RepliesGrow(starts: seq<Start>, more: seq<Start>, finishes: seq<Finish>)
    requires FinishesOf(starts, finishes)
    ensures FinishesOf(starts + more, finishes) && RepliesOf(starts + more, finishes) == RepliesOf(starts, finishes)
  {
    hide Answered;
  }

  lemma MoreReplies(starts: seq<Start>, finishes: seq<Finish>, one: Finish)
    requires FinishesOf(starts, finishes) && one.call < |starts|
    ensures FinishesOf(starts, finishes + [one])
    ensures var reply := Answered(starts[one.call].response, one.result);
            RepliesOf(starts, finishes + [one]) == RepliesOf(starts, finishes) + [reply]
  {
    hide Answered;
  }

  /** The k-th of these registrations is the first for its id. */
  predicate FirstFor(asked: seq<(seq<byte>, Callback)>, k: nat, id: seq<byte>, done: Callback) {
    k < |asked| && asked[k] == (id, done) && forall j | 0 <= j < k :: asked[j].0 != id
  }

  lemma {:induction false} FiredAwaited(dones: map<seq<byte>, Callback>, ms: seq<Message>, i: nat)
    requires i < |Fired(dones, ms)|
    ensures var f := Fired(dones, ms)[i]; f.message.msgId in dones && f.callback == dones[f.message.msgId]
    decreases |ms|
  {
    if ms[0].msgId !in dones {
      FiredAwaited(dones, ms[1..], i);
    } else if i > 0 {
      FiredAwaited(dones - {ms[0].msgId}, ms[1..], i - 1);
    }
  }

  /** The writes of one onWrite with `count` messages of `size` bytes in the buffer: each offers everything again from the
      front; the socket takes `offers[0]`, `offers[1]`, ... until it has taken all at once or is full (EAGAIN). */
  function Writes(count: nat, size: nat, offers: seq<nat>): (r: seq<Send>)
    ensures forall s <- r :: s.count == count && s.bytes <= size
    decreases |offers|
  {
    if size == 0 || offers == [] then []
    else if size <= offers[0] then [Send(count, size)]
    else [Send(count, offers[0])] + Writes(count, size, offers[1..])
  }

  /** The last of them took everything, or there was nothing to send. */
  predicate WritesAll(size: nat, offers: seq<nat>) { size == 0 || exists i :: 0 <= i < |offers| && size <= offers[i] }

  /** Write after write, the i-th takes what the socket offers room for, at most everything, and all but the last are cut
      short. */
  lemma {:induction false} WritesAre(count: nat, size: nat, offers: seq<nat>)
    ensures var r := Writes(count, size, offers);
            && |r| <= |offers|
            && (forall i | 0 <= i < |r| :: r[i] == Send(count, if size <= offers[i] then size else offers[i]))
            && (forall i | 0 <= i < |r| - 1 :: offers[i] < size)
    decreases |offers|
  {
    if size != 0 && offers != [] && offers[0] < size {
      WritesAre(count, size, offers[1..]);
      var rest, r := Writes(count, size, offers[1..]), Writes(count, size, offers);
      FirstWrite(count, size, offers);
      hide Writes;
      assert forall i | 0 < i < |r| :: r[i] == rest[i - 1] && offers[i] == offers[1..][i - 1];
    }
  }

  /** The writes go on as long as the socket is not full, until one has taken everything. */
  lemma {:induction false} WritesEnd(count: nat, size: nat, offers: seq<nat>)
    ensures var r := Writes(count, size, offers);
            && (WritesAll(size, offers) <==> size == 0 || (r != [] && r[|r| - 1].bytes == size))
            && (!WritesAll(size, offers) ==> |r| == |offers|)
    decreases |offers|
  {
    hide Writes, WritesAll;
    if size == 0 {
      NoWrites(count, offers);
    } else if offers == [] {
      NoOffers(count, size);
    } else {
      var r := Writes(count, size, offers);
      WritesStep(count, size, offers, [], r);
      if offers[0] < size {
        var rest := Writes(count, size, offers[1..]);
        FirstWrite(count, size, offers);
        WritesEnd(count, size, offers[1..]);
        assert rest != [] ==> r[|r| - 1] == rest[|rest| - 1];
      }
    }
  }

  lemma FirstWrite(count: nat, size: nat, offers: seq<nat>)
    requires size != 0 && offers != [] && offers[0] < size
    ensures Writes(count, size, offers) == [Send(count, offers[0])] + Writes(count, size, offers[1..])
  {
  }

  /** `made` are the writes so far, out of those that `all` holds. */
  lemma WritesStep(count: nat, size: nat, offers: seq<nat>, made: seq<Send>, all: seq<Send>)
    requires size != 0 && offers != [] && made + Writes(count, size, offers) == all
    ensures size <= offers[0] ==> made + [Send(count, size)] == all && WritesAll(size, offers)
    ensures offers[0] < size ==>
              && made + [Send(count, offers[0])] + Writes(count, size, offers[1..]) == all
              && (WritesAll(size, offers) <==> WritesAll(size, offers[1..]))
  {
    if WritesAll(size, offers[1..]) {
      var i :| 0 <= i < |offers[1..]| && size <= offers[1..][i];
      assert offers[i + 1] == offers[1..][i];
    }
    if offers[0] < size {
      var rest := Writes(count, size, offers[1..]);
      assert made + ([Send(count, offers[0])] + rest) == made + [Send(count, offers[0])] + rest;
    }
  }

  lemma NoWrites(count: nat, offers: seq<nat>)
    ensures Writes(count, 0, offers) == [] && WritesAll(0, offers)
  {
  }

  lemma NoOffers(count: nat, size: nat)
    requires size != 0
    ensures Writes(count, size, []) == [] && !WritesAll(size, [])
  {
  }

  class TcpConnection {
    const kind: ConnectionType
    const inBuffer: TcpBuffer
    const outBuffer: TcpBuffer
    var state: TcpState
    var readDones: map<seq<byte>, Callback>
    var writeDones: seq<(TinyPBProtocol, Callback)>
    var listensWrite: bool
    /** Read callbacks run, write callbacks run, calls handed to services, and bytes given to the socket so far. */
    var fired: seq<Firing>
    var sent: seq<Callback>
    var started: seq<Call>
    var wire: seq<byte>

    /** The capacity both buffers started with. */
    ghost const size: nat
    /** Messages encoded and writes made so far. */
    ghost var encoded: seq<Message>
    ghost var sends: seq<Send>
    /** What onRead found in the socket each time, and the messages decoded, until the peer has closed. */
    ghost var pieces: seq<seq<byte>>
    ghost var decoded: seq<Message>
    ghost var ended: bool
    /** Callbacks registered, as long as none was for an id already decoded. */
    ghost var registered: map<seq<byte>, Callback>
    ghost var reused: bool
    /** All calls of pushReadMessage. */
    ghost var asked: seq<(seq<byte>, Callback)>
    /** Methods started and closures run so far; the services they were found in, as long as those did not change. */
    ghost var begun: seq<Start>
    ghost var finished: seq<Finish>
    ghost var services: map<seq<byte>, Service>
    ghost var changed: bool

    ghost predicate Buffers()
      reads inBuffer, inBuffer.buffer, outBuffer, outBuffer.buffer
    {
      && inBuffer != outBuffer && inBuffer.buffer != outBuffer.buffer
      && inBuffer.State().Valid() && inBuffer.writeIndex < inBuffer.buffer.Length
      && outBuffer.State().Reachable()
    }

    /** The out buffer holds everything ever encoded, and the wire what the writes took of it. */
    ghost predicate Sent()
      reads this`encoded, this`sends, this`wire, outBuffer, outBuffer.buffer
    {
      && AllSendable(encoded) && outBuffer.State().Ordered() && outBuffer.State().Contents() == Frames(encoded)
      && SendsOf(encoded, sends) && wire == Wire(encoded, sends)
    }

    /** The input buffer `b` and the decoded messages are those of the receiving model. */
    ghost predicate Got(b: Buffer)
      reads this`ended, this`pieces, this`decoded
    {
      0 < size && (!ended ==> Feed(Fresh(size), pieces) == Fed(b, decoded, true))
    }

    /** On a client the callbacks run are those the decoded messages were waited for by. */
    ghost predicate Matched()
      reads this`ended, this`reused, this`fired, this`readDones, this`registered, this`decoded
    {
      kind == ByClient && !reused && !ended ==>
        fired == Fired(registered, decoded) && readDones == registered - Ids(decoded)
    }

    /** The callbacks registered are, for each id, the first one asked for. */
    ghost predicate Asked()
      reads this`asked, this`registered, this`reused
    {
      !reused ==>
        && (forall k | 0 <= k < |asked| :: asked[k].0 in registered)
        && forall id <- registered :: exists k: nat :: FirstFor(asked, k, id, registered[id])
    }

    /** The methods a server has started are those of the decoded requests. */
    ghost predicate Began()
      reads this`ended, this`changed, this`decoded, this`begun, this`services
    {
      kind == ByServer && !changed && !ended ==> begun == Starts(services, decoded)
    }

    /** The calls handed to services are to these methods. */
    ghost predicate Named()
      reads this`started, this`begun
    {
      |started| == |begun| && forall k | 0 <= k < |begun| :: started[k].name == begun[k].name
    }

    /** A server has encoded what the closures run so far reply, and nothing else. */
    ghost predicate Replied()
      reads this`encoded, this`begun, this`finished
    {
      kind == ByServer ==> FinishesOf(begun, finished) && encoded == RepliesOf(begun, finished)
    }

    ghost predicate Valid()
      reads this`encoded, this`sends, this`wire, this`ended, this`pieces, this`decoded, this`reused, this`fired
      reads this`readDones, this`registered, this`asked, this`changed, this`started, this`begun, this`finished, this`services
      reads inBuffer, inBuffer.buffer, outBuffer, outBuffer.buffer
    {
      Buffers() && Sent() && Got(inBuffer.State()) && Matched() && Asked() && Began() && Named() && Replied()
    }

    constructor (size: nat, kind: ConnectionType)
      requires 0 < size <= INT_MAX
      ensures Valid() && inBuffer.State() == Fresh(size) && outBuffer.State() == Fresh(size)
      ensures this.kind == kind && this.size == size && state == NotConnected && !listensWrite
      ensures readDones == registered == map[] && writeDones == [] && !ended && !reused
      ensures fired == [] && sent == [] && started == [] && wire == []
      ensures encoded == [] && sends == [] && pieces == [] && decoded == []
      ensures begun == [] && finished == [] && !changed && asked == []
      ensures fresh(inBuffer) && fresh(inBuffer.buffer) && fresh(outBuffer) && fresh(outBuffer.buffer)
    {
      this.kind := kind;
      this.size := size;
      var input := new TcpBuffer(size);
      var output := new TcpBuffer(size);
      inBuffer, outBuffer := input, output;
      state, listensWrite := NotConnected, false;
      readDones, writeDones := map[], [];
      fired, sent, started, wire := [], [], [], [];
      encoded, sends, pieces, decoded, registered := [], [], [], [], map[];
      ended, reused, changed := false, false, false;
      begun, finished, services, asked := [], [], map[], [];
      NoStarts(map[]);
    }

    /** The argument is ignored. */
    method SetState(to: TcpState)
      modifies this`state
      ensures state == Connected
    {
      state := Connected;
    }

    /** std::map::insert: a second callback for the same id is dropped. */
    method PushReadMessage(id: seq<byte>, done: Callback)
      requires Matched() && Asked()
      modifies this`readDones, this`registered, this`reused, this`asked
      ensures Matched() && Asked() && asked == old(asked) + [(id, done)]
      ensures id in old(readDones) ==> readDones == old(readDones)
      ensures id !in old(readDones) ==> readDones == old(readDones)[id := done]
      ensures reused == (old(reused) || id in Ids(decoded))
      ensures id in Ids(decoded) || id in old(registered) ==> registered == old(registered)
      ensures id !in Ids(decoded) && id !in old(registered) ==> registered == old(registered)[id := done]
    {
      hide Fired, Ids;
      if id !in Ids(decoded) && id !in registered {
        FiredWithout(registered, id, done, decoded);
        assert registered[id := done] - Ids(decoded) == (registered - Ids(decoded))[id := done];
      }
      NoteAsked(id, done);
      if id !in readDones {
        readDones := readDones[id := done];
      }
    }

    /** The registration becomes part of the history. */
    ghost method NoteAsked(id: seq<byte>, done: Callback)
      requires Asked()
      modifies this`registered, this`reused, this`asked
      ensures Asked() && asked == old(asked) + [(id, done)] && reused == (old(reused) || id in Ids(decoded))
      ensures id in Ids(decoded) || id in old(registered) ==> registered == old(registered)
      ensures id !in Ids(decoded) && id !in old(registered) ==> registered == old(registered)[id := done]
    {
      ghost var before := asked;
      asked := asked + [(id, done)];
      assert asked[|before|] == (id, done);
      if id in Ids(decoded) {
        reused := true;
        return;
      }
      if id !in registered {
        registered := registered[id := done];
      }
      if !reused {
        assert id !in old(registered) ==> FirstFor(asked, |before|, id, done);
        forall x | x in old(registered)
          ensures exists k: nat :: FirstFor(asked, k, x, registered[x])
        {
          var k: nat :| FirstFor(before, k, x, old(registered)[x]);
          assert FirstFor(asked, k, x, registered[x]);
        }
      }
    }

    /** On a client each callback run with a response is the first one that was ever registered for its id, as long as no id
        was registered again after its response. */
    lemma FirstAskedRuns(i: nat)
      requires Valid() && kind == ByClient && !reused && !ended && i < |fired|
      ensures exists k: nat :: FirstFor(asked, k, fired[i].message.msgId, fired[i].callback)
    {
      FiredAwaited(registered, decoded, i);
    }

    method PushSendMessage(message: TinyPBProtocol, done: Callback)
      modifies this`writeDones
      ensures writeDones == old(writeDones) + [(message, done)]
    {
      writeDones := writeDones + [(message, done)];
    }

    /** read() into the free space, then moveWriteIndex: nothing is recorded of a read that fills it. */
    method Record(data: seq<byte>)
      requires Buffers() && |data| <= inBuffer.State().Writable()
      modifies inBuffer, inBuffer.buffer
      ensures var b := Stored(old(inBuffer.State()), data);
              inBuffer.State() == if |data| == old(inBuffer.State().Writable()) then b else WriteMoved(b, |data|)
      ensures inBuffer.buffer == old(inBuffer.buffer) || fresh(inBuffer.buffer)
    {
      hide Adjusted;
      var writeIndex := inBuffer.writeIndex;
      PutBytes(inBuffer.buffer, writeIndex, data);
      assert inBuffer.State() == Stored(old(inBuffer.State()), data);
      inBuffer.MoveWriteIndex(|data|);
    }

    /** The read loop of onRead; `pending` is what the socket has, and `peerClosed` whether end of file comes after it.
        The branch that would grow the buffer is not here: `Buffers` keeps the write index below the capacity. */
    method ReadPending(pending: seq<byte>, peerClosed: bool) returns (isClose: bool)
      requires Buffers()
      modifies inBuffer, inBuffer.buffer
      ensures Buffers() && inBuffer.State() == Arrived(old(inBuffer.State()), pending)
      ensures isClose == (peerClosed && Kept(pending, old(inBuffer.State().Writable())) == [])
      ensures inBuffer.buffer == old(inBuffer.buffer) || fresh(inBuffer.buffer)
    {
      hide WriteMoved;
      ghost var b, room := inBuffer.State(), inBuffer.State().Writable();
      var left := pending;
      isClose := false;
      var isReadAll := false;
      while !isReadAll
        invariant inBuffer.State().Ordered() && inBuffer.writeIndex < inBuffer.buffer.Length
        invariant inBuffer.buffer == old(inBuffer.buffer) || fresh(inBuffer.buffer)
        invariant !isReadAll ==> Buffers() && Arrived(inBuffer.State(), left) == Arrived(b, pending)
        invariant !isReadAll ==> inBuffer.State().Writable() == room && Kept(left, room) == Kept(pending, room)
        invariant isReadAll ==> inBuffer.State() == Arrived(b, pending)
        invariant !isClose && (isReadAll ==> !(peerClosed && Kept(pending, room) == []))
        decreases !isReadAll, |left|
      {
        var readCount := inBuffer.WriteAble();
        var count := if |left| < readCount then |left| else readCount;
        if count > 0 {
          var data := left[..count];
          Record(data);
          if count == readCount {
            left := left[count..];
          } else {
            assert data == left;
            isReadAll := true;
          }
        } else if peerClosed {
          isClose := true;
          break;
        } else {
          isReadAll := true;
        }
      }
      ArrivedContents(b, pending);
    }

    /** The loop over decoded responses: runs the callback waiting for each. */
    method RunReadDones(result: seq<TinyPBProtocol>)
      modifies this`readDones, this`fired
      ensures fired == old(fired) + Fired(old(readDones), Values(result))
      ensures readDones == old(readDones) - Ids(Values(result))
    {
      hide Ids, Fired, TinyPBProtocol.Value, EMPTY;
      ghost var ms := Values(result);
      assert ms[0..] == ms && ms[..0] == [];
      IdsStep([], EMPTY);
      for i := 0 to |result|
        invariant fired + Fired(readDones, ms[i..]) == old(fired) + Fired(old(readDones), ms)
        invariant readDones == old(readDones) - Ids(ms[..i])
      {
        var id := result[i].msgId;
        assert ms[i].msgId == id by { ValueId(result[i]); }
        assert ms[..i + 1] == ms[..i] + [ms[i]];
        IdsStep(ms[..i], ms[i]);
        FiredStep(fired, readDones, ms, i);
        if id in readDones {
          fired := fired + [Firing(readDones[id], result[i].Value())];
          readDones := readDones - {id};
        }
      }
      assert ms[..|ms|] == ms && ms[|ms|..] == [];
      NothingFires(readDones);
    }

    /** excute on a client connection. */
    method ExcuteClient()
      requires Buffers() && kind == ByClient && Decodable(inBuffer.State())
      modifies this`readDones, this`fired, inBuffer
      ensures var b := old(inBuffer.State()); var r := DecodeRun(b, Iterations(b));
              && inBuffer.State() == r.buffer
              && fired == old(fired) + Fired(old(readDones), r.out)
              && readDones == old(readDones) - Ids(r.out)
      ensures inBuffer.buffer == old(inBuffer.buffer) || fresh(inBuffer.buffer)
    {
      hide DecodeRun, Iterations, Parse, Scan, Values, Fired, Ids;
      var result := Decode([], inBuffer);
      assert result[0..] == result;
      RunReadDones(result);
    }

    /** The calls from position `base` on are those of `starts`: request, response as dispatched, and method. */
    ghost predicate Handed(base: nat, starts: seq<Start>)
      reads this`started, set c | c in started :: c.response, set c | c in started :: c.request
    {
      && |started| == base + |starts|
      && forall k | 0 <= k < |starts| ::
           var c := started[base + k];
           && c.request.Value() == starts[k].request && c.response.Value() == starts[k].response
           && c.name == starts[k].name
    }

    /** The loop over decoded requests: dispatches each with a response of its own. */
    method DispatchAll(dispatcher: RpcDispatcher, result: seq<TinyPBProtocol>)
      modifies this`started
      ensures old(started) <= started && Handed(|old(started)|, Starts(dispatcher.services, Values(result)))
      ensures forall c <- started[|old(started)|..] :: fresh(c.response) && c.request in result
    {
      hide Dispatch, TinyPBProtocol.Value, Starts;
      ghost var ms, base := Values(result), |started|;
      NoStarts(dispatcher.services);
      for i := 0 to |result|
        invariant old(started) <= started && Handed(base, Starts(dispatcher.services, ms[..i]))
        invariant forall c <- started[base..] :: fresh(c.response) && c.request in result
        invariant forall k | 0 <= k < |result| :: result[k].Value() == ms[k]
      {
        StartsStep(dispatcher.services, ms, i);
        ghost var starts := Starts(dispatcher.services, ms[..i]);
        var response := new TinyPBProtocol();
        var call := dispatcher.DispatchRequest(result[i], response);
        assert Handed(base, starts);
        if call.Some? {
          started := started + [call.value];
          assert forall k | 0 <= k < |starts| ::
            var c := started[base + k];
            && c.request.Value() == starts[k].request && c.response.Value() == starts[k].response
            && c.name == starts[k].name;
        }
      }
      assert ms[..|ms|] == ms;
    }

    /** excute on a server connection. */
    method ExcuteServer(dispatcher: RpcDispatcher)
      requires Buffers() && kind == ByServer && Decodable(inBuffer.State())
      modifies this`started, inBuffer
      ensures var b := old(inBuffer.State()); var r := DecodeRun(b, Iterations(b));
              && inBuffer.State() == r.buffer
              && old(started) <= started && Handed(|old(started)|, Starts(dispatcher.services, r.out))
      ensures var b := old(inBuffer.State());
              var starts := Starts(dispatcher.services, DecodeRun(b, Iterations(b)).out);
              && |started| == old(|started|) + |starts|
              && forall k | 0 <= k < |starts| ::
                   var c := started[old(|started|) + k];
                   && c.request.Value() == starts[k].request && c.response.Value() == starts[k].response
                   && c.name == starts[k].name
      ensures old(started) <= started
      ensures forall c <- started[|old(started)|..] :: fresh(c.response) && fresh(c.request)
      ensures inBuffer.buffer == old(inBuffer.buffer) || fresh(inBuffer.buffer)
    {
      hide DecodeRun, Iterations, Parse, Scan, Values, Starts;
      var result := Decode([], inBuffer);
      assert result[0..] == result;
      DispatchAll(dispatcher, result);
    }

    /** The services found at a read. */
    ghost method NoteServices(dispatcher: RpcDispatcher)
      requires Began()
      modifies this`services, this`changed
      ensures Began() && (services == dispatcher.services || changed)
      ensures dispatcher.services == old(services) || old(decoded) == [] ==>
                services == dispatcher.services && changed == old(changed)
    {
      if decoded == [] {
        services := dispatcher.services;
        NoStarts(services);
        NoStarts(old(services));
      } else if dispatcher.services != services {
        changed := true;
      }
    }

    /** What decode is about to give becomes part of the history. */
    ghost method NoteDecoded(dispatcher: RpcDispatcher, b: Buffer, pending: seq<byte>)
      requires b.Valid() && b.write < |b.mem| && Decodable(Arrived(b, pending)) && Got(b) && Began() && Replied()
      modifies this`pieces, this`decoded, this`begun, this`services, this`changed
      ensures var f := Feed(b, [pending]); var starts := Starts(dispatcher.services, f.out);
              && f.alive && Got(f.buffer) && Began() && Replied()
              && pieces == old(pieces) + [pending] && decoded == old(decoded) + f.out
              && (kind == ByServer ==> begun == old(begun) + starts) && (kind == ByClient ==> begun == old(begun))
      ensures dispatcher.services == old(services) || old(decoded) == [] ==>
                services == dispatcher.services && changed == old(changed)
    {
      hide Arrived, DecodeRun, Starts, Feed;
      FeedSingle(b, pending);
      FeedSnoc(Fresh(size), pieces, pending);
      ghost var out := Feed(b, [pending]).out;
      NoteServices(dispatcher);
      StartsConcat(services, decoded, out);
      pieces := pieces + [pending];
      decoded := decoded + out;
      if kind == ByServer {
        RepliesGrow(begun, Starts(dispatcher.services, out), finished);
        begun := begun + Starts(dispatcher.services, out);
      }
    }

    /** excute on a client connection, with what it does to the history but for the matching; `b` is the buffer that `pending`
        was added to. */
    method TakeResponses(dispatcher: RpcDispatcher, ghost b: Buffer, ghost pending: seq<byte>)
      requires kind == ByClient && Buffers() && Got(b) && Began() && Named() && Replied()
      requires b.Valid() && b.write < |b.mem| && inBuffer.State() == Arrived(b, pending) && Decodable(inBuffer.State())
      modifies this`readDones, this`fired, this`pieces, this`decoded, this`begun, this`services, this`changed, inBuffer
      ensures Buffers() && Got(inBuffer.State()) && Began() && Named() && Replied()
      ensures var f := Feed(b, [pending]);
              && inBuffer.State() == f.buffer && f.alive
              && pieces == old(pieces) + [pending] && decoded == old(decoded) + f.out && begun == old(begun)
              && fired == old(fired) + Fired(old(readDones), f.out) && readDones == old(readDones) - Ids(f.out)
      ensures dispatcher.services == old(services) || old(decoded) == [] ==>
                services == dispatcher.services && changed == old(changed)
      ensures inBuffer.buffer == old(inBuffer.buffer) || fresh(inBuffer.buffer)
    {
      hide DecodeRun, Iterations, Starts, Fired, Ids, Arrived, Feed, Scan, Probe;
      FeedSingle(b, pending);
      DecodedValid(inBuffer.State(), Iterations(inBuffer.State()));
      NoteDecoded(dispatcher, b, pending);
      ExcuteClient();
    }

    method ReceiveClient(dispatcher: RpcDispatcher, ghost b: Buffer, ghost pending: seq<byte>)
      requires kind == ByClient && Buffers() && Got(b) && Matched() && Began() && Named() && Replied()
      requires b.Valid() && b.write < |b.mem| && inBuffer.State() == Arrived(b, pending) && Decodable(inBuffer.State())
      modifies this`readDones, this`fired, this`pieces, this`decoded, this`begun, this`services, this`changed, inBuffer
      ensures Buffers() && Got(inBuffer.State()) && Matched() && Began() && Named() && Replied()
      ensures var f := Feed(b, [pending]);
              && inBuffer.State() == f.buffer && f.alive
              && pieces == old(pieces) + [pending] && decoded == old(decoded) + f.out && begun == old(begun)
              && fired == old(fired) + Fired(old(readDones), f.out) && readDones == old(readDones) - Ids(f.out)
      ensures dispatcher.services == old(services) || old(decoded) == [] ==>
                services == dispatcher.services && changed == old(changed)
      ensures inBuffer.buffer == old(inBuffer.buffer) || fresh(inBuffer.buffer)
    {
      ghost var before, ran, waiting := decoded, fired, readDones;
      MatchedSoFar();
      hide Fired, Ids, Arrived, Feed, Decodable, Buffers, Got, Began, Named, Replied;
      TakeResponses(dispatcher, b, pending);
      StillMatched(before, Feed(b, [pending]).out, ran, waiting);
    }

    /** The same on a server connection. */
    method ReceiveServer(dispatcher: RpcDispatcher, ghost b: Buffer, ghost pending: seq<byte>)
      requires kind == ByServer && Buffers() && Got(b) && Matched() && Began() && Named() && Replied()
      requires b.Valid() && b.write < |b.mem| && inBuffer.State() == Arrived(b, pending) && Decodable(inBuffer.State())
      modifies this`started, this`pieces, this`decoded, this`begun, this`services, this`changed, inBuffer
      ensures Buffers() && Got(inBuffer.State()) && Matched() && Began() && Named() && Replied()
      ensures var f := Feed(b, [pending]); var starts := Starts(dispatcher.services, f.out);
              && inBuffer.State() == f.buffer && f.alive
              && pieces == old(pieces) + [pending] && decoded == old(decoded) + f.out && begun == old(begun) + starts
              && old(started) <= started && Handed(|old(started)|, starts)
      ensures dispatcher.services == old(services) || old(decoded) == [] ==>
                services == dispatcher.services && changed == old(changed)
      ensures old(started) <= started
      ensures forall c <- started[|old(started)|..] :: fresh(c.response) && fresh(c.request)
      ensures inBuffer.buffer == old(inBuffer.buffer) || fresh(inBuffer.buffer)
    {
      ghost var calls, methods := started, begun;
      NamedSoFar();
      hide DecodeRun, Iterations, Starts, Arrived, Feed, Handed, Scan, Probe;
      FeedSingle(b, pending);
      DecodedValid(inBuffer.State(), Iterations(inBuffer.State()));
      NoteDecoded(dispatcher, b, pending);
      ExcuteServer(dispatcher);
      StillNamed(calls, methods, Starts(dispatcher.services, Feed(b, [pending]).out));
    }

    /** excute */
    method Excute(dispatcher: RpcDispatcher, ghost b: Buffer, ghost pending: seq<byte>)
      requires Buffers() && Got(b) && Matched() && Began() && Named() && Replied()
      requires b.Valid() && b.write < |b.mem| && inBuffer.State() == Arrived(b, pending) && Decodable(inBuffer.State())
      modifies this`readDones, this`fired, this`started, this`pieces, this`decoded, this`begun, this`services, this`changed
      modifies inBuffer
      ensures Buffers() && Got(inBuffer.State()) && Matched() && Began() && Named() && Replied()
      ensures var f := Feed(b, [pending]); var starts := Starts(dispatcher.services, f.out);
              && inBuffer.State() == f.buffer && f.alive
              && pieces == old(pieces) + [pending] && decoded == old(decoded) + f.out
              && (kind == ByClient ==> fired == old(fired) + Fired(old(readDones), f.out)
                                       && readDones == old(readDones) - Ids(f.out)
                                       && started == old(started) && begun == old(begun))
              && (kind == ByServer ==> fired == old(fired) && readDones == old(readDones) && begun == old(begun) + starts
                                       && old(started) <= started && Handed(|old(started)|, starts))
      ensures dispatcher.services == old(services) || old(decoded) == [] ==>
                services == dispatcher.services && changed == old(changed)
      ensures old(started) <= started
      ensures forall c <- started[|old(started)|..] :: fresh(c.response) && fresh(c.request)
      ensures inBuffer.buffer == old(inBuffer.buffer) || fresh(inBuffer.buffer)
    {
      hide DecodeRun, Iterations, Starts, Fired, Ids, Arrived, Feed, Handed, Scan, Probe;
      if kind == ByServer {
        ReceiveServer(dispatcher, b, pending);
      } else {
        ReceiveClient(dispatcher, b, pending);
      }
    }

    lemma MatchedSoFar()
      requires Matched()
      ensures kind == ByClient && !reused && !ended ==>
                fired == Fired(registered, decoded) && readDones == registered - Ids(decoded)
    {
    }

    lemma StillMatched(before: seq<Message>, out: seq<Message>, ran: seq<Firing>, waiting: map<seq<byte>, Callback>)
      requires decoded == before + out
      requires kind == ByClient && !reused && !ended ==>
                 ran == Fired(registered, before) && waiting == registered - Ids(before)
      requires kind == ByClient ==> fired == ran + Fired(waiting, out) && readDones == waiting - Ids(out)
      ensures Matched()
    {
      FiredMore(registered, before, out);
    }

    lemma NamedSoFar()
      requires Named()
      ensures |started| == |begun| && forall k | 0 <= k < |begun| :: started[k].name == begun[k].name
    {
    }

    lemma StillNamed(calls: seq<Call>, methods: seq<Start>, more: seq<Start>)
      requires |calls| == |methods| && forall k | 0 <= k < |methods| :: calls[k].name == methods[k].name
      requires kind == ByClient ==> started == calls && begun == methods
      requires kind == ByServer ==> begun == methods + more && calls <= started && Handed(|calls|, more)
      ensures Named()
    {
      if kind == ByServer {
        HandedNames(|calls|, more);
        forall k | 0 <= k < |begun|
          ensures started[k].name == begun[k].name
        {
          if k >= |methods| {
            assert begun[k] == more[k - |methods|] && started[k] == started[|calls| + (k - |methods|)];
          }
        }
      }
    }

    lemma HandedNames(base: nat, starts: seq<Start>)
      requires Handed(base, starts)
      ensures |started| == base + |starts| && forall k | 0 <= k < |starts| :: started[base + k].name == starts[k].name
    {
    }

    /** onRead: what arrives is recorded and executed, unless the peer has closed and nothing was recorded. */
    method OnRead(pending: seq<byte>, peerClosed: bool, dispatcher: RpcDispatcher)
      requires Valid() && (state == Connected ==> Decodable(Arrived(inBuffer.State(), pending)))
      modifies this`state, this`readDones, this`fired, this`started, this`pieces, this`decoded, this`ended
      modifies this`begun, this`services, this`changed, inBuffer, inBuffer.buffer
      ensures Valid()
      ensures var closing := peerClosed && Kept(pending, old(inBuffer.State().Writable())) == [];
              var f := Feed(old(inBuffer.State()), [pending]);
              && (old(state) == Connected && !closing ==>
                    && inBuffer.State() == f.buffer && f.alive && ended == old(ended)
                    && pieces == old(pieces) + [pending] && decoded == old(decoded) + f.out)
              && (old(state) == Connected && !closing && kind == ByClient ==>
                    && fired == old(fired) + Fired(old(readDones), f.out)
                    && readDones == old(readDones) - Ids(f.out) && started == old(started) && begun == old(begun))
              && (old(state) == Connected && !closing && kind == ByServer ==>
                    && fired == old(fired) && readDones == old(readDones)
                    && begun == old(begun) + Starts(dispatcher.services, f.out)
                    && old(started) <= started && Handed(|old(started)|, Starts(dispatcher.services, f.out)))
              && (old(state) != Connected || closing ==>
                    && fired == old(fired) && readDones == old(readDones) && started == old(started)
                    && pieces == old(pieces) && decoded == old(decoded) && begun == old(begun)
                    && services == old(services) && changed == old(changed))
              && (old(state) == Connected && !closing && (dispatcher.services == old(services) || old(decoded) == []) ==>
                    services == dispatcher.services && changed == old(changed))
              && (old(state) != Connected ==> ended == old(ended))
              && state == if old(state) == Connected && closing then Closed else old(state)
      ensures old(started) <= started
      ensures forall c <- started[|old(started)|..] :: fresh(c.response) && fresh(c.request)
      ensures inBuffer.buffer == old(inBuffer.buffer) || fresh(inBuffer.buffer)
    {
      hide Arrived, Kept, DecodeRun, Starts, Fired, Ids, Iterations, Feed, Handed, Probe, Scan;
      hide Sent, Got, Matched, Began, Named, Replied;
      if state != Connected {
        return;
      }
      ghost var b := inBuffer.State();
      var isClose := ReadPending(pending, peerClosed);
      if isClose {
        Clear(b);
        return;
      }
      Excute(dispatcher, b, pending);
    }

    method Clear(ghost b: Buffer)
      requires Got(b) && Began()
      modifies this`state, this`ended
      ensures state == Closed && ended && Matched() && Began() && Got(inBuffer.State())
    {
      state := Closed;
      ended := true;
    }

    method Reply(messages: seq<TinyPBProtocol>)
      requires Buffers() && Sent() && AllSendable(Values(messages))
      modifies outBuffer, outBuffer.buffer, messages, this`encoded, this`listensWrite
      ensures Buffers() && Sent()
      ensures encoded == old(encoded) + old(Values(messages))
      ensures listensWrite && inBuffer.State() == old(inBuffer.State())
      ensures Values(messages) == AllStamped(old(Values(messages)))
      ensures outBuffer.buffer == old(outBuffer.buffer) || fresh(outBuffer.buffer)
    {
      Write(messages);
      listensWrite := true;
    }

    /** The closure of the k-th method started, run once with its result: fills the response in and replies it. */
    method RunClosure(dispatcher: RpcDispatcher, k: nat, result: Option<seq<byte>>)
      requires Valid() && kind == ByServer && k < |started| && started[k].response.Value() == begun[k].response
      requires Sendable(Answered(begun[k].response, result))
      modifies outBuffer, outBuffer.buffer, started[k].response, this`encoded, this`finished, this`listensWrite
      ensures Valid() && listensWrite && inBuffer.State() == old(inBuffer.State())
      ensures finished == old(finished) + [Finish(k, result)]
      ensures encoded == old(encoded) + [Answered(begun[k].response, result)]
      ensures started[k].response.Value() == Stamped(Answered(begun[k].response, result))
      ensures outBuffer.buffer == old(outBuffer.buffer) || fresh(outBuffer.buffer)
    {
      hide Answered, Got, Matched, Began, Sent, Stamped, Sendable;
      ReplyOne(dispatcher, started[k].response, result);
      MoreReplies(begun, finished, Finish(k, result));
      finished := finished + [Finish(k, result)];
    }

    method ReplyOne(dispatcher: RpcDispatcher, response: TinyPBProtocol, result: Option<seq<byte>>)
      requires Buffers() && Sent() && Sendable(Answered(response.Value(), result))
      modifies outBuffer, outBuffer.buffer, response, this`encoded, this`listensWrite
      ensures Buffers() && Sent() && listensWrite && inBuffer.State() == old(inBuffer.State())
      ensures encoded == old(encoded) + [Answered(old(response.Value()), result)]
      ensures response.Value() == Stamped(Answered(old(response.Value()), result))
      ensures outBuffer.buffer == old(outBuffer.buffer) || fresh(outBuffer.buffer)
    {
      hide Answered, Sent, Stamped, Sendable;
      dispatcher.FillResponse(response, result);
      var messages := [response];
      assert Values(messages) == [Answered(old(response.Value()), result)];
      Reply(messages);
      assert Values(messages)[0] == response.Value();
    }

    /** encode into the out buffer. */
    method Write(messages: seq<TinyPBProtocol>)
      requires Buffers() && Sent() && AllSendable(Values(messages))
      modifies outBuffer, outBuffer.buffer, messages, this`encoded
      ensures Buffers() && Sent()
      ensures encoded == old(encoded) + old(Values(messages))
      ensures inBuffer.State() == old(inBuffer.State())
      ensures Values(messages) == AllStamped(old(Values(messages)))
      ensures outBuffer.buffer == old(outBuffer.buffer) || fresh(outBuffer.buffer)
    {
      hide Encoded, Frames, Adjusted, Wire, SendsOf, AllSendable, Values, AllStamped;
      EncodedContents(outBuffer.State(), Values(messages));
      ghost var more := Values(messages);
      Encode(messages, outBuffer);
      FramesConcat(encoded, more);
      WireGrows(encoded, more, sends);
      encoded := encoded + more;
    }

    /** One write() that takes `rt` bytes from the front of what is readable. */
    method WriteOnce(rt: nat)
      requires Buffers() && Sent() && rt <= outBuffer.State().Readable()
      modifies this`wire, this`sends
      ensures Sent() && sends == old(sends) + [Send(|encoded|, rt)]
    {
      hide Frames, Wire, SendsOf, AllSendable;
      var readIndex := outBuffer.readIndex;
      ContentsSlice(outBuffer.State(), 0, rt);
      wire := wire + outBuffer.buffer[readIndex..readIndex + rt];
      assert outBuffer.buffer[readIndex..readIndex + rt] == outBuffer.buffer[..][readIndex + 0..readIndex + rt];
      WireSnoc(encoded, sends, rt);
      sends := sends + [Send(|encoded|, rt)];
    }

    /** The loop of onWrite: each write offers everything in the buffer from its front, whatever was taken before, and
        nothing is ever consumed. */
    method SendOut(offers: seq<nat>) returns (isWriteAll: bool)
      requires Buffers() && Sent()
      modifies this`wire, this`sends
      ensures Sent()
      ensures isWriteAll == WritesAll(outBuffer.State().Readable(), offers)
      ensures sends == old(sends) + Writes(|encoded|, outBuffer.State().Readable(), offers)
    {
      hide Writes, WritesAll, Sent;
      ghost var size, made := outBuffer.State().Readable(), [];
      ghost var all := Writes(|encoded|, size, offers);
      var left := offers;
      isWriteAll := false;
      while !isWriteAll
        invariant Sent() && sends == old(sends) + made
        invariant if isWriteAll then made == all else made + Writes(|encoded|, size, left) == all
        invariant if isWriteAll then WritesAll(size, offers) else WritesAll(size, left) == WritesAll(size, offers)
        decreases !isWriteAll, |left|
      {
        var writeSize := outBuffer.ReadAble();
        if writeSize == 0 {
          NoWrites(|encoded|, left);
          isWriteAll := true;
        } else if left == [] {
          NoOffers(|encoded|, size);
          break;
        } else {
          var rt := if writeSize <= left[0] then writeSize else left[0];
          WriteOnce(rt);
          WritesStep(|encoded|, size, left, made, all);
          made := made + [Send(|encoded|, rt)];
          if rt >= writeSize {
            isWriteAll := true;
          } else {
            left := left[1..];
          }
        }
      }
    }

    /** After the write loop, write events are asked for no more if everything was taken. */
    method Flush(offers: seq<nat>)
      requires Buffers() && Sent()
      modifies this`wire, this`sends, this`listensWrite
      ensures Sent()
      ensures listensWrite == (old(listensWrite) && !WritesAll(outBuffer.State().Readable(), offers))
      ensures sends == old(sends) + Writes(|encoded|, outBuffer.State().Readable(), offers)
    {
      hide Sent, Writes, WritesAll;
      var isWriteAll := SendOut(offers);
      if isWriteAll {
        listensWrite := false;
      }
    }

    method Queued() returns (messages: seq<TinyPBProtocol>)
      ensures messages == Messages(writeDones)
    {
      messages := [];
      for i := 0 to |writeDones|
        invariant messages == Messages(writeDones[..i])
      {
        messages := messages + [writeDones[i].0];
      }
      assert writeDones[..|writeDones|] == writeDones;
    }

    /** A client first encodes the messages queued for sending. */
    method EncodeQueue()
      requires Buffers() && Sent() && Replied() && AllSendable(Values(Messages(writeDones)))
      modifies this`encoded, outBuffer, outBuffer.buffer, Messages(writeDones)
      ensures Buffers() && Sent() && Replied() && inBuffer.State() == old(inBuffer.State())
      ensures encoded == old(encoded) + if kind == ByClient then old(Values(Messages(writeDones))) else []
      ensures outBuffer.buffer == old(outBuffer.buffer) || fresh(outBuffer.buffer)
    {
      hide AllSendable, AllStamped, Values, Messages, Sent;
      if kind == ByClient {
        var messages := Queued();
        Write(messages);
      }
    }

    method RunWriteDones()
      modifies this`sent, this`writeDones
      ensures writeDones == [] && sent == old(sent) + Callbacks(old(writeDones))
    {
      ghost var ws := writeDones;
      for i := 0 to |writeDones|
        modifies this`sent
        invariant sent == old(sent) + Callbacks(ws[..i])
      {
        sent := sent + [writeDones[i].1];
      }
      assert ws[..|ws|] == ws;
      writeDones := [];
    }

    /** Sends what has been encoded; a client encodes its queue before that, and runs its callbacks after. */
    method OnWrite(offers: seq<nat>)
      requires Valid() && AllSendable(Values(Messages(writeDones)))
      modifies this`wire, this`sends, this`encoded, this`sent, this`writeDones, this`listensWrite
      modifies outBuffer, outBuffer.buffer, Messages(writeDones)
      ensures Valid() && inBuffer.State() == old(inBuffer.State())
      ensures state != Connected || kind == ByServer ==> writeDones == old(writeDones) && sent == old(sent)
      ensures state == Connected && kind == ByClient ==> writeDones == [] && sent == old(sent) + Callbacks(old(writeDones))
      ensures encoded == old(encoded) + if state == Connected && kind == ByClient then old(Values(Messages(writeDones))) else []
      ensures sends == old(sends) + if state == Connected then Writes(|encoded|, outBuffer.State().Readable(), offers) else []
      ensures listensWrite == (old(listensWrite) && !(state == Connected && WritesAll(outBuffer.State().Readable(), offers)))
      ensures outBuffer.buffer == old(outBuffer.buffer) || fresh(outBuffer.buffer)
    {
      hide AllSendable, AllStamped, Values, Messages, Callbacks, Writes, WritesAll, Got, Matched, Sent, Began, Named, Replied;
      if state != Connected {
        return;
      }
      EncodeQueue();
      Flush(offers);
      if kind == ByClient {
        RunWriteDones();
      }
    }
  }
}
