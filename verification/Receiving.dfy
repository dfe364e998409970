/** The receiving side: what TcpConnection::onRead leaves in the input buffer, and what decode then makes of a stream
    that arrives in pieces. */
module Receiving {
  import opened Bytes
  import opened BufferModel
  import opened TinyPB
  import opened Decoding

  // ---- One call of onRead ----

  /** The read loop on the bytes the socket has pending. A read that fills the free space is not recorded, because
      moveWriteIndex refuses to reach the capacity; the next read then overwrites it. */
  function Arrived(b: Buffer, pending: seq<byte>): (r: Buffer)
    requires b.Ordered() && b.write < |b.mem|
    ensures r.Ordered() && r.write < |r.mem| == |b.mem|
    decreases |pending|
  {
    var room := b.Writable();
    if pending == [] then b
    else if |pending| < room then WriteMoved(Stored(b, pending), |pending|)
    else Arrived(Stored(b, pending[..room]), pending[room..])
  }

  /** The bytes of `pending` that a read loop with `room` free bytes records. */
  function Kept(pending: seq<byte>, room: nat): (r: seq<byte>)
    requires 0 < room
    decreases |pending|
  {
    if |pending| < room then pending else Kept(pending[room..], room)
  }

  /** The loop records the last |pending| mod room bytes: everything exactly when it all is less than the room. */
  lemma {:induction false} KeptIff(pending: seq<byte>, room: nat)
    requires 0 < room
    ensures |Kept(pending, room)| < room && |Kept(pending, room)| <= |pending|
    ensures Kept(pending, room) == pending[|pending| - |Kept(pending, room)|..]
    ensures exists q: nat :: |pending| == q * room + |Kept(pending, room)|
    ensures Kept(pending, room) == pending <==> |pending| < room
    decreases |pending|
  {
    if |pending| < room {
      assert |pending| == 0 * room + |Kept(pending, room)|;
    } else {
      KeptIff(pending[room..], room);
      var q: nat :| |pending[room..]| == q * room + |Kept(pending[room..], room)|;
      assert |pending| == (q + 1) * room + |Kept(pending, room)|;
    }
  }

  lemma {:induction false} ArrivedContents(b: Buffer, pending: seq<byte>)
    requires b.Valid() && b.write < |b.mem|
    ensures Arrived(b, pending).Valid()
    ensures Arrived(b, pending).Contents() == b.Contents() + Kept(pending, b.Writable())
    decreases |pending|
  {
    var room := b.Writable();
    if pending == [] {
      assert b.Contents() + [] == b.Contents();
    } else if |pending| < room {
      var s := Stored(b, pending).(write := b.write + |pending|);
      assert s.Contents() == b.Contents() + pending;
      AdjustedContents(s);
    } else {
      var s := Stored(b, pending[..room]);
      assert s.Contents() == b.Contents();
      ArrivedContents(s, pending[room..]);
    }
  }

  // ---- A stream in pieces ----

  datatype Fed = Fed(buffer: Buffer, out: seq<Message>, alive: bool)

  /** onRead and decode for one piece after the other; not alive once a decode does not come to a defined end. */
  ghost function Feed(b: Buffer, pieces: seq<seq<byte>>): (r: Fed)
    requires b.Ordered() && b.write < |b.mem|
    ensures r.buffer.Ordered() && r.buffer.write < |r.buffer.mem| == |b.mem|
    decreases |pieces|
  {
    if pieces == [] then Fed(b, [], true)
    else
      var a := Arrived(b, pieces[0]);
      if !Decodable(a) then Fed(a, [], false)
      else
        DecodeRunOrdered(a, Iterations(a));
        var d := DecodeRun(a, Iterations(a));
        var rest := Feed(d.buffer, pieces[1..]);
        rest.(out := d.out + rest.out)
  }

  lemma FeedNothing(b: Buffer)
    requires b.Ordered() && b.write < |b.mem|
    ensures Feed(b, []) == Fed(b, [], true)
  {
  }

  lemma FeedFirst(b: Buffer, pieces: seq<seq<byte>>)
    requires b.Ordered() && b.write < |b.mem| && pieces != [] && Decodable(Arrived(b, pieces[0]))
    ensures var a := Arrived(b, pieces[0]); var d := DecodeRun(a, Iterations(a));
            && d.buffer.Ordered() && d.buffer.write < |d.buffer.mem|
            && var rest := Feed(d.buffer, pieces[1..]);
            Feed(b, pieces) == rest.(out := d.out + rest.out)
  {
    hide Arrived, DecodeRun;
    DecodeRunOrdered(Arrived(b, pieces[0]), Iterations(Arrived(b, pieces[0])));
  }

  /** One piece more. */
  lemma {:induction false} FeedSnoc(b: Buffer, pieces: seq<seq<byte>>, piece: seq<byte>)
    requires b.Ordered() && b.write < |b.mem|
    ensures var f, all := Feed(b, pieces), Feed(b, pieces + [piece]);
            f.alive ==> var g := Feed(f.buffer, [piece]); all == Fed(g.buffer, f.out + g.out, g.alive)
    decreases |pieces|
  {
    hide Arrived, DecodeRun;
    if pieces == [] {
      assert [] + [piece] == [piece];
      assert [] + Feed(b, [piece]).out == Feed(b, [piece]).out;
    } else {
      assert (pieces + [piece])[1..] == pieces[1..] + [piece];
      var a := Arrived(b, pieces[0]);
      if Decodable(a) {
        DecodeRunOrdered(a, Iterations(a));
        var d := DecodeRun(a, Iterations(a));
        FeedSnoc(d.buffer, pieces[1..], piece);
        var f := Feed(d.buffer, pieces[1..]);
        if f.alive {
          assert d.out + (f.out + Feed(f.buffer, [piece]).out) == d.out + f.out + Feed(f.buffer, [piece]).out;
        }
      }
    }
  }

  function Joined(pieces: seq<seq<byte>>): seq<byte> {
    if pieces == [] then [] else pieces[0] + Joined(pieces[1..])
  }

  /** How many whole frames lie within the first `n` bytes of the stream. */
  function Whole(ms: seq<Message>, n: nat): (k: nat)
    ensures k <= |ms|
  {
    if ms == [] || n < FrameLength(ms[0]) then 0 else 1 + Whole(ms[1..], n - FrameLength(ms[0]))
  }

  lemma Parts(ms: seq<Message>, k: nat)
    requires AllSendable(ms) && k <= |ms|
    ensures AllSendable(ms[..k]) && AllSendable(ms[k..])
    ensures k < |ms| ==> Sendable(ms[k])
  {
  }

  /** A start `s` of the stream is its whole frames followed by the start of one more. */
  lemma {:induction false} WholeSplit(ms: seq<Message>, s: seq<byte>)
    requires AllSendable(ms) && s <= Frames(ms)
    ensures var k := Whole(ms, |s|);
            && AllSendable(ms[..k]) && AllSendable(ms[k..])
            && |Frames(ms[..k])| <= |s| && s == Frames(ms[..k]) + s[|Frames(ms[..k])|..]
            && s[|Frames(ms[..k])|..] <= Frames(ms[k..])
            && Whole(ms[k..], |s| - |Frames(ms[..k])|) == 0
    decreases |ms|
  {
    hide Frame, Frames, AllSendable, FrameLength, Sendable;
    if ms == [] || |s| < FrameLength(ms[0]) {
      assert ms[..0] == [] && ms[0..] == ms;
      NothingYet();
    } else {
      Parts(ms, 0);
      Parts(ms, 1);
      var f := Frame(ms[0]);
      var r := s[|f|..];
      FramesStep(ms);
      FirstOff(s, f, Frames(ms[1..]));
      WholeSplit(ms[1..], r);
      var k := Whole(ms, |s|);
      WholeFrames(ms, k);
      var done := Frames(ms[1..][..k - 1]);
      assert s[|f + done|..] == r[|done|..];
      Regroup(f, done, r[|done|..]);
    }
  }

  /** The first k frames, at least one, are the first and k - 1 more. */
  lemma WholeFrames(ms: seq<Message>, k: nat)
    requires AllSendable(ms) && 1 <= k <= |ms|
    ensures AllSendable(ms[1..]) && AllSendable(ms[..k]) && AllSendable(ms[1..][..k - 1])
    ensures Frames(ms[..k]) == Frame(ms[0]) + Frames(ms[1..][..k - 1])
    ensures ms[1..][k - 1..] == ms[k..]
  {
    hide Frame, Frames;
    assert ms[..k][1..] == ms[1..][..k - 1];
    FramesStep(ms[..k]);
  }

  lemma FramesStep(ms: seq<Message>)
    requires AllSendable(ms) && ms != []
    ensures Frames(ms) == Frame(ms[0]) + Frames(ms[1..])
  {
  }

  lemma FirstOff(s: seq<byte>, f: seq<byte>, rest: seq<byte>)
    requires s <= f + rest && |f| <= |s|
    ensures s == f + s[|f|..] && s[|f|..] <= rest
  {
  }

  lemma WholeStep(ms: seq<Message>, n: nat)
    requires ms != [] && FrameLength(ms[0]) <= n
    ensures Whole(ms, n) == 1 + Whole(ms[1..], n - FrameLength(ms[0]))
  {
  }

  lemma WholeZero(ms: seq<Message>, n: nat)
    requires ms == [] || n < FrameLength(ms[0])
    ensures Whole(ms, n) == 0
  {
  }

  lemma {:induction false} WholeLater(ms: seq<Message>, n: nat, more: nat)
    requires AllSendable(ms) && n <= more <= |Frames(ms)|
    ensures var k := Whole(ms, n);
            && AllSendable(ms[..k]) && |Frames(ms[..k])| <= n
            && Whole(ms, more) == k + Whole(ms[k..], more - |Frames(ms[..k])|)
    decreases |ms|
  {
    hide Frame, Frames, AllSendable, FrameLength, Sendable, Whole;
    if ms == [] || n < FrameLength(ms[0]) {
      WholeZero(ms, n);
      assert ms[..0] == [] && ms[0..] == ms;
      NothingYet();
    } else {
      Parts(ms, 0);
      Parts(ms, 1);
      FramesStep(ms);
      var size := FrameLength(ms[0]);
      WholeStep(ms, n);
      WholeStep(ms, more);
      WholeLater(ms[1..], n - size, more - size);
      WholeFrames(ms, Whole(ms, n));
    }
  }

  /** The messages whose frames lie within the start `s` of the stream. */
  function Completed(ms: seq<Message>, s: seq<byte>): (r: seq<Message>)
    requires AllSendable(ms) && s <= Frames(ms)
    ensures AllSendable(r)
  {
    ms[..Whole(ms, |s|)]
  }

  function Remaining(ms: seq<Message>, s: seq<byte>): (r: seq<Message>)
    requires AllSendable(ms) && s <= Frames(ms)
    ensures AllSendable(r) && ms == Completed(ms, s) + r
  {
    ms[Whole(ms, |s|)..]
  }

  /** The bytes of `s` behind its last whole frame. */
  function Unfinished(ms: seq<Message>, s: seq<byte>): (r: seq<byte>)
    requires AllSendable(ms) && s <= Frames(ms)
    ensures s == Frames(Completed(ms, s)) + r
    ensures r <= Frames(Remaining(ms, s)) && Whole(Remaining(ms, s), |r|) == 0
  {
    hide Frames, Whole, AllSendable;
    WholeSplit(ms, s);
    s[|Frames(Completed(ms, s))|..]
  }

  // ---- One piece of a stream ----

  /** The buffer left when the frames that `piece` completes have been stepped over. */
  function Held(b: Buffer, ms: seq<Message>, piece: seq<byte>): (r: Buffer)
    requires b.Valid() && b.write < |b.mem| && AllSendable(ms) && AllWithinLimits(ms)
    requires |piece| < b.Writable() && b.Contents() + piece <= Frames(ms)
    ensures r.Valid() && r.write < |r.mem| == |b.mem|
    ensures r.Contents() == Unfinished(ms, b.Contents() + piece)
  {
    hide Frame, Frames, Arrived, DecodeRun, Whole, WithinLimits, Past, Probe, Scan;
    var s := b.Contents() + piece;
    ArrivedContents(b, piece);
    KeptIff(piece, b.Writable());
    DecodeFrames(Arrived(b, piece), Completed(ms, s), Unfinished(ms, s));
    Past(Arrived(b, piece), Completed(ms, s))
  }

  /** onRead records all of `piece`, decode comes to an end and returns the messages it completes, and the buffer keeps
      the unfinished frame. */
  ghost predicate TakenIn(b: Buffer, ms: seq<Message>, piece: seq<byte>)
    requires b.Valid() && b.write < |b.mem| && AllSendable(ms) && b.Contents() + piece <= Frames(ms)
  {
    var s, a := b.Contents() + piece, Arrived(b, piece);
    a.Contents() == s && Decodable(a) && Leaves(a, Completed(ms, s), Unfinished(ms, s))
  }

  /** That happens exactly if the piece is shorter than the free space and the scan accepts no position of what is left. */
  lemma TakenInIff(b: Buffer, ms: seq<Message>, piece: seq<byte>)
    requires b.Valid() && b.write < |b.mem| && AllSendable(ms) && AllWithinLimits(ms)
    requires b.Contents() + piece <= Frames(ms)
    ensures TakenIn(b, ms, piece) <==>
              && |piece| < b.Writable()
              && var h := Held(b, ms, piece);
              && Scan(h.mem, h.write, h.read) == NoFrame
    ensures TakenIn(b, ms, piece) ==>
              var a := Arrived(b, piece); DecodeRun(a, Iterations(a)).buffer == Held(b, ms, piece)
  {
    hide Frame, Frames, Arrived, DecodeRun, Whole, WithinLimits, Past, Probe, Scan, Completed, Unfinished;
    var s, a := b.Contents() + piece, Arrived(b, piece);
    ArrivedContents(b, piece);
    KeptIff(piece, b.Writable());
    if |piece| < b.Writable() {
      DecodeFrames(a, Completed(ms, s), Unfinished(ms, s));
      if TakenIn(b, ms, piece) {
        DecodesIn(a, |Completed(ms, s)| + 1);
      }
    } else {
      assert |a.Contents()| < |s|;
    }
  }

  /** What a stream of frames asks of the places it is cut at: each piece is shorter than the free space it finds, and the
      scan accepts no position of the unfinished frame it leaves. */
  predicate Admits(b: Buffer, ms: seq<Message>, pieces: seq<seq<byte>>)
    requires b.Valid() && b.write < |b.mem| && AllSendable(ms) && AllWithinLimits(ms)
    decreases |pieces|
  {
    hide Arrived, Past, Frames, Whole;
    pieces == [] ||
    (&& |pieces[0]| < b.Writable() && b.Contents() + pieces[0] <= Frames(ms)
     && var h := Held(b, ms, pieces[0]);
     && Scan(h.mem, h.write, h.read) == NoFrame
     && Admits(h, Remaining(ms, b.Contents() + pieces[0]), pieces[1..]))
  }

  /** Every piece is taken in, on the buffer the ones before it leave. */
  ghost predicate AllTakenIn(b: Buffer, ms: seq<Message>, pieces: seq<seq<byte>>)
    requires b.Valid() && b.write < |b.mem| && AllSendable(ms)
    decreases |pieces|
  {
    hide Arrived, Frames, Whole, DecodeRun;
    pieces == [] ||
    (&& b.Contents() + pieces[0] <= Frames(ms) && TakenIn(b, ms, pieces[0])
     && (ArrivedContents(b, pieces[0]);
         var a := Arrived(b, pieces[0]);
         DecodedValid(a, Iterations(a));
         AllTakenIn(DecodeRun(a, Iterations(a)).buffer, Remaining(ms, b.Contents() + pieces[0]), pieces[1..])))
  }

  /** The admissible cuts are exactly those at which nothing is lost and decode returns what is complete and keeps the rest. */
  lemma {:induction false} AdmitsIff(b: Buffer, ms: seq<Message>, pieces: seq<seq<byte>>)
    requires b.Valid() && b.write < |b.mem| && AllSendable(ms) && AllWithinLimits(ms)
    ensures Admits(b, ms, pieces) <==> AllTakenIn(b, ms, pieces)
    decreases |pieces|
  {
    hide Arrived, Past, Frames, Whole, DecodeRun, TakenIn, Scan, Probe, WithinLimits, Held, Remaining;
    if pieces != [] && b.Contents() + pieces[0] <= Frames(ms) {
      TakenInIff(b, ms, pieces[0]);
      if TakenIn(b, ms, pieces[0]) {
        AdmitsIff(Held(b, ms, pieces[0]), Remaining(ms, b.Contents() + pieces[0]), pieces[1..]);
      }
    }
  }

  lemma NothingYet()
    ensures AllSendable([]) && AllStamped([]) == [] && Frames([]) == []
  {
  }

  lemma PrefixUnder(a: seq<byte>, x: seq<byte>, y: seq<byte>)
    requires x <= y
    ensures a + x <= a + y
  {
  }

  /** Cutting a stream after `s` and again after `more` completes the same messages as one cut after both. */
  lemma TwoSteps(ms: seq<Message>, s: seq<byte>, more: seq<byte>)
    requires AllSendable(ms) && s <= Frames(ms)
    requires Unfinished(ms, s) + more <= Frames(Remaining(ms, s))
    ensures var rest, u := Remaining(ms, s), Unfinished(ms, s) + more;
            && s + more <= Frames(ms)
            && Completed(ms, s + more) == Completed(ms, s) + Completed(rest, u)
            && Unfinished(ms, s + more) == Unfinished(rest, u)
  {
    hide Frame, Frames, Whole, AllSendable;
    var done, rest, u := Completed(ms, s), Remaining(ms, s), Unfinished(ms, s) + more;
    var all := s + more;
    Regroup(Frames(done), Unfinished(ms, s), more);
    assert all == Frames(done) + u;
    FramesConcat(done, rest);
    PrefixUnder(Frames(done), u, Frames(rest));
    WholeLater(ms, |s|, |all|);
    var done2 := Completed(rest, u);
    assert Completed(ms, all) == done + done2;
    FramesConcat(done, done2);
    Regroup(Frames(done), Frames(done2), Unfinished(rest, u));
    SameRest(Frames(done) + Frames(done2), Unfinished(rest, u), Unfinished(ms, all));
  }

  lemma SameRest(a: seq<byte>, x: seq<byte>, y: seq<byte>)
    requires a + x == a + y
    ensures x == y
  {
    assert (a + x)[|a|..] == x && (a + y)[|a|..] == y;
  }

  lemma AllStampedConcat(ms: seq<Message>, more: seq<Message>)
    requires AllSendable(ms) && AllSendable(more)
    ensures AllSendable(ms + more) && AllStamped(ms + more) == AllStamped(ms) + AllStamped(more)
  {
  }

  /** However a stream of frames is cut into pieces, with decode run after each: the messages that come out are those
      whose frames are complete, in order, and the buffer holds exactly the unfinished frame. */
  lemma {:induction false} ChunkingInvariance(b: Buffer, ms: seq<Message>, pieces: seq<seq<byte>>)
    requires b.Valid() && b.write < |b.mem| && AllSendable(ms) && AllWithinLimits(ms)
    requires b.Contents() <= Frames(ms) && Whole(ms, b.Readable()) == 0
    requires Admits(b, ms, pieces)
    ensures var s, f := b.Contents() + Joined(pieces), Feed(b, pieces);
            && s <= Frames(ms) && f.alive
            && f.out == AllStamped(Completed(ms, s))
            && f.buffer.Valid() && f.buffer.Contents() == Unfinished(ms, s)
    decreases |pieces|
  {
    hide Frame, Frames, Arrived, DecodeRun, Stamped, Whole, AllSendable, WithinLimits, Scan, Probe, Past, Held, Feed;
    var t := b.Contents();
    if pieces == [] {
      NothingCompleted(ms, t);
      FeedNothing(b);
      assert t + Joined(pieces) == t;
    } else {
      var s := t + pieces[0];
      TakenInIff(b, ms, pieces[0]);
      FeedFirst(b, pieces);
      var a := Arrived(b, pieces[0]);
      var d := DecodeRun(a, Iterations(a));
      var rest := Remaining(ms, s);
      ChunkingInvariance(d.buffer, rest, pieces[1..]);
      assert t + Joined(pieces) == s + Joined(pieces[1..]);
      TwoSteps(ms, s, Joined(pieces[1..]));
      AllStampedConcat(Completed(ms, s), Completed(rest, Unfinished(ms, s) + Joined(pieces[1..])));
    }
  }

  lemma NothingCompleted(ms: seq<Message>, s: seq<byte>)
    requires AllSendable(ms) && s <= Frames(ms) && Whole(ms, |s|) == 0
    ensures AllStamped(Completed(ms, s)) == [] && Unfinished(ms, s) == s
  {
    assert Completed(ms, s) == [];
  }

  /** All of the stream delivered: all the messages, nothing left. */
  lemma StreamDelivered(b: Buffer, ms: seq<Message>, pieces: seq<seq<byte>>)
    requires b.Valid() && b.write < |b.mem| && b.Contents() == [] && AllSendable(ms) && AllWithinLimits(ms)
    requires Joined(pieces) == Frames(ms) && Admits(b, ms, pieces)
    ensures var f := Feed(b, pieces); f.alive && f.out == AllStamped(ms) && f.buffer.Valid() && f.buffer.Contents() == []
  {
    hide Frame, Frames, Feed, Stamped, Whole;
    WholeNone(ms);
    ChunkingInvariance(b, ms, pieces);
    assert b.Contents() + Joined(pieces) == Frames(ms);
    WholeAll(ms);
    assert Completed(ms, Frames(ms)) == ms;
  }

  lemma WholeNone(ms: seq<Message>)
    ensures Whole(ms, 0) == 0
  {
  }

  lemma {:induction false} WholeAll(ms: seq<Message>)
    requires AllSendable(ms)
    ensures Whole(ms, |Frames(ms)|) == |ms|
  {
    if ms != [] {
      WholeAll(ms[1..]);
    }
  }

  // ---- Frame by frame ----

  /** Each frame in a piece of its own. */
  function FramePieces(ms: seq<Message>): seq<seq<byte>>
    requires AllSendable(ms)
  {
    if ms == [] then [] else [Frame(ms[0])] + FramePieces(ms[1..])
  }

  /** Where the read index of a buffer of `cap` bytes comes to rest after `size` more. */
  function Landing(at: nat, cap: nat, size: nat): nat { if at + size < cap / 3 then at + size else 0 }

  /** Every frame is shorter than the space behind the read index it finds. */
  predicate RoomForEach(at: nat, cap: nat, ms: seq<Message>)
    decreases |ms|
  {
    ms == [] ||
    (at + FrameLength(ms[0]) < cap && RoomForEach(Landing(at, cap, FrameLength(ms[0])), cap, ms[1..]))
  }

  /** A stream that arrives frame by frame on a buffer with nothing to read is cut admissibly, whatever is in the frames,
      exactly if each frame is shorter than the free space. */
  lemma {:induction false} FrameByFrameIff(b: Buffer, ms: seq<Message>)
    requires b.Valid() && b.write < |b.mem| && b.Contents() == [] && AllSendable(ms) && AllWithinLimits(ms)
    ensures Joined(FramePieces(ms)) == Frames(ms)
    ensures Admits(b, ms, FramePieces(ms)) <==> RoomForEach(b.read, |b.mem|, ms)
    decreases |ms|
  {
    hide Frame, Sendable, FrameLength, Arrived, Past, Scan, Probe, WithinLimits, Held, Landing;
    if ms != [] {
      var f, pieces := Frame(ms[0]), FramePieces(ms);
      assert pieces[0] == f && pieces[1..] == FramePieces(ms[1..]);
      assert b.Contents() + f == f && f <= Frames(ms);
      FirstFrameCompletes(ms);
      if |f| < b.Writable() {
        OneFrameHeld(b, ms);
        var h := Held(b, ms, f);
        FrameByFrameIff(h, ms[1..]);
      } else {
        JoinedFrames(ms);
      }
    } else {
      assert Joined(FramePieces(ms)) == Frames(ms);
    }
  }

  lemma {:induction false} JoinedFrames(ms: seq<Message>)
    requires AllSendable(ms)
    ensures Joined(FramePieces(ms)) == Frames(ms)
  {
    hide Frame;
    if ms != [] {
      JoinedFrames(ms[1..]);
      assert FramePieces(ms)[1..] == FramePieces(ms[1..]);
    }
  }

  lemma OneFrameHeld(b: Buffer, ms: seq<Message>)
    requires b.Valid() && b.write < |b.mem| && b.Contents() == [] && AllSendable(ms) && AllWithinLimits(ms)
    requires ms != [] && FrameLength(ms[0]) < b.Writable() && b.Contents() + Frame(ms[0]) <= Frames(ms)
    ensures var h := Held(b, ms, Frame(ms[0]));
            && h.read == Landing(b.read, |b.mem|, FrameLength(ms[0])) && h.Contents() == []
            && Scan(h.mem, h.write, h.read) == NoFrame
  {
    hide Frame, Frames, Sendable, FrameLength, Probe, WithinLimits;
    var f := Frame(ms[0]);
    assert b.Contents() + f == f;
    FirstFrameCompletes(ms);
    var h, a := Held(b, ms, f), Arrived(b, f);
    ArrivedAt(b, f);
    assert Completed(ms, f) == [ms[0]];
    PastOne(a, ms[0]);
    assert h == Past(a, [ms[0]]);
    assert h.Contents() == [];
  }

  lemma ArrivedAt(b: Buffer, piece: seq<byte>)
    requires b.Valid() && b.write < |b.mem| && |piece| < b.Writable()
    ensures var a := Arrived(b, piece);
            && a.read == b.read && a.write == b.write + |piece| && a.Valid() && |a.mem| == |b.mem|
            && (forall i :: 0 <= i < b.write ==> a.mem[i] == b.mem[i])
            && (forall i :: a.write <= i < |a.mem| ==> a.mem[i] == b.mem[i] || a.mem[i] == 0)
  {
    var s := Stored(b, piece);
    assert |s.mem| == |b.mem|;
    if piece != [] {
      var t := s.(write := b.write + |piece|);
      assert Arrived(b, piece) == Adjusted(t);
      if t.read >= |t.mem| / 3 {
        var c := t.Contents() + Zeros(|t.mem| - t.Readable());
        assert t.read == 0 && Adjusted(t).mem == c;
        assert forall i | 0 <= i < t.write :: c[i] == t.mem[i];
      } else {
        assert Adjusted(t) == t;
      }
    }
  }

  lemma PastOne(a: Buffer, m: Message)
    requires a.Valid() && a.write < |a.mem| && Sendable(m) && a.Readable() == FrameLength(m)
    ensures |Frames([m])| == FrameLength(m)
    ensures Past(a, [m]).read == Landing(a.read, |a.mem|, FrameLength(m))
  {
    hide Frame, FrameLength;
    assert [m][1..] == [];
    assert Frames([m]) == Frame(m) + [];
    var r := ReadMoved(a, FrameLength(m));
    assert r.read == Landing(a.read, |a.mem|, FrameLength(m));
    assert Past(r, []) == r;
    assert Past(a, [m]) == r;
  }

  /** Frames that leave a third of the capacity free always find room. */
  lemma {:induction false} ShortFramesFit(at: nat, cap: nat, ms: seq<Message>)
    requires at == 0 || at < cap / 3
    requires forall m <- ms :: FrameLength(m) + cap / 3 <= cap
    ensures RoomForEach(at, cap, ms)
    decreases |ms|
  {
    if ms != [] {
      assert ms[0] in ms;
      ShortFramesFit(Landing(at, cap, FrameLength(ms[0])), cap, ms[1..]);
    }
  }

  /** One frame on a buffer with nothing to read and the read index at the front comes back as its message exactly if it is
      within the parser's limits and shorter than the capacity. */
  lemma OneFrameIff(b: Buffer, m: Message)
    requires b.Valid() && b.write < |b.mem| && b.read == 0 && b.Contents() == [] && Sendable(m)
    ensures var f := Feed(b, [Frame(m)]);
            f.alive && f.out == [Stamped(m)] <==> WithinLimits(m) && FrameLength(m) < |b.mem|
  {
    hide Frame, FrameLength, Arrived, DecodeRun, WithinLimits, Stamped, Probe, Scan;
    var f := Frame(m);
    FeedOnce(b, f);
    var a := Arrived(b, f);
    if FrameLength(m) < |b.mem| {
      ArrivedContents(b, f);
      ArrivedAt(b, f);
      KeptIff(f, b.Writable());
      assert a.Contents() == [] + f == Frames([m]) by {
        assert Frames([m]) == f + [];
      }
      DecodeFramesIff(a, [m]);
      assert AllStamped([m]) == [Stamped(m)];
      assert AllWithinLimits([m]) <==> WithinLimits(m) by {
        assert m in [m];
      }
    } else {
      InputNeverGrows(b, [f]);
      if Feed(b, [f]).out == [Stamped(m)] {
        assert Stamped(m) in Feed(b, [f]).out;
        StampedLength(m);
      }
    }
  }

  lemma StampedLength(m: Message)
    requires Sendable(m)
    ensures Stamped(m).pkLen == FrameLength(m)
  {
  }

  lemma FeedOnce(b: Buffer, piece: seq<byte>)
    requires b.Ordered() && b.write < |b.mem|
    ensures var a, f := Arrived(b, piece), Feed(b, [piece]);
            && (f.alive <==> Decodable(a))
            && (f.alive ==> f.out == DecodeRun(a, Iterations(a)).out)
  {
    hide Arrived, DecodeRun;
    var a := Arrived(b, piece);
    if Decodable(a) {
      DecodeRunOrdered(a, Iterations(a));
      var d := DecodeRun(a, Iterations(a));
      assert [piece][1..] == [];
      assert Feed(d.buffer, []) == Fed(d.buffer, [], true);
      assert d.out + [] == d.out;
    }
  }

  lemma FirstFrameCompletes(ms: seq<Message>)
    requires AllSendable(ms) && ms != [] && Frame(ms[0]) <= Frames(ms)
    ensures Remaining(ms, Frame(ms[0])) == ms[1..] && Unfinished(ms, Frame(ms[0])) == []
  {
    hide Frame, Sendable;
    var f := Frame(ms[0]);
    WholeStep(ms, |f|);
    WholeNone(ms[1..]);
    assert Completed(ms, f) == [ms[0]];
    assert Frames([ms[0]]) == f + [] == f;
    SameRest(f, Unfinished(ms, f), []);
  }

  // ---- Where a stream may be cut ----

  /** A condition on the bytes alone that makes every buffer of `cap` bytes which holds `tail` admit the pieces: what is held
      at any time leaves a third of the capacity free, and what is left after each piece is quiet. */
  predicate Cuts(cap: nat, ms: seq<Message>, tail: seq<byte>, pieces: seq<seq<byte>>)
    requires AllSendable(ms)
    decreases |pieces|
  {
    pieces == [] ||
    var s := tail + pieces[0];
    && s <= Frames(ms) && |s| + cap / 3 <= cap && |s| < cap
    && Quiet(Unfinished(ms, s), INT_MAX - cap)
    && Cuts(cap, Remaining(ms, s), Unfinished(ms, s), pieces[1..])
  }

  lemma {:induction false} CutsAreAdmitted(b: Buffer, ms: seq<Message>, pieces: seq<seq<byte>>)
    requires b.Valid() && b.write < |b.mem| && AllSendable(ms) && AllWithinLimits(ms)
    requires Cuts(|b.mem|, ms, b.Contents(), pieces)
    ensures Admits(b, ms, pieces)
    decreases |pieces|
  {
    hide Frames, Arrived, Quiet, Whole, WithinLimits, Past, Scan, Probe, Held;
    if pieces != [] {
      var s := b.Contents() + pieces[0];
      assert |pieces[0]| < b.Writable();
      var h := Held(b, ms, pieces[0]);
      QuietScan(h);
      CutsAreAdmitted(h, Remaining(ms, s), pieces[1..]);
    }
  }

  lemma HeaderOfPrefix(f: seq<byte>, k: nat)
    requires 5 <= k <= |f|
    ensures f[..k][1..5] == f[1..5]
  {
  }

  lemma LengthBytes(f: seq<byte>, k: nat)
    requires 1 <= k <= 4 && 5 <= |f|
    ensures f[..k][1..k] == f[1..5][..k - 1]
  {
    assert f[..k][1..k] == f[1..k];
    assert f[1..5][..k - 1] == f[1..k];
  }

  /** No start byte behind the first place. */
  predicate OneStart(s: seq<byte>) { forall i | 1 <= i < |s| :: s[i] != PB_START }

  /** The first k bytes of a frame are quiet if they hold no second start byte and do not end in its length. */
  lemma PrefixIsQuiet(m: Message, k: nat, room: int)
    requires Sendable(m) && k < FrameLength(m) <= room && (k <= 1 || 5 <= k)
    requires OneStart(Frame(m)[..k])
    ensures Quiet(Frame(m)[..k], room)
  {
    hide Frame, FromNet;
    var f, tail := Frame(m), Frame(m)[..k];
    FrameStart(f, 0, m);
    forall i | 0 <= i < k - 1 && tail[i] == PB_START
      ensures i == 0 && 5 <= k && FromNet(tail[1..5]) == FrameLength(m)
    {
      assert tail[i] == f[i];
      HeaderOfPrefix(f, k);
    }
  }

  // ---- Cuts inside a frame's length ----

  /** A buffer as it is while every piece has found room: zeros behind the write index, and an end byte before the read index
      unless that is 0. */
  ghost predicate Clean(b: Buffer) {
    && b.Valid() && b.write < |b.mem|
    && (forall i :: b.write <= i < |b.mem| ==> b.mem[i] == 0)
    && (b.read == 0 || b.mem[b.read - 1] == PB_END)
  }

  /** The weight of the lowest length byte among the first k bytes of a frame. */
  function Unit(k: nat): nat { if k == 2 then 0x100_0000 else if k == 3 then 0x1_0000 else 0x100 }

  /** The length bytes that have come are all zero. */
  predicate Harmful(m: Message, k: nat) { 2 <= k <= 4 && FrameLength(m) < Unit(k) }

  lemma CutLength(l: int32, k: nat, h: seq<byte>)
    requires 0 <= l && 2 <= k <= 4 && h == ToNet(l)[..k - 1] + Zeros(5 - k)
    ensures |h| == 4 && FromNet(h) == l / Unit(k) * Unit(k)
  {
    var u1 := l as int / 0x100;
    var u2 := u1 / 0x100;
    assert ToNet(l) == [u2 / 0x100, u2 % 0x100, u1 % 0x100, l as int % 0x100];
    assert u2 == l as int / 0x1_0000 && u2 / 0x100 == l as int / 0x100_0000;
    if k == 2 {
      assert h == [u2 / 0x100, 0, 0, 0];
    } else if k == 3 {
      assert h == [u2 / 0x100, u2 % 0x100, 0, 0];
    } else {
      assert h == [u2 / 0x100, u2 % 0x100, u1 % 0x100, 0];
    }
  }

  /** What decode reads as the length of a frame of which k bytes are there. */
  lemma CutHeader(b: Buffer, m: Message, k: nat)
    requires Clean(b) && Sendable(m) && k < FrameLength(m) && b.Contents() == Frame(m)[..k] && 2 <= k
    requires b.read + 5 <= |b.mem|
    ensures b.mem[b.read] == PB_START
    ensures FromNet(b.mem[b.read + 1..b.read + 5])
         == if 5 <= k then FrameLength(m) else FrameLength(m) / Unit(k) * Unit(k)
  {
    hide Frame, FromNet, ToNet, Unit;
    var f, at := Frame(m), b.read;
    FrameHead(m);
    assert b.mem[at] == b.Contents()[0] == f[0];
    if 5 <= k {
      ContentsSlice(b, 1, 5);
      HeaderOfPrefix(f, k);
      NetRoundTrip(FrameLength(m));
    } else {
      LongEnough(m);
      ContentsSlice(b, 1, k);
      LengthBytes(f, k);
      assert b.mem[at + k..at + 5] == Zeros(5 - k);
      assert b.mem[at + 1..at + 5] == b.mem[at + 1..at + k] + b.mem[at + k..at + 5];
      CutLength(FrameLength(m), k, b.mem[at + 1..at + 5]);
    }
  }

  /** A buffer that holds the first k bytes of a frame and no second start byte: decode lets them be, unless all the length
      bytes among them are zero; then it never ends, or reads before its vector. */
  lemma CutOfFrame(b: Buffer, m: Message, k: nat)
    requires Clean(b) && 6 <= |b.mem| && Sendable(m) && k < FrameLength(m) && FrameLength(m) + |b.mem| <= INT_MAX
    requires b.Contents() == Frame(m)[..k] && OneStart(b.Contents())
    ensures Harmful(m, k) ==> !Decodable(b)
    ensures !Harmful(m, k) ==> Scan(b.mem, b.write, b.read) == NoFrame
  {
    hide Frame, FromNet, Decodable;
    assert k == b.Readable();
    if Harmful(m, k) {
      ZeroLengthHangs(b, m, k);
    } else {
      forall i | b.read <= i < b.write
        ensures Probe(b.mem, b.write, i) == Skip
      {
        assert b.mem[i] == b.Contents()[i - b.read];
        if i == b.read && 2 <= k {
          CutHeader(b, m, k);
          LongLength(FrameLength(m), k);
        }
      }
    }
  }

  lemma LongLength(l: nat, k: nat)
    requires 2 <= k <= 4 ==> Unit(k) <= l
    ensures 2 <= k <= 4 ==> 0x100 <= l / Unit(k) * Unit(k) <= l
  {
  }

  lemma ZeroLengthHangs(b: Buffer, m: Message, k: nat)
    requires Clean(b) && 6 <= |b.mem| && Sendable(m) && k < FrameLength(m) && Harmful(m, k)
    requires b.Contents() == Frame(m)[..k]
    ensures !Decodable(b)
  {
    hide Frame, FromNet;
    CutHeader(b, m, k);
    assert FrameLength(m) / Unit(k) == 0;
    var at := b.read;
    if at == 0 {
      assert Probe(b.mem, b.write, at) == Bad;
      assert forall n: nat :: DecodeRun(b, n).outcome != Done;
    } else {
      forall n: nat
        ensures DecodeRun(b, n).outcome == Running
      {
        EmptyFrameForever(b, n);
      }
    }
  }

  /** A start byte, a length of zero, and an end byte just before: decode never ends. */
  lemma EmptyFrameForever(b: Buffer, n: nat)
    requires b.Valid() && 0 < b.read && b.mem[b.read - 1] == PB_END
    requires 2 <= b.Readable() && b.read + 5 <= |b.mem|
    requires b.mem[b.read] == PB_START && FromNet(b.mem[b.read + 1..b.read + 5]) == 0
    ensures DecodeRun(b, n).outcome == Running
  {
    hide FromNet;
    var at := b.read;
    assert Probe(b.mem, b.write, at) == Accept(at - 1, 0);
    assert Scan(b.mem, b.write, at) == Found(at, at - 1, 0);
    assert Stepped(b) == b;
    assert Parse(b.mem, at, at - 1, 0) == Malformed;
    StuckForever(b, n);
  }

  // ---- Clean buffers stay clean ----

  lemma ArrivedClean(b: Buffer, piece: seq<byte>)
    requires Clean(b) && |piece| < b.Writable()
    ensures Clean(Arrived(b, piece))
  {
    ArrivedAt(b, piece);
    hide Arrived;
  }

  lemma MovedClean(b: Buffer, m: Message, rest: seq<byte>)
    requires Clean(b) && Sendable(m) && b.Contents() == Frame(m) + rest
    ensures Clean(ReadMoved(b, FrameLength(m))) && ReadMoved(b, FrameLength(m)).Contents() == rest
  {
    hide Frame, FrameLength;
    ReadMovedContents(b, FrameLength(m));
    PrefixAt(b, Frame(m), rest);
    FrameStart(b.mem, b.read, m);
    assert b.Contents()[FrameLength(m)..] == rest;
  }

  lemma {:induction false} PastClean(b: Buffer, ms: seq<Message>, tail: seq<byte>)
    requires Clean(b) && AllSendable(ms) && b.Contents() == Frames(ms) + tail
    ensures Clean(Past(b, ms)) && Past(b, ms).Contents() == tail
    decreases |ms|
  {
    assert b.Valid();
    hide Frame, ReadMoved, Clean, FrameLength;
    if ms == [] {
      assert Frames(ms) + tail == tail;
    } else {
      var rest := Frames(ms[1..]) + tail;
      assert b.Contents() == Frame(ms[0]) + rest;
      MovedClean(b, ms[0], rest);
      MovesWithin(b, FrameLength(ms[0]));
      PastClean(ReadMoved(b, FrameLength(ms[0])), ms[1..], tail);
    }
  }

  lemma HeldClean(b: Buffer, ms: seq<Message>, piece: seq<byte>)
    requires Clean(b) && AllSendable(ms) && AllWithinLimits(ms)
    requires |piece| < b.Writable() && b.Contents() + piece <= Frames(ms)
    ensures Clean(Held(b, ms, piece))
  {
    assert b.Valid() && b.write < |b.mem|;
    hide Frames, Arrived, Past, Whole, WithinLimits, Clean;
    ArrivedClean(b, piece);
    ArrivedContents(b, piece);
    KeptIff(piece, b.Writable());
    var s := b.Contents() + piece;
    PastClean(Arrived(b, piece), Completed(ms, s), Unfinished(ms, s));
  }

  // ---- When a stream survives its cuts ----

  /** Each piece is shorter than the free space it finds, and the unfinished frame it leaves has no second start byte. */
  predicate Fits(b: Buffer, ms: seq<Message>, pieces: seq<seq<byte>>)
    requires b.Valid() && b.write < |b.mem| && AllSendable(ms) && AllWithinLimits(ms)
    decreases |pieces|
  {
    hide Arrived, Past, Frames, Whole;
    pieces == [] ||
    (&& |pieces[0]| < b.Writable() && b.Contents() + pieces[0] <= Frames(ms)
     && OneStart(Unfinished(ms, b.Contents() + pieces[0]))
     && Fits(Held(b, ms, pieces[0]), Remaining(ms, b.Contents() + pieces[0]), pieces[1..]))
  }

  /** A cut `k` bytes into the first frame of `ms`, if there is one. */
  predicate HarmlessCut(ms: seq<Message>, k: nat) { ms == [] || !Harmful(ms[0], k) }

  predicate HarmlessCuts(ms: seq<Message>, tail: seq<byte>, pieces: seq<seq<byte>>)
    requires AllSendable(ms)
    decreases |pieces|
  {
    pieces == [] ||
    var s := tail + pieces[0];
    && s <= Frames(ms)
    && HarmlessCut(Remaining(ms, s), |Unfinished(ms, s)|)
    && HarmlessCuts(Remaining(ms, s), Unfinished(ms, s), pieces[1..])
  }

  /** The lengths are small enough to be added to an index. */
  predicate Addable(ms: seq<Message>, cap: nat) { forall i | 0 <= i < |ms| :: FrameLength(ms[i]) + cap <= INT_MAX }

  lemma PieceSurvivesIff(b: Buffer, ms: seq<Message>, piece: seq<byte>)
    requires Clean(b) && 6 <= |b.mem| && AllSendable(ms) && AllWithinLimits(ms) && Addable(ms, |b.mem|)
    requires |piece| < b.Writable() && b.Contents() + piece <= Frames(ms)
    requires OneStart(Unfinished(ms, b.Contents() + piece))
    ensures var s, h := b.Contents() + piece, Held(b, ms, piece);
            && (Decodable(Arrived(b, piece)) <==> HarmlessCut(Remaining(ms, s), |Unfinished(ms, s)|))
            && (Decodable(Arrived(b, piece)) <==> Scan(h.mem, h.write, h.read) == NoFrame)
  {
    assert b.Valid() && b.write < |b.mem|;
    hide Frame, Frames, Arrived, Whole, WithinLimits, Clean, DecodeRun, OneStart, Harmful, FrameLength, Probe;
    var s, a, h := b.Contents() + piece, Arrived(b, piece), Held(b, ms, piece);
    var done, rest, u := Completed(ms, s), Remaining(ms, s), Unfinished(ms, s);
    ArrivedContents(b, piece);
    KeptIff(piece, b.Writable());
    HeldClean(b, ms, piece);
    TakenInIff(b, ms, piece);
    if rest == [] {
      assert Frames(rest) == [] by { NothingYet(); }
      assert h.Contents() == [];
      EmptyScan(h);
    } else {
      FirstOfRest(ms, s);
      CutOfFrame(h, rest[0], |u|);
    }
    if Decodable(a) {
      DecodableBehind(a, done, u);
    }
  }

  lemma EmptyScan(b: Buffer)
    requires b.Ordered() && b.Contents() == []
    ensures Scan(b.mem, b.write, b.read) == NoFrame
  {
  }

  lemma FirstOfRest(ms: seq<Message>, s: seq<byte>)
    requires AllSendable(ms) && s <= Frames(ms) && Remaining(ms, s) != []
    ensures var m, u := Remaining(ms, s)[0], Unfinished(ms, s);
            && Sendable(m) && |u| < FrameLength(m) && u == Frame(m)[..|u|]
            && exists i :: 0 <= i < |ms| && ms[i] == m
  {
    hide Frame, Frames, FrameLength, Sendable;
    var rest, u := Remaining(ms, s), Unfinished(ms, s);
    FramesStep(rest);
    assert ms[|ms| - |rest|] == rest[0];
    assert u == Frames(rest)[..|u|] == (Frame(rest[0]) + Frames(rest[1..]))[..|u|];
  }

  /** decode comes to an end only if it does on what lies behind the whole frames. */
  lemma DecodableBehind(b: Buffer, ms: seq<Message>, tail: seq<byte>)
    requires b.Valid() && b.write < |b.mem| && AllSendable(ms) && AllWithinLimits(ms) && b.Contents() == Frames(ms) + tail
    requires Decodable(b)
    ensures Decodable(Past(b, ms))
  {
    hide DecodeRun, Frames, WithinLimits, Past;
    var n := Iterations(b);
    MoreIterationsSame(b, n, |ms| + n);
    DecodePast(b, ms, tail, n);
  }

  /** A stream in pieces that find room, with no second start byte in an unfinished frame, is received without decode
      hanging or faulting exactly if no cut leaves only zero bytes of a length: a cut two to four bytes into a frame is
      harmless iff the frame is at least 256 to the power of the length bytes missing. */
  lemma {:induction false} SurvivesIff(b: Buffer, ms: seq<Message>, pieces: seq<seq<byte>>)
    requires Clean(b) && 6 <= |b.mem| && AllSendable(ms) && AllWithinLimits(ms) && Addable(ms, |b.mem|)
    requires Fits(b, ms, pieces)
    ensures Feed(b, pieces).alive <==> HarmlessCuts(ms, b.Contents(), pieces)
    ensures Feed(b, pieces).alive <==> Admits(b, ms, pieces)
    decreases |pieces|
  {
    hide Frames, Arrived, Whole, WithinLimits, DecodeRun, OneStart, HarmlessCut, FrameLength, Held, Scan, Probe;
    if pieces != [] {
      var s, a, h := b.Contents() + pieces[0], Arrived(b, pieces[0]), Held(b, ms, pieces[0]);
      PieceSurvivesIff(b, ms, pieces[0]);
      if Decodable(a) {
        TakenInIff(b, ms, pieces[0]);
        HeldClean(b, ms, pieces[0]);
        StillAddable(ms, s, |b.mem|);
        SurvivesIff(h, Remaining(ms, s), pieces[1..]);
      }
    }
  }

  lemma StillAddable(ms: seq<Message>, s: seq<byte>, cap: nat)
    requires AllSendable(ms) && s <= Frames(ms) && Addable(ms, cap)
    ensures Addable(Remaining(ms, s), cap)
  {
    hide Frames, FrameLength, Whole;
    var rest := Remaining(ms, s);
    forall i | 0 <= i < |rest|
      ensures FrameLength(rest[i]) + cap <= INT_MAX
    {
      assert rest[i] == ms[|ms| - |rest| + i];
    }
  }

  /** So it is for one frame and the first k bytes of another on a connection just opened. */
  lemma SecondFrameCutIff(cap: nat, m1: Message, m2: Message, k: nat)
    requires cap <= INT_MAX && Sendable(m1) && WithinLimits(m1) && FrameLength(m1) < cap
    requires Sendable(m2) && WithinLimits(m2) && k < FrameLength(m2) && FrameLength(m1) + cap <= INT_MAX
    requires FrameLength(m2) + cap <= INT_MAX
    requires OneStart(Frame(m2)[..k]) && k < cap - Landing(0, cap, FrameLength(m1))
    ensures Feed(Fresh(cap), [Frame(m1), Frame(m2)[..k]]).alive <==> !Harmful(m2, k)
  {
    NothingCut(m2);
    hide Frame, Frames, FrameLength, WithinLimits, Feed, Arrived, Harmful, Landing, Held, OneStart, Fits, HarmlessCuts, Whole;
    var b, f, t, ms := Fresh(cap), Frame(m1), Frame(m2)[..k], [m1, m2];
    LongEnough(m1);
    TwoFrames(m1, m2);
    assert b.Contents() + f == f;
    FirstFrameCompletes(ms);
    OneFrameHeld(b, ms);
    var h := Held(b, ms, f);
    assert Remaining(ms, f) == ms[1..] == [m2];
    assert h.Contents() + t == t && [] + t == t;
    CutSecond(m2, k);
    assert [f, t][1..] == [t];
    LastFits(h, [m2], t);
    FitsStep(b, ms, [f, t]);
    SurvivesIff(b, ms, [f, t]);
    LastHarmless([m2], t);
    HarmlessStep(ms, [], [f, t]);
  }

  /** And with nothing in front. */
  lemma FirstFrameCutIff(cap: nat, m: Message, k: nat)
    requires 6 <= cap <= INT_MAX && Sendable(m) && WithinLimits(m) && k < FrameLength(m) && k < cap
    requires FrameLength(m) + cap <= INT_MAX && OneStart(Frame(m)[..k])
    ensures Feed(Fresh(cap), [Frame(m)[..k]]).alive <==> !Harmful(m, k)
  {
    hide Frame, Frames, FrameLength, WithinLimits, Feed, Arrived, Harmful, Held, OneStart, Fits, HarmlessCuts, Whole;
    var b, t := Fresh(cap), Frame(m)[..k];
    CutSecond(m, k);
    assert b.Contents() + t == t;
    LastFits(b, [m], t);
    SurvivesIff(b, [m], [t]);
    LastHarmless([m], t);
  }

  lemma LastFits(b: Buffer, ms: seq<Message>, piece: seq<byte>)
    requires b.Valid() && b.write < |b.mem| && AllSendable(ms) && AllWithinLimits(ms)
    requires |piece| < b.Writable() && b.Contents() + piece <= Frames(ms)
    requires OneStart(Unfinished(ms, b.Contents() + piece))
    ensures Fits(b, ms, [piece])
  {
    hide Held, Frames, OneStart;
  }

  lemma FitsStep(b: Buffer, ms: seq<Message>, pieces: seq<seq<byte>>)
    requires b.Valid() && b.write < |b.mem| && AllSendable(ms) && AllWithinLimits(ms) && pieces != []
    requires |pieces[0]| < b.Writable() && b.Contents() + pieces[0] <= Frames(ms)
    requires OneStart(Unfinished(ms, b.Contents() + pieces[0]))
    requires Fits(Held(b, ms, pieces[0]), Remaining(ms, b.Contents() + pieces[0]), pieces[1..])
    ensures Fits(b, ms, pieces)
  {
    hide Held, Frames, OneStart;
  }

  lemma LastHarmless(ms: seq<Message>, piece: seq<byte>)
    requires AllSendable(ms) && piece <= Frames(ms)
    ensures HarmlessCuts(ms, [], [piece]) <==> HarmlessCut(Remaining(ms, piece), |Unfinished(ms, piece)|)
  {
    hide Frames, HarmlessCut;
    assert [] + piece == piece;
  }

  lemma HarmlessStep(ms: seq<Message>, tail: seq<byte>, pieces: seq<seq<byte>>)
    requires AllSendable(ms) && pieces != [] && tail + pieces[0] <= Frames(ms)
    ensures var s := tail + pieces[0];
            HarmlessCuts(ms, tail, pieces) <==>
              && HarmlessCut(Remaining(ms, s), |Unfinished(ms, s)|)
              && HarmlessCuts(Remaining(ms, s), Unfinished(ms, s), pieces[1..])
  {
    hide Frames, HarmlessCut;
  }

  lemma NothingCut(m: Message)
    ensures !Harmful(m, 0) && OneStart([])
  {
  }

  lemma TwoFrames(m1: Message, m2: Message)
    requires Sendable(m1) && Sendable(m2)
    ensures Frames([m1, m2]) == Frame(m1) + Frames([m2]) && Frames([m2]) == Frame(m2)
  {
    hide Frame;
    assert [m1, m2][1..] == [m2];
    assert Frame(m2) + [] == Frame(m2);
  }

  lemma CutSecond(m: Message, k: nat)
    requires Sendable(m) && k < FrameLength(m)
    ensures Frames([m]) == Frame(m) && Frame(m)[..k] <= Frames([m])
    ensures Remaining([m], Frame(m)[..k]) == [m] && Unfinished([m], Frame(m)[..k]) == Frame(m)[..k]
  {
    hide Frame, FrameLength;
    assert Frame(m) + [] == Frame(m);
    var t := Frame(m)[..k];
    WholeZero([m], k);
    NothingYet();
    assert Completed([m], t) == [];
    assert Frames(Completed([m], t)) + Unfinished([m], t) == Unfinished([m], t);
  }

  // ---- What the input buffer can never hold ----

  lemma {:induction false} DecodedLengths(b: Buffer, n: nat)
    requires b.Ordered()
    ensures forall m <- DecodeRun(b, n).out :: m.pkLen <= b.write
    decreases n
  {
    hide Scan, Probe, Stepped;
    if n != 0 {
      var s := Scan(b.mem, b.write, b.read);
      if s.Found? {
        AcceptedLength(b);
        DecodedLengths(Stepped(b), n - 1);
      }
    }
  }

  lemma AcceptedLength(b: Buffer)
    requires b.Ordered() && Scan(b.mem, b.write, b.read).Found?
    ensures Scan(b.mem, b.write, b.read).pkLen <= b.write
  {
  }

  /** Whatever arrives, in whatever pieces: the input buffer never grows, so no message whose frame is as long as its
      first capacity is ever received. */
  lemma {:induction false} InputNeverGrows(b: Buffer, pieces: seq<seq<byte>>)
    requires b.Ordered() && b.write < |b.mem|
    ensures |Feed(b, pieces).buffer.mem| == |b.mem|
    ensures forall m <- Feed(b, pieces).out :: m.pkLen < |b.mem|
    decreases |pieces|
  {
    hide Arrived, DecodeRun;
    if pieces != [] {
      var a := Arrived(b, pieces[0]);
      if Decodable(a) {
        var d := DecodeRun(a, Iterations(a));
        DecodedLengths(a, Iterations(a));
        DecodeRunOrdered(a, Iterations(a));
        InputNeverGrows(d.buffer, pieces[1..]);
      }
    }
  }
}
