/** How a client connection matches the responses it decodes to the read callbacks waiting for them. */
module Matching {
  import opened Bytes
  import opened TinyPB

  type Callback = nat

  /** A read callback run with the response it was given. */
  datatype Firing = Firing(callback: Callback, message: Message)

  /** The callbacks that run for the messages `ms`, in order: each waiting one once, with the first message for it. */
  function Fired(dones: map<seq<byte>, Callback>, ms: seq<Message>): seq<Firing> {
    if ms == [] then []
    else if ms[0].msgId in dones then [Firing(dones[ms[0].msgId], ms[0])] + Fired(dones - {ms[0].msgId}, ms[1..])
    else Fired(dones, ms[1..])
  }

  function Ids(ms: seq<Message>): set<seq<byte>> { set m | m in ms :: m.msgId }

  predicate DistinctIds(ms: seq<Message>) {
    forall i, j | 0 <= i < j < |ms| :: ms[i].msgId != ms[j].msgId
  }

  lemma {:induction false} FiredConcat(dones: map<seq<byte>, Callback>, a: seq<Message>, b: seq<Message>)
    ensures Fired(dones, a + b) == Fired(dones, a) + Fired(dones - Ids(a), b)
    decreases |a|
  {
    if a == [] {
      assert a + b == b && dones - Ids(a) == dones;
    } else {
      assert (a + b)[1..] == a[1..] + b;
      var id := a[0].msgId;
      assert Ids(a) == {id} + Ids(a[1..]) by {
        assert a == [a[0]] + a[1..];
      }
      if id in dones {
        FiredConcat(dones - {id}, a[1..], b);
        assert dones - {id} - Ids(a[1..]) == dones - Ids(a);
      } else {
        FiredConcat(dones, a[1..], b);
        assert dones - Ids(a[1..]) == dones - Ids(a);
      }
    }
  }

  function Firings(dones: map<seq<byte>, Callback>, ms: seq<Message>): (r: seq<Firing>)
    requires Ids(ms) <= dones.Keys
    ensures |r| == |ms| && forall i | 0 <= i < |ms| :: r[i] == Firing(dones[ms[i].msgId], ms[i])
  {
    seq(|ms|, i requires 0 <= i < |ms| => assert ms[i].msgId in Ids(ms); Firing(dones[ms[i].msgId], ms[i]))
  }

  /** Messages with distinct ids that are all waited for run one callback each, in their order. */
  lemma {:induction false} AllFired(dones: map<seq<byte>, Callback>, ms: seq<Message>)
    requires DistinctIds(ms) && Ids(ms) <= dones.Keys
    ensures Fired(dones, ms) == Firings(dones, ms)
    decreases |ms|
  {
    if ms != [] {
      var id, rest := ms[0].msgId, ms[1..];
      assert id in Ids(ms) && Ids(rest) <= Ids(ms);
      forall x | x in Ids(rest)
        ensures x in (dones - {id}).Keys
      {
        var m :| m in rest && m.msgId == x;
      }
      AllFired(dones - {id}, rest);
      assert Firings(dones, ms) == [Firing(dones[id], ms[0])] + Firings(dones - {id}, rest);
    }
  }

  // ---- Messages that come more than once ----

  /** The messages whose ids are not in `seen` and do not occur earlier among them. */
  function New(ms: seq<Message>, seen: set<seq<byte>>): seq<Message>
    decreases |ms|
  {
    if ms == [] then []
    else if ms[0].msgId in seen then New(ms[1..], seen)
    else [ms[0]] + New(ms[1..], seen + {ms[0].msgId})
  }

  /** The first message with each id. */
  function Firsts(ms: seq<Message>): seq<Message> { New(ms, {}) }

  lemma IdsFirst(ms: seq<Message>)
    requires ms != []
    ensures Ids(ms) == {ms[0].msgId} + Ids(ms[1..])
  {
    assert ms == [ms[0]] + ms[1..];
  }

  lemma IdsConcat(a: seq<Message>, b: seq<Message>)
    ensures Ids(a + b) == Ids(a) + Ids(b)
  {
  }

  lemma {:induction false} NewIds(ms: seq<Message>, seen: set<seq<byte>>)
    ensures DistinctIds(New(ms, seen)) && Ids(New(ms, seen)) == Ids(ms) - seen
    decreases |ms|
  {
    if ms != [] {
      IdsFirst(ms);
      var id := ms[0].msgId;
      if id in seen {
        NewIds(ms[1..], seen);
      } else {
        var rest := New(ms[1..], seen + {id});
        NewIds(ms[1..], seen + {id});
        IdsFirst([ms[0]] + rest);
        assert ([ms[0]] + rest)[1..] == rest;
        OtherIds(rest, id);
      }
    }
  }

  lemma OtherIds(ms: seq<Message>, id: seq<byte>)
    requires id !in Ids(ms)
    ensures forall i | 0 <= i < |ms| :: ms[i].msgId != id
  {
    forall i | 0 <= i < |ms|
      ensures ms[i].msgId != id
    {
      assert ms[i] in ms;
    }
  }

  lemma {:induction false} NewAmong(ms: seq<Message>, seen: set<seq<byte>>)
    ensures forall m <- New(ms, seen) :: m in ms
    decreases |ms|
  {
    if ms != [] {
      NewAmong(ms[1..], if ms[0].msgId in seen then seen else seen + {ms[0].msgId});
    }
  }

  lemma {:induction false} NewConcat(a: seq<Message>, b: seq<Message>, seen: set<seq<byte>>)
    ensures New(a + b, seen) == New(a, seen) + New(b, seen + Ids(a))
    decreases |a|
  {
    if a == [] {
      assert a + b == b && seen + Ids(a) == seen;
    } else {
      assert (a + b)[1..] == a[1..] + b;
      IdsFirst(a);
      hide Ids;
      var id := a[0].msgId;
      var next := if id in seen then seen else seen + {id};
      NewConcat(a[1..], b, next);
      assert next + Ids(a[1..]) == seen + Ids(a);
      var p, q := New(a[1..], next), New(b, seen + Ids(a));
      assert [a[0]] + (p + q) == [a[0]] + p + q;
    }
  }

  lemma {:induction false} NewNothing(ms: seq<Message>, seen: set<seq<byte>>)
    requires Ids(ms) <= seen
    ensures New(ms, seen) == []
    decreases |ms|
  {
    if ms != [] {
      IdsFirst(ms);
      NewNothing(ms[1..], seen);
    }
  }

  lemma {:induction false} FiredNew(dones: map<seq<byte>, Callback>, ms: seq<Message>, seen: set<seq<byte>>)
    ensures Fired(dones - seen, ms) == Fired(dones - seen, New(ms, seen))
    decreases |ms|
  {
    if ms != [] {
      var id := ms[0].msgId;
      if id in seen {
        FiredNew(dones, ms[1..], seen);
      } else {
        var rest := New(ms[1..], seen + {id});
        assert ([ms[0]] + rest)[1..] == rest;
        FiredNew(dones, ms[1..], seen + {id});
        assert dones - (seen + {id}) == dones - seen - {id};
        if id !in dones {
          assert dones - seen - {id} == dones - seen;
        }
      }
    }
  }

  /** Whatever comes, however often: if a callback waits for each id, each runs once, in the order the ids first come. */
  lemma FiredOnceEach(dones: map<seq<byte>, Callback>, ms: seq<Message>)
    requires Ids(ms) <= dones.Keys
    ensures Ids(Firsts(ms)) == Ids(ms) && DistinctIds(Firsts(ms))
    ensures Fired(dones, ms) == Firings(dones, Firsts(ms))
  {
    FiredNew(dones, ms, {});
    assert dones - {} == dones;
    NewIds(ms, {});
    AllFired(dones, Firsts(ms));
  }

  // ---- A peer that sends everything it has written again each time it writes ----

  /** A flush sends the first so many of `n` messages. */
  predicate Within(flushes: seq<nat>, n: nat) { forall i | 0 <= i < |flushes| :: flushes[i] <= n }

  /** The most any flush sends. */
  function Top(flushes: seq<nat>): (t: nat)
    ensures forall i | 0 <= i < |flushes| :: flushes[i] <= t
    ensures t == 0 || t in flushes
  {
    if flushes == [] then 0
    else
      var t := Top(flushes[1..]);
      if t < flushes[0] then flushes[0] else t
  }

  /** The messages on the wire when the out buffer, never consumed, is sent at the moments it holds the first
      `flushes[0]`, `flushes[1]`, ... messages. */
  function Resent(ms: seq<Message>, flushes: seq<nat>): seq<Message>
    requires Within(flushes, |ms|)
  {
    if flushes == [] then [] else ms[..flushes[0]] + Resent(ms, flushes[1..])
  }

  lemma TakeIds(ms: seq<Message>, k: nat, n: nat)
    requires k <= n <= |ms|
    ensures ms[..n] == ms[..k] + ms[k..n] && Ids(ms[..k]) <= Ids(ms[..n])
  {
    assert ms[..n] == ms[..k] + ms[k..n];
    IdsConcat(ms[..k], ms[k..n]);
  }

  /** One flush of the first n messages after the first k have been seen. */
  lemma NewInFlush(ms: seq<Message>, k: nat, n: nat)
    requires k <= |ms| && n <= |ms|
    ensures var top := if k < n then n else k;
            && New(ms[..n], Ids(ms[..k])) == New(ms[k..top], Ids(ms[..k]))
            && Ids(ms[..k]) + Ids(ms[..n]) == Ids(ms[..top])
  {
    hide Ids, New;
    if k < n {
      TakeIds(ms, k, n);
      NewConcat(ms[..k], ms[k..n], Ids(ms[..k]));
      NewNothing(ms[..k], Ids(ms[..k]));
      assert Ids(ms[..k]) + Ids(ms[..k]) == Ids(ms[..k]);
    } else {
      TakeIds(ms, n, k);
      NewNothing(ms[..n], Ids(ms[..k]));
      assert ms[k..k] == [];
      NothingNew(Ids(ms[..k]));
    }
  }

  lemma NothingNew(seen: set<seq<byte>>)
    ensures New([], seen) == [] && Ids([]) == {}
  {
  }

  lemma {:induction false} NewInResent(ms: seq<Message>, flushes: seq<nat>, k: nat)
    requires Within(flushes, |ms|) && k <= |ms|
    ensures var top := if k < Top(flushes) then Top(flushes) else k;
            top <= |ms| && New(Resent(ms, flushes), Ids(ms[..k])) == New(ms[k..top], Ids(ms[..k]))
    decreases |flushes|
  {
    hide Ids, New;
    if flushes == [] {
      assert ms[k..k] == [];
    } else {
      var n := flushes[0];
      var k' := if k < n then n else k;
      var top := if k < Top(flushes) then Top(flushes) else k;
      NewInFlush(ms, k, n);
      NewConcat(ms[..n], Resent(ms, flushes[1..]), Ids(ms[..k]));
      NewInResent(ms, flushes[1..], k');
      NewConcat(ms[k..k'], ms[k'..top], Ids(ms[..k]));
      assert ms[k..top] == ms[k..k'] + ms[k'..top];
      assert ms[..k'] == ms[..k] + ms[k..k'];
      IdsConcat(ms[..k], ms[k..k']);
    }
  }

  lemma {:induction false} ResentAmong(ms: seq<Message>, flushes: seq<nat>)
    requires Within(flushes, |ms|)
    ensures forall m <- Resent(ms, flushes) :: m in ms
    ensures Top(flushes) == |ms| ==> forall m <- ms :: m in Resent(ms, flushes)
    decreases |flushes|
  {
    if flushes != [] {
      ResentAmong(ms, flushes[1..]);
      assert flushes[0] == |ms| ==> ms[..flushes[0]] == ms;
    }
  }

  /** Responses sent over and over by a peer whose out buffer is never consumed run the same callbacks as if sent once: each
      waiting one exactly once, with the first response written for it, in the order those were written. */
  lemma ResendingIsHarmless(dones: map<seq<byte>, Callback>, ms: seq<Message>, flushes: seq<nat>)
    requires Ids(ms) == dones.Keys && Within(flushes, |ms|) && Top(flushes) == |ms|
    ensures Ids(Firsts(ms)) == Ids(ms) && DistinctIds(Firsts(ms))
    ensures Fired(dones, Resent(ms, flushes)) == Firings(dones, Firsts(ms))
    ensures dones - Ids(Resent(ms, flushes)) == map[]
  {
    hide Fired, New, Firings;
    ResentAmong(ms, flushes);
    assert Ids(Resent(ms, flushes)) == Ids(ms);
    NewInResent(ms, flushes, 0);
    assert ms[..0] == [] && ms[0..|ms|] == ms;
    NothingNew({});
    FiredOnceEach(dones, ms);
    FiredOnceEach(dones, Resent(ms, flushes));
  }

  /** In how many flushes message i goes out. */
  function Times(flushes: seq<nat>, i: nat): nat {
    if flushes == [] then 0 else (if i < flushes[0] then 1 else 0) + Times(flushes[1..], i)
  }

  /** Each of a number of different messages is on the wire once per flush that reaches it. */
  lemma {:induction false} ResentTimes(ms: seq<Message>, flushes: seq<nat>, i: nat)
    requires Within(flushes, |ms|) && DistinctIds(ms) && i < |ms|
    ensures multiset(Resent(ms, flushes))[ms[i]] == Times(flushes, i)
    decreases |flushes|
  {
    if flushes != [] {
      ResentTimes(ms, flushes[1..], i);
      OnceInPrefix(ms, flushes[0], i);
    }
  }

  lemma {:induction false} OnceInPrefix(ms: seq<Message>, n: nat, i: nat)
    requires DistinctIds(ms) && i < |ms| && n <= |ms|
    ensures multiset(ms[..n])[ms[i]] == if i < n then 1 else 0
    decreases n
  {
    if n == 0 {
      assert ms[..n] == [];
    } else {
      OnceInPrefix(ms, n - 1, i);
      assert ms[..n] == ms[..n - 1] + [ms[n - 1]];
      assert i != n - 1 ==> ms[i] != ms[n - 1];
    }
  }

  lemma {:induction false} AsManyIds(ms: seq<Message>)
    requires DistinctIds(ms)
    ensures |Ids(ms)| == |ms|
  {
    if ms != [] {
      IdsFirst(ms);
      AsManyIds(ms[1..]);
      assert ms[0].msgId !in Ids(ms[1..]);
    }
  }

  // ---- The bytes of it ----

  /** One write(): the socket took `bytes` bytes from the front of an out buffer holding the frames of `count` messages. */
  datatype Send = Send(count: nat, bytes: nat)

  predicate SendsOf(ms: seq<Message>, sends: seq<Send>)
    requires AllSendable(ms)
  {
    forall i | 0 <= i < |sends| :: sends[i].count <= |ms| && sends[i].bytes <= |Frames(ms[..sends[i].count])|
  }

  /** Everything the socket took. */
  function Wire(ms: seq<Message>, sends: seq<Send>): seq<byte>
    requires AllSendable(ms) && SendsOf(ms, sends)
  {
    if sends == [] then []
    else Frames(ms[..sends[0].count])[..sends[0].bytes] + Wire(ms, sends[1..])
  }

  lemma {:induction false} WireGrows(ms: seq<Message>, more: seq<Message>, sends: seq<Send>)
    requires AllSendable(ms) && AllSendable(more) && SendsOf(ms, sends)
    ensures AllSendable(ms + more) && SendsOf(ms + more, sends) && Wire(ms + more, sends) == Wire(ms, sends)
    decreases |sends|
  {
    hide Frames, Sendable;
    forall i | 0 <= i < |sends|
      ensures (ms + more)[..sends[i].count] == ms[..sends[i].count]
    {
    }
    if sends != [] {
      WireGrows(ms, more, sends[1..]);
    }
  }

  lemma {:induction false} WireSnoc(ms: seq<Message>, sends: seq<Send>, bytes: nat)
    requires AllSendable(ms) && SendsOf(ms, sends) && bytes <= |Frames(ms)|
    ensures SendsOf(ms, sends + [Send(|ms|, bytes)])
    ensures Wire(ms, sends + [Send(|ms|, bytes)]) == Wire(ms, sends) + Frames(ms)[..bytes]
    decreases |sends|
  {
    hide Frames, Sendable;
    assert ms[..|ms|] == ms;
    var all := sends + [Send(|ms|, bytes)];
    if sends == [] {
      assert all[1..] == [];
      assert Wire(ms, all) == Frames(ms)[..bytes] + [];
    } else {
      WireSnoc(ms, sends[1..], bytes);
      assert all[1..] == sends[1..] + [Send(|ms|, bytes)];
      Regroup(Frames(ms[..sends[0].count])[..sends[0].bytes], Wire(ms, sends[1..]), Frames(ms)[..bytes]);
    }
  }

  /** Every write ended between two frames; `flushes` counts the messages each sent. */
  predicate EndsBetweenFrames(ms: seq<Message>, sends: seq<Send>, flushes: seq<nat>)
    requires AllSendable(ms)
  {
    && |flushes| == |sends|
    && forall i | 0 <= i < |sends| ::
         flushes[i] <= sends[i].count <= |ms| && sends[i].bytes == |Frames(ms[..flushes[i]])|
  }

  lemma TakeFrames(ms: seq<Message>, k: nat, n: nat)
    requires AllSendable(ms) && k <= n <= |ms|
    ensures |Frames(ms[..k])| <= |Frames(ms[..n])| && Frames(ms[..n])[..|Frames(ms[..k])|] == Frames(ms[..k])
  {
    hide Frames, Sendable;
    assert ms[..n] == ms[..k] + ms[k..n];
    FramesConcat(ms[..k], ms[k..n]);
  }

  /** Each write took at least the whole frames that are counted for it. */
  predicate Covers(ms: seq<Message>, sends: seq<Send>, flushes: seq<nat>)
    requires AllSendable(ms)
  {
    && |flushes| == |sends|
    && forall i | 0 <= i < |sends| ::
         flushes[i] <= sends[i].count <= |ms| && |Frames(ms[..flushes[i]])| <= sends[i].bytes
  }

  lemma {:induction false} WireLength(ms: seq<Message>, sends: seq<Send>, flushes: seq<nat>)
    requires AllSendable(ms) && SendsOf(ms, sends) && Covers(ms, sends, flushes)
    ensures Within(flushes, |ms|) && AllSendable(Resent(ms, flushes))
    ensures |Frames(Resent(ms, flushes))| <= |Wire(ms, sends)|
    ensures |Frames(Resent(ms, flushes))| == |Wire(ms, sends)| ==> EndsBetweenFrames(ms, sends, flushes)
    decreases |sends|
  {
    hide Frames, Sendable;
    if sends == [] {
      NoFrames();
    } else {
      WireLength(ms, sends[1..], flushes[1..]);
      FramesConcat(ms[..flushes[0]], Resent(ms, flushes[1..]));
      if EndsBetweenFrames(ms, sends[1..], flushes[1..]) && sends[0].bytes == |Frames(ms[..flushes[0]])| {
        forall i | 0 <= i < |sends|
          ensures sends[i].bytes == |Frames(ms[..flushes[i]])|
        {
          assert i > 0 ==> sends[i] == sends[1..][i - 1] && flushes[i] == flushes[1..][i - 1];
        }
      }
    }
  }

  /** The wire carries the frames that the writes took whole, over and over, and nothing else, exactly if every write ended
      between two frames. */
  lemma WireIsResentIff(ms: seq<Message>, sends: seq<Send>, flushes: seq<nat>)
    requires AllSendable(ms) && SendsOf(ms, sends) && Covers(ms, sends, flushes)
    ensures Within(flushes, |ms|) && AllSendable(Resent(ms, flushes))
    ensures Wire(ms, sends) == Frames(Resent(ms, flushes)) <==> EndsBetweenFrames(ms, sends, flushes)
  {
    hide Frames, Sendable, Wire, Resent;
    WireLength(ms, sends, flushes);
    if EndsBetweenFrames(ms, sends, flushes) {
      WireIsResent(ms, sends, flushes);
    }
  }

  /** Then the wire carries the frames of the messages sent over and over. */
  lemma {:induction false} WireIsResent(ms: seq<Message>, sends: seq<Send>, flushes: seq<nat>)
    requires AllSendable(ms) && SendsOf(ms, sends) && EndsBetweenFrames(ms, sends, flushes)
    ensures Within(flushes, |ms|) && AllSendable(Resent(ms, flushes))
    ensures Wire(ms, sends) == Frames(Resent(ms, flushes))
    decreases |sends|
  {
    hide Frames, Sendable;
    if sends == [] {
      NoFrames();
    } else {
      WireIsResent(ms, sends[1..], flushes[1..]);
      TakeFrames(ms, flushes[0], sends[0].count);
      FramesConcat(ms[..flushes[0]], Resent(ms, flushes[1..]));
    }
  }

  // ---- Writes that end inside a frame ----

  /** What is left of a stream of frames behind some of them is a stream of frames. */
  lemma {:induction false} BehindFrames(ms: seq<Message>, rest: seq<byte>, all: seq<Message>) returns (more: seq<Message>)
    requires AllSendable(ms) && AllSendable(all) && Frames(ms) + rest == Frames(all)
    ensures AllSendable(more) && rest == Frames(more)
    decreases |ms|
  {
    hide Frame, Sendable;
    if ms == [] {
      more := all;
      assert Frames(ms) + rest == rest;
    } else {
      Regroup(Frame(ms[0]), Frames(ms[1..]), rest);
      assert all != [];
      FrameIsPrefixFree(ms[0], Frames(ms[1..]) + rest, all[0], Frames(all[1..]));
      more := BehindFrames(ms[1..], rest, all[1..]);
    }
  }

  /** A start of a stream of frames that is a stream of frames ends between two frames. */
  lemma {:induction false} StartOfFrames(some: seq<Message>, rest: seq<byte>, ms: seq<Message>)
    requires AllSendable(some) && AllSendable(ms) && Frames(some) + rest == Frames(ms)
    ensures |some| <= |ms| && |Frames(some)| == |Frames(ms[..|some|])|
    decreases |some|
  {
    hide Frame, Sendable, FrameLength;
    if some == [] {
      assert ms[..0] == [];
    } else {
      Regroup(Frame(some[0]), Frames(some[1..]), rest);
      LongEnough(some[0]);
      assert ms != [];
      FrameIsPrefixFree(some[0], Frames(some[1..]) + rest, ms[0], Frames(ms[1..]));
      StartOfFrames(some[1..], rest, ms[1..]);
      assert ms[..|some|][1..] == ms[1..][..|some| - 1];
      assert FrameLength(Stamped(some[0])) == FrameLength(Stamped(ms[0]));
    }
  }

  /** `bytes` bytes of the frames of the first `n` messages end between two frames. */
  ghost predicate Between(ms: seq<Message>, n: nat, bytes: nat)
    requires AllSendable(ms) && n <= |ms|
  {
    exists k: nat :: k <= n && bytes == |Frames(ms[..k])|
  }

  ghost predicate IsStream(wire: seq<byte>) {
    exists all: seq<Message> :: AllSendable(all) && wire == Frames(all)
  }

  /** After writes that ended between frames and one more, what the peer has is a sequence of frames, of any messages at all,
      exactly if that one ended between two frames as well. */
  lemma LastWriteIff(ms: seq<Message>, sends: seq<Send>, flushes: seq<nat>, bytes: nat)
    requires AllSendable(ms) && SendsOf(ms, sends) && EndsBetweenFrames(ms, sends, flushes) && bytes <= |Frames(ms)|
    ensures SendsOf(ms, sends + [Send(|ms|, bytes)])
    ensures IsStream(Wire(ms, sends + [Send(|ms|, bytes)])) <==> Between(ms, |ms|, bytes)
  {
    hide Frames, Sendable, Wire, Resent;
    WireSnoc(ms, sends, bytes);
    WireIsResent(ms, sends, flushes);
    var before, wire, last := Resent(ms, flushes), Wire(ms, sends + [Send(|ms|, bytes)]), Frames(ms)[..bytes];
    assert ms[..|ms|] == ms;
    if IsStream(wire) {
      var all :| AllSendable(all) && wire == Frames(all);
      var more := BehindFrames(before, last, all);
      assert Frames(more) + Frames(ms)[bytes..] == Frames(ms);
      StartOfFrames(more, Frames(ms)[bytes..], ms);
    }
    if Between(ms, |ms|, bytes) {
      var k: nat :| k <= |ms| && bytes == |Frames(ms[..k])|;
      TakeFrames(ms, k, |ms|);
      FramesConcat(before, ms[..k]);
      assert wire == Frames(before + ms[..k]);
    }
  }

  /** A message whose first p bytes are taken, and then the whole of it from the front: unless its end byte stands where the
      length points, the peer has no sequence of frames. */
  lemma RestartBreaksStream(m: Message, p: nat)
    requires Sendable(m) && 5 <= p < FrameLength(m) && Frame(m)[FrameLength(m) - 1 - p] != PB_END
    ensures AllSendable([m]) && Frames([m]) == Frame(m) && SendsOf([m], [Send(1, p), Send(1, FrameLength(m))])
    ensures !IsStream(Wire([m], [Send(1, p), Send(1, FrameLength(m))]))
  {
    hide Frame, FrameLength, ToNet, FromNet;
    WireOfTwo(m, p, FrameLength(m));
    var f := Frame(m);
    var wire := f[..p] + f;
    assert f[..FrameLength(m)] == f;
    FrameHead(m);
    assert wire[1..5] == f[1..5] && wire[FrameLength(m) - 1] == f[FrameLength(m) - 1 - p];
    NetRoundTrip(FrameLength(m));
    forall all: seq<Message> | AllSendable(all)
      ensures wire != Frames(all)
    {
      StreamHead(all);
    }
  }

  /** What a stream of frames begins with. */
  lemma StreamHead(all: seq<Message>)
    requires AllSendable(all)
    ensures all != [] ==>
              var wire := Frames(all);
              && 26 <= |wire| && var l: int := FromNet(wire[1..5]);
              && 0 < l <= |wire| && wire[l - 1] == PB_END
  {
    hide Frame, FrameLength, ToNet, FromNet;
    if all != [] {
      var first, wire := Frame(all[0]), Frames(all);
      LongEnough(all[0]);
      FrameHead(all[0]);
      FrameEnd(all[0]);
      NetRoundTrip(FrameLength(all[0]));
      assert wire == first + Frames(all[1..]);
      assert wire[1..5] == first[1..5];
    }
  }

  lemma FrameEnd(m: Message)
    requires Sendable(m)
    ensures Frame(m)[FrameLength(m) - 1] == PB_END
  {
    hide Frame;
    assert At(Frame(m), 0, Frame(m));
    FrameLayout(Frame(m), 0, m);
  }

  lemma WireOfTwo(m: Message, p: nat, q: nat)
    requires Sendable(m) && p <= FrameLength(m) && q <= FrameLength(m)
    ensures AllSendable([m]) && Frames([m]) == Frame(m) && SendsOf([m], [Send(1, p), Send(1, q)])
    ensures Wire([m], [Send(1, p), Send(1, q)]) == Frame(m)[..p] + Frame(m)[..q]
  {
    hide Frame, FrameLength;
    assert [m][..1] == [m] && Frame(m) + [] == Frame(m);
    assert Frames([m]) == Frame(m);
    var sends := [Send(1, p), Send(1, q)];
    assert sends[1..] == [Send(1, q)] && sends[1..][1..] == [];
    assert Wire([m], sends[1..]) == Frame(m)[..q] + [];
  }

  /** A message with no fields set is one such, cut off after ten bytes. */
  lemma TenBytesBreakStream()
    ensures AllSendable([EMPTY]) && SendsOf([EMPTY], [Send(1, 10), Send(1, 35)])
    ensures !IsStream(Wire([EMPTY], [Send(1, 10), Send(1, 35)]))
  {
    var f := Frame(EMPTY);
    assert FrameLength(EMPTY) == 35 && At(f, 0, f);
    FrameLayout(f, 0, EMPTY);
    assert f[22..26] == ToNet(0) == [0, 0, 0, 0];
    assert f[24] == f[22..26][2];
    RestartBreaksStream(EMPTY, 10);
  }

  /** Two writes that both end inside a frame can make up the frame by chance. */
  lemma CutsCanRejoin() returns (m: Message)
    ensures AllSendable([m]) && SendsOf([m], [Send(1, 25), Send(1, 10)]) && FrameLength(m) == 35
    ensures Wire([m], [Send(1, 25), Send(1, 10)]) == Frames([m])
    ensures forall flushes :: !EndsBetweenFrames([m], [Send(1, 25), Send(1, 10)], flushes)
  {
    m := EMPTY.(msgId := [3], methodName := [83, 46, 109], pbData := [2, 0, 0, 0, 35]);
    WireOfTwo(m, 25, 10);
    RejoinedFrame(m);
    var f := Frame(m);
    assert f[..25] + f[25..] == f;
    hide Frame;
    forall flushes
      ensures !EndsBetweenFrames([m], [Send(1, 25), Send(1, 10)], flushes)
    {
      FirstCut(m, [Send(1, 25), Send(1, 10)], flushes);
    }
  }

  /** Writes of one message that all end between frames begin with nothing or all of it. */
  lemma FirstCut(m: Message, sends: seq<Send>, flushes: seq<nat>)
    requires Sendable(m) && sends != []
    ensures AllSendable([m])
    ensures EndsBetweenFrames([m], sends, flushes) ==> sends[0].bytes == 0 || sends[0].bytes == FrameLength(m)
  {
    hide Frame;
    assert [m][..0] == [] && [m][..1] == [m] && [m][1..] == [];
    assert Frame(m) + [] == Frame(m);
    assert |Frames([m][..0])| == 0 && |Frames([m][..1])| == FrameLength(m);
  }

  lemma RejoinedFrame(m: Message)
    requires m == EMPTY.(msgId := [3], methodName := [83, 46, 109], pbData := [2, 0, 0, 0, 35])
    ensures Sendable(m) && FrameLength(m) == 35 && Frame(m)[25..] == Frame(m)[..10]
  {
    assert ToNet(35) == [0, 0, 0, 35];
    hide Frame, ToNet;
    FramePieces35(m);
    Quarters(Frame(m));
  }

  /** Where the fields lie in a frame of 35 bytes with an id of one, a name of three, no error text and a payload of five. */
  lemma FramePieces35(m: Message)
    requires |m.msgId| == 1 && |m.methodName| == 3 && m.errInfo == [] && |m.pbData| == 5
    ensures Sendable(m) && FrameLength(m) == 35
    ensures var f := Frame(m);
            && f[0..5] == [PB_START] + ToNet(35) && f[5..9] == ToNet(1) && f[9..10] == m.msgId
            && f[25..30] == m.pbData && f[30..35] == ToNet(1) + [PB_END]
  {
    hide Frame, ToNet;
    var f := Frame(m);
    assert At(f, 0, f);
    FrameParts(f, 0, m);
    FrameLayout(f, 0, m);
  }

  lemma Quarters(f: seq<byte>)
    requires |f| == 35 && f[0..5] == f[25..30] && f[5..9] + f[9..10] == f[30..35]
    ensures f[25..] == f[..10]
  {
    assert f[..10] == f[0..5] + (f[5..9] + f[9..10]);
    assert f[25..] == f[25..30] + f[30..35];
  }
}
