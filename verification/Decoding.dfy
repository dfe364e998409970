/** What TinyPBCoder::decode does to a buffer, as a function; when it stops; and what it returns for streams of frames. */
module Decoding {
  import opened Bytes
  import opened BufferModel
  import opened TinyPB

  // ---- The scan for a frame ----

  /** The verdict on one position: look further, accept a frame ending at `end`, or undefined behaviour (a length read
      beyond the vector, an index before it, or an int sum that overflows). */
  datatype Verdict = Skip | Accept(end: nat, pkLen: int32) | Bad

  function Probe(mem: seq<byte>, write: nat, i: nat): (v: Verdict)
    requires i < write <= |mem|
    ensures v.Accept? ==> v.end < write && v.end == i + v.pkLen - 1
  {
    if mem[i] != PB_START || i + 1 >= write then Skip
    else if i + 5 > |mem| then Bad
    else
      var pkLen := FromNet(mem[i + 1..i + 5]);
      var j := i + pkLen - 1;
      if i + pkLen > INT_MAX then Bad
      else if j >= write then Skip
      else if j < 0 then Bad
      else if mem[j] == PB_END then Accept(j, pkLen)
      else Skip
  }

  /** The scan accepts a position exactly if a start byte 2 stands there, and the end byte 3 where the length behind it points,
      before the write index; it is undefined there exactly if the length bytes are not all inside the vector, or point in front
      of it, or the sum overflows. */
  lemma ProbeIff(mem: seq<byte>, write: nat, i: nat, end: nat, pkLen: int32)
    requires i < write <= |mem|
    ensures Probe(mem, write, i) == Accept(end, pkLen) <==>
            && mem[i] == 2 && i + 1 < write && IntAt(mem, i + 1, pkLen) && i + pkLen <= 0x7fff_ffff
            && end == i + pkLen - 1 && end < write && mem[end] == 3
    ensures (i + 5 <= |mem| ==> IntAt(mem, i + 1, pkLen)) ==>
              (Probe(mem, write, i) == Bad <==>
                 mem[i] == 2 && i + 1 < write && (i + 5 > |mem| || i + pkLen > 0x7fff_ffff || i + pkLen < 1))
  {
    hide FromNet;
    if i + 5 <= |mem| {
      IntAtIff(mem, i + 1, pkLen);
      hide IntAt;
    }
  }

  datatype Scanned = NoFrame | Found(start: nat, end: nat, pkLen: int32) | ScanFault

  function Scan(mem: seq<byte>, write: nat, i: nat): (r: Scanned)
    requires i <= write <= |mem|
    ensures r.Found? ==> i <= r.start < write && r.end < write && Probe(mem, write, r.start) == Accept(r.end, r.pkLen)
    ensures r.Found? ==> forall k :: i <= k < r.start ==> Probe(mem, write, k) == Skip
    ensures r.NoFrame? <==> forall k :: i <= k < write ==> Probe(mem, write, k) == Skip
    decreases write - i
  {
    if i == write then NoFrame
    else match Probe(mem, write, i)
      case Skip => Scan(mem, write, i + 1)
      case Accept(end, pkLen) => Found(i, end, pkLen)
      case Bad => ScanFault
  }

  // ---- The decode loop ----

  datatype Outcome = Running | Done | Faulted

  datatype Decoded = Decoded(outcome: Outcome, buffer: Buffer, out: seq<Message>)

  /** The buffer after an accepted frame has been stepped over. */
  function Stepped(b: Buffer): (r: Buffer)
    requires b.Ordered() && Scan(b.mem, b.write, b.read).Found?
    ensures r.Ordered() && |r.mem| == |b.mem| && r.write <= b.write
  {
    var s := Scan(b.mem, b.write, b.read);
    ReadMoved(b, s.end - s.start + 1)
  }

  /** The outer loop for at most `n` iterations; `Running` when it has not left the loop by then. */
  function DecodeRun(b: Buffer, n: nat): (r: Decoded)
    requires b.Ordered()
    decreases n
  {
    hide Stepped, Parse, Scan;
    if n == 0 then Decoded(Running, b, [])
    else match Scan(b.mem, b.write, b.read)
      case NoFrame => Decoded(Done, b, [])
      case ScanFault => Decoded(Faulted, b, [])
      case Found(start, end, pkLen) =>
        match Parse(b.mem, start, end, pkLen)
        case Fault => Decoded(Faulted, Stepped(b), [])
        case Malformed => DecodeRun(Stepped(b), n - 1)
        case Ok(m) =>
          var rest := DecodeRun(Stepped(b), n - 1);
          rest.(out := [m] + rest.out)
  }

  lemma {:induction false} DecodeRunOrdered(b: Buffer, n: nat)
    requires b.Ordered()
    ensures var r := DecodeRun(b, n).buffer; r.Ordered() && |r.mem| == |b.mem| && r.write <= b.write
    decreases n
  {
    hide Stepped, Parse, Scan, Probe, ReadMoved;
    if n != 0 && Scan(b.mem, b.write, b.read).Found? {
      DecodeRunOrdered(Stepped(b), n - 1);
    }
  }

  lemma {:induction false} DecodedValid(b: Buffer, n: nat)
    requires b.Valid()
    ensures var r := DecodeRun(b, n).buffer; r.Valid() && |r.mem| == |b.mem| && r.write <= b.write
    decreases n
  {
    hide Parse, Scan, Probe, Stepped;
    if n != 0 && Scan(b.mem, b.write, b.read).Found? {
      ProgressIff(b);
      DecodedValid(Stepped(b), n - 1);
    }
  }

  /** decode comes to an end on this buffer without undefined behaviour. */
  ghost predicate Decodable(b: Buffer)
    requires b.Ordered()
  {
    exists n: nat :: DecodeRun(b, n).outcome == Done
  }

  /** How many iterations decode takes. */
  ghost function Iterations(b: Buffer): (n: nat)
    requires b.Ordered() && Decodable(b)
    ensures DecodeRun(b, n).outcome == Done
  {
    var k: nat :| DecodeRun(b, k).outcome == Done;
    k
  }

  lemma DecodesIn(b: Buffer, n: nat)
    requires b.Ordered() && DecodeRun(b, n).outcome == Done
    ensures Decodable(b) && DecodeRun(b, Iterations(b)) == DecodeRun(b, n)
  {
    var k := Iterations(b);
    MoreIterationsSame(b, Min(n, k), Max(n, k));
  }

  lemma {:induction false} MoreIterationsSame(b: Buffer, n: nat, k: nat)
    requires b.Ordered() && n <= k && DecodeRun(b, n).outcome != Running
    ensures DecodeRun(b, k) == DecodeRun(b, n)
    decreases n
  {
    hide Stepped, Parse, Scan, Probe, ReadMoved;
    var s := Scan(b.mem, b.write, b.read);
    if s.Found? && !Parse(b.mem, s.start, s.end, s.pkLen).Fault? {
      MoreIterationsSame(Stepped(b), n - 1, k - 1);
    }
  }

  // ---- Progress ----

  /** An iteration that accepts a frame shrinks what is readable exactly when the length is positive and the new read
      index stays inside the vector; every other time it either changes nothing at all or steps back. */
  lemma ProgressIff(b: Buffer)
    requires b.Valid() && Scan(b.mem, b.write, b.read).Found?
    ensures var s := Scan(b.mem, b.write, b.read);
            && Stepped(b).Valid()
            && (Stepped(b).Readable() < b.Readable() <==> 0 < s.pkLen && b.read + s.pkLen < |b.mem|)
            && (0 <= s.pkLen && Stepped(b).Readable() >= b.Readable() ==> Stepped(b) == b)
  {
    var s := Scan(b.mem, b.write, b.read);
    assert s.end - s.start + 1 == s.pkLen;
    if 0 <= b.read + s.pkLen < |b.mem| {
      AdjustedContents(b.(read := b.read + s.pkLen));
    }
  }

  /** decode steps from the old read index, not from where the frame starts: what it leaves is what lies behind the frame
      exactly when the position at the read index is itself accepted. */
  lemma LeavesRestIff(b: Buffer)
    requires b.Valid() && Scan(b.mem, b.write, b.read).Found?
    requires var s := Scan(b.mem, b.write, b.read); 0 < s.pkLen && b.read + s.pkLen < |b.mem|
    ensures var s := Scan(b.mem, b.write, b.read);
            Stepped(b).Contents() == b.mem[s.end + 1..b.write] <==> Probe(b.mem, b.write, b.read).Accept?
  {
    var s := Scan(b.mem, b.write, b.read);
    assert s.start == b.read <==> Probe(b.mem, b.write, b.read).Accept?;
    AdjustedContents(b.(read := b.read + s.pkLen));
  }

  /** Once an iteration changes nothing, the loop never ends. */
  lemma {:induction false} StuckForever(b: Buffer, n: nat)
    requires b.Ordered() && Scan(b.mem, b.write, b.read).Found? && Stepped(b) == b
    requires var s := Scan(b.mem, b.write, b.read); !Parse(b.mem, s.start, s.end, s.pkLen).Fault?
    ensures DecodeRun(b, n).outcome == Running
  {
    hide Stepped, Parse, Scan;
    if n != 0 {
      StuckForever(b, n - 1);
    }
  }

  /** Within its first n iterations, decode accepts a frame whose length is not positive. */
  predicate StepsBack(b: Buffer, n: nat)
    requires b.Ordered()
    decreases n
  {
    n != 0 &&
    var s := Scan(b.mem, b.write, b.read);
    s.Found? && (s.pkLen <= 0 || StepsBack(Stepped(b), n - 1))
  }

  /** With the write index inside the vector, decode leaves the loop after at most one iteration per readable byte
      and one more, unless it accepts a length that is not positive. */
  lemma {:induction false} DecodeEnds(b: Buffer, n: nat)
    requires b.Valid() && b.write < |b.mem| && b.Readable() < n && !StepsBack(b, n)
    ensures DecodeRun(b, n).outcome != Running
    decreases n
  {
    hide Stepped, Parse, Scan, Probe;
    var s := Scan(b.mem, b.write, b.read);
    if s.Found? {
      ProgressIff(b);
      if !Parse(b.mem, s.start, s.end, s.pkLen).Fault? {
        DecodeEnds(Stepped(b), n - 1);
      }
    }
  }

  // ---- Whole frames followed by an unfinished tail ----

  /** Nothing in these bytes, the last ones in the buffer, can be taken for a frame: at each start byte but one in the
      last place the length is there in full, and what it points at lies beyond the bytes or is no end byte.
      `room` bounds the lengths so that adding an index to them stays an int. */
  predicate Quiet(tail: seq<byte>, room: int) {
    forall i :: 0 <= i < |tail| - 1 && tail[i] == PB_START ==>
      && i + 5 <= |tail|
      && var pkLen := FromNet(tail[i + 1..i + 5]);
      && pkLen <= room
      && (i + pkLen - 1 >= |tail| || (0 <= i + pkLen - 1 && tail[i + pkLen - 1] != PB_END))
  }

  predicate QuietIn(b: Buffer, tail: seq<byte>) { Quiet(tail, INT_MAX - |b.mem|) }

  lemma QuietProbe(b: Buffer, k: nat)
    requires b.Ordered() && |b.mem| <= INT_MAX && QuietIn(b, b.Contents()) && b.read <= k < b.write
    ensures Probe(b.mem, b.write, k) == Skip
  {
    hide FromNet;
    var tail, i := b.Contents(), k - b.read;
    assert tail[i] == b.mem[k];
    if tail[i] == PB_START && i < |tail| - 1 {
      assert tail[i + 1..i + 5] == b.mem[k + 1..k + 5];
      var j := i + FromNet(tail[i + 1..i + 5]) - 1;
      if 0 <= j < |tail| {
        assert tail[j] == b.mem[b.read + j];
      }
    }
  }

  lemma QuietScan(b: Buffer)
    requires b.Ordered() && |b.mem| <= INT_MAX && QuietIn(b, b.Contents())
    ensures Scan(b.mem, b.write, b.read) == NoFrame
  {
    hide Probe, Quiet;
    forall k | b.read <= k < b.write
      ensures Probe(b.mem, b.write, k) == Skip
    {
      QuietProbe(b, k);
    }
  }

  // ---- What decode leaves alone ----

  /** A buffer that a run of decode from `p` can reach, compared with `p`. */
  ghost predicate ReadOnFrom(p: Buffer, c: Buffer) {
    c.Valid() && |c.mem| == |p.mem| && ((c.mem == p.mem && c.write == p.write) || c.write < p.write - p.read)
  }

  lemma StepReadsOn(p: Buffer, c: Buffer)
    requires p.Valid() && ReadOnFrom(p, c) && Scan(c.mem, c.write, c.read).Found?
    ensures ReadOnFrom(p, Stepped(c))
  {
    ProgressIff(c);
    var s := Scan(c.mem, c.write, c.read);
    assert Probe(c.mem, c.write, s.start) == Accept(s.end, s.pkLen);
    assert |c.mem| >= 5;
    var j := c.read + s.pkLen;
    assert j <= c.write;
    hide Probe, Scan;
  }

  lemma {:induction false} RunReadsOn(p: Buffer, c: Buffer, n: nat)
    requires p.Valid() && c.Ordered() && ReadOnFrom(p, c) && DecodeRun(c, n).outcome == Done
    ensures var r := DecodeRun(c, n).buffer;
            r.Ordered() && ReadOnFrom(p, r) && Scan(r.mem, r.write, r.read) == NoFrame
    decreases n
  {
    hide Parse, Scan, Probe, Stepped, ReadOnFrom, Buffer.Valid;
    if Scan(c.mem, c.write, c.read).Found? {
      StepReadsOn(p, c);
      RunReadsOn(p, Stepped(c), n - 1);
    }
  }

  /** decode comes to an end and leaves the contents as they are exactly when its scan accepts no position of them. */
  lemma UntouchedIff(b: Buffer)
    requires b.Valid()
    ensures Decodable(b) && DecodeRun(b, Iterations(b)).buffer.Ordered()
            && DecodeRun(b, Iterations(b)).buffer.Contents() == b.Contents()
        <==> Scan(b.mem, b.write, b.read) == NoFrame
    ensures Scan(b.mem, b.write, b.read) == NoFrame ==> DecodeRun(b, 1) == Decoded(Done, b, [])
  {
    hide Probe, Stepped, Parse;
    if Scan(b.mem, b.write, b.read) == NoFrame {
      assert DecodeRun(b, 1) == Decoded(Done, b, []);
      DecodesIn(b, 1);
    } else if Decodable(b) {
      var r := DecodeRun(b, Iterations(b)).buffer;
      RunReadsOn(b, b, Iterations(b));
      assert r.Ordered() && (r.write == b.write ==> r == b || r.read != b.read);
    }
  }

  lemma FrameScan(b: Buffer, m: Message, rest: seq<byte>)
    requires b.Ordered() && |b.mem| <= INT_MAX && Sendable(m) && b.Contents() == Frame(m) + rest
    ensures At(b.mem, b.read, Frame(m))
    ensures Scan(b.mem, b.write, b.read) == Found(b.read, b.read + FrameLength(m) - 1, FrameLength(m))
  {
    hide Frame, At, FromNet;
    PrefixAt(b, Frame(m), rest);
    FrameStart(b.mem, b.read, m);
  }

  lemma PrefixAt(b: Buffer, f: seq<byte>, rest: seq<byte>)
    requires b.Ordered() && b.Contents() == f + rest
    ensures At(b.mem, b.read, f)
  {
    assert b.mem[b.read..b.read + |f|] == b.Contents()[..|f|];
  }

  lemma FrameStart(mem: seq<byte>, at: nat, m: Message)
    requires Sendable(m) && At(mem, at, Frame(m))
    ensures at + FrameLength(m) <= |mem| && mem[at] == PB_START && mem[at + FrameLength(m) - 1] == PB_END
    ensures FromNet(mem[at + 1..at + 5]) == FrameLength(m)
  {
    hide Frame, FromNet, ToNet;
    FrameLayout(mem, at, m);
    NetRoundTrip(FrameLength(m));
  }

  /** The last frame does not end at the very end of the vector with the read index still at its old place. */
  predicate LastFrameMoves(b: Buffer, ms: seq<Message>, tail: seq<byte>)
    requires b.Ordered() && AllSendable(ms)
  {
    b.write < |b.mem| || tail != [] || ms == [] || b.write - FrameLength(ms[|ms| - 1]) >= |b.mem| / 3
  }

  /** One iteration on a buffer that starts with a whole frame. */
  lemma FirstFrame(b: Buffer, m: Message, rest: seq<byte>)
    requires b.Valid() && Sendable(m) && WithinLimits(m) && b.Contents() == Frame(m) + rest
    ensures Scan(b.mem, b.write, b.read) == Found(b.read, b.read + FrameLength(m) - 1, FrameLength(m))
    ensures Parse(b.mem, b.read, b.read + FrameLength(m) - 1, FrameLength(m)) == Ok(Stamped(m))
    ensures b.read + FrameLength(m) <= b.write
    ensures Stepped(b) == ReadMoved(b, FrameLength(m))
    ensures Stepped(b).Valid() && |Stepped(b).mem| == |b.mem| && Stepped(b).write <= b.write
    ensures b.read + FrameLength(m) < |b.mem| ==> Stepped(b).Contents() == rest
    ensures b.read + FrameLength(m) == |b.mem| ==> Stepped(b) == b
    ensures b.read + FrameLength(m) < |b.mem| / 3 ==> Stepped(b) == b.(read := b.read + FrameLength(m))
  {
    hide Parse, Frame, Scan, Probe, At;
    FrameScan(b, m, rest);
    FrameParses(b.mem, b.read, m);
    ReadMovedContents(b, FrameLength(m));
    assert b.Contents()[FrameLength(m)..] == rest;
  }

  lemma AllStampedStep(ms: seq<Message>)
    requires AllSendable(ms) && ms != []
    ensures AllStamped(ms) == [Stamped(ms[0])] + AllStamped(ms[1..])
  {
  }

  /** The buffer after the frames of `ms` have been stepped over. */
  function Past(b: Buffer, ms: seq<Message>): (r: Buffer)
    requires b.Ordered() && AllSendable(ms) && |Frames(ms)| <= b.Readable()
    ensures r.Ordered()
    decreases |ms|
  {
    hide ReadMoved;
    if ms == [] then b
    else
      MovesWithin(b, FrameLength(ms[0]));
      Past(ReadMoved(b, FrameLength(ms[0])), ms[1..])
  }

  lemma MovesWithin(b: Buffer, size: nat)
    requires b.Ordered() && size <= b.Readable()
    ensures ReadMoved(b, size).Ordered() && b.Readable() - size <= ReadMoved(b, size).Readable()
  {
  }

  lemma RunStep(b: Buffer, n: nat)
    requires b.Ordered() && Scan(b.mem, b.write, b.read).Found?
    requires var s := Scan(b.mem, b.write, b.read); Parse(b.mem, s.start, s.end, s.pkLen).Ok?
    ensures var s, rest := Scan(b.mem, b.write, b.read), DecodeRun(Stepped(b), n);
            DecodeRun(b, n + 1) == rest.(out := [Parse(b.mem, s.start, s.end, s.pkLen).value] + rest.out)
  {
    hide Parse, Scan, Stepped;
  }

  lemma PastStep(b: Buffer, ms: seq<Message>, tail: seq<byte>)
    requires b.Valid() && AllSendable(ms) && AllWithinLimits(ms) && ms != [] && b.Contents() == Frames(ms) + tail
    requires Scan(b.mem, b.write, b.read).Found? && Stepped(b).Contents() == Frames(ms[1..]) + tail
    requires Stepped(b) == ReadMoved(b, FrameLength(ms[0]))
    ensures Past(b, ms) == Past(Stepped(b), ms[1..])
  {
    hide ReadMoved, Frames, Stepped, Scan;
  }

  /** Whole frames, then anything: decode returns the messages of the frames, then does what it does on the rest. */
  lemma {:induction false} DecodePast(b: Buffer, ms: seq<Message>, tail: seq<byte>, n: nat)
    requires b.Valid() && AllSendable(ms) && AllWithinLimits(ms) && b.Contents() == Frames(ms) + tail
    requires LastFrameMoves(b, ms, tail)
    ensures var p := Past(b, ms);
            && p.Valid() && p.Contents() == tail && |p.mem| == |b.mem| && p.write <= b.write
            && DecodeRun(b, |ms| + n) == DecodeRun(p, n).(out := AllStamped(ms) + DecodeRun(p, n).out)
    decreases |ms|
  {
    hide Parse, Frame, Scan, Probe, Stepped, ReadMoved, Stamped, WithinLimits, DecodeRun;
    if ms == [] {
      assert b.Contents() == tail;
      assert AllStamped(ms) + DecodeRun(b, n).out == DecodeRun(b, n).out;
    } else {
      var rest := Frames(ms[1..]) + tail;
      assert b.Contents() == Frame(ms[0]) + rest;
      FirstFrame(b, ms[0], rest);
      LastFrameStillMoves(b, ms, tail);
      PastStep(b, ms, tail);
      RunStep(b, |ms| - 1 + n);
      DecodePast(Stepped(b), ms[1..], tail, n);
      AllStampedStep(ms);
      var d := DecodeRun(Past(b, ms), n);
      assert [Stamped(ms[0])] + (AllStamped(ms[1..]) + d.out) == AllStamped(ms) + d.out;
    }
  }

  /** Whole frames, then a tail: decode returns all the messages and leaves exactly the tail, if and only if the scan
      accepts no position of the tail. */
  lemma DecodeFrames(b: Buffer, ms: seq<Message>, tail: seq<byte>)
    requires b.Valid() && AllSendable(ms) && AllWithinLimits(ms) && b.Contents() == Frames(ms) + tail
    requires LastFrameMoves(b, ms, tail)
    ensures var p := Past(b, ms);
            Scan(p.mem, p.write, p.read) == NoFrame <==> Decodable(b) && Leaves(b, ms, tail)
    ensures var p := Past(b, ms);
            && p.Valid() && p.Contents() == tail && |p.mem| == |b.mem| && p.write <= b.write
            && (Scan(p.mem, p.write, p.read) == NoFrame ==> DecodeRun(b, |ms| + 1) == Decoded(Done, p, AllStamped(ms)))
  {
    hide DecodeRun, Past, Frames, LastFrameMoves, WithinLimits, Sendable, Probe, Scan;
    var p := Past(b, ms);
    DecodePast(b, ms, tail, 1);
    UntouchedIff(p);
    if Scan(p.mem, p.write, p.read) == NoFrame {
      assert AllStamped(ms) + [] == AllStamped(ms);
      DecodesIn(b, |ms| + 1);
    } else if Decodable(b) && Leaves(b, ms, tail) {
      var n := |ms| + Iterations(b);
      MoreIterationsSame(b, Iterations(b), n);
      DecodePast(b, ms, tail, Iterations(b));
      DecodesIn(p, Iterations(b));
    }
  }

  /** decode returns the messages `ms` and leaves `tail`. */
  ghost predicate Leaves(b: Buffer, ms: seq<Message>, tail: seq<byte>)
    requires b.Ordered() && AllSendable(ms) && Decodable(b)
  {
    var r := DecodeRun(b, Iterations(b));
    r.out == AllStamped(ms) && r.buffer.Ordered() && r.buffer.Contents() == tail
  }

  lemma LastFrameStillMoves(b: Buffer, ms: seq<Message>, tail: seq<byte>)
    requires b.Valid() && AllSendable(ms) && AllWithinLimits(ms) && ms != []
    requires b.Contents() == Frame(ms[0]) + (Frames(ms[1..]) + tail) && LastFrameMoves(b, ms, tail)
    ensures b.read + FrameLength(ms[0]) < |b.mem|
    ensures Scan(b.mem, b.write, b.read).Found? && LastFrameMoves(Stepped(b), ms[1..], tail)
  {
    hide Parse, Frame, Scan, Probe, Stepped, Stamped, WithinLimits;
    FirstFrame(b, ms[0], Frames(ms[1..]) + tail);
    assert ms[|ms| - 1] == if |ms| == 1 then ms[0] else ms[1..][|ms| - 2];
    if |ms| != 1 {
      FramesEndWith(ms[1..]);
    }
  }

  /** The frames before one that fills the vector to its end are short enough never to trigger a compaction: decode
      then returns that last message again and again. */
  lemma {:induction false} DecodeFramesStuck(b: Buffer, ms: seq<Message>, n: nat)
    requires b.Valid() && AllSendable(ms) && AllWithinLimits(ms) && b.Contents() == Frames(ms)
    requires !LastFrameMoves(b, ms, [])
    ensures DecodeRun(b, n).outcome == Running
    decreases |ms|, n
  {
    hide Parse, Frame, Scan, Probe, Stepped, Stamped, WithinLimits, ReadMoved, DecodeRun;
    if n == 0 {
      assert DecodeRun(b, 0).outcome == Running by { NotStarted(b); }
    } else {
      FirstFrame(b, ms[0], Frames(ms[1..]));
      if |ms| == 1 {
        StuckForever(b, n);
      } else {
        RunStep(b, n - 1);
        FramesEndWith(ms[1..]);
        assert ms[1..][|ms| - 2] == ms[|ms| - 1];
        DecodeFramesStuck(Stepped(b), ms[1..], n - 1);
      }
    }
  }

  lemma NotStarted(b: Buffer)
    requires b.Ordered()
    ensures DecodeRun(b, 0).outcome == Running
  {
  }

  lemma {:induction false} FramesEndWith(ms: seq<Message>)
    requires AllSendable(ms) && ms != []
    ensures FrameLength(ms[|ms| - 1]) <= |Frames(ms)|
  {
    if |ms| != 1 {
      FramesEndWith(ms[1..]);
    }
  }

  /** Only messages within the limits come back as they were written. */
  lemma {:induction false} DeliveredWithinLimits(b: Buffer, ms: seq<Message>, n: nat)
    requires b.Valid() && AllSendable(ms) && b.Contents() == Frames(ms)
    requires DecodeRun(b, n).outcome == Done && DecodeRun(b, n).out == AllStamped(ms)
    ensures AllWithinLimits(ms)
    decreases |ms|, n
  {
    hide Parse, Frame, Scan, Probe, Stepped, Stamped, WithinLimits, ReadMoved, At;
    if ms != [] {
      var m, rest := ms[0], Frames(ms[1..]);
      FrameScan(b, m, rest);
      FrameParses(b.mem, b.read, m);
      AllStampedStep(ms);
      var p := Parse(b.mem, b.read, b.read + FrameLength(m) - 1, FrameLength(m));
      assert p.Ok? && DecodeRun(b, n).out[0] == p.value == Stamped(m);
      assert WithinLimits(m);
      FirstFrame(b, m, rest);
      if b.read + FrameLength(m) == |b.mem| {
        StuckForever(b, n);
      } else {
        assert DecodeRun(b, n).out == [p.value] + DecodeRun(Stepped(b), n - 1).out;
        assert DecodeRun(Stepped(b), n - 1).out == DecodeRun(b, n).out[1..] == AllStamped(ms[1..]);
        DeliveredWithinLimits(Stepped(b), ms[1..], n - 1);
      }
    }
  }

  /** A buffer that holds just frames decodes to their messages exactly when those are within the limits and the last frame
      does not end at the very end of the vector, or the frames before it have triggered a compaction. */
  lemma DecodeFramesIff(b: Buffer, ms: seq<Message>)
    requires b.Valid() && AllSendable(ms) && b.Contents() == Frames(ms)
    ensures Decodable(b) && DecodeRun(b, Iterations(b)).out == AllStamped(ms)
        <==> AllWithinLimits(ms) && LastFrameMoves(b, ms, [])
    ensures AllWithinLimits(ms) && LastFrameMoves(b, ms, []) ==>
              var r := DecodeRun(b, Iterations(b)); r.buffer.Valid() && r.buffer.Contents() == []
  {
    hide DecodeRun, Frames, LastFrameMoves, WithinLimits, Sendable, Past, Probe;
    if Decodable(b) && DecodeRun(b, Iterations(b)).out == AllStamped(ms) {
      DeliveredWithinLimits(b, ms, Iterations(b));
      if !LastFrameMoves(b, ms, []) {
        DecodeFramesStuck(b, ms, Iterations(b));
      }
    }
    if AllWithinLimits(ms) && LastFrameMoves(b, ms, []) {
      assert Frames(ms) + [] == Frames(ms);
      DecodeFrames(b, ms, []);
      DecodesIn(b, |ms| + 1);
    }
  }

  // ---- Garbage in front of a frame ----

  /** Bytes the scan passes over, then a frame no shorter than they are: as many bytes of the frame's end stay behind. */
  lemma GarbageStays(b: Buffer, g: seq<byte>, m: Message)
    requires b.Valid() && b.write < |b.mem| && Sendable(m) && b.Contents() == g + Frame(m) && |g| <= FrameLength(m)
    requires forall k :: b.read <= k < b.read + |g| ==> Probe(b.mem, b.write, k) == Skip
    ensures At(b.mem, b.read + |g|, Frame(m))
    ensures Scan(b.mem, b.write, b.read) == Found(b.read + |g|, b.write - 1, FrameLength(m))
    ensures Stepped(b).Contents() == Frame(m)[FrameLength(m) - |g|..]
  {
    hide Frame, Probe, Scan, At, FrameLength;
    FrameBehind(b, g, m);
    LongEnough(m);
    ScanPasses(b.mem, b.write, b.read, b.read + |g|);
    ScanAccepts(b.mem, b.write, b.read + |g|);
    ReadMovedContents(b, FrameLength(m));
    hide ReadMoved;
    assert b.Contents()[FrameLength(m)..] == Frame(m)[FrameLength(m) - |g|..];
  }

  lemma FrameBehind(b: Buffer, g: seq<byte>, m: Message)
    requires b.Valid() && Sendable(m) && b.Contents() == g + Frame(m)
    ensures At(b.mem, b.read + |g|, Frame(m)) && b.read + |g| + FrameLength(m) == b.write
    ensures b.mem[b.write - 1] == PB_END
    ensures Probe(b.mem, b.write, b.read + |g|) == Accept(b.write - 1, FrameLength(m))
  {
    hide Frame, FromNet, FrameLength;
    var at := b.read + |g|;
    assert b.mem[at..at + FrameLength(m)] == b.Contents()[|g|..];
    FrameStart(b.mem, at, m);
    LongEnough(m);
  }

  lemma ScanAccepts(mem: seq<byte>, write: nat, i: nat)
    requires i < write <= |mem| && Probe(mem, write, i).Accept?
    ensures Scan(mem, write, i) == Found(i, Probe(mem, write, i).end, Probe(mem, write, i).pkLen)
  {
  }

  lemma {:induction false} ScanPasses(mem: seq<byte>, write: nat, i: nat, at: nat)
    requires i <= at < write <= |mem| && forall k :: i <= k < at ==> Probe(mem, write, k) == Skip
    ensures Scan(mem, write, i) == Scan(mem, write, at)
    decreases at - i
  {
    hide Probe;
    if i < at {
      ScanPasses(mem, write, i + 1, at);
    }
  }

  /** The scan passes over these positions. */
  ghost predicate Passes(b: Buffer, n: nat)
    requires b.write <= |b.mem| && b.read + n <= b.write
  {
    forall k :: b.read <= k < b.read + n ==> Probe(b.mem, b.write, k) == Skip
  }

  /** Behind any bytes g no longer than it, a frame is found exactly if the scan passes over them. Then decode returns its
      message and leaves the last |g| bytes of the frame, exactly if the scan accepts no position of those. */
  lemma GarbageStaysIff(b: Buffer, g: seq<byte>, m: Message)
    requires b.Valid() && b.write < |b.mem| && Sendable(m) && WithinLimits(m)
    requires b.Contents() == g + Frame(m) && |g| <= FrameLength(m)
    ensures Passes(b, |g|) <==> Scan(b.mem, b.write, b.read) == Found(b.read + |g|, b.write - 1, FrameLength(m))
    ensures Passes(b, |g|) ==>
              var c, tail := Stepped(b), Frame(m)[FrameLength(m) - |g|..];
              && c.Contents() == tail
              && (Decodable(b) && Leaves(b, [m], tail) <==> Scan(c.mem, c.write, c.read) == NoFrame)
  {
    hide Frame, Parse, Probe, Scan, WithinLimits, FrameLength, Stepped, At, Stamped;
    if Passes(b, |g|) {
      GarbageStays(b, g, m);
      FrameBehind(b, g, m);
      FrameParses(b.mem, b.read + |g|, m);
      ProgressIff(b);
      OnlyMessage(b, m);
    }
  }

  /** decode on a buffer whose first frame is that of `m` returns just that exactly if nothing else is accepted. */
  lemma OnlyMessage(b: Buffer, m: Message)
    requires b.Valid() && Sendable(m) && Scan(b.mem, b.write, b.read).Found? && Stepped(b).Valid()
    requires var s := Scan(b.mem, b.write, b.read); Parse(b.mem, s.start, s.end, s.pkLen) == Ok(Stamped(m))
    ensures var c := Stepped(b);
            Decodable(b) && Leaves(b, [m], c.Contents()) <==> Scan(c.mem, c.write, c.read) == NoFrame
  {
    hide Parse, Probe, Scan, Stepped, Stamped, DecodeRun;
    var c := Stepped(b);
    UntouchedIff(c);
    assert AllStamped([m]) == [Stamped(m)];
    if Scan(c.mem, c.write, c.read) == NoFrame {
      RunStep(b, 1);
      assert [Stamped(m)] + [] == [Stamped(m)];
      DecodesIn(b, 2);
    } else if Decodable(b) {
      var n := Iterations(b);
      MoreIterationsSame(b, n, n + 1);
      RunStep(b, n);
      DecodesIn(c, n);
    }
  }

  /** One byte in front of a frame that is no start byte: the frame is returned, and its end byte is left in front of
      whatever comes next. */
  lemma GarbageByteStays(b: Buffer, x: byte, m: Message)
    requires b.Valid() && b.write < |b.mem| && Sendable(m) && WithinLimits(m) && b.Contents() == [x] + Frame(m)
    requires x != PB_START
    ensures Decodable(b) && Leaves(b, [m], [PB_END])
  {
    hide Frame, Parse, Probe, Scan, WithinLimits, FrameLength, Stepped, At, Decodable, Leaves;
    LongEnough(m);
    assert b.mem[b.read] == b.Contents()[0];
    SkipsOther(b.mem, b.write, b.read);
    GarbageStaysIff(b, [x], m);
    FrameBehind(b, [x], m);
    assert b.Contents()[FrameLength(m)] == b.mem[b.write - 1] && Frame(m)[FrameLength(m) - 1] == PB_END;
    assert Frame(m)[FrameLength(m) - 1..] == [PB_END];
    ProgressIff(b);
    OneOtherByte(Stepped(b));
  }

  lemma ContentsSlice(b: Buffer, i: nat, j: nat)
    requires b.Ordered() && i <= j <= b.Readable()
    ensures b.mem[b.read + i..b.read + j] == b.Contents()[i..j]
  {
  }

  lemma CopyAfterPart(b: Buffer, f: seq<byte>, p: nat)
    requires b.Ordered() && 5 <= p < |f| && b.Contents() == f[..p] + f
    ensures b.read + p + |f| == b.write && b.mem[b.read + 1..b.read + 5] == f[1..5]
    ensures forall k | b.read <= k < b.read + p :: b.mem[k] == f[k - b.read]
    ensures b.mem[b.read + |f| - 1] == f[|f| - 1 - p]
  {
    var c := b.Contents();
    ContentsSlice(b, 1, 5);
    assert c[1..5] == f[1..5];
    assert c[|f| - 1] == b.mem[b.read + |f| - 1];
    forall k | b.read <= k < b.read + p
      ensures b.mem[k] == f[k - b.read]
    {
      assert b.mem[k] == c[k - b.read];
    }
  }

  /** The first p bytes of a frame, as a partial write leaves them, and then the frame from its front: the frame is found behind
      them exactly if the scan passes over those p positions; decode then returns it and leaves its last p bytes in front of
      whatever comes next, exactly if the scan accepts no position of them. */
  lemma PartialFrameStays(b: Buffer, m: Message, p: nat)
    requires b.Valid() && b.write < |b.mem| && Sendable(m) && WithinLimits(m) && p <= FrameLength(m)
    requires b.Contents() == Frame(m)[..p] + Frame(m)
    ensures Passes(b, p) <==> Scan(b.mem, b.write, b.read) == Found(b.read + p, b.write - 1, FrameLength(m))
    ensures Passes(b, p) ==>
              var c, tail := Stepped(b), Frame(m)[FrameLength(m) - p..];
              && c.Contents() == tail
              && (Decodable(b) && Leaves(b, [m], tail) <==> Scan(c.mem, c.write, c.read) == NoFrame)
  {
    hide Frame, FrameLength, Stepped, Scan, Passes, WithinLimits, Decodable, Leaves;
    GarbageStaysIff(b, Frame(m)[..p], m);
  }

  /** It passes over them if the part holds the length and no second start byte, and its length points at no end byte. */
  lemma PartSkipped(b: Buffer, m: Message, p: nat)
    requires b.Valid() && Sendable(m) && 5 <= p < FrameLength(m) && b.Contents() == Frame(m)[..p] + Frame(m)
    requires (forall i | 1 <= i < p :: Frame(m)[i] != PB_START) && Frame(m)[FrameLength(m) - 1 - p] != PB_END
    ensures b.read + p < b.write && Passes(b, p)
  {
    hide Frame, FromNet, FrameLength, ToNet;
    FrameHead(m);
    NetRoundTrip(FrameLength(m));
    CopyAfterPart(b, Frame(m), p);
    forall k | b.read <= k < b.read + p
      ensures Probe(b.mem, b.write, k) == Skip
    {
      assert b.mem[k] == Frame(m)[k - b.read];
    }
  }

  lemma SkipsOther(mem: seq<byte>, write: nat, i: nat)
    requires i < write <= |mem| && mem[i] != PB_START
    ensures Probe(mem, write, i) == Skip
  {
  }

  lemma OneOtherByte(b: Buffer)
    requires b.Ordered() && b.Contents() == [PB_END]
    ensures Scan(b.mem, b.write, b.read) == NoFrame
  {
    assert b.mem[b.read] == b.Contents()[0];
  }
}
