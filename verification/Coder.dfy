/** TinyPBCoder: messages as objects, written into and read out of a TcpBuffer. */
module Coder {
  import opened Bytes
  import opened BufferModel
  import opened TcpBuffers
  import opened TinyPB
  import opened Decoding

  class TinyPBProtocol {
    var pkLen: int32
    var msgIdLen: int32
    var msgId: seq<byte>
    var methodNameLen: int32
    var methodName: seq<byte>
    var errCode: int32
    var errInfoLen: int32
    var errInfo: seq<byte>
    var pbData: seq<byte>
    var parseSuccess: bool

    constructor ()
      ensures Value() == EMPTY
    {
      pkLen, msgIdLen, methodNameLen, errCode, errInfoLen := 0, 0, 0, 0, 0;
      msgId, methodName, errInfo, pbData := [], [], [], [];
      parseSuccess := false;
    }

    function Value(): Message
      reads this
    {
      Message(pkLen, msgIdLen, msgId, methodNameLen, methodName, errCode, errInfoLen, errInfo, pbData, parseSuccess)
    }
  }

  function Values(ms: seq<TinyPBProtocol>): (r: seq<Message>)
    reads ms
    ensures |r| == |ms| && forall i | 0 <= i < |ms| :: r[i] == ms[i].Value()
  {
    seq(|ms|, i requires 0 <= i < |ms| reads ms => ms[i].Value())
  }

  lemma ValuesSnoc(ms: seq<TinyPBProtocol>, m: TinyPBProtocol)
    ensures Values(ms + [m]) == Values(ms) + [m.Value()]
  {
  }

  // ---- Encoding ----

  /** The positions from `from` to `to`, in order. */
  function Positions(from: nat, to: nat): (r: seq<nat>)
    requires from <= to
    ensures |r| == to - from && forall i | 0 <= i < |r| :: r[i] == from + i
  {
    seq(to - from, i => from + i)
  }

  /** memcpy at the write pointer, which then moves past what was copied. `filled` lists the positions written so far: none
      twice, and none left out, if they are all those before the pointer in order. */
  method Append(buf: array<byte>, tmp: nat, bytes: seq<byte>, ghost filled: seq<nat>)
    returns (next: nat, ghost after: seq<nat>)
    requires tmp + |bytes| <= buf.Length && filled == Positions(0, tmp)
    modifies buf
    ensures next == tmp + |bytes| && buf[..next] == old(buf[..tmp]) + bytes && after == Positions(0, next)
  {
    after := filled;
    for k := 0 to |bytes|
      invariant buf[..tmp + k] == old(buf[..tmp]) + bytes[..k]
      invariant after == Positions(0, tmp + k)
    {
      buf[tmp + k] := bytes[k];
      after := after + [tmp + k];
      assert buf[..tmp + k + 1] == buf[..tmp + k] + [bytes[k]];
      assert bytes[..k + 1] == bytes[..k] + [bytes[k]];
    }
    next := tmp + |bytes|;
    assert bytes[..|bytes|] == bytes;
  }

  /** An empty string is not copied. */
  method AppendString(buf: array<byte>, tmp: nat, s: seq<byte>, ghost filled: seq<nat>)
    returns (next: nat, ghost after: seq<nat>)
    requires tmp + |s| <= buf.Length && filled == Positions(0, tmp)
    modifies buf
    ensures next == tmp + |s| && buf[..next] == old(buf[..tmp]) + s && after == Positions(0, next)
  {
    next, after := tmp, filled;
    if s != [] {
      next, after := Append(buf, tmp, s, filled);
    }
  }

  lemma FrameFlattened(m: Message)
    requires Sendable(m)
    ensures Frame(m)
         == [] + [PB_START] + ToNet(FrameLength(m)) + ToNet(|SentId(m)|) + SentId(m) + ToNet(|m.methodName|) + m.methodName
            + ToNet(m.errCode) + ToNet(|m.errInfo|) + m.errInfo + m.pbData + ToNet(1) + [PB_END]
  {
    hide ToNet;
    var id, name, info := SentId(m), m.methodName, m.errInfo;
    Flattened([PB_START], ToNet(FrameLength(m)), ToNet(|id|), id, ToNet(|name|), name,
              ToNet(m.errCode), ToNet(|info|), info, m.pbData, ToNet(1), [PB_END]);
  }

  lemma Flattened(a: seq<byte>, b: seq<byte>, c: seq<byte>, d: seq<byte>, e: seq<byte>, f: seq<byte>,
                  g: seq<byte>, h: seq<byte>, i: seq<byte>, j: seq<byte>, k: seq<byte>, l: seq<byte>)
    ensures (a + b) + ((c + d) + ((e + f) + (g + ((h + i) + (j + (k + l))))))
         == [] + a + b + c + d + e + f + g + h + i + j + k + l
  {
    var r3 := g + ((h + i) + (j + (k + l)));
    assert r3 == g + h + i + j + k + l;
    var r1 := (c + d) + ((e + f) + r3);
    assert r1 == c + d + e + f + r3;
    assert r1 == c + d + e + f + g + h + i + j + k + l;
  }

  /** The part of encodeTinyPB that moves the write pointer over the allocated bytes: each position is written once, from the
      first to the last. */
  method WriteFrame(message: TinyPBProtocol, buf: array<byte>) returns (ghost filled: seq<nat>)
    requires Sendable(message.Value()) && message.msgId != [] && buf.Length == FrameLength(message.Value())
    modifies buf
    ensures buf[..] == Frame(message.Value()) && filled == Positions(0, buf.Length)
  {
    hide ToNet, Frame, Positions;
    ghost var m := message.Value();
    var id, name, info, data := message.msgId, message.methodName, message.errInfo, message.pbData;
    var tmp := 0;
    filled := Positions(0, 0);
    tmp, filled := Append(buf, tmp, [PB_START], filled);
    tmp, filled := Append(buf, tmp, ToNet(buf.Length), filled);
    tmp, filled := Append(buf, tmp, ToNet(|id|), filled);
    tmp, filled := AppendString(buf, tmp, id, filled);
    tmp, filled := Append(buf, tmp, ToNet(|name|), filled);
    tmp, filled := AppendString(buf, tmp, name, filled);
    tmp, filled := Append(buf, tmp, ToNet(message.errCode), filled);
    tmp, filled := Append(buf, tmp, ToNet(|info|), filled);
    tmp, filled := AppendString(buf, tmp, info, filled);
    tmp, filled := AppendString(buf, tmp, data, filled);
    tmp, filled := Append(buf, tmp, ToNet(1), filled);
    tmp, filled := Append(buf, tmp, [PB_END], filled);
    FrameFlattened(m);
    assert tmp == buf.Length && buf[..tmp] == buf[..];
  }

  method EncodeTinyPB(message: TinyPBProtocol) returns (buf: array<byte>, len: int)
    requires Sendable(message.Value())
    modifies message
    ensures fresh(buf) && len == buf.Length && buf[..] == Frame(old(message.Value()))
    ensures message.Value() == Stamped(old(message.Value()))
  {
    hide Frame, ToNet;
    ghost var m := message.Value();
    if message.msgId == [] {
      message.msgId := DEFAULT_MSG_ID;
    }
    SameFrame(m);
    assert message.Value() == m.(msgId := SentId(m));
    var length := 2 + 24 + |message.msgId| + |message.methodName| + |message.errInfo| + |message.pbData|;
    buf := new byte[length](_ => 0);
    ghost var filled := WriteFrame(message, buf);
    message.pkLen := length;
    message.msgIdLen := |message.msgId|;
    message.methodNameLen := |message.methodName|;
    message.errInfoLen := |message.errInfo|;
    message.parseSuccess := true;
    len := length;
  }

  lemma SameFrame(m: Message)
    requires Sendable(m)
    ensures var n := m.(msgId := SentId(m)); FrameLength(n) == FrameLength(m) && Frame(n) == Frame(m)
  {
  }

  /** A buffer after the frames of `ms` have been written to it one by one. */
  function Encoded(b: Buffer, ms: seq<Message>): (r: Buffer)
    requires b.Ordered() && AllSendable(ms)
    ensures r.Ordered()
  {
    if ms == [] then b else Written(Encoded(b, ms[..|ms| - 1]), Frame(ms[|ms| - 1]))
  }

  lemma {:induction false} EncodedContents(b: Buffer, ms: seq<Message>)
    requires b.Reachable() && AllSendable(ms)
    ensures Encoded(b, ms).Reachable() && Encoded(b, ms).Contents() == b.Contents() + Frames(ms)
  {
    hide Written, Frame, Frames, Buffer.Contents;
    if ms == [] {
      assert Frames(ms) == [] by { NoFrames(); }
    } else {
      var init, last := ms[..|ms| - 1], ms[|ms| - 1];
      assert ms == init + [last];
      EncodedContents(b, init);
      WrittenContents(Encoded(b, init), Frame(last));
      FramesSnoc(init, last);
      Regroup(b.Contents(), Frames(init), Frame(last));
    }
  }

  lemma EncodedStep(b: Buffer, ms: seq<Message>, i: nat)
    requires b.Ordered() && AllSendable(ms) && i < |ms|
    ensures Encoded(b, ms[..i + 1]) == Written(Encoded(b, ms[..i]), Frame(ms[i]))
  {
    assert ms[..i + 1][..i] == ms[..i];
  }

  method Encode(messages: seq<TinyPBProtocol>, out: TcpBuffer)
    requires out.State().Ordered() && AllSendable(Values(messages))
    modifies out, out.buffer, messages
    ensures out.State() == Encoded(old(out.State()), old(Values(messages)))
    ensures Values(messages) == AllStamped(old(Values(messages)))
    ensures out.buffer == old(out.buffer) || fresh(out.buffer)
  {
    hide Written, Frame, Stamped, Sendable, Encoded, TinyPBProtocol.Value;
    ghost var ms, b := Values(messages), out.State();
    assert b == Encoded(b, ms[..0]) by {
      EncodedNone(b);
    }
    for i := 0 to |messages|
      invariant out.State().Ordered() && out.State() == Encoded(b, ms[..i])
      invariant out.buffer == old(out.buffer) || fresh(out.buffer)
      invariant forall k | 0 <= k < |messages| :: messages[k].Value() == ms[k] || messages[k].Value() == Stamped(ms[k])
      invariant forall k | 0 <= k < i :: messages[k].Value() == Stamped(ms[k])
    {
      assert ms[i] in ms;
      StampedFrame(ms[i]);
      EncodedStep(b, ms, i);
      var buf, len := EncodeTinyPB(messages[i]);
      forall k | 0 <= k < |messages| && messages[k] == messages[i]
        ensures messages[k].Value() == Stamped(ms[k])
      {
        assert ms[k] == ms[i];
      }
      if len != 0 {
        assert buf[..len] == buf[..];
        out.WriteToBuffer(buf[..len]);
      }
    }
    assert ms[..|messages|] == ms;
  }

  lemma EncodedNone(b: Buffer)
    requires b.Ordered()
    ensures Encoded(b, []) == b
  {
  }

  /** Encoding a message a second time writes the same frame. */
  lemma StampedFrame(m: Message)
    requires Sendable(m)
    ensures Sendable(Stamped(m)) && Frame(Stamped(m)) == Frame(m) && Stamped(Stamped(m)) == Stamped(m)
  {
  }

  // ---- Decoding ----

  lemma {:induction false} CStringFrom(chars: seq<byte>, k: nat)
    requires k < |chars| && 0 !in chars[..k] && chars[k] == 0
    ensures CString(chars) == chars[..k]
  {
    if k != 0 {
      assert chars[0] in chars[..k];
      forall x | x in chars[1..][..k - 1]
        ensures x in chars[..k]
      {
        var i :| 0 <= i < k - 1 && chars[1..][i] == x;
        assert chars[..k][i + 1] == x;
      }
      CStringFrom(chars[1..], k - 1);
      assert chars[..k] == [chars[0]] + chars[1..][..k - 1];
    }
  }

  /** The zeros after the copied bytes do not show. */
  lemma {:induction false} CStringPadded(data: seq<byte>, n: nat)
    ensures CString(data + Zeros(n)) == CString(data)
  {
    if data == [] {
      assert data + Zeros(n) == Zeros(n);
    } else if data[0] != 0 {
      CStringPadded(data[1..], n);
      assert (data + Zeros(n))[1..] == data[1..] + Zeros(n);
    }
  }

  /** std::string(const char*): the characters up to the first NUL. */
  method ReadCString(chars: array<byte>) returns (s: seq<byte>)
    requires 0 in chars[..]
    ensures s == CString(chars[..])
  {
    hide CString;
    ghost var all := chars[..];
    var k := 0;
    while chars[k] != 0
      invariant 0 <= k < chars.Length && 0 !in all[..k]
      decreases chars.Length - k
    {
      k := k + 1;
      assert all[..k] == all[..k - 1] + [all[k - 1]];
      assert all[..chars.Length] == all;
    }
    CStringFrom(all, k);
    s := chars[..k];
  }

  lemma PaddedEnds(data: seq<byte>, size: nat)
    requires |data| <= size && (|data| < size || 0 in data)
    ensures 0 in data + Zeros(size - |data|)
  {
    if |data| < size {
      assert (data + Zeros(size - |data|))[|data|] == 0;
    }
  }

  /** memcpy into a zero-filled char array. */
  method CopyToArray(data: seq<byte>, size: nat) returns (chars: array<byte>)
    requires |data| <= size
    ensures fresh(chars) && chars[..] == data + Zeros(size - |data|)
  {
    chars := new byte[size](_ => 0);
    assert chars[..] == Zeros(size);
    PutBytes(chars, 0, data);
    assert Zeros(size)[|data|..] == Zeros(size - |data|);
  }

  /** The array is then read as a C string. */
  method CopyToString(src: seq<byte>, at: nat, count: int, size: nat) returns (s: seq<byte>)
    requires CopyOut(src, at, count, size).Ok?
    ensures CopyOut(src, at, count, size) == Ok(s)
  {
    hide CString;
    var data := src[at..at + count];
    var chars := CopyToArray(data, size);
    CStringPadded(data, size - count);
    PaddedEnds(data, size);
    hide Zeros;
    s := ReadCString(chars);
  }

  /** The part of decode that fills a message object from an accepted frame. */
  method ParseFrame(tmp: seq<byte>, start: nat, end: int, pkLen: int32) returns (message: TinyPBProtocol)
    requires !Parse(tmp, start, end, pkLen).Fault?
    ensures fresh(message) && message.parseSuccess == Parse(tmp, start, end, pkLen).Ok?
    ensures message.parseSuccess ==> message.Value() == Parse(tmp, start, end, pkLen).value
  {
    hide CopyOut, FromNet, ParseRest;
    message := new TinyPBProtocol();
    message.pkLen := pkLen;
    var idLenIndex := start + 1 + 4;
    if idLenIndex >= end {
      return;
    }
    var idLen := FromNet(tmp[idLenIndex..idLenIndex + 4]);
    message.msgIdLen := idLen;
    var idIndex := idLenIndex + 4;
    var id := CopyToString(tmp, idIndex, idLen, MSG_ID_SIZE);
    message.msgId := id;
    var nameLenIndex := idIndex + idLen;
    if nameLenIndex >= end {
      return;
    }
    var nameLen := FromNet(tmp[nameLenIndex..nameLenIndex + 4]);
    message.methodNameLen := nameLen;
    var nameIndex := nameLenIndex + 4;
    var name := CopyToString(tmp, nameIndex, nameLen, NAME_SIZE);
    message.methodName := name;
    ParseFields(message, tmp, nameIndex + nameLen, end);
  }

  /** The same from the error code on. */
  method ParseFields(message: TinyPBProtocol, tmp: seq<byte>, errCodeIndex: nat, end: int)
    requires !ParseRest(tmp, errCodeIndex, end, message.Value()).Fault? && !message.parseSuccess
    modifies message
    ensures var r := old(ParseRest(tmp, errCodeIndex, end, message.Value()));
            message.parseSuccess == r.Ok? && (r.Ok? ==> message.Value() == r.value)
  {
    hide CopyOut, FromNet;
    if errCodeIndex >= end {
      return;
    }
    var errCode := FromNet(tmp[errCodeIndex..errCodeIndex + 4]);
    message.errCode := errCode;
    var infoLenIndex := errCodeIndex + 4;
    if infoLenIndex >= end {
      return;
    }
    var infoLen := FromNet(tmp[infoLenIndex..infoLenIndex + 4]);
    message.errInfoLen := infoLen;
    var infoIndex := infoLenIndex + 4;
    var info := CopyToString(tmp, infoIndex, infoLen, INFO_SIZE);
    message.errInfo := info;
    var dataLen := message.pkLen - message.methodNameLen - message.msgIdLen - infoLen - 2 - 24;
    var dataIndex := infoIndex + infoLen;
    var data := tmp[dataIndex..dataIndex + dataLen];
    message.pbData := data;
    message.parseSuccess := true;
  }

  /** The inner loop of decode: the first position that passes the start, length and end tests. */
  method FindFrame(tmp: seq<byte>, start: nat, write: nat) returns (found: bool, from: nat, end: nat, pkLen: int32)
    requires start <= write <= |tmp| && !Scan(tmp, write, start).ScanFault?
    ensures found == Scan(tmp, write, start).Found?
    ensures found ==> Scan(tmp, write, start) == Found(from, end, pkLen)
  {
    hide FromNet;
    found, from, end, pkLen := false, start, 0, 0;
    var i := start;
    while i < write
      invariant start <= i <= write && Scan(tmp, write, start) == Scan(tmp, write, i)
    {
      if tmp[i] == PB_START {
        if i + 1 < write {
          pkLen := FromNet(tmp[i + 1..i + 5]);
          var j := i + pkLen - 1;
          if j >= write {
            i := i + 1;
            continue;
          }
          if tmp[j] == PB_END {
            return true, i, j, pkLen;
          }
        }
      }
      i := i + 1;
    }
  }

  lemma DecodeStep(b: Buffer, n: nat)
    requires b.Ordered() && DecodeRun(b, n).outcome == Done
    ensures 0 < n && !Scan(b.mem, b.write, b.read).ScanFault?
    ensures Scan(b.mem, b.write, b.read).NoFrame? ==> DecodeRun(b, n).buffer == b && DecodeRun(b, n).out == []
    ensures Scan(b.mem, b.write, b.read).Found? ==>
              var s := Scan(b.mem, b.write, b.read);
              var p, rest := Parse(b.mem, s.start, s.end, s.pkLen), DecodeRun(Stepped(b), n - 1);
              && !p.Fault? && rest.outcome == Done && DecodeRun(b, n).buffer == rest.buffer
              && DecodeRun(b, n).out == (if p.Ok? then [p.value] else []) + rest.out
  {
    hide Parse, Scan, Stepped;
  }

  /** decode is defined on the buffers it comes to an end on; there it appends the messages of `DecodeRun`. */
  method Decode(outMessages: seq<TinyPBProtocol>, buffer: TcpBuffer) returns (out: seq<TinyPBProtocol>)
    requires buffer.State().Ordered() && Decodable(buffer.State())
    modifies buffer
    ensures outMessages <= out && forall m <- out[|outMessages|..] :: fresh(m)
    ensures var r := DecodeRun(old(buffer.State()), Iterations(old(buffer.State())));
            buffer.State() == r.buffer && Values(out[|outMessages|..]) == r.out
    ensures buffer.buffer == old(buffer.buffer) || fresh(buffer.buffer)
  {
    hide Parse, Scan, Probe, ReadMoved, DecodeRun, Iterations, TinyPBProtocol.Value, Values;
    ghost var left := Iterations(buffer.State());
    ghost var result := DecodeRun(buffer.State(), left);
    var added: seq<TinyPBProtocol> := [];
    while true
      invariant buffer.State().Ordered() && (buffer.buffer == old(buffer.buffer) || fresh(buffer.buffer))
      invariant forall m <- added :: fresh(m)
      invariant DecodeRun(buffer.State(), left).outcome == Done
      invariant DecodeRun(buffer.State(), left).buffer == result.buffer
      invariant Values(added) + DecodeRun(buffer.State(), left).out == result.out
      decreases left
    {
      ghost var b, before := buffer.State(), Values(added);
      DecodeStep(b, left);
      var tmp := buffer.buffer[..];
      var found, start, end, pkLen := FindFrame(tmp, buffer.readIndex, buffer.writeIndex);
      if !found {
        out := outMessages + added;
        assert out[|outMessages|..] == added;
        return;
      }
      buffer.MoveReadIndex(end as int - start + 1);
      assert buffer.State() == Stepped(b);
      var message := ParseFrame(tmp, start, end, pkLen);
      left := left - 1;
      assert Values(added) == before;
      if message.parseSuccess {
        ValuesSnoc(added, message);
        added := added + [message];
      }
    }
  }

  // ---- Encoding, then decoding ----

  /** Encoding messages into a buffer with nothing to read and decoding that buffer returns the messages as encoding left
      them, in order, and leaves nothing to read. This holds exactly when all of them are within the parser's limits and the
      last frame does not end at the very end of the vector, or the frames before it reach a third of it. */
  lemma RoundTripIff(b: Buffer, ms: seq<Message>)
    requires b.Reachable() && b.Contents() == [] && AllSendable(ms) && Encoded(b, ms).Valid()
    ensures var e := Encoded(b, ms);
            && (Decodable(e) && Leaves(e, ms, []) <==> AllWithinLimits(ms) && LastFrameMoves(e, ms, []))
            && (Decodable(e) && DecodeRun(e, Iterations(e)).out == AllStamped(ms) <==> Decodable(e) && Leaves(e, ms, []))
  {
    hide Encoded, Frames, DecodeRun, LastFrameMoves, WithinLimits;
    EncodedContents(b, ms);
    var e := Encoded(b, ms);
    assert e.Contents() == Frames(ms);
    DecodeFramesIff(e, ms);
  }

  /** Field by field: wherever the round trip succeeds, the i-th message decoded has the id, name, error and payload of the
      i-th sent (a missing id replaced by 123456789), the lengths of these, the length of its frame, and counts as parsed. That
      needs ids shorter than 100 bytes, names and error texts shorter than 512, and no NUL in any of them. */
  lemma RoundTripFields(b: Buffer, ms: seq<Message>, i: nat)
    requires b.Reachable() && b.Contents() == [] && AllSendable(ms) && Encoded(b, ms).Valid() && i < |ms|
    requires var e := Encoded(b, ms); Decodable(e) && DecodeRun(e, Iterations(e)).out == AllStamped(ms)
    ensures var e, m := Encoded(b, ms), ms[i];
            var r := DecodeRun(e, Iterations(e)).out[i];
            var id := if m.msgId == [] then [49, 50, 51, 52, 53, 54, 55, 56, 57] else m.msgId;
            && r.msgId == id && r.methodName == m.methodName && r.pbData == m.pbData
            && r.errCode == m.errCode && r.errInfo == m.errInfo && r.parseSuccess
            && r.pkLen == |Frame(m)| && r.msgIdLen == |id| && r.methodNameLen == |m.methodName| && r.errInfoLen == |m.errInfo|
            && |id| < 100 && |m.methodName| < 512 && |m.errInfo| < 512
            && 0 !in id + m.methodName + m.errInfo
  {
    RoundTripIff(b, ms);
    assert ms[i] in ms;
    hide Encoded, DecodeRun, Decodable, Iterations, Frame;
  }

  /** A single frame that fills a fresh buffer exactly is decoded over and over: the condition above can fail. */
  lemma ExactFitNeverEnds(m: Message, n: nat)
    requires Sendable(m) && WithinLimits(m)
    ensures DecodeRun(Encoded(Fresh(FrameLength(m)), [m]), n).outcome == Running
  {
    hide Frame, DecodeRun, WithinLimits, Encoded;
    var b := Fresh(FrameLength(m));
    EncodedContents(b, [m]);
    ExactFit(m);
    assert Frames([m]) == Frame(m) + [] == Frame(m);
    assert b.Contents() + Frames([m]) == Frames([m]);
    DecodeFramesStuck(Encoded(b, [m]), [m], n);
  }

  lemma ExactFit(m: Message)
    requires Sendable(m)
    ensures var e := Encoded(Fresh(FrameLength(m)), [m]); e.read == 0 && e.write == |e.mem| == FrameLength(m)
  {
    hide Frame;
    assert [m][..0] == [];
  }
}
