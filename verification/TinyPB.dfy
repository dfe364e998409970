/** TinyPB messages, the frame that carries one, and the parser of one frame. */
module TinyPB {
  import opened Bytes

  const PB_START: byte := 0x02
  const PB_END: byte := 0x03

  /** "123456789" */
  const DEFAULT_MSG_ID: seq<byte> := [49, 50, 51, 52, 53, 54, 55, 56, 57]

  const MSG_ID_SIZE: nat := 100
  const NAME_SIZE: nat := 512
  const INFO_SIZE: nat := 512

  /** The fields of a TinyPBProtocol object. */
  datatype Message = Message(
    pkLen: int32,
    msgIdLen: int32,
    msgId: seq<byte>,
    methodNameLen: int32,
    methodName: seq<byte>,
    errCode: int32,
    errInfoLen: int32,
    errInfo: seq<byte>,
    pbData: seq<byte>,
    parseSuccess: bool)

  /** A message object just constructed. */
  const EMPTY: Message := Message(0, 0, [], 0, [], 0, 0, [], [], false)

  function SentId(m: Message): seq<byte> { if m.msgId == [] then DEFAULT_MSG_ID else m.msgId }

  function FrameLength(m: Message): nat {
    2 + 24 + |SentId(m)| + |m.methodName| + |m.errInfo| + |m.pbData|
  }

  lemma LongEnough(m: Message)
    ensures 26 <= FrameLength(m)
  {
  }

  /** The lengths are written as 32-bit integers. */
  predicate Sendable(m: Message) { FrameLength(m) <= INT_MAX }

  /** The message object as encodeTinyPB leaves it. */
  function Stamped(m: Message): (r: Message)
    requires Sendable(m)
    ensures r.msgId != [] && Sendable(r) && FrameLength(r) == FrameLength(m)
  {
    m.(pkLen := FrameLength(m),
       msgIdLen := |SentId(m)|,
       msgId := SentId(m),
       methodNameLen := |m.methodName|,
       errInfoLen := |m.errInfo|,
       parseSuccess := true)
  }

  function Frame(m: Message): (f: seq<byte>)
    requires Sendable(m)
    ensures |f| == FrameLength(m)
  {
    ([PB_START] + ToNet(FrameLength(m))) +
    (Field(SentId(m)) +
     (Field(m.methodName) +
      (ToNet(m.errCode) +
       (Field(m.errInfo) +
        (m.pbData +
         (ToNet(1) + [PB_END]))))))
  }

  lemma FrameHead(m: Message)
    requires Sendable(m)
    ensures Frame(m)[0] == PB_START && Frame(m)[1..5] == ToNet(FrameLength(m))
  {
    hide Field, ToNet;
  }

  /** A string on the wire, after its length. */
  function Field(s: seq<byte>): (f: seq<byte>)
    requires |s| <= INT_MAX
    ensures |f| == 4 + |s|
  {
    ToNet(|s|) + s
  }

  // ---- Parsing ----

  /** `Malformed`: the parser logs an error and gives the frame up.
      `Fault`: it reaches outside an array, or asks for a negative number of bytes. */
  datatype Parsed<+T> = Ok(value: T) | Malformed | Fault {
    predicate IsFailure() { !Ok? }
    function PropagateFailure<U>(): Parsed<U>
      requires IsFailure()
    {
      if Malformed? then Malformed else Fault
    }
    function Extract(): T
      requires Ok?
    {
      value
    }
  }

  /** A length or code at `at`, checked only against the index of the end byte. */
  function ReadInt(mem: seq<byte>, at: nat, end: int): Parsed<int32> {
    if at >= end then Malformed
    else if at + 4 > |mem| then Fault
    else Ok(FromNet(mem[at..at + 4]))
  }

  /** std::string made from a char array: up to the first NUL. */
  function CString(s: seq<byte>): seq<byte> {
    if s == [] || s[0] == 0 then [] else [s[0]] + CString(s[1..])
  }

  /** `count` bytes copied into a zero-filled array of `size`, then read back as a C string. */
  function CopyOut(mem: seq<byte>, at: nat, count: int, size: nat): (r: Parsed<seq<byte>>)
    ensures !r.Malformed?
    ensures r.Ok? ==> 0 <= count <= size && at + count <= |mem|
  {
    if count < 0 || count > size || at + count > |mem| then Fault
    else
      var data := mem[at..at + count];
      if count == size && 0 !in data then Fault else Ok(CString(data))
  }

  function Slice(mem: seq<byte>, at: nat, count: int): Parsed<seq<byte>> {
    if count < 0 || at + count > |mem| then Fault else Ok(mem[at..at + count])
  }

  /** From the error code on, `m` being the message as far as it has been read. */
  function ParseRest(mem: seq<byte>, at: nat, end: int, m: Message): Parsed<Message> {
    var errCode :- ReadInt(mem, at, end);
    var infoLen :- ReadInt(mem, at + 4, end);
    var info :- CopyOut(mem, at + 8, infoLen, INFO_SIZE);
    var data :- Slice(mem, at + 8 + infoLen, m.pkLen - m.methodNameLen - m.msgIdLen - infoLen - 2 - 24);
    Ok(m.(errCode := errCode, errInfoLen := infoLen, errInfo := info, pbData := data, parseSuccess := true))
  }

  /** The frame between `start` and `end`, read from the copy of the buffer taken before the read index moved. */
  function Parse(mem: seq<byte>, start: nat, end: int, pkLen: int32): Parsed<Message> {
    var idLen :- ReadInt(mem, start + 5, end);
    var msgId :- CopyOut(mem, start + 9, idLen, MSG_ID_SIZE);
    var nameLenAt := start + 9 + idLen;
    var nameLen :- ReadInt(mem, nameLenAt, end);
    var name :- CopyOut(mem, nameLenAt + 4, nameLen, NAME_SIZE);
    ParseRest(mem, nameLenAt + 4 + nameLen, end, Message(pkLen, idLen, msgId, nameLen, name, 0, 0, [], [], false))
  }

  /** What the fixed-size arrays and C strings of the parser leave intact. */
  predicate WithinLimits(m: Message) {
    && |SentId(m)| < MSG_ID_SIZE && 0 !in SentId(m)
    && |m.methodName| < NAME_SIZE && 0 !in m.methodName
    && |m.errInfo| < INFO_SIZE && 0 !in m.errInfo
  }

  lemma {:induction false} CStringKeeps(s: seq<byte>)
    ensures CString(s) == s <==> 0 !in s
    ensures |CString(s)| <= |s| && 0 !in CString(s)
  {
    if s != [] && s[0] != 0 {
      CStringKeeps(s[1..]);
      assert s == [s[0]] + s[1..];
    }
  }

  /** `part` lies at `at` in `mem`. */
  predicate At(mem: seq<byte>, at: nat, part: seq<byte>) {
    at + |part| <= |mem| && mem[at..at + |part|] == part
  }

  lemma CopyOutKeeps(mem: seq<byte>, at: nat, x: seq<byte>, size: nat)
    requires At(mem, at, x)
    ensures CopyOut(mem, at, |x|, size) == Ok(x) <==> |x| < size && 0 !in x
    ensures CopyOut(mem, at, |x|, size) != Malformed
  {
    CStringKeeps(x);
  }

  lemma AtSplit(mem: seq<byte>, at: nat, a: seq<byte>, b: seq<byte>)
    requires At(mem, at, a + b)
    ensures At(mem, at, a) && At(mem, at + |a|, b)
  {
    var s := mem[at..at + |a + b|];
    assert mem[at..at + |a|] == s[..|a|] == a;
    assert mem[at + |a|..at + |a| + |b|] == s[|a|..] == b;
  }

  /** Seven parts in a row. */
  lemma AtParts(mem: seq<byte>, at: nat, a: seq<byte>, b: seq<byte>, c: seq<byte>, d: seq<byte>, e: seq<byte>,
                f: seq<byte>, g: seq<byte>)
    requires At(mem, at, a + (b + (c + (d + (e + (f + g))))))
    ensures At(mem, at, a) && At(mem, at + |a|, b) && At(mem, at + |a| + |b|, c)
    ensures At(mem, at + |a| + |b| + |c|, d) && At(mem, at + |a| + |b| + |c| + |d|, e)
    ensures At(mem, at + |a| + |b| + |c| + |d| + |e|, f)
    ensures At(mem, at + |a| + |b| + |c| + |d| + |e| + |f|, g)
  {
    AtSplit(mem, at, a, b + (c + (d + (e + (f + g)))));
    AtSplit(mem, at + |a|, b, c + (d + (e + (f + g))));
    AtSplit(mem, at + |a| + |b|, c, d + (e + (f + g)));
    AtSplit(mem, at + |a| + |b| + |c|, d, e + (f + g));
    AtSplit(mem, at + |a| + |b| + |c| + |d|, e, f + g);
    AtSplit(mem, at + |a| + |b| + |c| + |d| + |e|, f, g);
  }

  ghost predicate FieldAt(mem: seq<byte>, at: nat, s: seq<byte>)
    requires |s| <= INT_MAX
  {
    At(mem, at, ToNet(|s|)) && At(mem, at + 4, s)
  }

  /** Where each field of a frame lies. */
  ghost predicate LaidOut(mem: seq<byte>, at: nat, m: Message)
    requires Sendable(m)
  {
    var a, b, c := |SentId(m)|, |m.methodName|, |m.errInfo|;
    && at + FrameLength(m) <= |mem|
    && mem[at] == PB_START
    && At(mem, at + 1, ToNet(FrameLength(m)))
    && FieldAt(mem, at + 5, SentId(m))
    && FieldAt(mem, at + 9 + a, m.methodName)
    && At(mem, at + 13 + a + b, ToNet(m.errCode))
    && FieldAt(mem, at + 17 + a + b, m.errInfo)
    && At(mem, at + 21 + a + b + c, m.pbData)
    && mem[at + FrameLength(m) - 1] == PB_END
  }

  /** The seven parts of a frame. */
  lemma FrameParts(mem: seq<byte>, at: nat, m: Message)
    requires Sendable(m) && At(mem, at, Frame(m))
    ensures var a, b, c := |SentId(m)|, |m.methodName|, |m.errInfo|;
            && at + FrameLength(m) <= |mem|
            && At(mem, at, [PB_START] + ToNet(FrameLength(m)))
            && At(mem, at + 5, Field(SentId(m))) && At(mem, at + 9 + a, Field(m.methodName))
            && At(mem, at + 13 + a + b, ToNet(m.errCode)) && At(mem, at + 17 + a + b, Field(m.errInfo))
            && At(mem, at + 21 + a + b + c, m.pbData)
            && At(mem, at + FrameLength(m) - 5, ToNet(1) + [PB_END])
  {
    assert at + |Frame(m)| <= |mem|;
    hide ToNet, At, SentId, Field;
    AtParts(mem, at, [PB_START] + ToNet(FrameLength(m)), Field(SentId(m)), Field(m.methodName), ToNet(m.errCode),
            Field(m.errInfo), m.pbData, ToNet(1) + [PB_END]);
  }

  lemma FrameLayout(mem: seq<byte>, at: nat, m: Message)
    requires Sendable(m) && At(mem, at, Frame(m))
    ensures LaidOut(mem, at, m)
  {
    hide ToNet, At, SentId, Frame;
    FrameParts(mem, at, m);
    var id, name, info := SentId(m), m.methodName, m.errInfo;
    AtSplit(mem, at, [PB_START], ToNet(FrameLength(m)));
    AtSplit(mem, at + 5, ToNet(|id|), id);
    AtSplit(mem, at + 9 + |id|, ToNet(|name|), name);
    AtSplit(mem, at + 17 + |id| + |name|, ToNet(|info|), info);
    AtSplit(mem, at + FrameLength(m) - 5, ToNet(1), [PB_END]);
    AtOne(mem, at, PB_START);
    AtOne(mem, at + FrameLength(m) - 1, PB_END);
  }

  /** Four bytes at `at` that make up the integer v, most significant first, in two's complement. */
  predicate IntAt(f: seq<byte>, at: nat, v: int32) {
    && at + 4 <= |f|
    && f[at] as int * 0x100_0000 + f[at + 1] as int * 0x1_0000 + f[at + 2] as int * 0x100 + f[at + 3]
       == if v < 0 then v + 0x1_0000_0000 else v
  }

  lemma IntThere(f: seq<byte>, at: nat, v: int32)
    requires At(f, at, ToNet(v))
    ensures IntAt(f, at, v)
  {
    NetBigEndian(v);
    hide ToNet;
    var b := f[at..at + 4];
    assert b[0] == f[at] && b[1] == f[at + 1] && b[2] == f[at + 2] && b[3] == f[at + 3];
  }

  /** The integer read there is the only one the four bytes make up. */
  lemma IntAtIff(f: seq<byte>, at: nat, v: int32)
    requires at + 4 <= |f|
    ensures IntAt(f, at, v) <==> FromNet(f[at..at + 4]) == v
  {
    var b := f[at..at + 4];
    assert b[0] == f[at] && b[1] == f[at + 1] && b[2] == f[at + 2] && b[3] == f[at + 3];
    NetRoundTripBytes(b);
    NetBigEndian(FromNet(b));
    hide ToNet, FromNet;
  }

  /** What is on the wire, byte by byte: the start byte 2, the length of the whole frame, the id after its length, the name
      after its length, the error code, the error text after its length, the payload, four bytes 0, 0, 0, 1 in the place of a
      checksum, and the end byte 3. */
  lemma WireFormat(m: Message)
    requires Sendable(m)
    ensures var f, id := Frame(m), if m.msgId == [] then [49, 50, 51, 52, 53, 54, 55, 56, 57] else m.msgId;
            var a, b, c, n := |id|, |m.methodName|, |m.errInfo|, |m.pbData|;
            && |f| == 26 + a + b + c + n && f[0] == 2 && IntAt(f, 1, |f|)
            && IntAt(f, 5, a) && f[9..9 + a] == id
            && IntAt(f, 9 + a, b) && f[13 + a..13 + a + b] == m.methodName
            && IntAt(f, 13 + a + b, m.errCode)
            && IntAt(f, 17 + a + b, c) && f[21 + a + b..21 + a + b + c] == m.errInfo
            && f[21 + a + b + c..21 + a + b + c + n] == m.pbData
            && f[|f| - 5..] == [0, 0, 0, 1, 3]
  {
    hide Frame, ToNet, IntAt;
    WireInts(m);
    WireStrings(m);
  }

  lemma WireInts(m: Message)
    requires Sendable(m)
    ensures var f, a, b, c := Frame(m), |SentId(m)|, |m.methodName|, |m.errInfo|;
            && IntAt(f, 1, |f|) && IntAt(f, 5, a) && IntAt(f, 9 + a, b) && IntAt(f, 13 + a + b, m.errCode)
            && IntAt(f, 17 + a + b, c)
  {
    hide Frame, ToNet, IntAt;
    var f, a, b, c := Frame(m), |SentId(m)|, |m.methodName|, |m.errInfo|;
    assert At(f, 0, f);
    FrameLayout(f, 0, m);
    IntThere(f, 1, FrameLength(m));
    IntThere(f, 5, a);
    IntThere(f, 9 + a, b);
    IntThere(f, 13 + a + b, m.errCode);
    IntThere(f, 17 + a + b, c);
  }

  lemma WireStrings(m: Message)
    requires Sendable(m)
    ensures var f, a, b, c, n := Frame(m), |SentId(m)|, |m.methodName|, |m.errInfo|, |m.pbData|;
            && |f| == 26 + a + b + c + n && f[0] == 2
            && f[9..9 + a] == SentId(m) && f[13 + a..13 + a + b] == m.methodName
            && f[21 + a + b..21 + a + b + c] == m.errInfo && f[21 + a + b + c..21 + a + b + c + n] == m.pbData
            && f[|f| - 5..] == [0, 0, 0, 1, 3]
  {
    hide Frame, ToNet, SentId, Field, At;
    var f, a, b, c, n := Frame(m), |SentId(m)|, |m.methodName|, |m.errInfo|, |m.pbData|;
    AtAll(f);
    FrameLayout(f, 0, m);
    FrameParts(f, 0, m);
    SliceAt(f, 9, SentId(m));
    SliceAt(f, 13 + a, m.methodName);
    SliceAt(f, 21 + a + b, m.errInfo);
    SliceAt(f, 21 + a + b + c, m.pbData);
    SliceAt(f, |f| - 5, ToNet(1) + [PB_END]);
    NetOne();
  }

  lemma AtAll(f: seq<byte>)
    ensures At(f, 0, f)
  {
  }

  lemma SliceAt(f: seq<byte>, at: nat, x: seq<byte>)
    requires At(f, at, x)
    ensures at + |x| <= |f| && f[at..at + |x|] == x
  {
  }

  lemma NetOne()
    ensures ToNet(1) == [0, 0, 0, 1]
  {
  }

  lemma AtOne(mem: seq<byte>, at: nat, x: byte)
    requires At(mem, at, [x])
    ensures at < |mem| && mem[at] == x
  {
    assert mem[at..at + 1][0] == x;
  }

  lemma SliceBack(mem: seq<byte>, at: nat, x: seq<byte>)
    requires At(mem, at, x)
    ensures Slice(mem, at, |x|) == Ok(x)
  {
  }

  lemma ReadIntBack(mem: seq<byte>, at: nat, end: int, v: int32)
    requires At(mem, at, ToNet(v)) && at < end
    ensures ReadInt(mem, at, end) == Ok(v)
  {
    NetRoundTrip(v);
  }

  /** A frame parses back to its message, lengths filled in, exactly when the message is within the limits. */
  lemma FrameParses(mem: seq<byte>, at: nat, m: Message)
    requires Sendable(m) && At(mem, at, Frame(m))
    ensures Parse(mem, at, at + FrameLength(m) - 1, FrameLength(m)) == Ok(Stamped(m)) <==> WithinLimits(m)
    ensures Parse(mem, at, at + FrameLength(m) - 1, FrameLength(m)) != Malformed
  {
    FrameLayout(mem, at, m);
    LayoutParses(mem, at, m);
  }

  lemma LayoutParses(mem: seq<byte>, at: nat, m: Message)
    requires Sendable(m) && LaidOut(mem, at, m)
    ensures Parse(mem, at, at + FrameLength(m) - 1, FrameLength(m)) == Ok(Stamped(m)) <==> WithinLimits(m)
    ensures Parse(mem, at, at + FrameLength(m) - 1, FrameLength(m)) != Malformed
  {
    var a, b, c := |SentId(m)|, |m.methodName|, |m.errInfo|;
    hide ToNet, At, ReadInt, CopyOut, CString, Slice;
    var end := at + FrameLength(m) - 1;
    ReadIntBack(mem, at + 5, end, a);
    CopyOutKeeps(mem, at + 9, SentId(m), MSG_ID_SIZE);
    ReadIntBack(mem, at + 9 + a, end, b);
    CopyOutKeeps(mem, at + 13 + a, m.methodName, NAME_SIZE);
    ReadIntBack(mem, at + 13 + a + b, end, m.errCode);
    ReadIntBack(mem, at + 17 + a + b, end, c);
    CopyOutKeeps(mem, at + 21 + a + b, m.errInfo, INFO_SIZE);
    SliceBack(mem, at + 21 + a + b + c, m.pbData);
  }

  // ---- Any bytes at all ----

  /** `s` is what std::string(const char*) makes of these bytes copied into a zeroed array of `size`. */
  predicate TextOf(data: seq<byte>, size: nat, s: seq<byte>) {
    && |data| <= size && s <= data && 0 !in s
    && if |s| < |data| then data[|s|] == 0 else |data| < size
  }

  lemma {:induction false} CStringIs(data: seq<byte>, s: seq<byte>)
    ensures s == CString(data) <==> s <= data && 0 !in s && (|s| < |data| ==> data[|s|] == 0)
  {
    if data != [] && data[0] != 0 {
      if s != [] {
        CStringIs(data[1..], s[1..]);
        assert s == [s[0]] + s[1..] && data == [data[0]] + data[1..];
      }
    } else {
      assert data != [] && s != [] && s <= data ==> s[0] == 0 && 0 in s;
    }
  }

  lemma TextIff(mem: seq<byte>, at: nat, count: int, size: nat, s: seq<byte>)
    ensures CopyOut(mem, at, count, size) == Ok(s) <==>
            0 <= count && at + count <= |mem| && TextOf(mem[at..at + count], size, s)
  {
    hide CString;
    if 0 <= count && at + count <= |mem| {
      var data := mem[at..at + count];
      CStringIs(data, s);
      CStringIs(data, CString(data));
      if |s| < |data| && data[|s|] == 0 {
        assert 0 in data;
      }
    }
  }

  /** The parser makes `m` of the bytes behind `start`: id, name and error text each after its length, shorter than their arrays
      or NUL-terminated inside them, and as much payload as the frame's length leaves; every length and the error code begin
      before the frame's last byte. */
  predicate ReadsAs(mem: seq<byte>, start: nat, end: int, pkLen: int32, m: Message) {
    var a, b, c := m.msgIdLen as int, m.methodNameLen as int, m.errInfoLen as int;
    var n := pkLen - a - b - c - 26;
    && m.pkLen == pkLen && m.parseSuccess && 0 <= a && 0 <= b && 0 <= c && 0 <= n
    && start + 17 + a + b < end && start + 21 + a + b + c + n <= |mem|
    && IntAt(mem, start + 5, a) && TextOf(mem[start + 9..start + 9 + a], 100, m.msgId)
    && IntAt(mem, start + 9 + a, b) && TextOf(mem[start + 13 + a..start + 13 + a + b], 512, m.methodName)
    && IntAt(mem, start + 13 + a + b, m.errCode)
    && IntAt(mem, start + 17 + a + b, c) && TextOf(mem[start + 21 + a + b..start + 21 + a + b + c], 512, m.errInfo)
    && m.pbData == mem[start + 21 + a + b + c..start + 21 + a + b + c + n]
  }

  lemma ReadIff(mem: seq<byte>, at: nat, end: int, v: int32)
    ensures ReadInt(mem, at, end) == Ok(v) <==> at < end && IntAt(mem, at, v)
  {
    hide FromNet;
    if at + 4 <= |mem| {
      IntAtIff(mem, at, v);
    }
  }

  lemma SliceIff(mem: seq<byte>, at: nat, count: int, s: seq<byte>)
    ensures Slice(mem, at, count) == Ok(s) <==> 0 <= count && at + count <= |mem| && s == mem[at..at + count]
  {
  }

  lemma RestIff(mem: seq<byte>, at: nat, end: int, p: Message, m: Message)
    ensures ParseRest(mem, at, end, p) == Ok(m) <==>
            var c := m.errInfoLen as int; var n := p.pkLen - p.methodNameLen - p.msgIdLen - c - 26;
            && 0 <= c && 0 <= n && at + 4 < end && at + 8 + c + n <= |mem|
            && IntAt(mem, at, m.errCode) && IntAt(mem, at + 4, c) && TextOf(mem[at + 8..at + 8 + c], 512, m.errInfo)
            && m.pbData == mem[at + 8 + c..at + 8 + c + n]
            && m == p.(errCode := m.errCode, errInfoLen := c, errInfo := m.errInfo, pbData := m.pbData, parseSuccess := true)
  {
    hide ReadInt, IntAt, CopyOut, TextOf, Slice;
    var c := m.errInfoLen as int;
    ReadIff(mem, at, end, m.errCode);
    ReadIff(mem, at + 4, end, c);
    TextIff(mem, at + 8, c, 512, m.errInfo);
    if 0 <= c {
      SliceIff(mem, at + 8 + c, p.pkLen - p.methodNameLen - p.msgIdLen - c - 26, m.pbData);
    }
  }

  lemma ParsedFields(mem: seq<byte>, start: nat, end: int, pkLen: int32)
    requires Parse(mem, start, end, pkLen).Ok?
    ensures var m := Parse(mem, start, end, pkLen).value;
            && ReadInt(mem, start + 5, end) == Ok(m.msgIdLen) && CopyOut(mem, start + 9, m.msgIdLen, MSG_ID_SIZE) == Ok(m.msgId)
            && ReadInt(mem, start + 9 + m.msgIdLen, end) == Ok(m.methodNameLen)
            && CopyOut(mem, start + 13 + m.msgIdLen, m.methodNameLen, NAME_SIZE) == Ok(m.methodName)
  {
    hide ReadInt, CopyOut, Slice;
  }

  /** The parser succeeds with a message exactly if the bytes, whoever wrote them, read as it. */
  lemma ParsesIff(mem: seq<byte>, start: nat, end: int, pkLen: int32, m: Message)
    ensures Parse(mem, start, end, pkLen) == Ok(m) <==> ReadsAs(mem, start, end, pkLen, m)
  {
    hide ReadInt, IntAt, CopyOut, TextOf, ParseRest;
    var a, b := m.msgIdLen as int, m.methodNameLen as int;
    if Parse(mem, start, end, pkLen) == Ok(m) {
      ParsedFields(mem, start, end, pkLen);
    }
    ReadIff(mem, start + 5, end, a);
    TextIff(mem, start + 9, a, 100, m.msgId);
    if 0 <= a {
      ReadIff(mem, start + 9 + a, end, b);
      TextIff(mem, start + 13 + a, b, 512, m.methodName);
      if 0 <= b {
        RestIff(mem, start + 13 + a + b, end, Message(pkLen, a, m.msgId, b, m.methodName, 0, 0, [], [], false), m);
      }
    }
  }

  // ---- Lists of messages ----

  predicate AllSendable(ms: seq<Message>) { forall m <- ms :: Sendable(m) }

  predicate AllWithinLimits(ms: seq<Message>) { forall m <- ms :: WithinLimits(m) }

  function Frames(ms: seq<Message>): seq<byte>
    requires AllSendable(ms)
  {
    if ms == [] then [] else Frame(ms[0]) + Frames(ms[1..])
  }

  function AllStamped(ms: seq<Message>): (r: seq<Message>)
    requires AllSendable(ms)
    ensures |r| == |ms| && forall i | 0 <= i < |ms| :: r[i] == Stamped(ms[i])
  {
    seq(|ms|, i requires 0 <= i < |ms| => Stamped(ms[i]))
  }

  lemma {:induction false} FramesConcat(ms: seq<Message>, more: seq<Message>)
    requires AllSendable(ms) && AllSendable(more)
    ensures AllSendable(ms + more) && Frames(ms + more) == Frames(ms) + Frames(more)
  {
    hide Frame;
    if ms == [] {
      assert ms + more == more;
    } else {
      FramesConcat(ms[1..], more);
      assert (ms + more)[1..] == ms[1..] + more;
      var f, r, s := Frame(ms[0]), Frames(ms[1..]), Frames(more);
      assert f + (r + s) == (f + r) + s;
    }
  }

  lemma NoFrames()
    ensures Frames([]) == []
  {
  }

  lemma FramesSnoc(ms: seq<Message>, m: Message)
    requires AllSendable(ms) && Sendable(m)
    ensures AllSendable(ms + [m]) && Frames(ms + [m]) == Frames(ms) + Frame(m)
  {
    hide Frame;
    FramesConcat(ms, [m]);
    assert Frames([m]) == Frame(m) + [] == Frame(m);
  }

  lemma Regroup(a: seq<byte>, b: seq<byte>, c: seq<byte>)
    ensures a + (b + c) == a + b + c
  {
  }

  lemma SameAt(mem: seq<byte>, at: nat, x: seq<byte>, y: seq<byte>)
    requires |x| == |y| && At(mem, at, x) && At(mem, at, y)
    ensures x == y
  {
  }

  lemma SameInt(mem: seq<byte>, at: nat, v: int32, w: int32)
    requires At(mem, at, ToNet(v)) && At(mem, at, ToNet(w))
    ensures v == w
  {
    NetRoundTrip(v);
    NetRoundTrip(w);
  }

  lemma SameField(mem: seq<byte>, at: nat, x: seq<byte>, y: seq<byte>)
    requires |x| <= INT_MAX && |y| <= INT_MAX && FieldAt(mem, at, x) && FieldAt(mem, at, y)
    ensures x == y
  {
    SameInt(mem, at, |x|, |y|);
    SameAt(mem, at + 4, x, y);
  }

  lemma LayoutDetermines(mem: seq<byte>, at: nat, m1: Message, m2: Message)
    requires Sendable(m1) && Sendable(m2) && LaidOut(mem, at, m1) && LaidOut(mem, at, m2)
    ensures FrameLength(m1) == FrameLength(m2)
    ensures Stamped(m1) == Stamped(m2)
  {
    hide ToNet, At;
    SameInt(mem, at + 1, FrameLength(m1), FrameLength(m2));
    SameField(mem, at + 5, SentId(m1), SentId(m2));
    var a := |SentId(m1)|;
    SameField(mem, at + 9 + a, m1.methodName, m2.methodName);
    var b := |m1.methodName|;
    SameInt(mem, at + 13 + a + b, m1.errCode, m2.errCode);
    SameField(mem, at + 17 + a + b, m1.errInfo, m2.errInfo);
    SameAt(mem, at + 21 + a + b + |m1.errInfo|, m1.pbData, m2.pbData);
  }

  /** No frame is a proper prefix of another, and a frame determines its message, without any limit on the fields. */
  lemma FrameIsPrefixFree(m1: Message, rest1: seq<byte>, m2: Message, rest2: seq<byte>)
    requires Sendable(m1) && Sendable(m2) && Frame(m1) + rest1 == Frame(m2) + rest2
    ensures Stamped(m1) == Stamped(m2) && rest1 == rest2
  {
    var mem := Frame(m1) + rest1;
    assert At(mem, 0, Frame(m1));
    assert At(mem, 0, Frame(m2));
    FrameLayout(mem, 0, m1);
    FrameLayout(mem, 0, m2);
    LayoutDetermines(mem, 0, m1, m2);
    assert rest1 == mem[|Frame(m1)|..];
    assert rest2 == mem[|Frame(m2)|..];
  }

  /** The byte stream determines the messages on it. */
  lemma {:induction false} FramesInjective(ms1: seq<Message>, ms2: seq<Message>)
    requires AllSendable(ms1) && AllSendable(ms2) && Frames(ms1) == Frames(ms2)
    ensures AllStamped(ms1) == AllStamped(ms2)
  {
    if ms1 != [] && ms2 != [] {
      FrameIsPrefixFree(ms1[0], Frames(ms1[1..]), ms2[0], Frames(ms2[1..]));
      FramesInjective(ms1[1..], ms2[1..]);
      assert AllStamped(ms1) == [Stamped(ms1[0])] + AllStamped(ms1[1..]);
      assert AllStamped(ms2) == [Stamped(ms2[0])] + AllStamped(ms2[1..]);
    }
  }
}
