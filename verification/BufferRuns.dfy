/** Every run of a buffer's operations: the order of its bytes, and what growth and compaction cost. */
module BufferRuns {
  import opened Bytes
  import opened BufferModel

  /** The operations: writing, reading, the two index moves (`Fill` after a read from the socket has stored its bytes behind
      the write index), and a resize of a caller's own. */
  datatype Op = Write(bytes: seq<byte>) | Take(size: nat) | Move(size: nat) | Fill(bytes: seq<byte>) | Resize(size: nat)

  /** What the callers owe: sizes that fit an int, no step past the write index, no more bytes than there is room for. */
  predicate Enabled(b: Buffer, op: Op)
    requires b.Ordered()
  {
    match op
    case Write(bytes) => OneAndHalf(b.write + |bytes|) <= INT_MAX
    case Take(_) => true
    case Move(size) => size <= b.Readable()
    case Fill(bytes) => |bytes| <= b.Writable()
    case Resize(size) => size <= INT_MAX
  }

  function Apply(b: Buffer, op: Op): Buffer
    requires b.Ordered() && Enabled(b, op)
  {
    match op
    case Write(bytes) => Written(b, bytes)
    case Take(size) => Taken(b, size)
    case Move(size) => ReadMoved(b, size)
    case Fill(bytes) => WriteMoved(Stored(b, bytes), |bytes|)
    case Resize(size) => Resized(b, size)
  }

  /** Whether `op` ends in adjustBuffer. */
  predicate Checks(b: Buffer, op: Op)
    requires b.Ordered()
  {
    match op
    case Take(_) => b.Readable() != 0
    case Move(size) => b.read + size < |b.mem|
    case Fill(bytes) => |bytes| < b.Writable()
    case _ => false
  }

  /** The buffer that adjustBuffer finds, or that `op` leaves if there is no such call. */
  function Unadjusted(b: Buffer, op: Op): (r: Buffer)
    requires b.Ordered() && Enabled(b, op)
    ensures r.Ordered()
  {
    match op
    case Write(bytes) => Written(b, bytes)
    case Take(size) => b.(read := b.read + Min(size, b.Readable()))
    case Move(size) => if Checks(b, op) then b.(read := b.read + size) else b
    case Fill(bytes) => Stored(b, bytes).(write := if Checks(b, op) then b.write + |bytes| else b.write)
    case Resize(size) => Resized(b, size)
  }

  lemma ApplyIsAdjust(b: Buffer, op: Op)
    requires b.Ordered() && Enabled(b, op)
    ensures Apply(b, op) == if Checks(b, op) then Adjusted(Unadjusted(b, op)) else Unadjusted(b, op)
  {
  }

  /** Bytes that the resizeBuffer inside writeToBuffer copies. */
  function GrowthCost(b: Buffer, op: Op): nat
    requires b.Ordered()
  {
    if op.Write? && |op.bytes| > b.Writable() then Min(OneAndHalf(b.write + |op.bytes|), b.Readable()) else 0
  }

  predicate Compacts(b: Buffer, op: Op)
    requires b.Ordered() && Enabled(b, op)
  {
    Checks(b, op) && Unadjusted(b, op).read >= |b.mem| / 3
  }

  /** Bytes that adjustBuffer copies. */
  function CompactionCost(b: Buffer, op: Op): nat
    requires b.Ordered() && Enabled(b, op)
  {
    if Compacts(b, op) then Unadjusted(b, op).Readable() else 0
  }

  /** A compaction copies at most 2r + 2 bytes, r being the bytes consumed since the read index was last 0. */
  lemma CompactionIsPaidFor(b: Buffer, op: Op)
    requires b.Valid() && Enabled(b, op) && Compacts(b, op)
    ensures CompactionCost(b, op) <= 2 * Unadjusted(b, op).read + 2
  {
    assert |Unadjusted(b, op).mem| == |b.mem|;
    assert |b.mem| / 3 * 3 + |b.mem| % 3 == |b.mem|;
  }

  /** A buffer together with the bytes that went in (a resize that cuts bytes off takes them back) and came out, the bytes
      each kind of copying moved, those written after the last growth, the most ever held, and the largest resize asked for. */
  datatype Ledger = Ledger(
    b: Buffer,
    input: seq<byte>,
    output: seq<byte>,
    grown: nat,
    compacted: nat,
    since: nat,
    peak: nat,
    asked: nat)

  function Opened(size: nat): Ledger { Ledger(Fresh(size), [], [], 0, 0, 0, 0, 0) }

  /** The bytes `op` takes in. */
  function Accepted(b: Buffer, op: Op): seq<byte>
    requires b.Ordered()
  {
    match op
    case Write(bytes) => bytes
    case Fill(bytes) => if Checks(b, op) then bytes else []
    case _ => []
  }

  /** The bytes `op` gives out. */
  function Released(b: Buffer, op: Op): seq<byte>
    requires b.Ordered() && Enabled(b, op)
  {
    if op.Take? || op.Move? then b.mem[b.read..Unadjusted(b, op).read] else []
  }

  /** How many bytes a resize cuts off. */
  function Cut(b: Buffer, op: Op): nat
    requires b.Ordered()
  {
    if op.Resize? then b.Readable() - Min(op.size, b.Readable()) else 0
  }

  function Posted(l: Ledger, op: Op): Ledger
    requires l.b.Ordered() && Enabled(l.b, op)
  {
    var after, bytes := Apply(l.b, op), Accepted(l.b, op);
    Ledger(
      after,
      (l.input + bytes)[..Max(0, |l.input + bytes| - Cut(l.b, op))],
      l.output + Released(l.b, op),
      l.grown + GrowthCost(l.b, op),
      l.compacted + CompactionCost(l.b, op),
      if op.Write? && |bytes| > l.b.Writable() then 0 else l.since + |bytes|,
      Max(l.peak, after.write - after.read),
      if op.Resize? then Max(l.asked, op.size) else l.asked)
  }

  /** The operations lead from `l` to `r`; with `widening`, no resize goes below the capacity. */
  ghost predicate Leads(l: Ledger, ops: seq<Op>, widening: bool, r: Ledger)
    decreases |ops|
  {
    if ops == [] then r == l
    else
      && l.b.Ordered() && Enabled(l.b, ops[0])
      && (widening && ops[0].Resize? ==> |l.b.mem| <= ops[0].size)
      && Leads(Posted(l, ops[0]), ops[1..], widening, r)
  }

  // ---- Order ----

  ghost predicate InOrder(l: Ledger) {
    l.b.Valid() && l.input == l.output + l.b.Contents()
  }

  lemma Regrouped(a: seq<byte>, b: seq<byte>, c: seq<byte>)
    ensures a + (b + c) == a + b + c
    ensures |c| <= |b + c| && (a + (b + c))[..|a + (b + c)| - |c|] == a + b
  {
  }

  /** What an operation adds to the contents in the back and takes away in front and in the back. */
  ghost predicate Shifts(b: Buffer, op: Op, r: Buffer)
    requires b.Ordered() && Enabled(b, op)
  {
    && r.Valid()
    && var c := b.Contents() + Accepted(b, op);
       && |Released(b, op)| + Cut(b, op) <= |c|
       && c[..|c| - Cut(b, op)] == Released(b, op) + r.Contents()
  }

  lemma ShiftsUncut(b: Buffer, op: Op, r: Buffer)
    requires b.Ordered() && Enabled(b, op) && r.Valid() && Cut(b, op) == 0
    requires b.Contents() + Accepted(b, op) == Released(b, op) + r.Contents()
    ensures Shifts(b, op, r)
  {
    hide Accepted, Released, Cut, Enabled;
    var c := b.Contents() + Accepted(b, op);
    assert |Released(b, op)| <= |c| && c[..|c| - 0] == c;
  }

  lemma WriteShifts(b: Buffer, bytes: seq<byte>)
    requires b.Valid() && Enabled(b, Write(bytes))
    ensures Shifts(b, Write(bytes), Written(b, bytes))
  {
    WrittenContents(b, bytes);
    assert Released(b, Write(bytes)) == [];
    hide Written, Shifts, Released;
    ShiftsUncut(b, Write(bytes), Written(b, bytes));
  }

  lemma FillShifts(b: Buffer, bytes: seq<byte>)
    requires b.Valid() && Enabled(b, Fill(bytes))
    ensures Shifts(b, Fill(bytes), WriteMoved(Stored(b, bytes), |bytes|))
  {
    FilledContents(b, bytes);
    assert Released(b, Fill(bytes)) == [];
    hide WriteMoved, Stored, Shifts, Released;
    assert b.Contents() + [] == b.Contents();
    ShiftsUncut(b, Fill(bytes), WriteMoved(Stored(b, bytes), |bytes|));
  }

  lemma ResizeShifts(b: Buffer, op: Op)
    requires b.Valid() && Enabled(b, op) && op.Resize?
    ensures Shifts(b, op, Apply(b, op))
  {
    ResizedContents(b, op.size);
    assert Apply(b, op) == Resized(b, op.size);
    hide Resized;
    var c := b.Contents();
    assert c + [] == c;
    assert c[..|c| - Cut(b, op)] == [] + c[..Min(op.size, |c|)];
  }

  lemma RemovalParts(b: Buffer, op: Op)
    requires b.Valid() && Enabled(b, op) && (op.Take? || op.Move?)
    ensures var u := Unadjusted(b, op);
            && Accepted(b, op) == [] && Cut(b, op) == 0 && Released(b, op) == b.mem[b.read..u.read]
            && b.mem == u.mem && b.write == u.write && b.read <= u.read
  {
  }

  lemma RemovalLeaves(b: Buffer, op: Op)
    requires b.Valid() && Enabled(b, op) && (op.Take? || op.Move?)
    ensures Apply(b, op).Valid() && Apply(b, op).Contents() == Unadjusted(b, op).Contents()
  {
    ApplyIsAdjust(b, op);
    AdjustedContents(Unadjusted(b, op));
    RemovalParts(b, op);
    hide Adjusted, Apply;
  }

  lemma RemovalShifts(b: Buffer, op: Op)
    requires b.Valid() && Enabled(b, op) && (op.Take? || op.Move?)
    ensures Shifts(b, op, Apply(b, op))
  {
    RemovalParts(b, op);
    RemovalLeaves(b, op);
    hide Apply, Unadjusted, Released, Accepted, Shifts, Cut;
    assert b.Contents() + [] == b.mem[b.read..Unadjusted(b, op).read] + Unadjusted(b, op).Contents();
    ShiftsUncut(b, op, Apply(b, op));
  }

  lemma ContentsAfter(b: Buffer, op: Op)
    requires b.Valid() && Enabled(b, op)
    ensures Shifts(b, op, Apply(b, op))
  {
    hide Shifts, Stored, Written, WriteMoved, Resized, ReadMoved, Taken;
    match op
    case Resize(_) => ResizeShifts(b, op);
    case Write(bytes) => WriteShifts(b, bytes);
    case Fill(bytes) => FillShifts(b, bytes);
    case _ => RemovalShifts(b, op);
  }

  lemma OpInOrder(l: Ledger, op: Op)
    requires InOrder(l) && Enabled(l.b, op)
    ensures InOrder(Posted(l, op))
  {
    hide Apply, Accepted, Released, Cut, GrowthCost, CompactionCost;
    ContentsAfter(l.b, op);
    var c, cut := l.b.Contents() + Accepted(l.b, op), Cut(l.b, op);
    var kept := c[..|c| - cut];
    assert c == kept + c[|kept|..];
    Regrouped(l.output, l.b.Contents(), Accepted(l.b, op));
    Regrouped(l.output, kept, c[|kept|..]);
    Regrouped(l.output, Released(l.b, op), Apply(l.b, op).Contents());
  }

  lemma {:induction false} RunsStayInOrder(l: Ledger, ops: seq<Op>, widening: bool, r: Ledger)
    requires InOrder(l) && Leads(l, ops, widening, r)
    ensures InOrder(r)
    decreases |ops|
  {
    hide Posted, InOrder;
    if ops != [] {
      OpInOrder(l, ops[0]);
      RunsStayInOrder(Posted(l, ops[0]), ops[1..], widening, r);
    }
  }

  /** Over every run on a fresh buffer: bytes come out in the order they went in, none lost or repeated, and the
      indices keep 0 <= read <= write <= capacity, with the read index 0 or below a third of the capacity. */
  lemma FirstInFirstOut(size: nat, ops: seq<Op>, l: Ledger)
    requires size <= INT_MAX && Leads(Opened(size), ops, false, l)
    ensures l.b.Valid() && l.input == l.output + l.b.Contents()
  {
    RunsStayInOrder(Opened(size), ops, false, l);
  }

  // ---- Cost ----

  /** What the numbers of a ledger keep: a buffer of `cap` bytes with these indices, first made with `size`. */
  predicate Paid(size: nat, cap: nat, read: nat, write: nat, since: nat, input: nat, grown: nat, peak: nat, asked: nat) {
    && read <= write <= cap && size <= cap && since <= input
    && cap <= 3 * (since + cap - write + 1)
    && grown <= 3 * (input - since)
    && write - read <= peak
    && 4 * cap <= Max(4 * Max(size, asked), 9 * peak)
  }

  ghost predicate GrowthPaid(size: nat, l: Ledger) {
    Paid(size, |l.b.mem|, l.b.read, l.b.write, l.since, |l.input|, l.grown, l.peak, l.asked)
  }

  /** A write of n bytes for which there is no room. */
  lemma GrowthNumbers(size: nat, cap: nat, read: nat, write: nat, since: nat, input: nat, grown: nat, peak: nat, asked: nat,
                      n: nat)
    requires Paid(size, cap, read, write, since, input, grown, peak, asked) && n > cap - write
    requires read == 0 || read < cap / 3
    ensures var held, cap' := write - read + n, OneAndHalf(write + n);
            Paid(size, cap', 0, held, 0, input + n, grown + Min(cap', write - read), Max(peak, held), asked)
  {
  }

  /** A write of n bytes for which there is room. */
  lemma RoomNumbers(size: nat, cap: nat, read: nat, write: nat, since: nat, input: nat, grown: nat, peak: nat, asked: nat,
                    n: nat)
    requires Paid(size, cap, read, write, since, input, grown, peak, asked) && n <= cap - write
    ensures Paid(size, cap, read, write + n, since + n, input + n, grown, Max(peak, write - read + n), asked)
  {
  }


  ghost predicate CompactionPaid(l: Ledger) {
    3 <= |l.b.mem| && l.b.read <= |l.output| && l.compacted <= 4 * (|l.output| - l.b.read)
  }

  /** The sizes that a write of n bytes leaves. */
  ghost predicate WriteMeasured(l: Ledger, n: nat, l': Ledger)
    requires l.b.Ordered()
  {
    && l'.b.Reachable() && l'.b.Readable() == l.b.Readable() + n && |l'.input| == |l.input| + n
    && l'.output == l.output && l'.compacted == l.compacted && l'.asked == l.asked
    && l'.peak == Max(l.peak, l'.b.Readable())
    && if n > l.b.Writable()
       then |l'.b.mem| == OneAndHalf(l.b.write + n) && l'.b.read == 0 && l'.since == 0
            && l'.grown == l.grown + Min(|l'.b.mem|, l.b.Readable())
       else |l'.b.mem| == |l.b.mem| && l'.b.read == l.b.read && l'.since == l.since + n && l'.grown == l.grown
  }

  lemma WriteMeasures(l: Ledger, bytes: seq<byte>)
    requires l.b.Valid() && Enabled(l.b, Write(bytes))
    ensures WriteMeasured(l, |bytes|, Posted(l, Write(bytes)))
  {
    WrittenContents(l.b, bytes);
    assert Posted(l, Write(bytes)).b == Written(l.b, bytes);
    assert Written(l.b, bytes).Readable() == |Written(l.b, bytes).Contents()|;
    hide Written;
  }

  lemma WritePaid(size: nat, l: Ledger, n: nat, l': Ledger)
    requires l.b.Valid() && GrowthPaid(size, l) && WriteMeasured(l, n, l')
    ensures GrowthPaid(size, l') && (CompactionPaid(l) ==> CompactionPaid(l'))
  {
    if n > l.b.Writable() {
      GrowthNumbers(size, |l.b.mem|, l.b.read, l.b.write, l.since, |l.input|, l.grown, l.peak, l.asked, n);
    } else {
      RoomNumbers(size, |l.b.mem|, l.b.read, l.b.write, l.since, |l.input|, l.grown, l.peak, l.asked, n);
    }
    hide Paid, Max, Min;
  }

  lemma ResizePaid(size: nat, l: Ledger, n: nat)
    requires l.b.Valid() && GrowthPaid(size, l) && |l.b.mem| <= n <= INT_MAX
    ensures GrowthPaid(size, Posted(l, Resize(n)))
    ensures CompactionPaid(l) ==> CompactionPaid(Posted(l, Resize(n)))
  {
    var l' := Posted(l, Resize(n));
    assert |l'.b.mem| == n && l'.b.write == l.b.Readable() && l'.b.read == 0;
    assert |l'.input| == |l.input|;
  }

  /** The sizes an operation that moves an index leaves. */
  lemma IndexMove(l: Ledger, op: Op)
    requires l.b.Valid() && Enabled(l.b, op) && !op.Write? && !op.Resize?
    ensures var l', u := Posted(l, op), Unadjusted(l.b, op);
            && |l'.b.mem| == |l.b.mem| && |l'.input| == |l.input| + |Accepted(l.b, op)|
            && |l'.output| == |l.output| + u.read - l.b.read && l.b.read <= u.read
            && u.write == l.b.write + |Accepted(l.b, op)|
            && l'.since == l.since + |Accepted(l.b, op)| && l'.grown == l.grown && l'.asked == l.asked
            && l'.b.Ordered() && l'.peak == Max(l.peak, l'.b.Readable())
            && l'.compacted == l.compacted + CompactionCost(l.b, op)
            && (if Compacts(l.b, op) then l'.b.read == 0 && l'.b.write == u.Readable()
                else l'.b.read == u.read && l'.b.write == u.write)
  {
    ApplyIsAdjust(l.b, op);
  }

  /** Moving the indices, with or without a compaction. */
  lemma IndexNumbers(size: nat, cap: nat, read: nat, write: nat, since: nat, input: nat, grown: nat, peak: nat, asked: nat,
                     n: nat, to: nat, compacted: bool)
    requires Paid(size, cap, read, write, since, input, grown, peak, asked) && read <= to <= write + n <= cap
    ensures var first, held := if compacted then 0 else to, write + n - to;
            Paid(size, cap, first, first + held, since + n, input + n, grown, Max(peak, held), asked)
  {
  }

  lemma IndexPaid(size: nat, l: Ledger, op: Op)
    requires l.b.Valid() && GrowthPaid(size, l) && Enabled(l.b, op) && !op.Write? && !op.Resize?
    ensures GrowthPaid(size, Posted(l, op))
  {
    IndexMove(l, op);
    var u, n := Unadjusted(l.b, op), |Accepted(l.b, op)|;
    assert u.read <= u.write <= |l.b.mem|;
    hide Apply, Unadjusted, Accepted, Released, Posted, Compacts, CompactionCost, Enabled, Paid, Max;
    IndexNumbers(size, |l.b.mem|, l.b.read, l.b.write, l.since, |l.input|, l.grown, l.peak, l.asked, n, u.read,
                 Compacts(l.b, op));
  }

  lemma IndexCompaction(l: Ledger, op: Op)
    requires l.b.Valid() && Enabled(l.b, op) && !op.Write? && !op.Resize? && CompactionPaid(l)
    ensures CompactionPaid(Posted(l, op))
  {
    IndexMove(l, op);
    if Compacts(l.b, op) {
      CompactionIsPaidFor(l.b, op);
    }
    var u := Unadjusted(l.b, op);
    assert Compacts(l.b, op) ==> |l.b.mem| / 3 <= u.read;
    assert Compacts(l.b, op) || CompactionCost(l.b, op) == 0;
    hide Apply, Unadjusted, Accepted, Released, Posted, Compacts, CompactionCost, Enabled;
  }

  lemma OpPaid(size: nat, l: Ledger, op: Op)
    requires l.b.Valid() && GrowthPaid(size, l) && Enabled(l.b, op) && (op.Resize? ==> |l.b.mem| <= op.size)
    ensures GrowthPaid(size, Posted(l, op)) && (CompactionPaid(l) ==> CompactionPaid(Posted(l, op)))
  {
    hide Posted, GrowthPaid, CompactionPaid;
    match op {
      case Write(bytes) =>
        hide WriteMeasured;
        WriteMeasures(l, bytes);
        WritePaid(size, l, |bytes|, Posted(l, op));
      case Resize(n) => ResizePaid(size, l, n);
      case _ =>
        IndexPaid(size, l, op);
        if CompactionPaid(l) {
          IndexCompaction(l, op);
        }
    }
  }

  lemma {:induction false} RunsArePaidFor(size: nat, l: Ledger, ops: seq<Op>, r: Ledger)
    requires InOrder(l) && GrowthPaid(size, l) && Leads(l, ops, true, r)
    ensures GrowthPaid(size, r) && (CompactionPaid(l) ==> CompactionPaid(r))
    decreases |ops|
  {
    hide Posted, GrowthPaid, CompactionPaid;
    if ops != [] {
      OpInOrder(l, ops[0]);
      OpPaid(size, l, ops[0]);
      RunsArePaidFor(size, Posted(l, ops[0]), ops[1..], r);
    }
  }

  /** Over every run on a fresh buffer in which callers do not shrink it themselves: growth copies at most three bytes per
      byte taken in, and the capacity stays within 9/4 of the most bytes ever held, or at its first or largest asked size. */
  lemma AmortisedGrowth(size: nat, ops: seq<Op>, l: Ledger)
    requires size <= INT_MAX && Leads(Opened(size), ops, true, l)
    ensures l.grown <= 3 * |l.input|
    ensures 4 * |l.b.mem| <= Max(4 * Max(size, l.asked), 9 * l.peak)
  {
    RunsArePaidFor(size, Opened(size), ops, l);
  }

  /** Compaction copies at most four bytes per byte consumed, over all such runs, exactly if the buffer starts with three
      bytes or more: a smaller one is compacted, and its byte copied, without anything being consumed. */
  lemma AmortisedCompactionIff(size: nat)
    requires size <= INT_MAX
    ensures (forall ops, l :: Leads(Opened(size), ops, true, l) ==> l.compacted <= 4 * |l.output|) <==> 3 <= size
  {
    if 3 <= size {
      forall ops, l | Leads(Opened(size), ops, true, l)
        ensures l.compacted <= 4 * |l.output|
      {
        RunsArePaidFor(size, Opened(size), ops, l);
      }
    } else {
      var ops, l := SmallBufferRun(size, 0);
    }
  }

  /** One byte written into a buffer that starts with less than three, and an index move by nothing. */
  lemma SmallBufferRun(size: nat, x: byte) returns (ops: seq<Op>, l: Ledger)
    requires size < 3
    ensures Leads(Opened(size), ops, true, l) && l.compacted == 1 && l.output == []
  {
    var write, move := Write([x]), Move(0);
    FirstByte(size, x);
    var l1 := Posted(Opened(size), write);
    IdleCompaction(l1);
    l := Posted(l1, move);
    ops := [write, move];
    hide Posted, Enabled, Leads, Opened;
    LeadsByStep(l1, [move], l);
    assert ops[1..] == [move];
    LeadsByStep(Opened(size), ops, l);
  }

  lemma LeadsByStep(l: Ledger, ops: seq<Op>, r: Ledger)
    requires l.b.Ordered() && ops != [] && !ops[0].Resize? && Enabled(l.b, ops[0])
    requires if |ops| == 1 then r == Posted(l, ops[0]) else Leads(Posted(l, ops[0]), ops[1..], true, r)
    ensures Leads(l, ops, true, r)
  {
    hide Posted, Enabled;
  }

  lemma FirstByte(size: nat, x: byte)
    requires size < 3
    ensures Enabled(Opened(size).b, Write([x]))
    ensures var l := Posted(Opened(size), Write([x]));
            l.b.Ordered() && l.b.read == 0 && l.b.write == 1 && |l.b.mem| < 3 && l.compacted == 0 && l.output == []
  {
    WriteMeasures(Opened(size), [x]);
    hide Posted;
  }

  lemma IdleCompaction(l: Ledger)
    requires l.b.Ordered() && l.b.read == 0 && l.b.write == 1 && |l.b.mem| < 3 && l.compacted == 0 && l.output == []
    ensures Enabled(l.b, Move(0))
    ensures Posted(l, Move(0)).compacted == 1 && Posted(l, Move(0)).output == []
  {
    hide ReadMoved;
    assert |l.b.mem| / 3 == 0;
  }
}
