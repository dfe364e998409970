/** The values a TcpBuffer goes through, and what every sequence of its operations keeps. */
module BufferModel {
  import opened Bytes

  datatype Buffer = Buffer(mem: seq<byte>, read: nat, write: nat) {
    predicate Ordered() { read <= write <= |mem| }

    /** What holds of every buffer the operations can reach. */
    predicate Reachable() { Ordered() && (read == 0 || read < |mem| / 3) }

    /** Reachable, and small enough for the int indices. */
    predicate Valid() { Reachable() && |mem| <= INT_MAX }

    /** The bytes written and not yet read. */
    function Contents(): seq<byte>
      requires Ordered()
    {
      mem[read..write]
    }

    function Readable(): nat
      requires Ordered()
    {
      write - read
    }

    function Writable(): nat
      requires Ordered()
    {
      |mem| - write
    }
  }

  function Min(a: int, b: int): int { if a < b then a else b }

  function Max(a: int, b: int): int { if a < b then b else a }

  function Zeros(n: nat): seq<byte> { seq(n, _ => 0) }

  function Fresh(size: nat): Buffer { Buffer(Zeros(size), 0, 0) }

  /** resizeBuffer */
  function Resized(b: Buffer, newSize: nat): Buffer
    requires b.Ordered()
  {
    var count := Min(newSize, b.Readable());
    Buffer(b.mem[b.read..b.read + count] + Zeros(newSize - count), 0, count)
  }

  /** adjustBuffer; beyond a third of the capacity it copies, for which the indices must be in order. */
  function Adjusted(b: Buffer): Buffer
    requires b.read < |b.mem| / 3 || b.Ordered()
  {
    if b.read < |b.mem| / 3 then b
    else Buffer(b.Contents() + Zeros(|b.mem| - b.Readable()), 0, b.Readable())
  }

  /** Bytes stored from the write index on, which does not move. */
  function Stored(b: Buffer, bytes: seq<byte>): Buffer
    requires b.write + |bytes| <= |b.mem|
  {
    b.(mem := b.mem[..b.write] + bytes + b.mem[b.write + |bytes|..])
  }

  /** (int)(1.5 * n) */
  function OneAndHalf(n: nat): nat { 3 * n / 2 }

  /** Growth, where needed, makes room for `bytes`. */
  function Grown(b: Buffer, bytes: seq<byte>): (r: Buffer)
    requires b.Ordered()
    ensures r.Ordered() && r.write + |bytes| <= |r.mem|
  {
    if |bytes| > b.Writable() then Resized(b, OneAndHalf(b.write + |bytes|)) else b
  }

  /** writeToBuffer */
  function Written(b: Buffer, bytes: seq<byte>): (r: Buffer)
    requires b.Ordered()
    ensures r.Ordered()
  {
    var grown := Grown(b, bytes);
    Stored(grown, bytes).(write := grown.write + |bytes|)
  }

  /** readFromBuffer: the buffer left behind. */
  function Taken(b: Buffer, size: nat): Buffer
    requires b.Ordered()
  {
    if b.Readable() == 0 then b
    else Adjusted(b.(read := b.read + Min(size, b.Readable())))
  }

  /** moveReadIndex comes to a defined end: an index beyond the write index is taken, but not compacted. */
  predicate ReadMoveDefined(b: Buffer, size: int) {
    var j := b.read + size;
    b.write <= |b.mem| && (0 <= j < |b.mem| ==> j < |b.mem| / 3 || j <= b.write)
  }

  /** moveReadIndex: the sum becomes a size_t, so a negative one is out of range as well. */
  function ReadMoved(b: Buffer, size: int): Buffer
    requires ReadMoveDefined(b, size)
  {
    var j := b.read + size;
    if j < 0 || j >= |b.mem| then b else Adjusted(b.(read := j))
  }

  /** The same for moveWriteIndex and an index below the read index. */
  predicate WriteMoveDefined(b: Buffer, size: int) {
    0 <= b.write + size < |b.mem| ==> b.read < |b.mem| / 3 || b.read <= b.write + size
  }

  /** moveWriteIndex */
  function WriteMoved(b: Buffer, size: int): Buffer
    requires WriteMoveDefined(b, size)
  {
    var j := b.write + size;
    if j < 0 || j >= |b.mem| then b else Adjusted(b.(write := j))
  }

  // ---- The buffer is a byte queue ----

  lemma ResizedContents(b: Buffer, newSize: nat)
    requires b.Valid() && newSize <= INT_MAX
    ensures Resized(b, newSize).Valid()
    ensures Resized(b, newSize).Contents() == b.Contents()[..Min(newSize, b.Readable())]
  {
  }

  lemma AdjustedContents(b: Buffer)
    requires b.Ordered() && |b.mem| <= INT_MAX
    ensures Adjusted(b).Valid() && |Adjusted(b).mem| == |b.mem|
    ensures Adjusted(b).Contents() == b.Contents()
    ensures Adjusted(b).write <= b.write
  {
  }

  lemma WrittenContents(b: Buffer, bytes: seq<byte>)
    requires b.Reachable()
    ensures Written(b, bytes).Reachable()
    ensures Written(b, bytes).Contents() == b.Contents() + bytes
    ensures |Written(b, bytes).mem| == if |bytes| > b.Writable() then 3 * (b.write + |bytes|) / 2 else |b.mem|
    ensures Written(b, bytes).read == if |bytes| > b.Writable() then 0 else b.read
  {
  }

  lemma TakenContents(b: Buffer, size: nat)
    requires b.Valid()
    ensures Taken(b, size).Valid() && |Taken(b, size).mem| == |b.mem|
    ensures Taken(b, size).Contents() == b.Contents()[Min(size, b.Readable())..]
  {
    if b.Readable() != 0 {
      AdjustedContents(b.(read := b.read + Min(size, b.Readable())));
    }
  }

  /** moveReadIndex drops exactly `size` bytes unless the new index would be the capacity; then nothing moves. */
  lemma ReadMovedContents(b: Buffer, size: nat)
    requires b.Valid() && size <= b.Readable()
    ensures ReadMoved(b, size).Valid() && |ReadMoved(b, size).mem| == |b.mem| && ReadMoved(b, size).write <= b.write
    ensures ReadMoved(b, size).Contents() == b.Contents()[size..] <==> size == 0 || b.read + size < |b.mem|
    ensures b.read + size == |b.mem| ==> ReadMoved(b, size) == b
  {
    if b.read + size < |b.mem| {
      AdjustedContents(b.(read := b.read + size));
    }
  }

  /** Bytes stored behind the write index and then taken in by moveWriteIndex are appended unless they reach the capacity;
      then nothing is. */
  lemma FilledContents(b: Buffer, bytes: seq<byte>)
    requires b.Valid() && |bytes| <= b.Writable()
    ensures var r := WriteMoved(Stored(b, bytes), |bytes|);
            && r.Valid() && |r.mem| == |b.mem|
            && (r.Contents() == b.Contents() + bytes <==> bytes == [] || |bytes| < b.Writable())
            && (|bytes| == b.Writable() ==> r == Stored(b, bytes) && r.Contents() == b.Contents())
  {
    var s := Stored(b, bytes);
    assert s.Contents() == b.Contents();
    if |bytes| < b.Writable() {
      var t := s.(write := b.write + |bytes|);
      assert t.Contents() == b.Contents() + bytes;
      AdjustedContents(t);
    } else if bytes != [] {
      assert |b.Contents() + bytes| != |b.Contents()|;
    }
  }
}
