/** TcpBuffer: a vector with a read and a write index, reallocated by growth and compaction. */
module TcpBuffers {
  import opened Bytes
  import opened BufferModel

  /** memcpy between two distinct vectors. */
  method CopyBytes(dst: array<byte>, at: nat, src: array<byte>, start: nat, count: nat)
    requires dst != src && at + count <= dst.Length && start + count <= src.Length
    modifies dst
    ensures dst[..] == old(dst[..at]) + src[start..start + count] + old(dst[at + count..])
  {
    for k := 0 to count
      invariant dst[..] == old(dst[..at]) + src[start..start + k] + old(dst[at + k..])
    {
      dst[at + k] := src[start + k];
    }
  }

  /** memcpy from bytes the caller holds. */
  method PutBytes(dst: array<byte>, at: nat, bytes: seq<byte>)
    requires at + |bytes| <= dst.Length
    modifies dst
    ensures dst[..] == old(dst[..at]) + bytes + old(dst[at + |bytes|..])
  {
    for k := 0 to |bytes|
      invariant dst[..] == old(dst[..at]) + bytes[..k] + old(dst[at + k..])
    {
      dst[at + k] := bytes[k];
    }
  }

  class TcpBuffer {
    var buffer: array<byte>
    var readIndex: nat
    var writeIndex: nat

    ghost function State(): Buffer
      reads this, buffer
    {
      BufferModel.Buffer(buffer[..], readIndex, writeIndex)
    }

    constructor (size: nat)
      ensures State() == Fresh(size) && fresh(buffer)
    {
      buffer := new byte[size](_ => 0);
      readIndex, writeIndex := 0, 0;
    }

    method ReadAble() returns (count: nat)
      requires State().Ordered()
      ensures count == State().Readable()
    {
      count := writeIndex - readIndex;
    }

    method WriteAble() returns (count: nat)
      requires State().Ordered()
      ensures count == State().Writable()
    {
      count := buffer.Length - writeIndex;
    }

    method WriteToBuffer(bytes: seq<byte>)
      requires State().Ordered()
      modifies this, buffer
      ensures State() == Written(old(State()), bytes)
      ensures buffer == old(buffer) || fresh(buffer)
    {
      hide Resized;
      var room := WriteAble();
      if |bytes| > room {
        ResizeBuffer(OneAndHalf(writeIndex + |bytes|));
      }
      assert State() == Grown(old(State()), bytes);
      PutBytes(buffer, writeIndex, bytes);
      writeIndex := writeIndex + |bytes|;
    }

    /** `re` is left alone when there is nothing to read. */
    method ReadFromBuffer(re: seq<byte>, size: nat) returns (out: seq<byte>)
      requires State().Ordered()
      modifies this
      ensures State() == Taken(old(State()), size)
      ensures out == if old(State().Readable()) == 0 then re
                     else old(State().Contents())[..Min(size, old(State().Readable()))]
      ensures buffer == old(buffer) || fresh(buffer)
    {
      hide Adjusted;
      var readable := ReadAble();
      if readable == 0 {
        return re;
      }
      var readSize := if readable > size then size else readable;
      var tmp := new byte[readSize](_ => 0);
      CopyBytes(tmp, 0, buffer, readIndex, readSize);
      out := tmp[..];
      assert out == State().Contents()[..readSize];
      readIndex := readIndex + readSize;
      AdjustBuffer();
    }

    method ResizeBuffer(newSize: nat)
      requires State().Ordered()
      modifies this
      ensures State() == Resized(old(State()), newSize) && fresh(buffer)
    {
      var tmp := new byte[newSize](_ => 0);
      var readable := ReadAble();
      var count := if newSize < readable then newSize else readable;
      CopyBytes(tmp, 0, buffer, readIndex, count);
      buffer := tmp;
      readIndex := 0;
      writeIndex := readIndex + count;
    }

    method AdjustBuffer()
      requires readIndex < buffer.Length / 3 || State().Ordered()
      modifies this
      ensures State() == Adjusted(old(State()))
      ensures buffer == old(buffer) || fresh(buffer)
    {
      if readIndex < buffer.Length / 3 {
        return;
      }
      var tmp := new byte[buffer.Length](_ => 0);
      var count := ReadAble();
      CopyBytes(tmp, 0, buffer, readIndex, count);
      buffer := tmp;
      readIndex := 0;
      writeIndex := readIndex + count;
    }

    /** Beyond the write index and a third of the capacity adjustBuffer would copy a negative number of bytes. */
    method MoveReadIndex(size: int)
      requires ReadMoveDefined(State(), size)
      modifies this
      ensures State() == ReadMoved(old(State()), size)
      ensures buffer == old(buffer) || fresh(buffer)
    {
      var j := readIndex + size;
      if j < 0 || j >= buffer.Length {
        return;
      }
      readIndex := j;
      AdjustBuffer();
    }

    method MoveWriteIndex(size: int)
      requires WriteMoveDefined(State(), size)
      modifies this
      ensures State() == WriteMoved(old(State()), size)
      ensures buffer == old(buffer) || fresh(buffer)
    {
      var j := writeIndex + size;
      if j < 0 || j >= buffer.Length {
        return;
      }
      writeIndex := j;
      AdjustBuffer();
    }
  }
}
