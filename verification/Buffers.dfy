// The growing two-index byte queue of src/Buffer.cpp.

module Buffers {
  import opened Bytes

  class Buffer {
    var data: array<byte>
    var readIndex: nat
    var writeIndex: nat

    ghost predicate Valid()
      reads this
    {
      readIndex <= writeIndex <= data.Length
    }

    /** The bytes appended and not yet retrieved. */
    ghost function Contents(): (s: seq<byte>)
      requires Valid()
      reads this, data
    {
      data[readIndex..writeIndex]
    }

    constructor (initialSize: nat := 1024)
      ensures Valid() && fresh(data) && Contents() == []
    {
      data := new byte[initialSize](_ => 0);
      readIndex, writeIndex := 0, 0;
    }

    function ReadableBytes(): (n: nat)
      requires Valid()
      reads this, data
      ensures n == |Contents()|
    {
      writeIndex - readIndex
    }

    method Peek(len: nat) returns (bs: seq<byte>)
      requires Valid() && len <= ReadableBytes()
      ensures bs == Contents()[..len]
    {
      bs := data[readIndex..readIndex + len];
    }

    method Retrieve(len: nat)
      requires Valid()
      modifies this
      ensures Valid() && data == old(data)
      ensures Contents() == if len <= |old(Contents())| then old(Contents())[len..] else []
    {
      if len >= ReadableBytes() {
        RetrieveAll();
        return;
      }
      readIndex := readIndex + len;
    }

    method RetrieveAll()
      requires Valid()
      modifies this
      ensures Valid() && data == old(data) && Contents() == []
    {
      readIndex := 0;
      writeIndex := 0;
    }

    method RetrieveAsString(len: nat) returns (bs: seq<byte>)
      requires Valid()
      modifies this
      ensures Valid() && data == old(data)
      ensures var n := if len <= |old(Contents())| then len else |old(Contents())|;
              bs == old(Contents())[..n] && Contents() == old(Contents())[n..]
    {
      var n := if len <= ReadableBytes() then len else ReadableBytes();
      bs := Peek(n);
      Retrieve(n);
    }

    /** Appending may move the bytes to a larger array but never changes what is queued before them. */
    method Append(bs: seq<byte>)
      requires Valid()
      modifies this, data
      ensures Valid() && (data == old(data) || fresh(data))
      ensures Contents() == old(Contents()) + bs
    {
      if |bs| == 0 {
        return;
      }
      EnsureWritableBytes(|bs|);
      for i := 0 to |bs|
        invariant Valid() && writeIndex == old(writeIndex) && readIndex == old(readIndex)
        invariant data == old(data) || fresh(data)
        invariant writeIndex + |bs| <= data.Length
        invariant data[readIndex..writeIndex + i] == old(Contents()) + bs[..i]
      {
        data[writeIndex + i] := bs[i];
      }
      writeIndex := writeIndex + |bs|;
    }

    /** Grows to the larger of what is needed and twice the old size. */
    method EnsureWritableBytes(len: nat)
      requires Valid()
      modifies this
      ensures Valid() && readIndex == old(readIndex) && writeIndex == old(writeIndex)
      ensures writeIndex + len <= data.Length
      ensures data == old(data) || fresh(data)
      ensures Contents() == old(Contents())
    {
      if data.Length - writeIndex >= len {
        return;
      }
      var required := writeIndex + len;
      var newSize := if required >= 2 * data.Length then required else 2 * data.Length;
      var bigger := new byte[newSize](i requires 0 <= i < newSize reads this, data =>
        if i < data.Length then data[i] else 0);
      assert bigger[readIndex..writeIndex] == data[readIndex..writeIndex];
      data := bigger;
    }
  }
}
