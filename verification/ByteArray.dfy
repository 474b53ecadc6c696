/** The linear byte buffer: a growing block with a write position and a read position. */
module ByteArrays {
  import opened Basics

  const BYTES_DEFAULT_SIZE: nat := 4096
  const SIZE_RANGE: nat := U64 // size_t has 64 bits

  /** An owned, writable ByteArray. */
  class ByteArray {
    var data: array<Byte>
    var capacity: nat
    var readPos: nat
    var writePos: nat

    ghost predicate Valid()
      reads this
    {
      data.Length == capacity && 0 < capacity && readPos <= writePos <= capacity && capacity < SIZE_RANGE
    }

    ghost function Bytes(): (s: seq<Byte>)
      requires Valid()
      reads this, data
      ensures |s| == writePos
    {
      data[..writePos]
    }

    /** What has been written and not been read. */
    ghost function Pending(): (s: seq<Byte>)
      requires Valid()
      reads this, data
      ensures |s| == writePos - readPos
      ensures s == Bytes()[readPos..]
    {
      assert data[readPos..writePos] == data[..writePos][readPos..];
      data[readPos..writePos]
    }

    constructor (length: nat)
      requires length < SIZE_RANGE
      ensures Valid() && Bytes() == [] && readPos == 0 && fresh(data)
      ensures capacity == if length == 0 then 4096 else length
    {
      var size := if length == 0 then BYTES_DEFAULT_SIZE else length;
      data := new Byte[size](_ => 0);
      capacity, readPos, writePos := size, 0, 0;
    }

    function ReadAvailable(): (n: nat)
      requires Valid()
      reads this, data
      ensures n == |Pending()|
    {
      writePos - readPos
    }

    /** Doubles the block until `size` bytes fit. */
    method Expand(size: nat)
      requires Valid() && 2 * size < SIZE_RANGE
      modifies this`data, this`capacity
      ensures Valid() && Bytes() == old(Bytes()) && (data == old(data) || fresh(data))
      ensures capacity == Doubled(old(capacity), size)
      ensures if size <= old(capacity) then capacity == old(capacity) else size <= capacity < 2 * size
    {
      var newCap := capacity;
      while size > newCap
        invariant capacity <= newCap && Doubled(newCap, size) == Doubled(capacity, size)
        decreases size - newCap
      {
        newCap := newCap * 2;
      }
      if newCap != capacity {
        var newBlock := new Byte[newCap];
        Copy(newBlock, 0, data, 0, capacity);
        assert newBlock[..writePos] == newBlock[..capacity][..writePos];
        data := newBlock;
        capacity := newCap;
      }
    }

    method WriteData(inData: array?<Byte>, length: nat)
      requires Valid() && inData != data && (inData != null ==> length <= inData.Length)
      requires 2 * (writePos + length) < SIZE_RANGE
      modifies this`data, this`capacity, this`writePos, data
      ensures Valid() && (data == old(data) || fresh(data))
      ensures Bytes() == old(Bytes()) + (if inData == null then [] else old(inData[..length]))
      ensures capacity == if inData == null then old(capacity) else Doubled(old(capacity), old(writePos) + length)
    {
      if inData == null || length == 0 {
        return;
      }
      Expand(writePos + length);
      Copy(data, writePos, inData, 0, length);
      writePos := writePos + length;
    }

    /** Moves up to `length` bytes (all of them when it is 0) from the read position to outData. */
    method ReadData(outData: array?<Byte>, length: nat) returns (n: nat)
      requires Valid() && outData != data
      requires outData != null ==>
                 outData.Length >= if length == 0 || length > |Pending()| then |Pending()| else length
      modifies this`readPos, outData
      ensures Valid() && Bytes() == old(Bytes())
      ensures n == if outData == null then 0
                   else if length == 0 || length > |old(Pending())| then |old(Pending())| else length
      ensures Pending() == old(Pending())[n..]
      ensures outData != null ==> outData[..] == old(Pending())[..n] + old(outData[..])[n..]
    {
      if outData == null {
        return 0;
      }
      n := length;
      if n == 0 || n > ReadAvailable() {
        n := ReadAvailable();
      }
      if n > 0 {
        Copy(outData, 0, data, readPos, n);
        readPos := readPos + n;
      }
    }

    method SetReadPosition(value: nat)
      requires Valid()
      modifies this`readPos
      ensures Valid() && Bytes() == old(Bytes())
      ensures readPos == if value > writePos then writePos else value
    {
      readPos := if value > writePos then writePos else value;
    }

    /** Moves the read position. Going back past the start wraps the unsigned position round and so
        ends at the write position: a backward seek goes back exactly when it stays in the buffer. */
    method Seek(pos: int)
      requires Valid() && -0x8000_0000 < pos < 0x8000_0000 && writePos + 0x8000_0000 < SIZE_RANGE
      modifies this`readPos
      ensures Valid() && Bytes() == old(Bytes())
      ensures readPos == if 0 <= old(readPos) + pos <= writePos then old(readPos) + pos else writePos
    {
      if pos > 0 {
        SetReadPosition((readPos + pos) % SIZE_RANGE);
      } else if pos < 0 {
        SetReadPosition((readPos - (-pos)) % SIZE_RANGE);
      }
    }

    method Truncate()
      requires Valid()
      modifies this`readPos, this`writePos
      ensures Valid() && Bytes() == [] && readPos == 0
    {
      readPos := 0;
      writePos := 0;
    }

    /** Cuts `length` bytes off the front; the read position keeps its place in what is left, or
        goes to the start when its place was cut. */
    method CutHead(length: nat) returns (out: seq<Byte>)
      requires Valid()
      modifies this`readPos, this`writePos, data
      ensures Valid() && out + Bytes() == old(Bytes())
      ensures |out| == if length < old(writePos) then length else old(writePos)
      ensures readPos == if old(readPos) > |out| then old(readPos) - |out| else if |out| == 0 then old(readPos) else 0
    {
      if writePos == 0 || length == 0 {
        return [];
      }
      if length >= writePos {
        out := data[..writePos];
        Truncate();
      } else {
        out := data[..length];
        writePos := writePos - length;
        Copy(data, 0, data, length, writePos);
        readPos := if readPos > length then readPos - length else 0;
      }
    }

    /** Cuts `length` bytes off the end. */
    method CutTail(length: nat) returns (out: seq<Byte>)
      requires Valid()
      modifies this`readPos, this`writePos
      ensures Valid() && Bytes() + out == old(Bytes())
      ensures |out| == if length < old(writePos) then length else old(writePos)
      ensures readPos == if old(readPos) > writePos then writePos else old(readPos)
    {
      if writePos == 0 {
        return [];
      }
      if length >= writePos {
        out := data[..writePos];
        Truncate();
      } else {
        out := data[writePos - length..writePos];
        writePos := writePos - length;
        if readPos > writePos {
          readPos := writePos;
        }
      }
    }
  }
}
