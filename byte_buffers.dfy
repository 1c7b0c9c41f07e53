/**
 * The parts of `java.nio.ByteBuffer` the transform relies on: a read cursor over
 * a mapped file (position and limit), relative slicing, absolute getInt, and
 * writable copies patched with putInt; and the output file channel.
 */
module ByteBuffers {
  import opened Wrappers
  import opened JavaInt
  import opened ByteOrder

  /** The unchecked exceptions a buffer operation can end in. */
  datatype BufferError =
    | BufferLimitExceeded  // IllegalArgumentException: a new limit or position outside [0, capacity]
    | NegativeLength       // a negative slice length whose end is still inside the buffer
    | IndexOutOfBounds     // IndexOutOfBoundsException from an absolute getInt

  /**
   * What subBuffer yields for a cursor at `position` over `content`: the position
   * plus the length is computed in `int` arithmetic and must lie in [0, limit].
   */
  function Slice(content: seq<byte>, position: nat, length: int32): (r: Result<seq<byte>, BufferError>)
    requires position <= |content| <= INT_MAX
    ensures r.Success? <==> 0 <= length && position + length <= |content|
    ensures r.Success? ==> r.value == content[position..position + length]
    ensures r.Failure? ==> (r.error == NegativeLength <==> length < 0 <= position + length)
    ensures r.Failure? ==> r.error != IndexOutOfBounds
  {
    var newPosition := Wrap(position + length);
    if newPosition < 0 || |content| < newPosition then Failure(BufferLimitExceeded)
    else if length < 0 then Failure(NegativeLength)
    else Success(content[position..newPosition])
  }

  /** Absolute ByteBuffer.getInt(index) on a little-endian buffer holding `content`. */
  function GetInt(content: seq<byte>, index: int): (r: Result<int32, BufferError>)
    ensures r.Success? <==> 0 <= index && index + 4 <= |content|
    ensures r.Success? ==> r.value == LeInt32(content, index)
    ensures r.Failure? ==> r.error == IndexOutOfBounds
  {
    if index < 0 || |content| < index + 4 then Failure(IndexOutOfBounds)
    else Success(LeInt32(content, index))
  }

  /** A read-only buffer over a mapped file: fixed content, limit == capacity == |content|, and a position. */
  class ByteCursor {
    const content: seq<byte>
    var position: nat

    ghost predicate Valid()
      reads this
    {
      position <= |content| <= INT_MAX
    }

    constructor (content: seq<byte>)
      requires |content| <= INT_MAX
      ensures Valid() && this.content == content && position == 0
    {
      this.content := content;
      position := 0;
    }

    /** Buffer.clear(): the position goes back to 0. */
    method Clear()
      requires Valid()
      modifies this
      ensures Valid() && position == 0
    {
      position := 0;
    }

    /**
     * subBuffer(this, length): the next `length` bytes, after which this cursor
     * has advanced past them; on failure the cursor does not move.
     */
    method SubBuffer(length: int32) returns (r: Result<seq<byte>, BufferError>)
      requires Valid()
      modifies this
      ensures Valid()
      ensures r == Slice(content, old(position), length)
      ensures position == old(position) + (if r.Success? then length else 0)
    {
      var newPosition := Wrap(position + length);
      if newPosition < 0 || |content| < newPosition {
        return Failure(BufferLimitExceeded);
      }
      if length < 0 {
        return Failure(NegativeLength);
      }
      r := Success(content[position..newPosition]);
      position := newPosition;
    }

    /** Writing the buffer to a channel consumes every byte from the position to the limit. */
    method TakeRemaining() returns (rest: seq<byte>)
      requires Valid()
      modifies this
      ensures Valid()
      ensures rest == content[old(position)..] && position == |content|
    {
      rest := content[position..];
      position := |content|;
    }
  }

  /** copyOf: a fresh writable buffer holding the bytes of `s`. */
  method CopyOf(s: seq<byte>) returns (a: array<byte>)
    ensures fresh(a) && a[..] == s
  {
    a := new byte[|s|](i requires 0 <= i < |s| => s[i]);
  }

  /** ByteBuffer.putInt(index, v) on a writable little-endian buffer. */
  method PutIntArray(a: array<byte>, index: nat, v: int32)
    requires index + 4 <= a.Length
    modifies a
    ensures a[..] == PutInt(old(a[..]), index, v)
  {
    var b := LeBytes(v);
    a[index], a[index + 1], a[index + 2], a[index + 3] := b[0], b[1], b[2], b[3];
    assert a[..] == old(a[..])[..index] + b + old(a[..])[index + 4..];
  }

  /** The output file: everything written to it so far, in order. */
  class OutputChannel {
    var written: seq<byte>

    constructor ()
      ensures written == []
    {
      written := [];
    }

    /** write(out, buff): every remaining byte of the buffer is appended to the file. */
    method Write(bytes: seq<byte>)
      modifies this
      ensures written == old(written) + bytes
    {
      written := written + bytes;
    }
  }
}
