/**
 * The growable byte buffer of .NET (System.Buffers.ArrayBufferWriter<byte>),
 * reduced to what the modelled code uses: a backing array, the written count,
 * GetSpan (which may grow the array) and Advance.
 */
module Buffers {
  import opened Integers

  /** ArrayBufferWriter's first allocation when it grows an empty array. */
  const DefaultInitialBufferSize: nat := 256

  /**
   * FreeCapacity after GetSpan(sizeHint) on an array of `length` bytes of
   * which `index` are written: unchanged when the free tail is long enough,
   * otherwise what the grown array leaves free.
   */
  function FreeAfterGetSpan(length: nat, index: nat, sizeHint: nat): (free: nat)
    requires index <= length
    ensures free >= (if sizeHint == 0 then 1 else sizeHint) && free >= length - index
    ensures length - index >= (if sizeHint == 0 then 1 else sizeHint) <==> free == length - index
  {
    var hint := if sizeHint == 0 then 1 else sizeHint;
    if hint <= length - index then length - index
    else
      var growBy := if hint > length then hint else length;
      var growBy' := if length == 0 && growBy < DefaultInitialBufferSize then DefaultInitialBufferSize else growBy;
      length + growBy' - index
  }

  class ArrayBufferWriter {
    var buffer: array<byte>
    var index: nat

    ghost predicate Valid()
      reads this
    {
      index <= buffer.Length
    }

    /** WrittenCount. */
    function WrittenCount(): nat
      reads this
    {
      index
    }

    /** WrittenSpan: the bytes committed by Advance so far. */
    function WrittenSpan(): (r: seq<byte>)
      reads this, buffer
      requires Valid()
      ensures |r| == index
    {
      buffer[..index]
    }

    function FreeCapacity(): nat
      reads this
      requires Valid()
    {
      buffer.Length - index
    }

    /** new ArrayBufferWriter<byte>(initialCapacity); .NET throws ArgumentException when it is not positive. */
    constructor (initialCapacity: nat)
      requires initialCapacity > 0
      ensures Valid() && fresh(buffer)
      ensures index == 0 && buffer.Length == initialCapacity
    {
      buffer := new byte[initialCapacity](_ => 0);
      index := 0;
    }

    /**
     * GetSpan(sizeHint): the free tail buffer[index..]. When it is shorter than
     * the hint (0 counts as 1) the array grows by max(hint, length), and by at
     * least DefaultInitialBufferSize when it was empty; the old contents are kept.
     */
    method GetSpan(sizeHint: nat) returns (spanStart: nat)
      requires Valid()
      modifies this`buffer
      ensures Valid()
      ensures spanStart == index
      ensures FreeCapacity() == FreeAfterGetSpan(old(buffer.Length), old(index), sizeHint)
      ensures buffer == old(buffer) || fresh(buffer)
      ensures old(buffer.Length) < buffer.Length ==> buffer[..old(buffer.Length)] == old(buffer[..])
      ensures buffer == old(buffer) <==> old(FreeCapacity()) >= (if sizeHint == 0 then 1 else sizeHint)
      ensures WrittenSpan() == old(WrittenSpan())
    {
      var hint := if sizeHint == 0 then 1 else sizeHint;
      if hint > buffer.Length - index {
        var currentLength := buffer.Length;
        var growBy := if hint > currentLength then hint else currentLength;
        if currentLength == 0 && growBy < DefaultInitialBufferSize {
          growBy := DefaultInitialBufferSize;
        }
        var old_ := buffer;
        var grown := new byte[currentLength + growBy](i requires 0 <= i reads old_ => if i < old_.Length then old_[i] else 0);
        assert grown[..currentLength] == old_[..];
        buffer := grown;
      }
      spanStart := index;
    }

    /** Advance(count): commits count more bytes of the free tail. */
    method Advance(count: nat)
      requires Valid() && count <= FreeCapacity()
      modifies this`index
      ensures Valid() && index == old(index) + count
    {
      index := index + count;
    }
  }
}
