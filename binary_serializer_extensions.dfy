/**
 * The signed and unsigned number extensions of BinaryBufferReader. Each one
 * forwards to the reader with a fixed isUnsigned flag: false for the signed
 * number types, true for the unsigned ones. The `ref` overloads store the
 * number read into a caller's slot; the nullable `ref` overload reads a
 * nullable number (a presence byte, then the number). A read that raises
 * leaves the slot as it was.
 */
module SerializerExtensions {
  import opened Wrappers
  import opened Integers
  import opened EndiannessSerializer
  import opened BinaryIO

  /** A caller's variable passed by `ref`. */
  class Slot<T> {
    var value: T

    constructor (value: T)
      ensures this.value == value
    {
      this.value := value;
    }
  }

  /** ReadNumber<T>() for a signed T: the reader's ReadNumber with isUnsigned = false. */
  method SignedReadNumber(reader: BinaryBufferReader, t: IntType) returns (r: Result<int>)
    requires reader.Valid() && t.Valid() && t.signed
    modifies reader`offset
    ensures reader.Valid()
    ensures r == ValueOf(Read(reader.serializer, old(reader.buffer[reader.offset..]), t, false))
    ensures reader.offset == old(reader.offset) + (if r.Ok? then t.size else 0)
  {
    r := reader.ReadNumber(t, false);
  }

  /** ReadNumber(ref T value) for a signed T. */
  method SignedReadNumberInto(reader: BinaryBufferReader, t: IntType, slot: Slot<int>) returns (r: Result<()>)
    requires reader.Valid() && t.Valid() && t.signed
    modifies reader`offset, slot
    ensures reader.Valid()
    ensures var read := ValueOf(Read(reader.serializer, old(reader.buffer[reader.offset..]), t, false));
      r == (if read.Ok? then Ok(()) else Err(read.error)) &&
      slot.value == (if read.Ok? then read.value else old(slot.value))
    ensures reader.offset == old(reader.offset) + (if r.Ok? then t.size else 0)
  {
    var read := reader.ReadNumber(t, false);
    if read.Err? {
      return Err(read.error);
    }
    slot.value := read.value;
    r := Ok(());
  }

  /** ReadNumber(ref T? value) for a signed T. */
  method SignedReadNullableInto(reader: BinaryBufferReader, t: IntType, slot: Slot<Option<int>>) returns (r: Result<()>)
    requires reader.Valid() && t.Valid() && t.signed
    modifies reader`offset, slot
    ensures reader.Valid()
    ensures var read := ReadNullable(reader.serializer, old(reader.buffer[reader.offset..]), t, false);
      r == (if read.Ok? then Ok(()) else Err(read.error)) &&
      slot.value == (if read.Ok? then read.value.0 else old(slot.value)) &&
      reader.offset == old(reader.offset) + (if read.Ok? then read.value.1 else 0)
  {
    var read := reader.ReadNullableNumber(t, false);
    if read.Err? {
      return Err(read.error);
    }
    slot.value := read.value;
    r := Ok(());
  }

  /** ReadNullableNumber<T>() for a signed T. */
  method SignedReadNullableNumber(reader: BinaryBufferReader, t: IntType) returns (r: Result<Option<int>>)
    requires reader.Valid() && t.Valid() && t.signed
    modifies reader`offset
    ensures reader.Valid()
    ensures var read := ReadNullable(reader.serializer, old(reader.buffer[reader.offset..]), t, false);
      r == ValueOf(read) &&
      reader.offset == old(reader.offset) + (if read.Ok? then read.value.1 else 0)
  {
    r := reader.ReadNullableNumber(t, false);
  }

  /** ReadNumber<T>() for an unsigned T: the reader's ReadNumber with isUnsigned = true. */
  method UnsignedReadNumber(reader: BinaryBufferReader, t: IntType) returns (r: Result<int>)
    requires reader.Valid() && t.Valid() && !t.signed
    modifies reader`offset
    ensures reader.Valid()
    ensures r == ValueOf(Read(reader.serializer, old(reader.buffer[reader.offset..]), t, true))
    ensures reader.offset == old(reader.offset) + (if r.Ok? then t.size else 0)
  {
    r := reader.ReadNumber(t, true);
  }

  /** ReadNumber(ref T value) for an unsigned T. */
  method UnsignedReadNumberInto(reader: BinaryBufferReader, t: IntType, slot: Slot<int>) returns (r: Result<()>)
    requires reader.Valid() && t.Valid() && !t.signed
    modifies reader`offset, slot
    ensures reader.Valid()
    ensures var read := ValueOf(Read(reader.serializer, old(reader.buffer[reader.offset..]), t, true));
      r == (if read.Ok? then Ok(()) else Err(read.error)) &&
      slot.value == (if read.Ok? then read.value else old(slot.value))
    ensures reader.offset == old(reader.offset) + (if r.Ok? then t.size else 0)
  {
    var read := reader.ReadNumber(t, true);
    if read.Err? {
      return Err(read.error);
    }
    slot.value := read.value;
    r := Ok(());
  }

  /** ReadNumber(ref T? value) for an unsigned T. */
  method UnsignedReadNullableInto(reader: BinaryBufferReader, t: IntType, slot: Slot<Option<int>>) returns (r: Result<()>)
    requires reader.Valid() && t.Valid() && !t.signed
    modifies reader`offset, slot
    ensures reader.Valid()
    ensures var read := ReadNullable(reader.serializer, old(reader.buffer[reader.offset..]), t, true);
      r == (if read.Ok? then Ok(()) else Err(read.error)) &&
      slot.value == (if read.Ok? then read.value.0 else old(slot.value)) &&
      reader.offset == old(reader.offset) + (if read.Ok? then read.value.1 else 0)
  {
    var read := reader.ReadNullableNumber(t, true);
    if read.Err? {
      return Err(read.error);
    }
    slot.value := read.value;
    r := Ok(());
  }

  /** ReadNullableNumber<T>() for an unsigned T. */
  method UnsignedReadNullableNumber(reader: BinaryBufferReader, t: IntType) returns (r: Result<Option<int>>)
    requires reader.Valid() && t.Valid() && !t.signed
    modifies reader`offset
    ensures reader.Valid()
    ensures var read := ReadNullable(reader.serializer, old(reader.buffer[reader.offset..]), t, true);
      r == ValueOf(read) &&
      reader.offset == old(reader.offset) + (if read.Ok? then read.value.1 else 0)
  {
    r := reader.ReadNullableNumber(t, true);
  }

  /**
   * The flag each family passes is the right one: reading what was written
   * for any value of T, negative or with its top bit set, gets the value
   * back, and never raises an overflow.
   */
  lemma ExtensionFlagsRoundTrip(s: NumberSerializer, t: IntType, v: int, rest: seq<byte>)
    requires t.Valid() && t.InRange(v)
    ensures t.signed ==> Read(s, EncodeNumber(s, t, v) + rest, t, false) == Ok((v, t.size))
    ensures !t.signed ==> Read(s, EncodeNumber(s, t, v) + rest, t, true) == Ok((v, t.size))
  {
    ReadWriteRoundTrip(s, t, v, rest);
  }

  /** The same for the nullable overloads, null included. */
  lemma NullableFlagsRoundTrip(s: NumberSerializer, t: IntType, value: Option<int>, rest: seq<byte>)
    requires t.Valid() && (value.Some? ==> t.InRange(value.value))
    ensures t.signed ==> ReadNullable(s, EncodeNullable(s, t, value) + rest, t, false) == Ok((value, |EncodeNullable(s, t, value)|))
    ensures !t.signed ==> ReadNullable(s, EncodeNullable(s, t, value) + rest, t, true) == Ok((value, |EncodeNullable(s, t, value)|))
  {
    ReadNullableRoundTrip(s, t, value, rest);
  }

  /**
   * The opposite flag would be wrong: a signed T read as unsigned raises on
   * every negative value, and an unsigned T read as signed raises on every
   * value with its top bit set.
   */
  lemma OppositeFlagOverflows(s: NumberSerializer, t: IntType, v: int, rest: seq<byte>)
    requires t.Valid() && t.InRange(v)
    ensures t.signed ==> (Read(s, EncodeNumber(s, t, v) + rest, t, true).Err? <==> v < 0)
    ensures !t.signed ==> (Read(s, EncodeNumber(s, t, v) + rest, t, false).Err? <==> v >= t.Modulus() / 2)
  {
    assert (EncodeNumber(s, t, v) + rest)[..t.size] == EncodeNumber(s, t, v);
    WrongFlagOverflows(s, t, v);
  }
}
