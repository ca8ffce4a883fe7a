/**
 * The endianness-specific number serializers: a big-endian and a
 * little-endian strategy that read and write a binary integer of type T as
 * exactly sizeof(T) bytes.
 *
 * Reading follows .NET's IBinaryInteger<T>.ReadBigEndian/ReadLittleEndian on a
 * source of exactly sizeof(T) bytes: the result is the value whose two's
 * complement pattern the bytes hold, except that an OverflowException is
 * raised when the top bit is set and the `isUnsigned` flag disagrees with T's
 * signedness (a signed T read as unsigned, or an unsigned T read as signed).
 */
module EndiannessSerializer {
  import opened Wrappers
  import opened Integers
  import opened Spans
  import opened Buffers

  /** The Endianness enum; like any C# enum it can hold values it does not name. */
  datatype Endianness = LittleEndian | BigEndian | Undefined(raw: int)

  /** INumberSerializer: one singleton per byte order. */
  datatype NumberSerializer = BigEndianSerializer | LittleEndianSerializer {

    /** The Endianness property of each strategy. */
    function Endianness(): (e: Endianness)
      ensures e != Undefined(0) && e.Undefined? == false
      ensures e == BigEndian <==> this == BigEndianSerializer
    {
      if BigEndianSerializer? then BigEndian else LittleEndian
    }
  }

  /** EndiannessSerializer.Get. */
  function Get(endianness: Endianness): (r: Result<NumberSerializer>)
    ensures r.Ok? <==> !endianness.Undefined?
    ensures r.Ok? ==> r.value.Endianness() == endianness
    ensures r.Err? ==> r.error == ArgumentOutOfRange
  {
    match endianness
    case LittleEndian => Ok(LittleEndianSerializer)
    case BigEndian => Ok(BigEndianSerializer)
    case Undefined(_) => Err(ArgumentOutOfRange)
  }

  /** The n-byte image of the bit pattern u in the strategy's byte order. */
  function ByteImage(s: NumberSerializer, u: nat, n: nat): (r: seq<byte>)
    ensures |r| == n
  {
    if s.BigEndianSerializer? then BigBytes(u, n) else LittleBytes(u, n)
  }

  /** The bytes a strategy writes for v: its bit pattern in the strategy's byte order. */
  function EncodeNumber(s: NumberSerializer, t: IntType, v: int): (r: seq<byte>)
    ensures |r| == t.size
  {
    ByteImage(s, ToBits(t, v), t.size)
  }

  /** The bit pattern held by bs in the strategy's byte order. */
  function BitPattern(s: NumberSerializer, bs: seq<byte>): (u: nat)
    ensures u < Pow256(|bs|)
  {
    if s.BigEndianSerializer? then BigValue(bs) else LittleValue(bs)
  }

  /** T.ReadBigEndian / T.ReadLittleEndian on exactly sizeof(T) bytes. */
  function DecodeNumber(s: NumberSerializer, t: IntType, bs: seq<byte>, isUnsigned: bool): (r: Result<int>)
    requires t.Valid() && |bs| == t.size
    ensures r.Ok? ==> t.InRange(r.value)
    ensures r.Err? ==> r.error == Overflow
  {
    FromBitsInRange(t, BitPattern(s, bs));
    if BitPattern(s, bs) >= t.Modulus() / 2 && isUnsigned == t.signed then Err(Overflow)
    else Ok(FromBits(t, BitPattern(s, bs)))
  }

  /** Read<T>(buffer, isUnsigned, out bytesRead): the value and bytesRead, or the exception. */
  function Read(s: NumberSerializer, buffer: seq<byte>, t: IntType, isUnsigned: bool): (r: Result<(int, nat)>)
    requires t.Valid()
    ensures |buffer| < t.size ==> r == Err(ArgumentOutOfRange)
    ensures r.Ok? ==> r.value.1 == t.size && t.InRange(r.value.0)
    ensures |buffer| >= t.size ==> (r.Ok? <==> DecodeNumber(s, t, buffer[..t.size], isUnsigned).Ok?)
  {
    if |buffer| < t.size then Err(ArgumentOutOfRange)
    else
      match DecodeNumber(s, t, buffer[..t.size], isUnsigned)
      case Ok(v) => Ok((v, t.size))
      case Err(e) => Err(e)
  }

  /** Read consumes exactly sizeof(T) bytes and looks at no byte past them. */
  lemma ReadLooksAtPrefixOnly(s: NumberSerializer, a: seq<byte>, b: seq<byte>, t: IntType, isUnsigned: bool)
    requires t.Valid() && |a| >= t.size && |b| >= t.size && a[..t.size] == b[..t.size]
    ensures Read(s, a, t, isUnsigned) == Read(s, b, t, isUnsigned)
  {
  }

  /** The big-endian strategy reads the first byte as the most significant, the little-endian one as the least. */
  lemma ByteSignificance(t: IntType, bs: seq<byte>)
    requires t.Valid() && |bs| == t.size
    ensures BitPattern(BigEndianSerializer, bs) == bs[0] * Pow256(t.size - 1) + BigValue(bs[1..])
    ensures BitPattern(LittleEndianSerializer, bs) == bs[0] + 256 * LittleValue(bs[1..])
  {
    BigFirstByteMost(bs);
  }

  /** The two strategies write mirror images of each other. */
  lemma StrategiesMirror(t: IntType, v: int)
    ensures EncodeNumber(BigEndianSerializer, t, v) == Reverse(EncodeNumber(LittleEndianSerializer, t, v))
  {
  }

  /**
   * The overflow rule: the most significant byte (first for big-endian, last
   * for little-endian) has its top bit set and isUnsigned names the wrong
   * signedness.
   */
  lemma {:induction false} DecodeOverflowRule(s: NumberSerializer, t: IntType, bs: seq<byte>, isUnsigned: bool)
    requires t.Valid() && |bs| == t.size
    ensures DecodeNumber(s, t, bs, isUnsigned).Err? <==>
      (isUnsigned == t.signed && (if s.BigEndianSerializer? then bs[0] else bs[|bs| - 1]) >= 128)
  {
    if s.BigEndianSerializer? {
      TopBitBig(bs);
    } else {
      TopBitLittle(bs);
    }
  }

  /** Decoding the encoding of any value of T, with T's own signedness flag, gives the value back. */
  lemma {:induction false} DecodeEncode(s: NumberSerializer, t: IntType, v: int)
    requires t.Valid() && t.InRange(v)
    ensures DecodeNumber(s, t, EncodeNumber(s, t, v), !t.signed) == Ok(v)
  {
    var u := ToBits(t, v);
    if s.BigEndianSerializer? {
      BigRoundTrip(u, t.size);
    } else {
      LittleRoundTrip(u, t.size);
    }
    assert BitPattern(s, EncodeNumber(s, t, v)) == u;
    BitsRoundTrip(t, v);
  }

  /** Encoding is onto: every successfully decoded byte image is the encoding of its value. */
  lemma {:induction false} EncodeDecode(s: NumberSerializer, t: IntType, bs: seq<byte>, isUnsigned: bool)
    requires t.Valid() && |bs| == t.size && DecodeNumber(s, t, bs, isUnsigned).Ok?
    ensures EncodeNumber(s, t, DecodeNumber(s, t, bs, isUnsigned).value) == bs
  {
    var u := BitPattern(s, bs);
    FromBitsRoundTrip(t, u);
    if s.BigEndianSerializer? {
      BigImageOfValue(bs);
    } else {
      LittleImageOfValue(bs);
    }
  }

  /** A read with the wrong flag fails exactly on the values whose top bit is set. */
  lemma {:induction false} WrongFlagOverflows(s: NumberSerializer, t: IntType, v: int)
    requires t.Valid() && t.InRange(v)
    ensures DecodeNumber(s, t, EncodeNumber(s, t, v), t.signed).Err? <==> (v < 0 || v >= t.Modulus() / 2)
  {
    var u := ToBits(t, v);
    if s.BigEndianSerializer? {
      BigRoundTrip(u, t.size);
    } else {
      LittleRoundTrip(u, t.size);
    }
    BitsRoundTrip(t, v);
    ModulusEven(t);
  }

  /** Round trip of Read over Write: value and byte count, whatever follows in the buffer. */
  lemma {:induction false} ReadWriteRoundTrip(s: NumberSerializer, t: IntType, v: int, rest: seq<byte>)
    requires t.Valid() && t.InRange(v)
    ensures Read(s, EncodeNumber(s, t, v) + rest, t, !t.signed) == Ok((v, t.size))
  {
    assert (EncodeNumber(s, t, v) + rest)[..t.size] == EncodeNumber(s, t, v);
    DecodeEncode(s, t, v);
  }

  /**
   * Write<T>(Span<byte>, value, out size) for the span buffer[start..]:
   * TryWriteBigEndian/TryWriteLittleEndian write sizeof(T) bytes when they fit
   * and report that size; otherwise they write nothing and report 0.
   */
  method WriteSpan(s: NumberSerializer, buffer: array<byte>, start: nat, t: IntType, v: int)
    returns (ok: bool, size: nat)
    requires start <= buffer.Length && t.Valid() && t.InRange(v)
    modifies buffer
    ensures ok <==> buffer.Length - start >= t.size
    ensures size == if ok then t.size else 0
    ensures buffer[..] == if ok then Splice(old(buffer[..]), start, EncodeNumber(s, t, v)) else old(buffer[..])
  {
    if buffer.Length - start < t.size {
      return false, 0;
    }
    CopyTo(buffer, start, EncodeNumber(s, t, v));
    ok, size := true, t.size;
  }

  /**
   * Write<T>(ArrayBufferWriter<byte>, value, out size): writes into
   * GetSpan(sizeof(T)) and never calls Advance, so the written count and
   * the written bytes stay as they were; the encoding sits in the free tail.
   */
  method WriteBuffer(s: NumberSerializer, writer: ArrayBufferWriter, t: IntType, v: int)
    returns (ok: bool, size: nat)
    requires writer.Valid() && t.Valid() && t.InRange(v)
    modifies writer, writer.buffer
    ensures writer.Valid() && ok && size == t.size
    ensures writer.WrittenCount() == old(writer.WrittenCount())
    ensures writer.WrittenSpan() == old(writer.WrittenSpan())
    ensures writer.FreeCapacity() >= t.size
    ensures writer.buffer[writer.index..writer.index + t.size] == EncodeNumber(s, t, v)
  {
    size := t.size;
    var spanStart := writer.GetSpan(size);
    ghost var before := writer.buffer[..];
    ok, size := WriteSpan(s, writer.buffer, spanStart, t, v);
    assert writer.buffer[..writer.index] == before[..writer.index];
  }
}
