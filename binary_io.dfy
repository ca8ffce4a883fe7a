/**
 * BinarySpanWriter, BinaryBufferWriter and BinaryBufferReader: a cursor over
 * a byte buffer that writes and reads numbers through the session's number
 * serializer. BinarySpanWriter.cs, BinaryBufferWriter.cs and
 * BinaryBufferReader.cs are not part of this model; the cursors here are the
 * minimal ones the messages and the input context need:
 *  - the writer writes each number into the free tail of its span and
 *    advances the shared offset by the size the serializer reports (0 when
 *    the number did not fit);
 *  - the buffer writer appends each number to an ArrayBufferWriter, through
 *    GetSpan and Advance;
 *  - the reader reads each number from the tail of its span and advances the
 *    shared offset by the bytes read; a failing read raises its exception
 *    and leaves the offset where it was;
 *  - a Frame travels as its Int32 number; a nullable number travels as one
 *    presence byte (0 for null) followed by the number when present.
 */
module BinaryIO {
  import opened Wrappers
  import opened Integers
  import opened Spans
  import opened EndiannessSerializer
  import opened Frames
  import opened Buffers

  // ---------------------------------------------------------------------
  // Sequences of writes and reads, as functions

  /** One number handed to the writer: its type and value. */
  datatype Field = Field(t: IntType, v: int)

  /** Every field has a valid type and a value of that type. */
  predicate FieldsValid(fs: seq<Field>)
  {
    fs == [] || (fs[0].t.Valid() && fs[0].t.InRange(fs[0].v) && FieldsValid(fs[1..]))
  }

  /** Total size of the fields' encodings. */
  function FieldsSize(fs: seq<Field>): nat
  {
    if fs == [] then 0 else fs[0].t.size + FieldsSize(fs[1..])
  }

  /** The encodings of the fields, one after the other. */
  function EncodeFields(s: NumberSerializer, fs: seq<Field>): (r: seq<byte>)
    ensures |r| == FieldsSize(fs)
  {
    if fs == [] then [] else EncodeNumber(s, fs[0].t, fs[0].v) + EncodeFields(s, fs[1..])
  }

  /** The effect of writing the fields one by one from offset `off` on (buffer, offset): a field that does not fit is skipped. */
  function WriteFields(s: NumberSerializer, buf: seq<byte>, off: nat, fs: seq<Field>): (r: (seq<byte>, nat))
    requires off <= |buf|
    ensures |r.0| == |buf| && off <= r.1 <= |buf|
    decreases |fs|
  {
    if fs == [] then (buf, off)
    else
      var f := fs[0];
      if |buf| - off >= f.t.size then
        WriteFields(s, Splice(buf, off, EncodeNumber(s, f.t, f.v)), off + f.t.size, fs[1..])
      else
        WriteFields(s, buf, off, fs[1..])
  }

  /** Writing fs then gs is writing fs + gs. */
  lemma {:induction false} WriteFieldsAppend(s: NumberSerializer, buf: seq<byte>, off: nat, fs: seq<Field>, gs: seq<Field>)
    requires off <= |buf|
    ensures var m := WriteFields(s, buf, off, fs); WriteFields(s, buf, off, fs + gs) == WriteFields(s, m.0, m.1, gs)
    decreases |fs|
  {
    if fs == [] {
      assert fs + gs == gs;
    } else {
      assert (fs + gs)[1..] == fs[1..] + gs;
      var f := fs[0];
      if |buf| - off >= f.t.size {
        WriteFieldsAppend(s, Splice(buf, off, EncodeNumber(s, f.t, f.v)), off + f.t.size, fs[1..], gs);
      } else {
        WriteFieldsAppend(s, buf, off, fs[1..], gs);
      }
    }
  }

  /** Two consecutive splices of adjacent runs are one splice of their concatenation. */
  lemma SpliceAdjacent(buf: seq<byte>, off: nat, a: seq<byte>, b: seq<byte>)
    requires off + |a| + |b| <= |buf|
    ensures Splice(Splice(buf, off, a), off + |a|, b) == Splice(buf, off, a + b)
  {
    var l := Splice(Splice(buf, off, a), off + |a|, b);
    var r := Splice(buf, off, a + b);
    forall k | 0 <= k < |buf|
      ensures l[k] == r[k]
    {
      SpliceAt(Splice(buf, off, a), off + |a|, b, k);
      SpliceAt(buf, off, a, k);
      SpliceAt(buf, off, a + b, k);
    }
  }

  /** A first field that fits is written at `off`, and the rest follow it. */
  lemma WriteFirstFits(s: NumberSerializer, buf: seq<byte>, off: nat, fs: seq<Field>)
    requires fs != [] && off + FieldsSize(fs) <= |buf|
    ensures off + fs[0].t.size + FieldsSize(fs[1..]) <= |buf|
    ensures EncodeFields(s, fs) == EncodeNumber(s, fs[0].t, fs[0].v) + EncodeFields(s, fs[1..])
    ensures WriteFields(s, buf, off, fs) ==
      WriteFields(s, Splice(buf, off, EncodeNumber(s, fs[0].t, fs[0].v)), off + fs[0].t.size, fs[1..])
  {
  }

  /** With room for all of them, the writes lay the encodings down one after the other from `off` and advance the offset by their total size. */
  lemma {:induction false} WriteFieldsFits(s: NumberSerializer, buf: seq<byte>, off: nat, fs: seq<Field>)
    requires off + FieldsSize(fs) <= |buf|
    ensures WriteFields(s, buf, off, fs) == (Splice(buf, off, EncodeFields(s, fs)), off + FieldsSize(fs))
    decreases |fs|
  {
    if fs == [] {
      assert Splice(buf, off, []) == buf;
    } else {
      var e, tail := EncodeNumber(s, fs[0].t, fs[0].v), EncodeFields(s, fs[1..]);
      WriteFirstFits(s, buf, off, fs);
      WriteFieldsFits(s, Splice(buf, off, e), off + |e|, fs[1..]);
      SpliceAdjacent(buf, off, e, tail);
    }
  }

  /** The offset advances by the fields' total size exactly when they all fit; otherwise some field was skipped. */
  lemma {:induction false} WriteFieldsAdvance(s: NumberSerializer, buf: seq<byte>, off: nat, fs: seq<Field>)
    requires off <= |buf|
    ensures WriteFields(s, buf, off, fs).1 <= off + FieldsSize(fs)
    ensures WriteFields(s, buf, off, fs).1 == off + FieldsSize(fs) <==> off + FieldsSize(fs) <= |buf|
    decreases |fs|
  {
    if fs != [] {
      var f := fs[0];
      if |buf| - off >= f.t.size {
        WriteFieldsAdvance(s, Splice(buf, off, EncodeNumber(s, f.t, f.v)), off + f.t.size, fs[1..]);
      } else {
        WriteFieldsAdvance(s, buf, off, fs[1..]);
        assert f.t.size > 0 || off + FieldsSize(fs) > |buf|;
      }
    }
  }

  /** How a number is read: its type and the isUnsigned flag passed to the serializer. */
  datatype Kind = Kind(t: IntType, isUnsigned: bool)

  predicate KindsValid(ks: seq<Kind>)
  {
    ks == [] || (ks[0].t.Valid() && KindsValid(ks[1..]))
  }

  /**
   * What a sequence of reads from offset `off` leaves behind: the values read
   * before the first failure, the offset reached, and the first read's
   * exception if one was raised (the reads after it never happen).
   */
  datatype ReadOutcome = ReadOutcome(values: seq<int>, offset: nat, error: Option<Error>)

  function ReadFields(s: NumberSerializer, data: seq<byte>, off: nat, ks: seq<Kind>): (r: ReadOutcome)
    requires off <= |data| && KindsValid(ks)
    ensures off <= r.offset <= |data| && |r.values| <= |ks|
    ensures r.error.None? <==> |r.values| == |ks|
    decreases |ks|
  {
    if ks == [] then ReadOutcome([], off, None)
    else
      match Read(s, data[off..], ks[0].t, ks[0].isUnsigned)
      case Err(e) => ReadOutcome([], off, Some(e))
      case Ok(vn) =>
        var rest := ReadFields(s, data, off + vn.1, ks[1..]);
        ReadOutcome([vn.0] + rest.values, rest.offset, rest.error)
  }

  /** The reads that get back each field: its own type, and isUnsigned exactly for the unsigned types. */
  function KindsOf(fs: seq<Field>): (ks: seq<Kind>)
    ensures |ks| == |fs|
    ensures FieldsValid(fs) ==> KindsValid(ks)
  {
    if fs == [] then [] else [Kind(fs[0].t, !fs[0].t.signed)] + KindsOf(fs[1..])
  }

  function ValuesOf(fs: seq<Field>): (vs: seq<int>)
    ensures |vs| == |fs|
  {
    if fs == [] then [] else [fs[0].v] + ValuesOf(fs[1..])
  }

  /** KindsOf and ValuesOf take the fields one at a time. */
  lemma OfCons(fs: seq<Field>)
    requires fs != []
    ensures KindsOf(fs) == [Kind(fs[0].t, !fs[0].t.signed)] + KindsOf(fs[1..])
    ensures ValuesOf(fs) == [fs[0].v] + ValuesOf(fs[1..])
    ensures FieldsSize(fs) == fs[0].t.size + FieldsSize(fs[1..])
  {
  }

  /** A number whose encoding sits at `off` reads back from there. */
  lemma ReadAt(s: NumberSerializer, data: seq<byte>, off: nat, f: Field)
    requires f.t.Valid() && f.t.InRange(f.v)
    requires off + f.t.size <= |data| && data[off..off + f.t.size] == EncodeNumber(s, f.t, f.v)
    ensures Read(s, data[off..], f.t, !f.t.signed) == Ok((f.v, f.t.size))
  {
    var e := EncodeNumber(s, f.t, f.v);
    assert data[off..][..f.t.size] == e;
    ReadLooksAtPrefixOnly(s, data[off..], e + data[off + f.t.size..], f.t, !f.t.signed);
    ReadWriteRoundTrip(s, f.t, f.v, data[off + f.t.size..]);
  }

  /** A slice holding a + b holds a, then b. */
  lemma SliceConcat<T>(data: seq<T>, off: nat, a: seq<T>, b: seq<T>)
    requires off + |a| + |b| <= |data| && data[off..off + |a| + |b|] == a + b
    ensures data[off..off + |a|] == a
    ensures data[off + |a|..off + |a| + |b|] == b
  {
    assert data[off..off + |a|] == data[off..off + |a| + |b|][..|a|];
    assert data[off + |a|..off + |a| + |b|] == data[off..off + |a| + |b|][|a|..];
  }

  /** The reads step by step: a failing first read ends them; a successful one is followed by the rest. */
  lemma ReadFieldsStep(s: NumberSerializer, data: seq<byte>, off: nat, k: Kind, ks: seq<Kind>)
    requires off <= |data| && k.t.Valid() && KindsValid(ks)
    ensures KindsValid([k] + ks)
    ensures var first := Read(s, data[off..], k.t, k.isUnsigned);
      first.Err? ==> ReadFields(s, data, off, [k] + ks) == ReadOutcome([], off, Some(first.error))
    ensures var first := Read(s, data[off..], k.t, k.isUnsigned);
      first.Ok? ==>
        var rest := ReadFields(s, data, off + first.value.1, ks);
        ReadFields(s, data, off, [k] + ks) == ReadOutcome([first.value.0] + rest.values, rest.offset, rest.error)
  {
    var all := [k] + ks;
    assert all[0] == k && all[1..] == ks;
    var first := Read(s, data[off..], k.t, k.isUnsigned);
    if first.Ok? {
      var rest := ReadFields(s, data, off + first.value.1, ks);
      assert ReadFields(s, data, off, all) == ReadOutcome([first.value.0] + rest.values, rest.offset, rest.error);
    }
  }

  /** The first field's encoding and the rest of the encodings split the whole. */
  lemma EncodeFieldsSplit(s: NumberSerializer, data: seq<byte>, off: nat, fs: seq<Field>, e: seq<byte>, tail: seq<byte>)
    requires fs != [] && e == EncodeNumber(s, fs[0].t, fs[0].v) && tail == EncodeFields(s, fs[1..])
    requires off + FieldsSize(fs) <= |data| && data[off..off + FieldsSize(fs)] == EncodeFields(s, fs)
    ensures off + |e| + |tail| <= |data| && data[off..off + |e| + |tail|] == e + tail
  {
  }

  /** The first read gets the first field back, and the rest of the encoding sits right after it. */
  lemma ReadEncodeFirst(s: NumberSerializer, data: seq<byte>, off: nat, fs: seq<Field>)
    requires fs != [] && FieldsValid(fs)
    requires off + FieldsSize(fs) <= |data| && data[off..off + FieldsSize(fs)] == EncodeFields(s, fs)
    ensures FieldsValid(fs[1..])
    ensures off + fs[0].t.size + FieldsSize(fs[1..]) <= |data|
    ensures data[off + fs[0].t.size..off + fs[0].t.size + FieldsSize(fs[1..])] == EncodeFields(s, fs[1..])
    ensures Read(s, data[off..], fs[0].t, !fs[0].t.signed) == Ok((fs[0].v, fs[0].t.size))
  {
    var e, tail := EncodeNumber(s, fs[0].t, fs[0].v), EncodeFields(s, fs[1..]);
    EncodeFieldsSplit(s, data, off, fs, e, tail);
    SliceConcat(data, off, e, tail);
    ReadAt(s, data, off, fs[0]);
  }

  /** Reading back the encoding of the fields, wherever it sits in the data, gives their values and consumes exactly their size. */
  lemma {:induction false} ReadEncodeFields(s: NumberSerializer, data: seq<byte>, off: nat, fs: seq<Field>)
    requires FieldsValid(fs)
    requires off + FieldsSize(fs) <= |data| && data[off..off + FieldsSize(fs)] == EncodeFields(s, fs)
    ensures KindsValid(KindsOf(fs))
    ensures ReadFields(s, data, off, KindsOf(fs)) == ReadOutcome(ValuesOf(fs), off + FieldsSize(fs), None)
    decreases |fs|
  {
    if fs != [] {
      var f, rest := fs[0], fs[1..];
      var n, o := f.t.size, off + FieldsSize(fs);
      OfCons(fs);
      ReadEncodeFirst(s, data, off, fs);
      ReadEncodeFields(s, data, off + n, rest);
      var k := Kind(f.t, !f.t.signed);
      ReadFieldsStep(s, data, off, k, KindsOf(rest));
      assert Read(s, data[off..], k.t, k.isUnsigned) == Ok((f.v, n));
    }
  }

  /** With room for them, what the writes lay down from `off` reads back from `off`: the same values, consuming what was written. */
  lemma WriteReadRoundTrip(s: NumberSerializer, buf: seq<byte>, off: nat, fs: seq<Field>)
    requires FieldsValid(fs) && off + FieldsSize(fs) <= |buf|
    ensures WriteFields(s, buf, off, fs).1 == off + FieldsSize(fs)
    ensures KindsValid(KindsOf(fs))
    ensures ReadFields(s, WriteFields(s, buf, off, fs).0, off, KindsOf(fs)) == ReadOutcome(ValuesOf(fs), off + FieldsSize(fs), None)
  {
    WriteFieldsFits(s, buf, off, fs);
    var e := EncodeFields(s, fs);
    var written := Splice(buf, off, e);
    assert written[off..off + FieldsSize(fs)] == e;
    ReadEncodeFields(s, written, off, fs);
  }

  /** fs with its first |vs| values replaced by vs, in order: what a sequence of reads leaves in the fields it assigns. */
  function Assign(fs: seq<Field>, vs: seq<int>): (r: seq<Field>)
    requires |vs| <= |fs|
    ensures |r| == |fs|
    ensures forall i :: 0 <= i < |fs| ==> r[i].t == fs[i].t
    ensures forall i :: 0 <= i < |fs| ==> r[i].v == if i < |vs| then vs[i] else fs[i].v
  {
    if vs == [] then fs else [Field(fs[0].t, vs[0])] + Assign(fs[1..], vs[1..])
  }

  // ---------------------------------------------------------------------
  // Nullable numbers

  /** The encoding of a nullable number: a presence byte, then the number when present. */
  function EncodeNullable(s: NumberSerializer, t: IntType, value: Option<int>): (r: seq<byte>)
    ensures |r| == if value.Some? then 1 + t.size else 1
  {
    match value
    case None => [0]
    case Some(v) => [1] + EncodeNumber(s, t, v)
  }

  /** Reading a nullable number: the value or null, and the bytes read. */
  function ReadNullable(s: NumberSerializer, data: seq<byte>, t: IntType, isUnsigned: bool): (r: Result<(Option<int>, nat)>)
    requires t.Valid()
    ensures r.Ok? ==> r.value.1 == (if r.value.0.Some? then 1 + t.size else 1) && r.value.1 <= |data|
    ensures |data| == 0 ==> r == Err(ArgumentOutOfRange)
  {
    if |data| == 0 then Err(ArgumentOutOfRange)
    else if data[0] == 0 then Ok((None, 1))
    else
      match Read(s, data[1..], t, isUnsigned)
      case Err(e) => Err(e)
      case Ok(vn) => Ok((Some(vn.0), 1 + vn.1))
  }

  /** A nullable number reads back as written, null included. */
  lemma {:induction false} ReadNullableRoundTrip(s: NumberSerializer, t: IntType, value: Option<int>, rest: seq<byte>)
    requires t.Valid() && (value.Some? ==> t.InRange(value.value))
    ensures ReadNullable(s, EncodeNullable(s, t, value) + rest, t, !t.signed) == Ok((value, |EncodeNullable(s, t, value)|))
  {
    if value.Some? {
      assert (EncodeNullable(s, t, value) + rest)[1..] == EncodeNumber(s, t, value.value) + rest;
      ReadWriteRoundTrip(s, t, value.value, rest);
    }
  }

  // ---------------------------------------------------------------------
  // The cursors

  /** BinarySpanWriter: writes numbers into buffer[offset..], advancing the shared offset. */
  class BinarySpanWriter {
    const buffer: array<byte>
    const serializer: NumberSerializer
    var offset: nat

    ghost predicate Valid()
      reads this
    {
      offset <= buffer.Length
    }

    constructor (buffer: array<byte>, offset: nat, serializer: NumberSerializer)
      requires offset <= buffer.Length
      ensures Valid()
      ensures this.buffer == buffer && this.offset == offset && this.serializer == serializer
    {
      this.buffer := buffer;
      this.offset := offset;
      this.serializer := serializer;
    }

    /** WrittenCount: the current value of the shared offset. */
    function WrittenCount(): nat
      reads this
    {
      offset
    }

    /** Write<T>(in T value) for a binary integer of type t. */
    method Write(t: IntType, v: int)
      requires Valid() && t.Valid() && t.InRange(v)
      modifies this, buffer
      ensures Valid()
      ensures (buffer[..], offset) == WriteFields(serializer, old(buffer[..]), old(offset), [Field(t, v)])
    {
      var ok, size := WriteSpan(serializer, buffer, offset, t, v);
      offset := offset + size;
    }

    /** Write(in int). */
    method WriteInt32(v: int32)
      requires Valid()
      modifies this, buffer
      ensures Valid()
      ensures (buffer[..], offset) == WriteFields(serializer, old(buffer[..]), old(offset), [Field(Int32, v)])
    {
      Pow256Values();
      Write(Int32, v);
    }

    /** Write(in long). */
    method WriteInt64(v: int64)
      requires Valid()
      modifies this, buffer
      ensures Valid()
      ensures (buffer[..], offset) == WriteFields(serializer, old(buffer[..]), old(offset), [Field(Int64, v)])
    {
      Pow256Values();
      Write(Int64, v);
    }

    /** Write(in uint). */
    method WriteUInt32(v: uint32)
      requires Valid()
      modifies this, buffer
      ensures Valid()
      ensures (buffer[..], offset) == WriteFields(serializer, old(buffer[..]), old(offset), [Field(UInt32, v)])
    {
      Pow256Values();
      Write(UInt32, v);
    }

    /** Write(in Frame): the frame's Int32 number. */
    method WriteFrame(f: Frame)
      requires Valid()
      modifies this, buffer
      ensures Valid()
      ensures (buffer[..], offset) == WriteFields(serializer, old(buffer[..]), old(offset), [Field(Int32, f.Number)])
    {
      WriteInt32(f.Number);
    }
  }

  /** BinaryBufferWriter: appends numbers to a growable buffer writer. */
  class BinaryBufferWriter {
    const bufferWriter: ArrayBufferWriter
    const serializer: NumberSerializer

    constructor (bufferWriter: ArrayBufferWriter, serializer: NumberSerializer)
      ensures this.bufferWriter == bufferWriter && this.serializer == serializer
    {
      this.bufferWriter := bufferWriter;
      this.serializer := serializer;
    }

    /** Write<T>(in T value): the encoding is appended to the written bytes. */
    method Write(t: IntType, v: int)
      requires bufferWriter.Valid() && t.Valid() && t.InRange(v)
      modifies bufferWriter, bufferWriter.buffer
      ensures bufferWriter.Valid()
      ensures bufferWriter.WrittenSpan() == old(bufferWriter.WrittenSpan()) + EncodeNumber(serializer, t, v)
    {
      var start := bufferWriter.index;
      var ok, size := WriteBuffer(serializer, bufferWriter, t, v);
      bufferWriter.Advance(size);
      assert bufferWriter.buffer[..start + size] ==
        bufferWriter.buffer[..start] + bufferWriter.buffer[start..start + size];
    }
  }

  /** Read's result without the byte count. */
  function ValueOf<T>(r: Result<(T, nat)>): Result<T>
  {
    match r
    case Ok(vn) => Ok(vn.0)
    case Err(e) => Err(e)
  }

  /** BinaryBufferReader: reads numbers from buffer[offset..], advancing the shared offset. */
  class BinaryBufferReader {
    const buffer: seq<byte>
    const serializer: NumberSerializer
    var offset: nat

    ghost predicate Valid()
      reads this
    {
      offset <= |buffer|
    }

    constructor (buffer: seq<byte>, offset: nat, serializer: NumberSerializer)
      requires offset <= |buffer|
      ensures Valid()
      ensures this.buffer == buffer && this.offset == offset && this.serializer == serializer
    {
      this.buffer := buffer;
      this.offset := offset;
      this.serializer := serializer;
    }

    /** ReadNumber<T>(isUnsigned): the number, or the serializer's exception with the offset unchanged. */
    method ReadNumber(t: IntType, isUnsigned: bool) returns (r: Result<int>)
      requires Valid() && t.Valid()
      modifies this`offset
      ensures Valid()
      ensures r == ValueOf(Read(serializer, old(buffer[offset..]), t, isUnsigned))
      ensures offset == old(offset) + (if r.Ok? then t.size else 0)
    {
      var read := Read(serializer, buffer[offset..], t, isUnsigned);
      if read.Err? {
        return Err(read.error);
      }
      offset := offset + read.value.1;
      r := Ok(read.value.0);
    }

    /** ReadNullableNumber<T>(isUnsigned). */
    method ReadNullableNumber(t: IntType, isUnsigned: bool) returns (r: Result<Option<int>>)
      requires Valid() && t.Valid()
      modifies this`offset
      ensures Valid()
      ensures r == ValueOf(ReadNullable(serializer, old(buffer[offset..]), t, isUnsigned))
      ensures r.Ok? ==> offset == old(offset) + ReadNullable(serializer, old(buffer[offset..]), t, isUnsigned).value.1
      ensures r.Err? ==> offset == old(offset)
    {
      var read := ReadNullable(serializer, buffer[offset..], t, isUnsigned);
      if read.Err? {
        return Err(read.error);
      }
      offset := offset + read.value.1;
      r := Ok(read.value.0);
    }

    /** ReadInt32(): a signed read. */
    method ReadInt32() returns (r: Result<int32>)
      requires Valid()
      modifies this`offset
      ensures Valid()
      ensures ValueOf(Read(serializer, old(buffer[offset..]), Int32, false)) == (if r.Ok? then Ok(r.value as int) else Err(r.error))
      ensures offset == old(offset) + (if r.Ok? then Int32.size else 0)
    {
      Pow256Values();
      var n := ReadNumber(Int32, false);
      if n.Err? {
        return Err(n.error);
      }
      r := Ok(n.value);
    }

    /** ReadInt64(): a signed read. */
    method ReadInt64() returns (r: Result<int64>)
      requires Valid()
      modifies this`offset
      ensures Valid()
      ensures ValueOf(Read(serializer, old(buffer[offset..]), Int64, false)) == (if r.Ok? then Ok(r.value as int) else Err(r.error))
      ensures offset == old(offset) + (if r.Ok? then Int64.size else 0)
    {
      Pow256Values();
      var n := ReadNumber(Int64, false);
      if n.Err? {
        return Err(n.error);
      }
      r := Ok(n.value);
    }

    /** ReadUInt32(): an unsigned read. */
    method ReadUInt32() returns (r: Result<uint32>)
      requires Valid()
      modifies this`offset
      ensures Valid()
      ensures ValueOf(Read(serializer, old(buffer[offset..]), UInt32, true)) == (if r.Ok? then Ok(r.value as int) else Err(r.error))
      ensures offset == old(offset) + (if r.Ok? then UInt32.size else 0)
    {
      Pow256Values();
      var n := ReadNumber(UInt32, true);
      if n.Err? {
        return Err(n.error);
      }
      r := Ok(n.value);
    }

    /** ReadFrame(): a frame from its Int32 number. */
    method ReadFrame() returns (r: Result<Frame>)
      requires Valid()
      modifies this`offset
      ensures Valid()
      ensures ValueOf(Read(serializer, old(buffer[offset..]), Int32, false)) == (if r.Ok? then Ok(r.value.Number as int) else Err(r.error))
      ensures offset == old(offset) + (if r.Ok? then Int32.size else 0)
    {
      var n := ReadInt32();
      if n.Err? {
        return Err(n.error);
      }
      r := Ok(Frame(n.value));
    }
  }
}
