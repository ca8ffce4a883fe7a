/**
 * The flat protocol message bodies: QualityReport, QualityReply,
 * ConsistencyCheckRequest and ConsistencyCheckReply. Each writes its fields
 * through a BinarySpanWriter in declared order, and reads them back through
 * a BinaryBufferReader in the same order, assigning each field as soon as its
 * read succeeds (a failing read raises and leaves the later fields as they
 * were).
 *
 * A message's wire form is its field sequence (`Fields`) and the reads its
 * Deserialize performs (`Layout`); the lemmas show that the layout is the
 * one that reads the fields back, and what the encoded size is.
 */
module Messages {
  import opened Wrappers
  import opened Integers
  import opened EndiannessSerializer
  import opened Frames
  import opened BinaryIO

  /** Every layout reads numbers of valid types. */
  lemma LayoutsValid()
    ensures KindsValid(QualityReportLayout) && KindsValid(QualityReplyLayout)
    ensures KindsValid(ConsistencyCheckRequestLayout) && KindsValid(ConsistencyCheckReplyLayout)
  {
    assert QualityReportLayout[1..] == QualityReplyLayout;
    assert ConsistencyCheckReplyLayout[1..] == [Kind(UInt32, true)];
  }

  // ---------------------------------------------------------------------
  // QualityReport

  /** A quality report on the wire: FrameAdvantage as an Int32, then Ping as an Int64. */
  function QualityReportFields(frameAdvantage: int32, ping: int64): seq<Field>
  {
    [Field(Int32, frameAdvantage), Field(Int64, ping)]
  }

  /** Deserialize reads an Int32 and then an Int64, both signed. */
  const QualityReportLayout: seq<Kind> := [Kind(Int32, false), Kind(Int64, false)]

  class QualityReport {
    var FrameAdvantage: int32
    var Ping: int64

    constructor (frameAdvantage: int32, ping: int64)
      ensures FrameAdvantage == frameAdvantage && Ping == ping
    {
      FrameAdvantage, Ping := frameAdvantage, ping;
    }

    function Fields(): seq<Field>
      reads this
    {
      QualityReportFields(FrameAdvantage, Ping)
    }

    /** Serialize: writes FrameAdvantage then Ping; the report itself is not modified. */
    method Serialize(writer: BinarySpanWriter)
      requires writer.Valid()
      modifies writer, writer.buffer
      ensures writer.Valid()
      ensures (writer.buffer[..], writer.offset) == WriteFields(writer.serializer, old(writer.buffer[..]), old(writer.offset), Fields())
    {
      ghost var buf, off := writer.buffer[..], writer.offset;
      writer.WriteInt32(FrameAdvantage);
      writer.WriteInt64(Ping);
      WriteFieldsAppend(writer.serializer, buf, off, [Field(Int32, FrameAdvantage)], [Field(Int64, Ping)]);
    }

    /** Deserialize: FrameAdvantage from ReadInt32, then Ping from ReadInt64. */
    method Deserialize(reader: BinaryBufferReader) returns (r: Result<()>)
      requires reader.Valid()
      modifies this, reader`offset
      ensures reader.Valid()
      ensures KindsValid(QualityReportLayout)
      ensures var o := ReadFields(reader.serializer, reader.buffer, old(reader.offset), QualityReportLayout);
        reader.offset == o.offset &&
        r == (if o.error.None? then Ok(()) else Err(o.error.value)) &&
        Fields() == Assign(old(Fields()), o.values)
    {
      Pow256Values();
      ghost var s, data, off := reader.serializer, reader.buffer, reader.offset;
      ReadFieldsStep(s, data, off, Kind(Int32, false), [Kind(Int64, false)]);
      var a := reader.ReadInt32();
      if a.Err? {
        return Err(a.error);
      }
      FrameAdvantage := a.value;
      ReadFieldsStep(s, data, reader.offset, Kind(Int64, false), []);
      var b := reader.ReadInt64();
      if b.Err? {
        return Err(b.error);
      }
      Ping := b.value;
      r := Ok(());
    }
  }

  /** A report is 12 bytes on the wire, and its layout reads back exactly its fields. */
  lemma QualityReportWireForm(frameAdvantage: int32, ping: int64)
    ensures FieldsValid(QualityReportFields(frameAdvantage, ping))
    ensures FieldsSize(QualityReportFields(frameAdvantage, ping)) == 12
    ensures KindsOf(QualityReportFields(frameAdvantage, ping)) == QualityReportLayout
    ensures ValuesOf(QualityReportFields(frameAdvantage, ping)) == [frameAdvantage as int, ping as int]
  {
    Pow256Values();
    var fs := QualityReportFields(frameAdvantage, ping);
    OfCons(fs);
    OfCons(fs[1..]);
    assert fs[1..][1..] == [];
  }

  /** Round trip: a report written from `off` with room for it reads back unchanged, both fields, consuming the 12 bytes written. */
  lemma QualityReportRoundTrip(s: NumberSerializer, buf: seq<byte>, off: nat, frameAdvantage: int32, ping: int64)
    requires off + 12 <= |buf|
    ensures var w := WriteFields(s, buf, off, QualityReportFields(frameAdvantage, ping));
      w.1 == off + 12 &&
      KindsValid(QualityReportLayout) &&
      ReadFields(s, w.0, off, QualityReportLayout) == ReadOutcome([frameAdvantage as int, ping as int], off + 12, None)
  {
    QualityReportWireForm(frameAdvantage, ping);
    WriteReadRoundTrip(s, buf, off, QualityReportFields(frameAdvantage, ping));
  }

  // ---------------------------------------------------------------------
  // QualityReply

  /** A quality reply on the wire: Pong as an Int64. */
  function QualityReplyFields(pong: int64): seq<Field>
  {
    [Field(Int64, pong)]
  }

  const QualityReplyLayout: seq<Kind> := [Kind(Int64, false)]

  class QualityReply {
    var Pong: int64

    constructor (pong: int64)
      ensures Pong == pong
    {
      Pong := pong;
    }

    function Fields(): seq<Field>
      reads this
    {
      QualityReplyFields(Pong)
    }

    /** Serialize: writes Pong only. */
    method Serialize(writer: BinarySpanWriter)
      requires writer.Valid()
      modifies writer, writer.buffer
      ensures writer.Valid()
      ensures (writer.buffer[..], writer.offset) == WriteFields(writer.serializer, old(writer.buffer[..]), old(writer.offset), Fields())
    {
      writer.WriteInt64(Pong);
    }

    /** Deserialize: Pong from ReadInt64. */
    method Deserialize(reader: BinaryBufferReader) returns (r: Result<()>)
      requires reader.Valid()
      modifies this, reader`offset
      ensures reader.Valid()
      ensures KindsValid(QualityReplyLayout)
      ensures var o := ReadFields(reader.serializer, reader.buffer, old(reader.offset), QualityReplyLayout);
        reader.offset == o.offset &&
        r == (if o.error.None? then Ok(()) else Err(o.error.value)) &&
        Fields() == Assign(old(Fields()), o.values)
    {
      Pow256Values();
      ReadFieldsStep(reader.serializer, reader.buffer, reader.offset, Kind(Int64, false), []);
      var a := reader.ReadInt64();
      if a.Err? {
        return Err(a.error);
      }
      Pong := a.value;
      r := Ok(());
    }
  }

  /** A reply is 8 bytes on the wire, and its layout reads back exactly its field. */
  lemma QualityReplyWireForm(pong: int64)
    ensures FieldsValid(QualityReplyFields(pong))
    ensures FieldsSize(QualityReplyFields(pong)) == 8
    ensures KindsOf(QualityReplyFields(pong)) == QualityReplyLayout
    ensures ValuesOf(QualityReplyFields(pong)) == [pong as int]
  {
    Pow256Values();
    assert QualityReplyFields(pong)[1..] == [];
  }

  /** Round trip: Pong reads back exactly, consuming the 8 bytes written. */
  lemma QualityReplyRoundTrip(s: NumberSerializer, buf: seq<byte>, off: nat, pong: int64)
    requires off + 8 <= |buf|
    ensures var w := WriteFields(s, buf, off, QualityReplyFields(pong));
      w.1 == off + 8 &&
      KindsValid(QualityReplyLayout) &&
      ReadFields(s, w.0, off, QualityReplyLayout) == ReadOutcome([pong as int], off + 8, None)
  {
    QualityReplyWireForm(pong);
    WriteReadRoundTrip(s, buf, off, QualityReplyFields(pong));
  }

  // ---------------------------------------------------------------------
  // ConsistencyCheckRequest

  /** A consistency check request on the wire: the frame's number as an Int32. */
  function ConsistencyCheckRequestFields(frame: Frame): seq<Field>
  {
    [Field(Int32, frame.Number)]
  }

  const ConsistencyCheckRequestLayout: seq<Kind> := [Kind(Int32, false)]

  class ConsistencyCheckRequest {
    var Frame: Frame

    constructor (frame: Frame)
      ensures Frame == frame
    {
      Frame := frame;
    }

    function Fields(): seq<Field>
      reads this
    {
      ConsistencyCheckRequestFields(Frame)
    }

    /** Serialize: writes Frame only. */
    method Serialize(writer: BinarySpanWriter)
      requires writer.Valid()
      modifies writer, writer.buffer
      ensures writer.Valid()
      ensures (writer.buffer[..], writer.offset) == WriteFields(writer.serializer, old(writer.buffer[..]), old(writer.offset), Fields())
    {
      writer.WriteFrame(Frame);
    }

    /** Deserialize: Frame from ReadFrame, nothing else. */
    method Deserialize(reader: BinaryBufferReader) returns (r: Result<()>)
      requires reader.Valid()
      modifies this, reader`offset
      ensures reader.Valid()
      ensures KindsValid(ConsistencyCheckRequestLayout)
      ensures var o := ReadFields(reader.serializer, reader.buffer, old(reader.offset), ConsistencyCheckRequestLayout);
        reader.offset == o.offset &&
        r == (if o.error.None? then Ok(()) else Err(o.error.value)) &&
        Fields() == Assign(old(Fields()), o.values)
    {
      Pow256Values();
      ReadFieldsStep(reader.serializer, reader.buffer, reader.offset, Kind(Int32, false), []);
      var a := reader.ReadFrame();
      if a.Err? {
        return Err(a.error);
      }
      Frame := a.value;
      r := Ok(());
    }
  }

  /** A request is 4 bytes on the wire, and its layout reads back exactly its frame number. */
  lemma ConsistencyCheckRequestWireForm(frame: Frame)
    ensures FieldsValid(ConsistencyCheckRequestFields(frame))
    ensures FieldsSize(ConsistencyCheckRequestFields(frame)) == 4
    ensures KindsOf(ConsistencyCheckRequestFields(frame)) == ConsistencyCheckRequestLayout
    ensures ValuesOf(ConsistencyCheckRequestFields(frame)) == [frame.Number as int]
  {
    Pow256Values();
    assert ConsistencyCheckRequestFields(frame)[1..] == [];
  }

  /** Round trip: the frame number reads back exactly, negative numbers and Frame.Null included. */
  lemma ConsistencyCheckRequestRoundTrip(s: NumberSerializer, buf: seq<byte>, off: nat, frame: Frame)
    requires off + 4 <= |buf|
    ensures var w := WriteFields(s, buf, off, ConsistencyCheckRequestFields(frame));
      w.1 == off + 4 &&
      KindsValid(ConsistencyCheckRequestLayout) &&
      ReadFields(s, w.0, off, ConsistencyCheckRequestLayout) == ReadOutcome([frame.Number as int], off + 4, None)
  {
    ConsistencyCheckRequestWireForm(frame);
    WriteReadRoundTrip(s, buf, off, ConsistencyCheckRequestFields(frame));
  }

  // ---------------------------------------------------------------------
  // ConsistencyCheckReply

  /** A consistency check reply on the wire: the frame's number as an Int32, then Checksum as a UInt32. */
  function ConsistencyCheckReplyFields(frame: Frame, checksum: uint32): seq<Field>
  {
    [Field(Int32, frame.Number), Field(UInt32, checksum)]
  }

  /** Deserialize reads the frame signed and the checksum unsigned. */
  const ConsistencyCheckReplyLayout: seq<Kind> := [Kind(Int32, false), Kind(UInt32, true)]

  class ConsistencyCheckReply {
    var Frame: Frame
    var Checksum: uint32

    constructor (frame: Frame, checksum: uint32)
      ensures Frame == frame && Checksum == checksum
    {
      Frame, Checksum := frame, checksum;
    }

    function Fields(): seq<Field>
      reads this
    {
      ConsistencyCheckReplyFields(Frame, Checksum)
    }

    /** Serialize: writes Frame then Checksum. */
    method Serialize(writer: BinarySpanWriter)
      requires writer.Valid()
      modifies writer, writer.buffer
      ensures writer.Valid()
      ensures (writer.buffer[..], writer.offset) == WriteFields(writer.serializer, old(writer.buffer[..]), old(writer.offset), Fields())
    {
      ghost var buf, off := writer.buffer[..], writer.offset;
      writer.WriteFrame(Frame);
      writer.WriteUInt32(Checksum);
      WriteFieldsAppend(writer.serializer, buf, off, [Field(Int32, Frame.Number)], [Field(UInt32, Checksum)]);
    }

    /** Deserialize: Frame from ReadFrame, then Checksum from ReadUInt32. */
    method Deserialize(reader: BinaryBufferReader) returns (r: Result<()>)
      requires reader.Valid()
      modifies this, reader`offset
      ensures reader.Valid()
      ensures KindsValid(ConsistencyCheckReplyLayout)
      ensures var o := ReadFields(reader.serializer, reader.buffer, old(reader.offset), ConsistencyCheckReplyLayout);
        reader.offset == o.offset &&
        r == (if o.error.None? then Ok(()) else Err(o.error.value)) &&
        Fields() == Assign(old(Fields()), o.values)
    {
      Pow256Values();
      ghost var s, data, off := reader.serializer, reader.buffer, reader.offset;
      ReadFieldsStep(s, data, off, Kind(Int32, false), [Kind(UInt32, true)]);
      var a := reader.ReadFrame();
      if a.Err? {
        return Err(a.error);
      }
      Frame := a.value;
      ReadFieldsStep(s, data, reader.offset, Kind(UInt32, true), []);
      var b := reader.ReadUInt32();
      if b.Err? {
        return Err(b.error);
      }
      Checksum := b.value;
      r := Ok(());
    }
  }

  /** A reply is 8 bytes on the wire, and its layout reads back exactly its fields. */
  lemma ConsistencyCheckReplyWireForm(frame: Frame, checksum: uint32)
    ensures FieldsValid(ConsistencyCheckReplyFields(frame, checksum))
    ensures FieldsSize(ConsistencyCheckReplyFields(frame, checksum)) == 8
    ensures KindsOf(ConsistencyCheckReplyFields(frame, checksum)) == ConsistencyCheckReplyLayout
    ensures ValuesOf(ConsistencyCheckReplyFields(frame, checksum)) == [frame.Number as int, checksum as int]
  {
    Pow256Values();
    var fs := ConsistencyCheckReplyFields(frame, checksum);
    OfCons(fs);
    OfCons(fs[1..]);
    assert fs[1..][1..] == [];
  }

  /** Round trip: both fields read back exactly, consuming the 8 bytes written. */
  lemma ConsistencyCheckReplyRoundTrip(s: NumberSerializer, buf: seq<byte>, off: nat, frame: Frame, checksum: uint32)
    requires off + 8 <= |buf|
    ensures var w := WriteFields(s, buf, off, ConsistencyCheckReplyFields(frame, checksum));
      w.1 == off + 8 &&
      KindsValid(ConsistencyCheckReplyLayout) &&
      ReadFields(s, w.0, off, ConsistencyCheckReplyLayout) == ReadOutcome([frame.Number as int, checksum as int], off + 8, None)
  {
    ConsistencyCheckReplyWireForm(frame, checksum);
    WriteReadRoundTrip(s, buf, off, ConsistencyCheckReplyFields(frame, checksum));
  }

  /**
   * The checksum is read unsigned. Read as a signed number, the bytes of any
   * checksum of 2^31 or more (0xDEADBEEF, say) would raise an overflow
   * instead of reading back; read unsigned they read back as written.
   */
  lemma ChecksumReadUnsigned(s: NumberSerializer, checksum: uint32)
    ensures DecodeNumber(s, UInt32, EncodeNumber(s, UInt32, checksum), true) == Ok(checksum as int)
    ensures DecodeNumber(s, UInt32, EncodeNumber(s, UInt32, checksum), false).Err? <==> checksum >= 0x8000_0000
  {
    Pow256Values();
    DecodeEncode(s, UInt32, checksum);
    WrongFlagOverflows(s, UInt32, checksum);
  }

  /** The example value 0xDEADBEEF: its top bit is set, and it still round-trips as a checksum. */
  lemma DeadBeefChecksum(s: NumberSerializer, buf: seq<byte>, off: nat, frame: Frame)
    requires off + 8 <= |buf|
    ensures var w := WriteFields(s, buf, off, ConsistencyCheckReplyFields(frame, 0xDEAD_BEEF));
      KindsValid(ConsistencyCheckReplyLayout) &&
      ReadFields(s, w.0, off, ConsistencyCheckReplyLayout).values == [frame.Number as int, 0xDEAD_BEEF]
    ensures DecodeNumber(s, UInt32, EncodeNumber(s, UInt32, 0xDEAD_BEEF), false).Err?
  {
    ConsistencyCheckReplyRoundTrip(s, buf, off, frame, 0xDEAD_BEEF);
    ChecksumReadUnsigned(s, 0xDEAD_BEEF);
  }
}
