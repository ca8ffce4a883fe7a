/**
 * ProtocolMessageSerializer: serializes a protocol message into a span from
 * offset 0 and returns the writer's count, and deserializes a message from
 * offset 0 and returns the final offset, with the number serializer chosen
 * once, at construction, from the session's endianness.
 *
 * ProtocolMessage.cs is not part of this model. The ProtocolMessage here is a
 * stand-in that holds one of the four flat bodies and dispatches Serialize
 * and Deserialize to the body its Type selects.
 */
module MessageSerializer {
  import opened Wrappers
  import opened Integers
  import opened EndiannessSerializer
  import opened BinaryIO
  import opened Messages

  datatype MessageType = QualityReportType | QualityReplyType | ConsistencyCheckRequestType | ConsistencyCheckReplyType

  /** The reads each body's Deserialize performs. */
  function LayoutOf(t: MessageType): (ks: seq<Kind>)
    ensures KindsValid(ks)
  {
    LayoutsValid();
    match t
    case QualityReportType => QualityReportLayout
    case QualityReplyType => QualityReplyLayout
    case ConsistencyCheckRequestType => ConsistencyCheckRequestLayout
    case ConsistencyCheckReplyType => ConsistencyCheckReplyLayout
  }

  /** A protocol message holding one body of each kind; Type selects the one that is sent. */
  class ProtocolMessage {
    var Type: MessageType
    const QualityReport: QualityReport
    const QualityReply: QualityReply
    const ConsistencyCheckRequest: ConsistencyCheckRequest
    const ConsistencyCheckReply: ConsistencyCheckReply

    constructor (t: MessageType, qualityReport: QualityReport, qualityReply: QualityReply,
                 request: ConsistencyCheckRequest, reply: ConsistencyCheckReply)
      ensures Type == t && QualityReport == qualityReport && QualityReply == qualityReply
      ensures ConsistencyCheckRequest == request && ConsistencyCheckReply == reply
    {
      Type, QualityReport, QualityReply := t, qualityReport, qualityReply;
      ConsistencyCheckRequest, ConsistencyCheckReply := request, reply;
    }

    /** The body that Type selects. */
    function Body(): object
      reads this
    {
      match Type
      case QualityReportType => QualityReport
      case QualityReplyType => QualityReply
      case ConsistencyCheckRequestType => ConsistencyCheckRequest
      case ConsistencyCheckReplyType => ConsistencyCheckReply
    }

    /** The selected body's fields, in wire order. */
    function Fields(): seq<Field>
      reads this, Body()
    {
      match Type
      case QualityReportType => QualityReport.Fields()
      case QualityReplyType => QualityReply.Fields()
      case ConsistencyCheckRequestType => ConsistencyCheckRequest.Fields()
      case ConsistencyCheckReplyType => ConsistencyCheckReply.Fields()
    }

    method Serialize(writer: BinarySpanWriter)
      requires writer.Valid()
      modifies writer, writer.buffer
      ensures writer.Valid()
      ensures (writer.buffer[..], writer.offset) == WriteFields(writer.serializer, old(writer.buffer[..]), old(writer.offset), Fields())
    {
      match Type
      case QualityReportType => QualityReport.Serialize(writer);
      case QualityReplyType => QualityReply.Serialize(writer);
      case ConsistencyCheckRequestType => ConsistencyCheckRequest.Serialize(writer);
      case ConsistencyCheckReplyType => ConsistencyCheckReply.Serialize(writer);
    }

    /** Deserialize: the selected body reads its fields; Type and the other bodies are untouched. */
    method Deserialize(reader: BinaryBufferReader) returns (r: Result<()>)
      requires reader.Valid()
      modifies Body(), reader`offset
      ensures reader.Valid()
      ensures var o := ReadFields(reader.serializer, reader.buffer, old(reader.offset), LayoutOf(Type));
        reader.offset == o.offset &&
        r == (if o.error.None? then Ok(()) else Err(o.error.value)) &&
        Fields() == Assign(old(Fields()), o.values)
    {
      match Type
      case QualityReportType => r := QualityReport.Deserialize(reader);
      case QualityReplyType => r := QualityReply.Deserialize(reader);
      case ConsistencyCheckRequestType => r := ConsistencyCheckRequest.Deserialize(reader);
      case ConsistencyCheckReplyType => r := ConsistencyCheckReply.Deserialize(reader);
    }
  }

  /** Every body's layout is the one that reads its own fields back, and its size is fixed by its type. */
  lemma LayoutReadsFields(m: ProtocolMessage)
    ensures FieldsValid(m.Fields())
    ensures KindsOf(m.Fields()) == LayoutOf(m.Type)
    ensures FieldsSize(m.Fields()) == match m.Type
      case QualityReportType => 12
      case QualityReplyType => 8
      case ConsistencyCheckRequestType => 4
      case ConsistencyCheckReplyType => 8
  {
    match m.Type
    case QualityReportType => QualityReportWireForm(m.QualityReport.FrameAdvantage, m.QualityReport.Ping);
    case QualityReplyType => QualityReplyWireForm(m.QualityReply.Pong);
    case ConsistencyCheckRequestType => ConsistencyCheckRequestWireForm(m.ConsistencyCheckRequest.Frame);
    case ConsistencyCheckReplyType =>
      ConsistencyCheckReplyWireForm(m.ConsistencyCheckReply.Frame, m.ConsistencyCheckReply.Checksum);
  }

  class ProtocolMessageSerializer {
    const endianness: Endianness
    const numberSerializer: NumberSerializer

    /** The number serializer is EndiannessSerializer.Get(endianness), chosen once here. */
    constructor (endianness: Endianness)
      requires Get(endianness).Ok?
      ensures this.endianness == endianness && numberSerializer == Get(endianness).value
    {
      this.endianness := endianness;
      numberSerializer := Get(endianness).value;
    }

    /** Endianness: the constructor's argument, which is also the number serializer's byte order. */
    function Endianness(): (e: Endianness)
      reads this
      ensures e == endianness
    {
      endianness
    }

    /** Serialize(in data, buffer): writes from offset 0 and returns the writer's count. */
    method Serialize(data: ProtocolMessage, buffer: array<byte>) returns (count: int)
      modifies buffer
      ensures (buffer[..], count) == WriteFields(numberSerializer, old(buffer[..]), 0, old(data.Fields()))
    {
      var offset := 0;
      var writer := new BinarySpanWriter(buffer, offset, numberSerializer);
      data.Serialize(writer);
      count := writer.WrittenCount();
    }

    /** Deserialize(data, ref value): reads from offset 0 and returns the final offset, the bytes consumed. */
    method Deserialize(data: seq<byte>, value: ProtocolMessage) returns (r: Result<int>)
      modifies value.Body()
      ensures var o := ReadFields(numberSerializer, data, 0, LayoutOf(value.Type));
        r == (if o.error.None? then Ok(o.offset) else Err(o.error.value)) &&
        value.Fields() == Assign(old(value.Fields()), o.values)
    {
      var offset := 0;
      var reader := new BinaryBufferReader(data, offset, numberSerializer);
      var read := value.Deserialize(reader);
      if read.Err? {
        return Err(read.error);
      }
      r := Ok(reader.offset);
    }
  }

  /** A serializer exists exactly for the two named byte orders; any other value raises ArgumentOutOfRange. */
  method NewProtocolMessageSerializer(endianness: Endianness) returns (r: Result<ProtocolMessageSerializer>)
    ensures r.Err? <==> endianness.Undefined?
    ensures r.Err? ==> r.error == ArgumentOutOfRange
    ensures r.Ok? ==> fresh(r.value) && r.value.Endianness() == endianness
    ensures r.Ok? ==> r.value.numberSerializer.Endianness() == endianness
  {
    var strategy := Get(endianness);
    if strategy.Err? {
      return Err(strategy.error);
    }
    var serializer := new ProtocolMessageSerializer(endianness);
    r := Ok(serializer);
  }

  /**
   * Deserialize(Serialize(m)): with a buffer big enough for the message, the
   * bytes Serialize writes read back into the message's own values, and
   * Deserialize reports the same count Serialize returned.
   */
  lemma SerializeDeserializeRoundTrip(s: NumberSerializer, buf: seq<byte>, m: ProtocolMessage)
    requires FieldsSize(m.Fields()) <= |buf|
    ensures var w := WriteFields(s, buf, 0, m.Fields());
      w.1 == FieldsSize(m.Fields()) &&
      ReadFields(s, w.0, 0, LayoutOf(m.Type)) == ReadOutcome(ValuesOf(m.Fields()), w.1, None)
  {
    LayoutReadsFields(m);
    WriteReadRoundTrip(s, buf, 0, m.Fields());
  }

  /** Deserializing into the message the values its own fields hold leaves those fields as they were. */
  lemma AssignOwnValues(fs: seq<Field>)
    ensures Assign(fs, ValuesOf(fs)) == fs
  {
  }

  /** A buffer too small for the message: Serialize returns less than the message's size. */
  lemma SerializeShortBuffer(s: NumberSerializer, buf: seq<byte>, m: ProtocolMessage)
    requires |buf| < FieldsSize(m.Fields())
    ensures WriteFields(s, buf, 0, m.Fields()).1 < FieldsSize(m.Fields())
  {
    WriteFieldsAdvance(s, buf, 0, m.Fields());
  }
}
