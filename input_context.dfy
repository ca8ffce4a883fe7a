/**
 * InputContext: the record sizes of a session's inputs and the serializers
 * that write and read them. ConfirmedInputs.cs and the serializers are not
 * part of this model: a confirmed input is the inputs of all players, and a
 * serializer is given by the bytes each value serializes to and by how it
 * decodes a span. A serializer given a span too short for the value raises.
 */
module InputContexts {
  import opened Wrappers
  import opened Integers
  import opened Spans
  import opened Buffers
  import opened EndiannessSerializer
  import opened BinaryIO
  import opened SerializerExtensions

  /** ConfirmedInputs<TInput>: the confirmed inputs of every player for one frame. */
  datatype ConfirmedInputs<T> = ConfirmedInputs(Inputs: seq<T>)

  /** IBinarySerializer<T>: the bytes of a value, and the value a span decodes to with the bytes read. */
  datatype BinarySerializer<!T> = BinarySerializer(Encode: T -> seq<byte>, Decode: seq<byte> -> Result<(T, nat)>)

  /** The serializer reads back what it writes, whatever follows it. */
  ghost predicate RoundTrips<T(!new)>(s: BinarySerializer<T>)
  {
    forall v: T, rest: seq<byte> ::
      s.Decode(s.Encode(v) + rest) == Ok((v, |s.Encode(v)|))
  }

  /** The options the context reads through. NetcodeOptions.cs is not part of this model. */
  datatype NetcodeOptions = NetcodeOptions(NumberOfPlayers: int, SerializationEndianness: Endianness)

  /** Serialize(in value, span), with span = buffer[start..]: the count written. */
  method Serialize<T>(s: BinarySerializer<T>, value: T, buffer: array<byte>, start: nat) returns (r: Result<nat>)
    requires start <= buffer.Length
    modifies buffer
    ensures r.Ok? <==> |s.Encode(value)| <= buffer.Length - start
    ensures r.Ok? ==> r.value == |s.Encode(value)| && buffer[..] == Splice(old(buffer[..]), start, s.Encode(value))
    ensures r.Err? ==> r.error == InsufficientBuffer && buffer[..] == old(buffer[..])
  {
    var bytes := s.Encode(value);
    if |bytes| > buffer.Length - start {
      return Err(InsufficientBuffer);
    }
    CopyTo(buffer, start, bytes);
    r := Ok(|bytes|);
  }

  /**
   * The ArrayBufferWriter overloads of Write: GetSpan(sizeHint), serialize
   * into the span, Advance by the count written.
   */
  method WriteRecord<T>(s: BinarySerializer<T>, bufferWriter: ArrayBufferWriter, value: T, sizeHint: nat) returns (r: Result<()>)
    requires bufferWriter.Valid()
    modifies bufferWriter, bufferWriter.buffer
    ensures bufferWriter.Valid()
    ensures bufferWriter.buffer == old(bufferWriter.buffer) || fresh(bufferWriter.buffer)
    ensures r.Ok? <==>
      |s.Encode(value)| <= FreeAfterGetSpan(old(bufferWriter.buffer.Length), old(bufferWriter.index), sizeHint)
    ensures r.Ok? ==> bufferWriter.WrittenSpan() == old(bufferWriter.WrittenSpan()) + s.Encode(value)
    ensures bufferWriter.FreeCapacity() + (if r.Ok? then |s.Encode(value)| else 0) ==
      FreeAfterGetSpan(old(bufferWriter.buffer.Length), old(bufferWriter.index), sizeHint)
    ensures r.Err? ==> bufferWriter.WrittenSpan() == old(bufferWriter.WrittenSpan())
  {
    var start := bufferWriter.GetSpan(sizeHint);
    ghost var before := bufferWriter.buffer[..];
    var written := Serialize(s, value, bufferWriter.buffer, start);
    if written.Err? {
      return Err(written.error);
    }
    bufferWriter.Advance(written.value);
    assert bufferWriter.buffer[..bufferWriter.index] == before[..start] + s.Encode(value) by {
      var after := bufferWriter.buffer[..];
      assert after[..start + |s.Encode(value)|] == after[..start] + after[start..start + |s.Encode(value)|];
    }
    r := Ok(());
  }

  class InputContext<T> {
    const options: NetcodeOptions
    const PlayerInputSerializer: BinarySerializer<T>
    const Serializer: BinarySerializer<ConfirmedInputs<T>>
    /** Unsafe.SizeOf<TInput>(). */
    const PlayerInputSize: nat
    /** Unsafe.SizeOf<ConfirmedInputs<TInput>>(). */
    const ConfirmedInputSize: nat
    /** Type.GetTypeCode(typeof(TInput)). */
    const InputTypeCode: int

    /** The sizes are the struct sizes of the input types, fixed here for the context's lifetime. */
    constructor (options: NetcodeOptions, inputSerializer: BinarySerializer<T>,
                 serializer: BinarySerializer<ConfirmedInputs<T>>,
                 playerInputSize: nat, confirmedInputSize: nat, inputTypeCode: int)
      ensures this.options == options && InputTypeCode == inputTypeCode
      ensures PlayerInputSerializer == inputSerializer && Serializer == serializer
      ensures PlayerInputSize == playerInputSize && ConfirmedInputSize == confirmedInputSize
    {
      this.options := options;
      Serializer := serializer;
      PlayerInputSerializer := inputSerializer;
      InputTypeCode := inputTypeCode;
      PlayerInputSize := playerInputSize;
      ConfirmedInputSize := confirmedInputSize;
    }

    function NumberOfPlayers(): int
    {
      options.NumberOfPlayers
    }

    function Endianness(): Endianness
    {
      options.SerializationEndianness
    }

    /** Write(bufferWriter, in input): one player's input, with the PlayerInputSize hint. */
    method WriteInput(bufferWriter: ArrayBufferWriter, input: T) returns (r: Result<()>)
      requires bufferWriter.Valid()
      modifies bufferWriter, bufferWriter.buffer
      ensures bufferWriter.Valid()
      ensures bufferWriter.buffer == old(bufferWriter.buffer) || fresh(bufferWriter.buffer)
      ensures r.Ok? <==> (|PlayerInputSerializer.Encode(input)| <=
        FreeAfterGetSpan(old(bufferWriter.buffer.Length), old(bufferWriter.index), PlayerInputSize))
      ensures r.Ok? ==> bufferWriter.WrittenSpan() == old(bufferWriter.WrittenSpan()) + PlayerInputSerializer.Encode(input)
      ensures r.Err? ==> bufferWriter.WrittenSpan() == old(bufferWriter.WrittenSpan())
    {
      r := WriteRecord(PlayerInputSerializer, bufferWriter, input, PlayerInputSize);
    }

    /**
     * Write(bufferWriter, in inputs) as written: the span for a confirmed
     * input is requested with the PlayerInputSize hint.
     */
    method WriteConfirmed(bufferWriter: ArrayBufferWriter, inputs: ConfirmedInputs<T>) returns (r: Result<()>)
      requires bufferWriter.Valid()
      modifies bufferWriter, bufferWriter.buffer
      ensures bufferWriter.Valid()
      ensures bufferWriter.buffer == old(bufferWriter.buffer) || fresh(bufferWriter.buffer)
      ensures r.Ok? <==> (|Serializer.Encode(inputs)| <=
        FreeAfterGetSpan(old(bufferWriter.buffer.Length), old(bufferWriter.index), PlayerInputSize))
      ensures r.Ok? ==> bufferWriter.WrittenSpan() == old(bufferWriter.WrittenSpan()) + Serializer.Encode(inputs)
      ensures r.Err? ==> bufferWriter.WrittenSpan() == old(bufferWriter.WrittenSpan())
      ensures bufferWriter.FreeCapacity() + (if r.Ok? then |Serializer.Encode(inputs)| else 0) ==
        FreeAfterGetSpan(old(bufferWriter.buffer.Length), old(bufferWriter.index), PlayerInputSize)
    {
      r := WriteRecord(Serializer, bufferWriter, inputs, PlayerInputSize);
    }

    /** Write(bufferWriter, in inputs) with the ConfirmedInputSize hint: a record of at most that size always fits. */
    method WriteConfirmedSized(bufferWriter: ArrayBufferWriter, inputs: ConfirmedInputs<T>) returns (r: Result<()>)
      requires bufferWriter.Valid()
      modifies bufferWriter, bufferWriter.buffer
      ensures bufferWriter.Valid()
      ensures bufferWriter.buffer == old(bufferWriter.buffer) || fresh(bufferWriter.buffer)
      ensures r.Ok? <==> (|Serializer.Encode(inputs)| <=
        FreeAfterGetSpan(old(bufferWriter.buffer.Length), old(bufferWriter.index), ConfirmedInputSize))
      ensures |Serializer.Encode(inputs)| <= ConfirmedInputSize ==> r.Ok?
      ensures r.Ok? ==> bufferWriter.WrittenSpan() == old(bufferWriter.WrittenSpan()) + Serializer.Encode(inputs)
      ensures r.Err? ==> bufferWriter.WrittenSpan() == old(bufferWriter.WrittenSpan())
      ensures bufferWriter.FreeCapacity() + (if r.Ok? then |Serializer.Encode(inputs)| else 0) ==
        FreeAfterGetSpan(old(bufferWriter.buffer.Length), old(bufferWriter.index), ConfirmedInputSize)
    {
      r := WriteRecord(Serializer, bufferWriter, inputs, ConfirmedInputSize);
    }

    /** Write(span, in input): exactly the count the serializer returns. */
    method WriteInputToSpan(span: array<byte>, input: T) returns (r: Result<nat>)
      modifies span
      ensures r.Ok? <==> |PlayerInputSerializer.Encode(input)| <= span.Length
      ensures r.Ok? ==> (r.value == |PlayerInputSerializer.Encode(input)| &&
        span[..] == Splice(old(span[..]), 0, PlayerInputSerializer.Encode(input)))
      ensures r.Err? ==> span[..] == old(span[..])
    {
      r := Serialize(PlayerInputSerializer, input, span, 0);
    }

    /** Write(span, in inputs) for a confirmed input. */
    method WriteConfirmedToSpan(span: array<byte>, inputs: ConfirmedInputs<T>) returns (r: Result<nat>)
      modifies span
      ensures r.Ok? <==> |Serializer.Encode(inputs)| <= span.Length
      ensures r.Ok? ==> (r.value == |Serializer.Encode(inputs)| &&
        span[..] == Splice(old(span[..]), 0, Serializer.Encode(inputs)))
      ensures r.Err? ==> span[..] == old(span[..])
    {
      r := Serialize(Serializer, inputs, span, 0);
    }

    /** Read(span, ref input): the serializer's consumed count; the input is set when the read succeeds. */
    method ReadInput(span: seq<byte>, input: Slot<T>) returns (r: Result<nat>)
      modifies input
      ensures r.Ok? <==> PlayerInputSerializer.Decode(span).Ok?
      ensures r.Ok? ==> (input.value, r.value) == PlayerInputSerializer.Decode(span).value
      ensures r.Err? ==> r.error == PlayerInputSerializer.Decode(span).error && input.value == old(input.value)
    {
      var d := PlayerInputSerializer.Decode(span);
      if d.Err? {
        return Err(d.error);
      }
      input.value := d.value.0;
      r := Ok(d.value.1);
    }

    /** Read(span, ref inputs) for a confirmed input. */
    method ReadConfirmed(span: seq<byte>, inputs: Slot<ConfirmedInputs<T>>) returns (r: Result<nat>)
      modifies inputs
      ensures r.Ok? <==> Serializer.Decode(span).Ok?
      ensures r.Ok? ==> (inputs.value, r.value) == Serializer.Decode(span).value
      ensures r.Err? ==> r.error == Serializer.Decode(span).error && inputs.value == old(inputs.value)
    {
      var d := Serializer.Decode(span);
      if d.Err? {
        return Err(d.error);
      }
      inputs.value := d.value.0;
      r := Ok(d.value.1);
    }

    /** GetSpanWriter: a writer over the buffer in the session's byte order. */
    method GetSpanWriter(buffer: array<byte>, offset: nat) returns (r: Result<BinarySpanWriter>)
      requires offset <= buffer.Length
      ensures r.Ok? <==> !options.SerializationEndianness.Undefined?
      ensures r.Ok? ==> (fresh(r.value) && r.value.buffer == buffer && r.value.offset == offset &&
        r.value.serializer.Endianness() == options.SerializationEndianness)
      ensures r.Err? ==> r.error == ArgumentOutOfRange
    {
      var s := Get(Endianness());
      if s.Err? {
        return Err(s.error);
      }
      var w := new BinarySpanWriter(buffer, offset, s.value);
      r := Ok(w);
    }

    /** GetWriter: a buffer writer over the ArrayBufferWriter in the session's byte order. */
    method GetWriter(bufferWriter: ArrayBufferWriter) returns (r: Result<BinaryBufferWriter>)
      ensures r.Ok? <==> !options.SerializationEndianness.Undefined?
      ensures r.Ok? ==> (fresh(r.value) && r.value.bufferWriter == bufferWriter &&
        r.value.serializer.Endianness() == options.SerializationEndianness)
      ensures r.Err? ==> r.error == ArgumentOutOfRange
    {
      var s := Get(Endianness());
      if s.Err? {
        return Err(s.error);
      }
      var w := new BinaryBufferWriter(bufferWriter, s.value);
      r := Ok(w);
    }

    /** GetReader: a reader over the buffer in the session's byte order. */
    method GetReader(buffer: seq<byte>, offset: nat) returns (r: Result<BinaryBufferReader>)
      requires offset <= |buffer|
      ensures r.Ok? <==> !options.SerializationEndianness.Undefined?
      ensures r.Ok? ==> (fresh(r.value) && r.value.buffer == buffer && r.value.offset == offset &&
        r.value.serializer.Endianness() == options.SerializationEndianness)
      ensures r.Err? ==> r.error == ArgumentOutOfRange
    {
      var s := Get(Endianness());
      if s.Err? {
        return Err(s.error);
      }
      var reader := new BinaryBufferReader(buffer, offset, s.value);
      r := Ok(reader);
    }
  }

  /**
   * With the PlayerInputSize hint, a confirmed record longer than the free
   * tail is never given room when the tail already holds one player's input:
   * an 8-byte writer with nothing written keeps its 8 free bytes for a hint of
   * 4, too few for a 16-byte record, while a hint of 16 grows it to 24.
   */
  lemma PlayerHintTooSmall()
    ensures FreeAfterGetSpan(8, 0, 4) == 8
    ensures FreeAfterGetSpan(8, 0, 16) == 24
  {
  }

  /** The same for every writer state: a free tail between the two sizes is not the room the record needs. */
  lemma PlayerHintFails(length: nat, index: nat, playerInputSize: nat, recordSize: nat)
    requires index <= length && 0 < playerInputSize <= length - index < recordSize
    ensures FreeAfterGetSpan(length, index, playerInputSize) < recordSize
    ensures FreeAfterGetSpan(length, index, recordSize) >= recordSize
  {
  }
}
