# Backdash core, modelled in Dafny

Backdash is a rollback-netcode library for games. This project models and
proves the integer-exact parts of its core:

- the integer wire codec: a big- or little-endian number strategy, reads with a
  signedness flag, and the `BinarySerializerExtensions` wrappers that fix that flag;
- the four small protocol messages and the protocol message serializer;
- the protocol status map;
- frame counts (`FrameSpan`) and inclusive frame ranges (`FrameRange`);
- `MathI`: ceiling division, the wrapping sum and the next power of two;
- `GameInput`;
- the confirmed-input pipeline: `InputContext`, `MemoryInputListener`,
  `EnumerableInputProvider`, and the sample file listener and provider;
- the bounded text builders `Utf8StringBuilder`, `Utf8ObjectStringWriter`,
  `SpanStringBuilder` and its interpolated-string handler;
- `PushFirst` on a queue, `NetcodePlayer` and the fluent `SyncTestOptions`.

## How the model is written

**Integers and bytes.**
- A byte is an `int` in 0..255.
- A fixed-width integer is a value of type `IntType(size, signed)`, held in its range.
- C#'s unchecked 32-bit arithmetic is written out as `Wrap32`, and the truncation to a narrower type as `Wrap`.
- Its truncating `/` and `%` are written as `TruncDiv` and `TruncRem`.

**Which code became a class.**
- Code that updates objects in place is a `class`. This covers the cursors, the builders, the listeners, the options, the player and the queue. Each method states the object's whole new state.
- Pure code is made of datatypes and functions: `FrameSpan`, `FrameRange`, the status map and the codec.

**Where the code and its documented intent disagree, the model follows the code.** A case that looks like a bug is a row under "## Findings". A doc comment that only words the behaviour loosely is a line under "## Left out", such as those for `CeilDiv` and `NextPowerOfTwo`.

**Modelling decisions.**
- Every exception the source throws is an `Err` of a `Result`, except where a `requires` states the caller's protocol: `InputsFileListener.OnConfirmed` runs only after `OnSessionStart`, and `ArrayBufferWriter.Advance` never passes the free room.
- Enums that hold any raw value have an `Undefined(raw)` case: `Endianness`, `PlayerType` and `ProtocolStatus`.
- The byte serializer of a game input is a parameter, an encoder and decoder pair (`BinarySerializer<T>`). So are:
  - Deflate compression;
  - the number and enum text formatting inside each `TryFormat`;
  - the fresh `Guid` drawn for a player;
  - the hash combiner.

## Model

| member | source | states |
|---|---|---|
| EndiannessSerializer.Get | src/Backdash/Serialization/Internal/EndiannessSerializer.cs:35-40 | Succeeds exactly for the two defined byte orders, and returns the strategy reporting that order. Any other value is ArgumentOutOfRange. |
| EndiannessSerializer.Read | src/Backdash/Serialization/Internal/EndiannessSerializer.cs:48-53 | A buffer shorter than the type is ArgumentOutOfRange. A success consumes exactly the type's size and yields an in-range value. It fails only when decoding that prefix overflows. |
| EndiannessSerializer.ReadLooksAtPrefixOnly | src/Backdash/Serialization/Internal/EndiannessSerializer.cs:76-81 | Two buffers that agree on their first size-of-T bytes read identically. |
| EndiannessSerializer.ByteSignificance | src/Backdash/Serialization/Internal/EndiannessSerializer.cs:52 | The big-endian bit pattern takes byte 0 as most significant. The little-endian pattern takes it as least significant. |
| EndiannessSerializer.StrategiesMirror | src/Backdash/Serialization/Internal/EndiannessSerializer.cs:55-60 | The big-endian image of a value is the reverse of its little-endian image. |
| EndiannessSerializer.DecodeOverflowRule | src/Backdash/Serialization/Internal/EndiannessSerializer.cs:80 | Decoding overflows exactly when the top bit is set and the isUnsigned flag disagrees with the type's signedness. |
| EndiannessSerializer.DecodeEncode | src/Backdash/Serialization/Internal/EndiannessSerializer.cs:48-60 | Decoding the encoding of any in-range value, with the type's own flag, gives the value back. Both byte orders are covered. |
| EndiannessSerializer.EncodeDecode | src/Backdash/Serialization/Internal/EndiannessSerializer.cs:48-60 | Encoding a successfully decoded value gives back the same bytes. |
| EndiannessSerializer.WrongFlagOverflows | src/Backdash/Serialization/Internal/EndiannessSerializer.cs:52 | Decoding with the opposite flag fails exactly for negative values, or for values of half the modulus and above. |
| EndiannessSerializer.ReadWriteRoundTrip | tests/Backdash.Tests/Specs/Unit/Serialization/BinarySpanReadWriteValueTests.cs:343-352 | Reading an encoding followed by any bytes yields the value, and the bytes read equal the bytes written. |
| EndiannessSerializer.WriteSpan | src/Backdash/Serialization/Internal/EndiannessSerializer.cs:55-60 | Succeeds exactly when the type fits the rest of the span. On success it splices in the encoding and reports the size. On failure it reports 0 and the array is unchanged. |
| EndiannessSerializer.WriteBuffer | src/Backdash/Serialization/Internal/EndiannessSerializer.cs:62-68 | Writes the encoding at the buffer writer's index and reports the size. The written count and the written span are unchanged, because there is no Advance. |
| Buffers.FreeAfterGetSpan | src/Backdash/Serialization/Internal/EndiannessSerializer.cs:67 | After GetSpan there is room for the hint (at least 1), and never less than before. The writer keeps its size exactly when the hint already fits. |
| Buffers.ArrayBufferWriter.GetSpan | src/Backdash/Synchronizing/Input/Confirmed/InputContext.cs:65 | Returns the current index. Free room grows by the growth rule above, and the written span and the old contents are kept. |
| Buffers.ArrayBufferWriter.Advance | src/Backdash/Synchronizing/Input/Confirmed/InputContext.cs:67 | Moves the index by the given count, which must lie within the free room. |
| BinaryIO.WriteFieldsFits | src/Backdash/Network/Messages/QualityReport.cs:13-17 | When a field sequence fits, writing it splices its concatenated encoding at the cursor and advances the cursor by its total size. |
| BinaryIO.WriteFieldsAdvance | src/Backdash/Network/Messages/QualityReport.cs:13-17 | The cursor never moves past the total size. It moves by exactly that size if and only if every field fits. |
| BinaryIO.WriteReadRoundTrip | src/Backdash/Network/Messages/QualityReport.cs:13-23 | Reading back what was written, in the same kinds and order, gives the same values. The read consumes exactly the bytes written. |
| BinaryIO.ReadFields | src/Backdash/Network/Messages/QualityReport.cs:19-23 | Reads fields in order. It stops at the first failure, reports every value read so far, and reports no error exactly when all fields were read. |
| BinaryIO.ReadNullableRoundTrip | src/Backdash/Serialization/BinarySerializerExtensions.cs:32-34 | A nullable number is a presence byte plus the number. Reading its encoding returns the same optional value and its full length. |
| BinaryIO.BinarySpanWriter.Write | src/Backdash/Network/Messages/QualityReport.cs:15-16 | The writer's buffer and cursor become those produced by writing the single field at the old cursor. |
| BinaryIO.BinaryBufferReader.ReadNumber | src/Backdash/Serialization/BinarySerializerExtensions.cs:13-15 | Returns the codec's read of the remaining buffer. The cursor moves by the type's size on success and stays put on failure. |
| BinaryIO.BinaryBufferReader.ReadNullableNumber | src/Backdash/Serialization/BinarySerializerExtensions.cs:32-34 | Returns the nullable read of the remaining buffer. The cursor moves by the bytes consumed, or stays put on failure. |
| BinaryIO.BinaryBufferReader.ReadUInt32 | src/Backdash/Network/Messages/ConsistencyCheckReply.cs:21 | Reads a 32-bit number with isUnsigned set, so the value is never sign-extended. |
| SerializerExtensions.SignedReadNumber | src/Backdash/Serialization/BinarySerializerExtensions.cs:13-15 | For a signed type, reads with isUnsigned false and moves the cursor as the reader does. |
| SerializerExtensions.SignedReadNumberInto | src/Backdash/Serialization/BinarySerializerExtensions.cs:19-21 | As above, storing into the caller's slot. The slot is untouched on failure. |
| SerializerExtensions.SignedReadNullableInto | src/Backdash/Serialization/BinarySerializerExtensions.cs:25-27 | The nullable read with isUnsigned false, stored into the caller's slot. |
| SerializerExtensions.SignedReadNullableNumber | src/Backdash/Serialization/BinarySerializerExtensions.cs:32-34 | The nullable read with isUnsigned false. |
| SerializerExtensions.UnsignedReadNumber | src/Backdash/Serialization/BinarySerializerExtensions.cs:44-46 | For an unsigned type, reads with isUnsigned true. |
| SerializerExtensions.UnsignedReadNumberInto | src/Backdash/Serialization/BinarySerializerExtensions.cs:50-52 | As above, storing into the caller's slot. |
| SerializerExtensions.UnsignedReadNullableInto | src/Backdash/Serialization/BinarySerializerExtensions.cs:56-58 | The nullable read with isUnsigned true, stored into the caller's slot. |
| SerializerExtensions.UnsignedReadNullableNumber | src/Backdash/Serialization/BinarySerializerExtensions.cs:63-65 | The nullable read with isUnsigned true. |
| SerializerExtensions.ExtensionFlagsRoundTrip | src/Backdash/Serialization/BinarySerializerExtensions.cs:13-65 | With the flag each wrapper passes, every in-range value round-trips, whatever the signedness. |
| SerializerExtensions.NullableFlagsRoundTrip | src/Backdash/Serialization/BinarySerializerExtensions.cs:32-34 | With the wrappers' flags, every optional value round-trips through the nullable encoding. |
| SerializerExtensions.OppositeFlagOverflows | src/Backdash/Serialization/BinarySerializerExtensions.cs:13-65 | Passing the other flag would fail, for signed types exactly on negative values and for unsigned types exactly on their upper half. |
| Messages.QualityReport.Serialize | src/Backdash/Network/Messages/QualityReport.cs:13-17 | Writes FrameAdvantage as an Int32 and then Ping as an Int64 at the writer's cursor. |
| Messages.QualityReport.Deserialize | src/Backdash/Network/Messages/QualityReport.cs:19-23 | Reads an Int32 and then an Int64 and assigns them in that order. A field is assigned only if it was read. |
| Messages.QualityReportWireForm | src/Backdash/Network/Messages/QualityReport.cs:10-17 | The report is 12 bytes: an Int32 and then an Int64, carrying exactly its two fields. |
| Messages.QualityReportRoundTrip | src/Backdash/Network/Messages/QualityReport.cs:13-23 | Under either byte order, reading a written report restores both fields and consumes the 12 bytes written. |
| Messages.QualityReply.Serialize | src/Backdash/Network/Messages/QualityReply.cs:11-12 | Writes Pong as an Int64. |
| Messages.QualityReply.Deserialize | src/Backdash/Network/Messages/QualityReply.cs:14-15 | Reads an Int64 into Pong. |
| Messages.QualityReplyWireForm | src/Backdash/Network/Messages/QualityReply.cs:9-12 | The reply is 8 bytes carrying Pong. |
| Messages.QualityReplyRoundTrip | src/Backdash/Network/Messages/QualityReply.cs:11-15 | Under either byte order Pong round-trips, and both directions move the cursor by 8. |
| Messages.ConsistencyCheckRequest.Serialize | src/Backdash/Network/Messages/ConsistencyCheckRequest.cs:11-12 | Writes only Frame, as an Int32. |
| Messages.ConsistencyCheckRequest.Deserialize | src/Backdash/Network/Messages/ConsistencyCheckRequest.cs:14-15 | Reads a frame into Frame and nothing else. |
| Messages.ConsistencyCheckRequestWireForm | src/Backdash/Network/Messages/ConsistencyCheckRequest.cs:9-12 | The request is 4 bytes carrying the frame number. |
| Messages.ConsistencyCheckRequestRoundTrip | src/Backdash/Network/Messages/ConsistencyCheckRequest.cs:11-15 | Any frame number, negative and Null included, round-trips in 4 bytes. |
| Messages.ConsistencyCheckReply.Serialize | src/Backdash/Network/Messages/ConsistencyCheckReply.cs:12-16 | Writes Frame and then Checksum. |
| Messages.ConsistencyCheckReply.Deserialize | src/Backdash/Network/Messages/ConsistencyCheckReply.cs:18-22 | Reads Frame and then an unsigned Checksum, in that order. |
| Messages.ConsistencyCheckReplyWireForm | src/Backdash/Network/Messages/ConsistencyCheckReply.cs:9-16 | The reply is 8 bytes: an Int32 and then a UInt32. |
| Messages.ConsistencyCheckReplyRoundTrip | src/Backdash/Network/Messages/ConsistencyCheckReply.cs:12-22 | Both fields round-trip under either byte order, and the bytes read equal the 8 written. |
| Messages.ChecksumReadUnsigned | src/Backdash/Network/Messages/ConsistencyCheckReply.cs:10-21 | An unsigned read restores every checksum. A signed read would fail exactly from 2^31 upward. |
| Messages.DeadBeefChecksum | src/Backdash/Network/Messages/ConsistencyCheckReply.cs:21 | 0xDEADBEEF round-trips through the reply, while a signed read of it would fail. |
| MessageSerializer.LayoutReadsFields | src/Backdash/Network/Protocol/Comm/ProtocolMessageSerializer.cs:12-26 | Each message's fields are valid, match its read layout, and have the sizes 12, 8, 4 and 8. |
| MessageSerializer.ProtocolMessageSerializer.Serialize | src/Backdash/Network/Protocol/Comm/ProtocolMessageSerializer.cs:12-18 | Writes the message's fields from offset 0 with the chosen strategy, and returns the final cursor. |
| MessageSerializer.ProtocolMessageSerializer.Deserialize | src/Backdash/Network/Protocol/Comm/ProtocolMessageSerializer.cs:20-26 | Reads the message's layout from offset 0 into the message, and returns the bytes consumed. |
| MessageSerializer.ProtocolMessageSerializer.Endianness | src/Backdash/Network/Protocol/Comm/ProtocolMessageSerializer.cs:10 | Returns the constructor's byte order. |
| MessageSerializer.NewProtocolMessageSerializer | src/Backdash/Network/Protocol/Comm/ProtocolMessageSerializer.cs:7-10 | Fails with ArgumentOutOfRange exactly for an undefined byte order. Otherwise it picks the strategy for that order once. |
| MessageSerializer.SerializeDeserializeRoundTrip | src/Backdash/Network/Protocol/Comm/ProtocolMessageSerializer.cs:12-26 | Deserialising what Serialize wrote restores every field. It returns the same byte count Serialize reported. |
| MessageSerializer.SerializeShortBuffer | src/Backdash/Network/Protocol/Comm/ProtocolMessageSerializer.cs:12-18 | Into a buffer too short for the message, Serialize reports fewer bytes than the message's size. |
| ProtocolStatuses.RawRoundTrip | src/Backdash/Network/Protocol/ProtocolStatus.cs:3-9 | Raw values and statuses convert both ways. Exactly 0..3 are named, in the declared order. |
| ProtocolStatuses.ToPlayerStatusPreimage | src/Backdash/Network/Protocol/ProtocolStatus.cs:13-19 | Each player status has exactly the stated preimage. Syncing maps to Syncing, Running to Connected and Disconnected to Disconnected. Disconnecting and every undefined value map to Unknown. |
| ProtocolStatuses.ToPlayerStatusOnRaw | src/Backdash/Network/Protocol/ProtocolStatus.cs:13-19 | The map is total over every raw 32-bit value. |
| Frames.CompareTo | src/Backdash/Frame/FrameSpan.cs:123 | Returns -1, 0 or 1, following integer order on the counts. |
| Frames.ComparisonsAgree | src/Backdash/Frame/FrameSpan.cs:223-232 | The four relational operators agree with CompareTo, which is antisymmetric. |
| Frames.ArithmeticOnCounts | src/Backdash/Frame/FrameSpan.cs:238-259 | Every int, span and frame operator acts on the count. Without overflow it is the exact integer result, and int * span equals span * int. |
| Frames.AddSubInverse | src/Backdash/Frame/FrameSpan.cs:238-259 | Under 32-bit wrap-around, subtracting what was added restores the span. |
| Frames.SubAddInverse | src/Backdash/Frame/FrameSpan.cs:256-259 | Under wrap-around, adding back what was subtracted restores the span. |
| Frames.AddCommutesAssociates | src/Backdash/Frame/FrameSpan.cs:256 | Span addition is commutative and associative, wrap-around included. |
| Frames.Mod | src/Backdash/Frame/FrameSpan.cs:235 | Fails exactly on a zero divisor (DivideByZero) and on int.MinValue % -1 (Overflow). |
| Frames.ModIsRemainder | src/Backdash/Frame/FrameSpan.cs:235 | The result is the C# truncating remainder: smaller than the divisor in magnitude, with the dividend's sign, differing from it by a multiple of the divisor. |
| Frames.MinMaxSelect | src/Backdash/Frame/FrameSpan.cs:195-198 | Min and Max return one of their arguments, below or above both, and the left one on ties. |
| Frames.AbsSpan | src/Backdash/Frame/FrameSpan.cs:203 | Overflows exactly for int.MinValue. Otherwise it returns the non-negative count of the same magnitude. |
| Frames.ClampBounds | src/Backdash/Frame/FrameSpan.cs:208-220 | Fails with Argument exactly when min > max. Otherwise the result lies in [min, max] and is unchanged if already inside; the span and frame overloads clamp by count and number. |
| Frames.ClampIdempotent | src/Backdash/Frame/FrameSpan.cs:208 | Clamping twice equals clamping once. |
| Frames.SpanRangeOperators | src/Backdash/Frame/FrameSpan.cs:262-265 | span - range as written gives the same range as span + range, and it keeps the range's Start. |
| Frames.SubRangeCheckedSpec | src/Backdash/Frame/FrameSpan.cs:265 | Subtracting the span keeps Start and shortens the duration by it. Adding the span back restores the range. |
| Frames.SubRangeAdds | src/Backdash/Frame/FrameSpan.cs:265 | One - [0..0] gives [0..1] as written, where subtraction gives [0..-1]. |
| Frames.FromInts | src/Backdash/Core/Frame/FrameRange.cs:26 | The int-pair constructor sets Start and End exactly. |
| Frames.FromRange | src/Backdash/Core/Frame/FrameRange.cs:29 | The Range constructor takes both index values as Start and End. |
| Frames.FromRangeIgnoresFromEnd | src/Backdash/Core/Frame/FrameRange.cs:29 | The from-end markers of the Range are ignored. |
| Frames.FromTuple | src/Backdash/Core/Frame/FrameRange.cs:170 | The tuple conversion sets Start and End exactly. |
| Frames.FromDurationRoundTrip | src/Backdash/Core/Frame/FrameRange.cs:32-37 | The (start, duration) constructor keeps Start and has exactly the given Duration, under wrap-around. |
| Frames.WithDurationRoundTrip | src/Backdash/Core/Frame/FrameRange.cs:52-55 | WithDuration keeps Start and yields the given duration. The span overload agrees with the int one. |
| Frames.FromDurationOfDuration | src/Backdash/Core/Frame/FrameRange.cs:32-37 | Rebuilding a range from its Start and Duration gives back the range. |
| Frames.AddSubSpanDuration | src/Backdash/Core/Frame/FrameRange.cs:157-160 | r + s and r - s keep Start, with duration r.Duration + s and r.Duration - s. Subtracting the added span restores r. |
| Frames.ContainsBetween | src/Backdash/Core/Frame/FrameRange.cs:42-47 | Contains(f) holds exactly for Start <= f <= End, through the frame overload as well. It is false everywhere when Start > End. |
| Frames.FromDurationContains | src/Backdash/Core/Frame/FrameRange.cs:32-42 | A range of positive duration d from s contains exactly s..s+d-1. |
| Frames.CompareLexicographic | src/Backdash/Core/Frame/FrameRange.cs:136-154 | Compare orders by Start and then End. It is zero only for equal ranges and antisymmetric, and the four operators agree with it. |
| Frames.CompareTransitive | src/Backdash/Core/Frame/FrameRange.cs:136-154 | <= on ranges is transitive. |
| Frames.FrameSpan.ToFrame | src/Backdash/Frame/FrameSpan.cs:62 | The frame has the span's count as its number. |
| MathI.CeilDiv | src/Backdash/Core/MathI.cs:16 | 0 for x = 0. Otherwise the C# truncated expression, with its DivideByZero and Overflow cases. |
| MathI.CeilDivLeast | src/Backdash/Core/MathI.cs:16 | For positive x and y the result is the least q with q*y >= x. |
| MathI.CeilDivNegativeOperands | src/Backdash/Core/MathI.cs:13-16 | With a negative operand the result is not the ceiling: CeilDiv(-4, 2) and CeilDiv(5, -2) both give -1, where the ceiling is -2. |
| MathI.SumRaw | src/Backdash/Core/MathI.cs:64-81 | The loop returns the in-order wrapping sum of the span, and that sum is in the type's range. |
| MathI.AddLanesSum | src/Backdash/Core/MathI.cs:37-44 | Adding a chunk lane-wise preserves the wrapped total. |
| MathI.Sum | src/Backdash/Core/MathI.cs:22-55 | Vector chunks plus the scalar tail give the same wrapping sum as SumRaw, for any lane count and either path. |
| MathI.SumArray | src/Backdash/Core/MathI.cs:58-59 | The array overload is the wrapping sum of the array's contents. |
| MathI.SumRawArray | src/Backdash/Core/MathI.cs:84-85 | The array SumRaw forwards to Sum, and the result is still the wrapping sum. |
| MathI.NextPowerOfTwoUInt64 | src/Backdash/Core/MathI.cs:103-109 | 1 for n <= 1, and ulong.MaxValue above 2^63. In between, the least power of two at least n. |
| MathI.NextPowerOfTwoInt64 | src/Backdash/Core/MathI.cs:113-119 | The same rule, saturating to long.MaxValue above 2^62. |
| MathI.NextPowerOfTwoUInt32 | src/Backdash/Core/MathI.cs:123-129 | The same rule, saturating to uint.MaxValue above 2^31. |
| MathI.NextPowerOfTwoInt32 | src/Backdash/Core/MathI.cs:133-139 | The same rule, saturating to int.MaxValue above 2^30. |
| MathI.NextPowerOfTwoAtOrAbove | src/Backdash/Core/MathI.cs:98-109 | A power of two is returned unchanged (4 gives 4), and above the top power the result is MaxValue, which is no power of two. |
| MathI.LeastPowerOfTwoIsLeast | src/Backdash/Core/MathI.cs:103-139 | No power of two at least n lies below the returned one. |
| GameInputs.GameInput.constructor | src/Backdash/Synchronizing/Input/GameInput.cs:5-9 | The primary constructor stores the data and the frame. |
| GameInputs.GameInput.AtFrame | src/Backdash/Synchronizing/Input/GameInput.cs:9 | GameInput(frame) has default data. |
| GameInputs.GameInput.OfData | src/Backdash/Synchronizing/Input/GameInput.cs:10 | GameInput(data) has Frame = Null. |
| GameInputs.GameInput.Empty | src/Backdash/Synchronizing/Input/GameInput.cs:11 | The parameterless constructor has default data and Frame = Null. |
| GameInputs.GameInput.IncrementFrame | src/Backdash/Synchronizing/Input/GameInput.cs:12 | Frame becomes Frame.Next() and Data is unchanged. |
| GameInputs.GameInput.ResetFrame | src/Backdash/Synchronizing/Input/GameInput.cs:13 | Frame becomes Null and Data is unchanged. It is idempotent. |
| GameInputs.GameInput.Erase | src/Backdash/Synchronizing/Input/GameInput.cs:14 | Data becomes default and Frame is unchanged. It is idempotent. |
| GameInputs.GameInput.TryFormat | src/Backdash/Synchronizing/Input/GameInput.cs:16-27 | Writes "Input{Frame: ", the number and "}" through the UTF-8 builder chain. |
| GameInputs.TryFormatFits | src/Backdash/Synchronizing/Input/GameInput.cs:16-27 | Formatting succeeds exactly when the whole text fits. The destination then starts with exactly that text. |
| InputContexts.InputContext.constructor | src/Backdash/Synchronizing/Input/Confirmed/InputContext.cs:47-58 | Stores the options, the serializers and the two record sizes. They are constants afterwards. |
| InputContexts.InputContext.WriteInput | src/Backdash/Synchronizing/Input/Confirmed/InputContext.cs:63-68 | Succeeds exactly when the encoding fits the span GetSpan(PlayerInputSize) returns. It then appends exactly the encoding; otherwise the written span is unchanged. |
| InputContexts.InputContext.WriteConfirmed | src/Backdash/Synchronizing/Input/Confirmed/InputContext.cs:73-78 | As written: the span for a confirmed record is requested with the PlayerInputSize hint. It appends the encoding only if it fits that span. |
| InputContexts.InputContext.WriteConfirmedSized | src/Backdash/Synchronizing/Input/Confirmed/InputContext.cs:73-78 | With the ConfirmedInputSize hint, every record up to that size is appended in full. |
| InputContexts.PlayerHintFails | src/Backdash/Synchronizing/Input/Confirmed/InputContext.cs:75 | Whenever the free room is at least the player hint but below the record's size, the player hint leaves too little room. The record's own size always suffices. |
| InputContexts.PlayerHintTooSmall | src/Backdash/Synchronizing/Input/Confirmed/InputContext.cs:75 | With 8 free bytes, a hint of 4 leaves 8 and a hint of 16 grows the buffer to 24. |
| InputContexts.InputContext.WriteInputToSpan | src/Backdash/Synchronizing/Input/Confirmed/InputContext.cs:83 | Returns exactly the serializer's count, with the encoding at the span's start. A short span is an error and is left unchanged. |
| InputContexts.InputContext.WriteConfirmedToSpan | src/Backdash/Synchronizing/Input/Confirmed/InputContext.cs:88 | The same for a confirmed record. |
| InputContexts.InputContext.ReadInput | src/Backdash/Synchronizing/Input/Confirmed/InputContext.cs:93 | Returns the decoder's value and consumed count. On failure it returns the decoder's error and the slot keeps its value. |
| InputContexts.InputContext.ReadConfirmed | src/Backdash/Synchronizing/Input/Confirmed/InputContext.cs:98-99 | The same for a confirmed record. |
| InputContexts.InputContext.GetSpanWriter | src/Backdash/Synchronizing/Input/Confirmed/InputContext.cs:104-105 | A fresh writer over the buffer at the offset, using the options' endianness. An undefined endianness is ArgumentOutOfRange. |
| InputContexts.InputContext.GetWriter | src/Backdash/Synchronizing/Input/Confirmed/InputContext.cs:107-110 | A fresh buffer writer over the given ArrayBufferWriter, using the options' endianness. An undefined endianness is ArgumentOutOfRange. |
| BinaryIO.BinaryBufferWriter.Write | src/Backdash/Synchronizing/Input/Confirmed/InputContext.cs:110 | Appends exactly the number's encoding to the buffer writer's written bytes. |
| InputContexts.InputContext.GetReader | src/Backdash/Synchronizing/Input/Confirmed/InputContext.cs:115-116 | A fresh reader over the buffer at the offset, using the options' endianness. |
| MemoryInputListeners.DecodeEncodeAll | src/Backdash/Synchronizing/Input/Confirmed/MemoryInputListener.cs:56-60 | With a round-tripping serializer, the concatenated records decode back to the recorded list in order. |
| MemoryInputListeners.EncodeAllSnoc | src/Backdash/Synchronizing/Input/Confirmed/MemoryInputListener.cs:56-60 | Each step of the loop appends one record's encoding to what is already written. |
| MemoryInputListeners.MemoryInputListener.constructor | src/Backdash/Synchronizing/Input/Confirmed/MemoryInputListener.cs:26-31 | Starts with an empty list, no context and the given next listener. |
| MemoryInputListeners.MemoryInputListener.Alone | src/Backdash/Synchronizing/Input/Confirmed/MemoryInputListener.cs:36 | The parameterless constructor has no next listener. |
| MemoryInputListeners.MemoryInputListener.Clear | src/Backdash/Synchronizing/Input/Confirmed/MemoryInputListener.cs:41 | Empties the list. |
| MemoryInputListeners.MemoryInputListener.OnConfirmed | src/Backdash/Synchronizing/Input/Confirmed/MemoryInputListener.cs:73-77 | Appends the inputs at the end, then forwards the same frame and inputs to the next listener. |
| MemoryInputListeners.MemoryInputListener.OnSessionStart | src/Backdash/Synchronizing/Input/Confirmed/MemoryInputListener.cs:80-85 | Clears the list and stores the context, then forwards the context. |
| MemoryInputListeners.MemoryInputListener.OnSessionClose | src/Backdash/Synchronizing/Input/Confirmed/MemoryInputListener.cs:88 | Only forwards. The list and the context are unchanged. |
| MemoryInputListeners.MemoryInputListener.Dispose | src/Backdash/Synchronizing/Input/Confirmed/MemoryInputListener.cs:91 | Only forwards. The list and the context are unchanged. |
| MemoryInputListeners.MemoryInputListener.GetCompressedInputs | src/Backdash/Synchronizing/Input/Confirmed/MemoryInputListener.cs:46-70 | Without a context: empty. With a context, the capacity is the unchecked Int32 product of the record size and the count. When that is 0 or less (no records, or a wrapped product) the buffer writer throws ArgumentException. Otherwise it compresses every record's encoding in list order. It succeeds whenever each record fits its size and the product does not overflow. The list is unchanged. |
| MemoryInputListeners.MemoryInputListener.GetCompressedInputsChecked | src/Backdash/Synchronizing/Input/Confirmed/MemoryInputListener.cs:46-70 | The same, except that an empty list compresses the empty byte sequence. A non-empty list whose wrapped product is 0 or less still throws. |
| MemoryInputListeners.CapacityWraps | src/Backdash/Synchronizing/Input/Confirmed/MemoryInputListener.cs:52 | 2^15 records of 2^16 bytes ask for int.MinValue, and 2^16 of them ask for 0. |
| MemoryInputListeners.CompressRecords | src/Backdash/Synchronizing/Input/Confirmed/MemoryInputListener.cs:52-69 | The loop writes the records in order into a buffer of the given capacity. It returns the compression of their concatenated encodings. |
| InputProviders.EnumerableInputProvider.constructor | src/Backdash/Synchronizing/Input/Confirmed/IInputProvider.cs:20-23 | Holds the source sequence and has not yet enumerated it. |
| InputProviders.EnumerableInputProvider.GetInputs | src/Backdash/Synchronizing/Input/Confirmed/IInputProvider.cs:23-26 | The first call returns the source's elements in order. Every later call returns the same memoised list, whatever the context. |
| InputsFiles.Padded | samples/SpaceWar/Utils/InputsFileListener.cs:30-35 | A record starts with the serialized bytes and is zero-padded to the stride when shorter. |
| InputsFiles.RecordedLength | samples/SpaceWar/Utils/InputsFileListener.cs:28-37 | After N records each fitting the stride, the file is N times the stride long. |
| InputsFiles.RecordedSnoc | samples/SpaceWar/Utils/InputsFileListener.cs:28-37 | Recording one more input appends its padded record. |
| InputsFiles.ReadRecorded | samples/SpaceWar/Utils/InputsFileListener.cs:28-59 | Reading a recorded file back in stride chunks, with a round-tripping serializer, yields the same inputs in order. |
| InputsFiles.InputsFileListener.constructor | samples/SpaceWar/Utils/InputsFileListener.cs:17-24 | No session, an empty file and an empty scratch buffer. |
| InputsFiles.InputsFileListener.OnSessionStart | samples/SpaceWar/Utils/InputsFileListener.cs:17-24 | Allocates a ConfirmedInputSize scratch buffer, stores the context and truncates the file to empty. |
| InputsFiles.InputsFileListener.OnConfirmed | samples/SpaceWar/Utils/InputsFileListener.cs:28-37 | Appends the serialized bytes and then the zero padding up to the stride. It fails, with the file unchanged, when the record does not fit the scratch buffer. |
| InputsFiles.InputsFileProvider.GetInputs | samples/SpaceWar/Utils/InputsFileListener.cs:44-61 | A missing file is InvalidOperation. Otherwise the loop decodes the file in stride chunks in order, stopping at its end. |
| Utf8Builders.WriteKeepsText | src/Backdash/Core/Builders/Utf8StringBuilder.cs:18-51 | No Write ever changes what is already written before the offset. |
| Utf8Builders.WriteFits | src/Backdash/Core/Builders/Utf8StringBuilder.cs:18-51 | When the piece fits the free room, Write succeeds and appends exactly its bytes. |
| Utf8Builders.WriteOverflows | src/Backdash/Core/Builders/Utf8StringBuilder.cs:30-40 | When a piece does not fit, the result depends on the overload. Formatted values fail and change nothing. Write(bytes) copies what fits yet moves the offset by the full length, past the end. Write(chars) copies what fits and stops at the end. |
| Utf8Builders.ChainFits | src/Backdash/Core/Builders/Utf8StringBuilder.cs:18-51 | A chain of writes that fits succeeds and writes the concatenation of its pieces. |
| Utf8Builders.ChainSucceedsOnlyWhole | src/Backdash/Core/Builders/Utf8StringBuilder.cs:18-51 | A chain ending in a whole-or-nothing piece succeeds only if everything fits. |
| Utf8Builders.ChainExact | src/Backdash/Core/Builders/Utf8StringBuilder.cs:18-51 | A chain of plain pieces succeeds exactly when its total text fits, and then writes that text. |
| Utf8Builders.Utf8StringBuilder.WriteBytes | src/Backdash/Core/Builders/Utf8StringBuilder.cs:30-40 | The array and the offset change as the value-level Write(bytes) says. |
| Utf8Builders.Utf8StringBuilder.WriteChars | src/Backdash/Core/Builders/Utf8StringBuilder.cs:18-28 | The array and the offset change as the value-level Write(chars) says. |
| Utf8Builders.Utf8StringBuilder.WriteFormatted | src/Backdash/Core/Builders/Utf8StringBuilder.cs:42-51 | When TryFormat fails, false and nothing changes. Otherwise the offset moves by the bytes written. |
| Utf8Builders.Utf8StringBuilder.WriteFormat | src/Backdash/Core/Builders/Utf8StringBuilder.cs:57-63 | At most MaxLocalStringSize chars are formatted through a local buffer and then written as chars. |
| Utf8Builders.Utf8StringBuilder.WriteEnum | src/Backdash/Core/Builders/Utf8StringBuilder.cs:65-71 | The enum's name is written like a format text. |
| Utf8Builders.Utf8ObjectStringWriter.constructor | src/Backdash/Core/Builders/Utf8StringBuilder.cs:80-86 | Writes "{" and remembers the offset after it as the first-field mark. |
| Utf8Builders.Utf8ObjectStringWriter.Write | src/Backdash/Core/Builders/Utf8StringBuilder.cs:88-99 | Writes ", " unless this is the first field, then "name: " and the value, as one chain. |
| Utf8Builders.Utf8ObjectStringWriter.Dispose | src/Backdash/Core/Builders/Utf8StringBuilder.cs:101 | Writes "}". |
| Utf8Builders.FormatObjectDropsBrace | src/Backdash/Network/Messages/QualityReport.cs:25-31 | With 5 bytes and field a:1, formatting returns true with "{a: 1" written. The whole text needs 6 bytes. |
| Utf8Builders.FormatObjectCheckedSpec | src/Backdash/Core/Builders/Utf8StringBuilder.cs:80-101 | When the brace is counted, the object format succeeds exactly when "{", the fields and "}" fit, and it then writes exactly that text. |
| Utf8Builders.FormatObjectIsChain | src/Backdash/Core/Builders/Utf8StringBuilder.cs:80-101 | The checked object format is the one chain of the object's pieces. |
| SpanStringBuilders.WriteAppends | src/Backdash/Core/SpanStringBuilder.cs:34-41 | A successful write leaves the written prefix equal to the old prefix followed by the value. |
| SpanStringBuilders.WriteWhenFull | src/Backdash/Core/SpanStringBuilder.cs:34-41 | With no room left only the empty value succeeds, and nothing changes. |
| SpanStringBuilders.InterpolateFits | src/Backdash/Core/SpanStringBuilder.cs:82-104 | The interpolation succeeds exactly when its concatenated text fits, or is empty, and writes it. |
| SpanStringBuilders.InterpolateSticky | src/Backdash/Core/SpanStringBuilder.cs:82-104 | After the first failed append, no later append writes anything. |
| SpanStringBuilders.SpanStringBuilder.ToString | src/Backdash/Core/SpanStringBuilder.cs:22-24 | Returns exactly buffer[..offset]. An offset past the buffer is an error. |
| SpanStringBuilders.SpanStringBuilder.Reset | src/Backdash/Core/SpanStringBuilder.cs:26 | The offset becomes 0 and the contents are untouched. |
| SpanStringBuilders.SpanStringBuilder.Clear | src/Backdash/Core/SpanStringBuilder.cs:28-32 | Zeroes exactly the written prefix, then sets the offset to 0. An offset past the buffer is an error and changes nothing. |
| SpanStringBuilders.SpanStringBuilder.Write | src/Backdash/Core/SpanStringBuilder.cs:34-41 | Copies and advances only when the whole value fits. Otherwise it returns false with buffer and offset unchanged. |
| SpanStringBuilders.SpanStringBuilder.WriteFormatted | src/Backdash/Core/SpanStringBuilder.cs:43-52 | Advances only by the formatted count, and only on success. |
| SpanStringBuilders.SpanStringBuilder.WriteEnum | src/Backdash/Core/SpanStringBuilder.cs:54-61 | The same for an enum's name. |
| SpanStringBuilders.InterpolatedStringHandler.AppendLiteral | src/Backdash/Core/SpanStringBuilder.cs:82-92 | Writes only while succeeded holds, and succeeded becomes false at the first failure. |
| SpanStringBuilders.InterpolatedStringHandler.AppendFormatted | src/Backdash/Core/SpanStringBuilder.cs:94-104 | The same for a formatted value. |
| SpanStringBuilders.Append | src/Backdash/Core/SpanStringBuilder.cs:64-65 | Returns the handler's final success flag. |
| NetcodeExtensions.Queue.Dequeue | src/Backdash/Core/Extensions.cs:15 | Removes and returns the head. On an empty queue it is InvalidOperation and changes nothing. |
| NetcodeExtensions.PushFirst | src/Backdash/Core/Extensions.cs:11-17 | After the count rotations the value is at the head, followed by the old elements in their old order. The count grows by one. |
| NetcodePlayers.NetcodePlayer.Assign | src/Backdash/Player/NetcodePlayer.cs:48-52 | Stores the queue index, type, endpoint and id, and sets CustomId to 0. |
| NetcodePlayers.NewPlayer | src/Backdash/Player/NetcodePlayer.cs:43-53 | An undefined type is InvalidEnum. A supplied empty Guid is Argument. Otherwise: a fresh player with the given fields, its id being the supplied one or a new non-empty Guid. |
| NetcodePlayers.Create | src/Backdash/Player/NetcodePlayer.cs:58 | As NewPlayer with queue index -1, so Index is -1 and Number is 0. |
| NetcodePlayers.CreateWithId | src/Backdash/Player/NetcodePlayer.cs:63 | A local player without an endpoint. Only an empty id is rejected. |
| NetcodePlayers.CreateLocal | src/Backdash/Player/NetcodePlayer.cs:165 | A local player with Index -1, no endpoint, and the given id or else a fresh one. Guid.Empty is an ArgumentException. |
| NetcodePlayers.MakeEndPoint | src/Backdash/Player/NetcodePlayer.cs:171 | Builds the endpoint exactly for ports 0..65535. Otherwise it is ArgumentOutOfRange. |
| NetcodePlayers.CreateRemote | src/Backdash/Player/NetcodePlayer.cs:170-171 | A remote player with Index -1, the given endpoint, and the given id or else a fresh one. Guid.Empty is an ArgumentException. |
| NetcodePlayers.CreateRemoteAt | src/Backdash/Player/NetcodePlayer.cs:176-183 | A remote player with Index -1 at the address and port, with the given id or else a fresh one. A bad port is rejected before the id. |
| NetcodePlayers.CreateSpectator | src/Backdash/Player/NetcodePlayer.cs:188-189 | A spectator with Index -1, the given endpoint, and the given id or else a fresh one. Guid.Empty is an ArgumentException. |
| NetcodePlayers.CreateSpectatorAt | src/Backdash/Player/NetcodePlayer.cs:194-201 | A spectator with Index -1 at the address and port, with the given id or else a fresh one. A bad port is rejected before the id. |
| NetcodePlayers.NetcodePlayer.Index | src/Backdash/Player/NetcodePlayer.cs:76 | The queue index, within the sbyte range. |
| NetcodePlayers.NetcodePlayer.Number | src/Backdash/Player/NetcodePlayer.cs:73 | Always Index + 1, so within -127..128. |
| NetcodePlayers.NetcodePlayer.SetQueue | src/Backdash/Player/NetcodePlayer.cs:78 | Stores the sbyte as the queue index, so Index() becomes that value. |
| NetcodePlayers.NetcodePlayer.SetQueueInt | src/Backdash/Player/NetcodePlayer.cs:78-79 | Stores the int truncated to sbyte. |
| NetcodePlayers.SByteCast | src/Backdash/Player/NetcodePlayer.cs:79 | The sbyte truncation is in range, is the identity on sbyte values and is congruent to its input mod 256. For example 128 gives -128, 255 gives -1 and 256 gives 0. |
| NetcodePlayers.TypeTests | src/Backdash/Player/NetcodePlayer.cs:106-116 | No two Is* tests hold at once, and none holds exactly when the type is not one of the three named ones. |
| NetcodePlayers.PlayersEqualMeaning | src/Backdash/Player/NetcodePlayer.cs:149-160 | Players are equal exactly when they are the same reference, or both non-null with the same Type and Index; a null is equal only to null. != is the negation of ==. |
| NetcodePlayers.PlayersEqualEquivalence | src/Backdash/Player/NetcodePlayer.cs:141-160 | Player equality is reflexive, symmetric and transitive. |
| NetcodePlayers.HashConsistent | src/Backdash/Player/NetcodePlayer.cs:147 | Equal players have equal hash codes. |
| NetcodePlayers.EqualityIgnoresId | src/Backdash/Player/NetcodePlayer.cs:141-154 | The same Type and Index make two players equal, whatever their ids and endpoints. |
| SyncTestOptionSets.SyncTestOptions.constructor | src/Backdash/Options/SyncTestOptions.cs:16-43 | The defaults: check distance 1, throw and log on desync, and no handler, parser or provider. |
| SyncTestOptionSets.SyncTestOptions.CheckDistance | src/Backdash/Options/SyncTestOptions.cs:46-50 | Sets only CheckDistanceFrames and returns the same object. |
| SyncTestOptionSets.SyncTestOptions.LogState | src/Backdash/Options/SyncTestOptions.cs:53-57 | Sets only LogStateOnDesync, true by default, and returns the same object. |
| SyncTestOptionSets.SyncTestOptions.ThrowError | src/Backdash/Options/SyncTestOptions.cs:60-64 | Sets only ThrowOnDesync, true by default, and returns the same object. |
| SyncTestOptionSets.SyncTestOptions.UseStateStringParser | src/Backdash/Options/SyncTestOptions.cs:94-98 | Sets only the state string parser and returns the same object. |
| SyncTestOptionSets.SyncTestOptions.UseDesyncHandler | src/Backdash/Options/SyncTestOptions.cs:101-105 | Sets only the desync handler and returns the same object. |
| SyncTestOptionSets.SyncTestOptions.UseInputProvider | src/Backdash/Options/SyncTestOptions.cs:108-112 | Sets only the input generator and returns the same object. |
| SyncTestOptionSets.SettersIdempotentAndCommute | src/Backdash/Options/SyncTestOptions.cs:46-64 | Each setter is idempotent, a later value of the same setter wins, and setters of different properties commute. |
| SyncTestOptionSets.SettersTouchOneProperty | src/Backdash/Options/SyncTestOptions.cs:46-64 | Each setter changes exactly its own property: resetting that one property gives back the original settings. |
| SyncTestOptionSets.ChainedSetters | src/Backdash/Options/SyncTestOptions.cs:46-64 | Chained calls, each on the object the previous one returned, all land on the one fresh object. |

## Left out

- Floating point is not modelled:
  - the seconds, duration and millisecond conversions of FrameSpan, and `GetFrameAt*`;
  - `MathI.Avg`;
  - `NextGaussian` and `NextBool`, which are also random;
  - the float, vector and quaternion codec cases.
- `MathI.Sum`: the SIMD vectors are modelled as `vecSize` sequential lanes. The `accelerated` flag stands for hardware support.
- Deflate compression in `GetCompressedInputs` is a parameter `compress`. The memory stream around it is not modelled.
- The file of the sample listener and provider is a byte sequence. The stream calls `Flush` and `Dispose`, and `File.Exists`, are not modelled; a missing file is `None`.
  - `Stream.Read` is taken to return whole chunks until the last, partial one.
- Text is ASCII only. Number and enum formatting inside `TryFormat`, culture and `Encoding.UTF8` are parameters: the formatted text, or whether it fits.
- `NetcodePlayer.TryFormat`, `ToString` and `NetworkStats` are not modelled (formatting and network statistics). `Equals(object)` is left out; `Equals(NetcodePlayer)`, `==` and `!=` are modelled.
- `Guid.NewGuid` is a parameter, assumed non-empty, as the runtime promises.
- `SyncTestOptions.UseRandomInputProvider` is left out (randomness). `SyncTestOptions.UseJsonStateParser` is left out (JSON).
- The JSON converters and `FrameRange`'s text formatting are left out.
- Frame.cs, BinarySpanWriter.cs, BinaryBufferWriter.cs, BinaryBufferReader.cs, ConfirmedInputs.cs, PlayerType.cs and NetcodeOptions.cs, and .NET's `ArrayBufferWriter` and `Queue`, are not part of this model's sources. They are stand-ins written from how the modelled code uses them:
  - `Frame` is a 32-bit number, with `Next` wrapping and `Null` = -1;
  - the span writer skips a field that does not fit and reports a smaller count;
  - the buffer reader refuses a short buffer and keeps its cursor;
  - the buffer writer appends each number through `GetSpan` and `Advance`;
  - `ArrayBufferWriter` follows .NET's growth rule and refuses a capacity of 0 or less;
  - an input serializer refuses a destination shorter than its encoding.
- `ProtocolMessage` is reduced to its type tag and the four modelled bodies. The other message kinds are not part of this model.
- Negative offsets and spans of negative length cannot occur in the model, because a position is a `nat`.
- `PlayerType`'s numbering is unknown. Only its three named cases and "any other value" are modelled.
- `ConsistencyCheckRequest.TryFormat` and the `Utf8ObjectWriter` it uses are not modelled: that writer type is not part of this model's sources.
- CeilDivLeast: the ceiling is proved only for positive operands, because the source's expression is not the ceiling when one operand is negative (CeilDiv(-4, 2) is -1, not -2; see `MathI.CeilDivNegativeOperands`). The doc comment does not say which rule is intended for negative operands, so the model proposes none.
- NextPowerOfTwo: the documented "next power of two greater than the number" is modelled as the code computes it, the least power of two at or above the number, saturating to MaxValue above the top power (`MathI.NextPowerOfTwoAtOrAbove`).

## Findings

| source | as written | input that shows it | evidently intended | confidence | as-written member | corrected member |
|---|---|---|---|---|---|---|
| src/Backdash/Synchronizing/Input/Confirmed/InputContext.cs:75 | the confirmed-inputs overload asks `GetSpan` for `PlayerInputSize` bytes, then serializes a whole confirmed record into that span | a buffer writer with 8 free bytes, PlayerInputSize 4 and a 16-byte record: GetSpan(4) leaves 8 bytes, too short for the record | request `ConfirmedInputSize`, so every record up to that size fits | not executed; high | InputContexts.InputContext.WriteConfirmed, InputContexts.PlayerHintFails | InputContexts.InputContext.WriteConfirmedSized |
| src/Backdash/Synchronizing/Input/Confirmed/MemoryInputListener.cs:52 | the buffer writer's capacity is `ConfirmedInputSize * count`, an unchecked Int32 product that is 0 when no input was confirmed after the session started; `ArrayBufferWriter(0)` throws, as it does for a product that wraps to 0 or below | start a session, confirm nothing, call GetCompressedInputs | an empty recording compresses to the compression of no bytes | not executed; high | MemoryInputListeners.MemoryInputListener.GetCompressedInputs | MemoryInputListeners.MemoryInputListener.GetCompressedInputsChecked |
| src/Backdash/Core/Builders/Utf8StringBuilder.cs:101 | the messages' UTF-8 `TryFormat` returns the result of the field writes before the `using` writer's `Dispose` writes `}`, so a destination with no room for the brace still reports success | QualityReport.cs:25-31 style object with field a:1 into 5 bytes: returns true with "{a: 1" and no closing brace | report success only if the closing brace was written too | not executed; moderate | Utf8Builders.FormatObjectDropsBrace | Utf8Builders.FormatObjectCheckedSpec |
| src/Backdash/Frame/FrameSpan.cs:265 | `span - range` returns `range + span`: it adds | One - [0..0] gives [0..1] | `range - span`, which keeps Start and shortens the duration | not executed; moderate | Frames.SubRangeAdds | Frames.SubRangeCheckedSpec |
