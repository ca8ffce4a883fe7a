/**
 * MemoryInputListener: records every confirmed input of a session in a list,
 * in the order confirmed, and forwards each call to the next listener. The
 * next listener is an interface the model does not see; it is represented by
 * the log of the calls it receives. Deflate compression is a parameter: a
 * function from the serialized bytes to the compressed ones.
 */
module MemoryInputListeners {
  import opened Wrappers
  import opened Integers
  import opened Frames
  import opened Buffers
  import opened InputContexts

  /** A call an IInputListener receives. */
  datatype Event<T> =
    | SessionStart(context: InputContext<T>)
    | Confirmed(frame: Frame, inputs: ConfirmedInputs<T>)
    | SessionClose
    | Disposed

  /** The next listener, as the calls made on it so far. */
  class ListenerLog<T> {
    var events: seq<Event<T>>

    constructor ()
      ensures events == []
    {
      events := [];
    }

    method Receive(e: Event<T>)
      modifies this
      ensures events == old(events) + [e]
    {
      events := events + [e];
    }
  }

  /** The records, serialized one after the other. */
  function EncodeAll<T>(s: BinarySerializer<T>, xs: seq<T>): (r: seq<byte>)
    decreases |xs|
  {
    if |xs| == 0 then [] else s.Encode(xs[0]) + EncodeAll(s, xs[1..])
  }

  /** Reading n records back, one after the other. */
  function DecodeAll<T>(s: BinarySerializer<T>, bytes: seq<byte>, n: nat): (r: Result<seq<T>>)
    ensures r.Ok? ==> |r.value| == n
    decreases n
  {
    if n == 0 then Ok([])
    else
      match s.Decode(bytes)
      case Err(e) => Err(e)
      case Ok((v, k)) =>
        if k > |bytes| then Err(ArgumentOutOfRange)
        else
          match DecodeAll(s, bytes[k..], n - 1)
          case Err(e) => Err(e)
          case Ok(vs) => Ok([v] + vs)
  }

  lemma {:induction false} EncodeAllSnoc<T>(s: BinarySerializer<T>, xs: seq<T>, x: T)
    ensures EncodeAll(s, xs + [x]) == EncodeAll(s, xs) + s.Encode(x)
    decreases |xs|
  {
    if |xs| == 0 {
      assert xs + [x] == [x];
      assert [x][1..] == [];
    } else {
      assert (xs + [x])[0] == xs[0] && (xs + [x])[1..] == xs[1..] + [x];
      EncodeAllSnoc(s, xs[1..], x);
    }
  }

  /** With a serializer that reads back what it writes, the recorded bytes give back the recorded inputs. */
  lemma {:induction false} DecodeEncodeAll<T(!new)>(s: BinarySerializer<T>, xs: seq<T>)
    requires RoundTrips(s)
    ensures DecodeAll(s, EncodeAll(s, xs), |xs|) == Ok(xs)
    decreases |xs|
  {
    if |xs| > 0 {
      var bytes := EncodeAll(s, xs);
      var e := s.Encode(xs[0]);
      var rest := EncodeAll(s, xs[1..]);
      assert s.Decode(e + rest) == Ok((xs[0], |e|));
      assert bytes[|e|..] == rest;
      DecodeEncodeAll(s, xs[1..]);
      assert [xs[0]] + xs[1..] == xs;
    }
  }

  class MemoryInputListener<T> {
    const nextListener: ListenerLog?<T>
    var inputList: seq<ConfirmedInputs<T>>
    var inputContext: InputContext?<T>

    /** The internal constructor, with the listener to forward to. */
    constructor (next: ListenerLog?<T>)
      ensures nextListener == next && inputList == [] && inputContext == null
    {
      nextListener := next;
      inputList := [];
      inputContext := null;
    }

    /** The public constructor: nothing to forward to. */
    constructor Alone()
      ensures nextListener == null && inputList == [] && inputContext == null
    {
      nextListener := null;
      inputList := [];
      inputContext := null;
    }

    /** Inputs: a read-only view of the list itself. */
    function Inputs(): seq<ConfirmedInputs<T>>
      reads this
    {
      inputList
    }

    /** Clear: the list becomes empty. */
    method Clear()
      modifies this`inputList
      ensures inputList == []
    {
      inputList := [];
    }

    /** OnConfirmed: appended at the end, then forwarded unchanged. */
    method OnConfirmed(frame: Frame, inputs: ConfirmedInputs<T>)
      modifies this`inputList, nextListener
      ensures inputList == old(inputList) + [inputs]
      ensures nextListener != null ==> nextListener.events == old(nextListener.events) + [Confirmed(frame, inputs)]
    {
      inputList := inputList + [inputs];
      if nextListener != null {
        nextListener.Receive(Confirmed(frame, inputs));
      }
    }

    /** OnSessionStart: the list is cleared and the context kept before the call is forwarded. */
    method OnSessionStart(context: InputContext<T>)
      modifies this`inputList, this`inputContext, nextListener
      ensures inputList == [] && inputContext == context
      ensures nextListener != null ==> nextListener.events == old(nextListener.events) + [SessionStart(context)]
    {
      Clear();
      inputContext := context;
      if nextListener != null {
        nextListener.Receive(SessionStart(context));
      }
    }

    /** OnSessionClose: only forwarded. */
    method OnSessionClose()
      modifies nextListener
      ensures nextListener != null ==> nextListener.events == old(nextListener.events) + [SessionClose]
    {
      if nextListener != null {
        nextListener.Receive(SessionClose);
      }
    }

    /** Dispose: only forwarded. */
    method Dispose()
      modifies nextListener
      ensures nextListener != null ==> nextListener.events == old(nextListener.events) + [Disposed]
    {
      if nextListener != null {
        nextListener.Receive(Disposed);
      }
    }

    /**
     * GetCompressedInputs as written: empty before any session; otherwise
     * every record in list order through the context's confirmed-input Write
     * into a writer sized for all of them, then compressed. The size is the
     * unchecked Int32 product of the record size and the count; a writer of
     * capacity 0 or less, which an empty list or a wrapped product asks for,
     * raises ArgumentException.
     */
    method GetCompressedInputs(compress: seq<byte> -> seq<byte>) returns (r: Result<seq<byte>>)
      ensures inputContext == null ==> r == Ok([])
      ensures inputContext != null && |inputList| == 0 ==> r == Err(Argument)
      ensures inputContext != null && Wrap32(inputContext.ConfirmedInputSize * |inputList|) <= 0 ==> r == Err(Argument)
      ensures r.Ok? && inputContext != null ==> r.value == compress(EncodeAll(inputContext.Serializer, inputList))
      ensures inputContext != null && |inputList| > 0 && inputContext.ConfirmedInputSize > 0 &&
        inputContext.ConfirmedInputSize * |inputList| <= Int32Max &&
        (forall i :: 0 <= i < |inputList| ==> |inputContext.Serializer.Encode(inputList[i])| <= inputContext.ConfirmedInputSize)
        ==> r.Ok?
    {
      if inputContext == null {
        return Ok([]);
      }
      var context := inputContext;
      var capacity := Wrap32(context.ConfirmedInputSize * |inputList|);
      if capacity <= 0 {
        return Err(Argument);
      }
      if context.ConfirmedInputSize * |inputList| <= Int32Max {
        Wrap32Identity(context.ConfirmedInputSize * |inputList|);
      }
      r := CompressRecords(context, inputList, capacity, compress);
    }

    /**
     * GetCompressedInputs with an empty list answered by compressing no bytes.
     * A non-empty list whose Int32 size product is 0 or less still raises
     * ArgumentException, as in the source.
     */
    method GetCompressedInputsChecked(compress: seq<byte> -> seq<byte>) returns (r: Result<seq<byte>>)
      ensures inputContext == null ==> r == Ok([])
      ensures inputContext != null && |inputList| == 0 ==> r == Ok(compress([]))
      ensures inputContext != null && |inputList| > 0 && Wrap32(inputContext.ConfirmedInputSize * |inputList|) <= 0 ==>
        r == Err(Argument)
      ensures r.Ok? && inputContext != null ==> r.value == compress(EncodeAll(inputContext.Serializer, inputList))
      ensures inputContext != null && inputContext.ConfirmedInputSize > 0 &&
        inputContext.ConfirmedInputSize * |inputList| <= Int32Max &&
        (forall i :: 0 <= i < |inputList| ==> |inputContext.Serializer.Encode(inputList[i])| <= inputContext.ConfirmedInputSize)
        ==> r.Ok?
    {
      if inputContext == null {
        return Ok([]);
      }
      var context := inputContext;
      if |inputList| == 0 {
        return Ok(compress([]));
      }
      var capacity := Wrap32(context.ConfirmedInputSize * |inputList|);
      if capacity <= 0 {
        return Err(Argument);
      }
      if context.ConfirmedInputSize * |inputList| <= Int32Max {
        Wrap32Identity(context.ConfirmedInputSize * |inputList|);
      }
      r := CompressRecords(context, inputList, capacity, compress);
    }
  }

  /**
   * The size product wraps: 2^15 records of 2^16 bytes ask for int.MinValue
   * and 2^16 of them for 0, so ArrayBufferWriter refuses both sizes.
   */
  lemma CapacityWraps()
    ensures Wrap32(0x1_0000 * 0x8000) == Int32Min
    ensures Wrap32(0x1_0000 * 0x1_0000) == 0
  {
    Wrap32Fits(0x1_0000 * 0x8000);
    Pow256Values();
  }

  /** Room for k records of at most c bytes holds the next one and leaves room for k - 1. */
  lemma RoomLeft(free: nat, k: nat, c: nat, e: nat)
    requires k > 0 && free >= k * c && e <= c
    ensures e <= free && free - e >= (k - 1) * c
  {
    assert k * c == (k - 1) * c + c;
  }

  /** The loop of GetCompressedInputs: each record written in turn, then the written bytes compressed. */
  method CompressRecords<T>(context: InputContext<T>, records: seq<ConfirmedInputs<T>>, capacity: nat,
                            compress: seq<byte> -> seq<byte>) returns (r: Result<seq<byte>>)
    requires capacity > 0
    ensures r.Ok? ==> r.value == compress(EncodeAll(context.Serializer, records))
    ensures capacity == context.ConfirmedInputSize * |records| &&
      (forall i :: 0 <= i < |records| ==> |context.Serializer.Encode(records[i])| <= context.ConfirmedInputSize)
      ==> r.Ok?
  {
    var bufferWriter := new ArrayBufferWriter(capacity);
    ghost var roomy := capacity == context.ConfirmedInputSize * |records| &&
      (forall i :: 0 <= i < |records| ==> |context.Serializer.Encode(records[i])| <= context.ConfirmedInputSize);
    var i := 0;
    while i < |records|
      invariant 0 <= i <= |records|
      invariant bufferWriter.Valid() && fresh(bufferWriter) && fresh(bufferWriter.buffer)
      invariant bufferWriter.WrittenSpan() == EncodeAll(context.Serializer, records[..i])
      invariant roomy ==> bufferWriter.FreeCapacity() >= (|records| - i) * context.ConfirmedInputSize
    {
      ghost var free := bufferWriter.FreeCapacity();
      if roomy {
        RoomLeft(free, |records| - i, context.ConfirmedInputSize, |context.Serializer.Encode(records[i])|);
      }
      var w := context.WriteConfirmed(bufferWriter, records[i]);
      if w.Err? {
        return Err(w.error);
      }
      EncodeAllSnoc(context.Serializer, records[..i], records[i]);
      assert records[..i + 1] == records[..i] + [records[i]];
      i := i + 1;
    }
    assert records[..i] == records;
    r := Ok(compress(bufferWriter.WrittenSpan()));
  }
}
