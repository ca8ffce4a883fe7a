/**
 * The sample replay recorder and player: InputsFileListener writes each
 * confirmed input as one record of ConfirmedInputSize bytes (the serialized
 * bytes, then zero padding), and InputsFileProvider reads the file back in
 * chunks of that size. The file is modelled as its bytes: the listener's as a
 * byte sequence it appends to, the provider's as an optional one (None when
 * the file does not exist). Flushing and closing the stream are not modelled.
 */
module InputsFiles {
  import opened Wrappers
  import opened Integers
  import opened Spans
  import opened InputContexts
  import opened SerializerExtensions

  function Zeros(n: nat): (r: seq<byte>)
    ensures |r| == n && forall k :: 0 <= k < n ==> r[k] == 0
  {
    seq(n, _ => 0)
  }

  /** One record: the serialized bytes padded with zeros to the stride. */
  function Padded(bytes: seq<byte>, stride: nat): (r: seq<byte>)
    ensures |r| >= |bytes| && (|bytes| <= stride ==> |r| == stride)
    ensures r[..|bytes|] == bytes
  {
    bytes + Zeros(if |bytes| <= stride then stride - |bytes| else 0)
  }

  /** The file after recording xs, one padded record each. */
  function Recorded<T>(s: BinarySerializer<T>, stride: nat, xs: seq<T>): seq<byte>
    decreases |xs|
  {
    if |xs| == 0 then [] else Padded(s.Encode(xs[0]), stride) + Recorded(s, stride, xs[1..])
  }

  /** Every value serializes within the stride. */
  predicate FitStride<T>(s: BinarySerializer<T>, stride: nat, xs: seq<T>)
  {
    forall i :: 0 <= i < |xs| ==> |s.Encode(xs[i])| <= stride
  }

  /**
   * What the provider's loop reads: each Read fills the front of the reused
   * buffer with the next chunk (the whole stride, or what is left of the
   * file), and the whole buffer, stale tail included, is decoded.
   */
  function ReadChunks<T>(s: BinarySerializer<T>, stride: nat, data: seq<byte>, buffer: seq<byte>): Result<seq<T>>
    requires |buffer| == stride
    decreases |data|
  {
    if stride == 0 || |data| == 0 then Ok([])
    else
      var n := if |data| < stride then |data| else stride;
      var next := data[..n] + buffer[n..];
      match s.Decode(next)
      case Err(e) => Err(e)
      case Ok((v, _)) =>
        match ReadChunks(s, stride, data[n..], next)
        case Err(e) => Err(e)
        case Ok(vs) => Ok([v] + vs)
  }

  function Prepend<T>(xs: seq<T>, r: Result<seq<T>>): Result<seq<T>>
  {
    if r.Ok? then Ok(xs + r.value) else r
  }

  /** One turn of the read loop. */
  lemma ReadChunksStep<T>(s: BinarySerializer<T>, stride: nat, data: seq<byte>, buffer: seq<byte>, n: nat, next: seq<byte>)
    requires |buffer| == stride && stride > 0 && |data| > 0
    requires n == (if |data| < stride then |data| else stride) && next == data[..n] + buffer[n..]
    ensures |next| == stride
    ensures s.Decode(next).Err? ==> ReadChunks(s, stride, data, buffer) == Err(s.Decode(next).error)
    ensures s.Decode(next).Ok? ==>
      ReadChunks(s, stride, data, buffer) == Prepend([s.Decode(next).value.0], ReadChunks(s, stride, data[n..], next))
  {
  }

  lemma PrependPrepend<T>(xs: seq<T>, v: T, r: Result<seq<T>>)
    ensures Prepend(xs, Prepend([v], r)) == Prepend(xs + [v], r)
  {
    if r.Ok? {
      assert xs + ([v] + r.value) == (xs + [v]) + r.value;
    }
  }

  lemma {:induction false} RecordedLength<T>(s: BinarySerializer<T>, stride: nat, xs: seq<T>)
    requires FitStride(s, stride, xs)
    ensures |Recorded(s, stride, xs)| == |xs| * stride
    decreases |xs|
  {
    if |xs| > 0 {
      assert FitStride(s, stride, xs[1..]) by {
        forall i | 0 <= i < |xs[1..]|
          ensures |s.Encode(xs[1..][i])| <= stride
        {
          assert xs[1..][i] == xs[i + 1];
        }
      }
      RecordedLength(s, stride, xs[1..]);
      assert |xs| * stride == stride + (|xs| - 1) * stride;
    }
  }

  lemma {:induction false} RecordedSnoc<T>(s: BinarySerializer<T>, stride: nat, xs: seq<T>, x: T)
    ensures Recorded(s, stride, xs + [x]) == Recorded(s, stride, xs) + Padded(s.Encode(x), stride)
    decreases |xs|
  {
    if |xs| == 0 {
      assert xs + [x] == [x] && [x][1..] == [];
    } else {
      assert (xs + [x])[0] == xs[0] && (xs + [x])[1..] == xs[1..] + [x];
      RecordedSnoc(s, stride, xs[1..], x);
    }
  }

  /**
   * Recording inputs and reading the file back gives the same inputs in the
   * same order, when the serializer reads back what it writes and every
   * record fits the stride; the stale buffer is never seen.
   */
  lemma {:induction false} ReadRecorded<T(!new)>(s: BinarySerializer<T>, stride: nat, xs: seq<T>, buffer: seq<byte>)
    requires RoundTrips(s) && stride > 0 && |buffer| == stride && FitStride(s, stride, xs)
    ensures ReadChunks(s, stride, Recorded(s, stride, xs), buffer) == Ok(xs)
    decreases |xs|
  {
    if |xs| > 0 {
      var data := Recorded(s, stride, xs);
      var e := s.Encode(xs[0]);
      var record := Padded(e, stride);
      assert FitStride(s, stride, xs[1..]) by {
        forall i | 0 <= i < |xs[1..]|
          ensures |s.Encode(xs[1..][i])| <= stride
        {
          assert xs[1..][i] == xs[i + 1];
        }
      }
      RecordedLength(s, stride, xs[1..]);
      assert |e| <= stride;
      assert data[..stride] == record && data[stride..] == Recorded(s, stride, xs[1..]);
      assert data[..stride] + buffer[stride..] == record;
      assert s.Decode(e + Zeros(stride - |e|)) == Ok((xs[0], |e|));
      ReadRecorded(s, stride, xs[1..], record);
      assert [xs[0]] + xs[1..] == xs;
    }
  }

  /** The missing-file check of InputsFileProvider, and what it reads otherwise. */
  function ReadFile<T>(s: BinarySerializer<T>, stride: nat, file: Option<seq<byte>>): Result<seq<T>>
  {
    if file.None? then Err(InvalidOperation) else ReadChunks(s, stride, file.value, Zeros(stride))
  }

  class InputsFileListener<T> {
    /** The bytes written to the file stream so far; its position is always the end. */
    var file: seq<byte>
    var inputBuffer: array<byte>
    var inputContext: InputContext?<T>

    /** File.Create: the file exists and is empty. */
    constructor ()
      ensures file == [] && inputBuffer.Length == 0 && inputContext == null
    {
      file := [];
      inputBuffer := new byte[0];
      inputContext := null;
    }

    /** OnSessionStart: a fresh record buffer of the confirmed-input size, and the file truncated. */
    method OnSessionStart(context: InputContext<T>)
      modifies this
      ensures fresh(inputBuffer) && inputBuffer.Length == context.ConfirmedInputSize
      ensures inputContext == context && file == []
    {
      inputBuffer := new byte[context.ConfirmedInputSize];
      inputContext := context;
      file := [];
    }

    /**
     * OnConfirmed: the serialized record, then zeros up to the stride. A record
     * longer than the buffer makes the serializer raise, and nothing is written.
     */
    method OnConfirmed(inputs: ConfirmedInputs<T>) returns (r: Result<()>)
      requires inputContext != null && inputBuffer.Length == inputContext.ConfirmedInputSize
      modifies this`file, inputBuffer
      ensures r.Ok? <==> |inputContext.Serializer.Encode(inputs)| <= inputContext.ConfirmedInputSize
      ensures r.Ok? ==> file == old(file) + Padded(inputContext.Serializer.Encode(inputs), inputContext.ConfirmedInputSize)
      ensures r.Err? ==> file == old(file)
    {
      var written := inputContext.WriteConfirmedToSpan(inputBuffer, inputs);
      if written.Err? {
        return Err(written.error);
      }
      ghost var record := inputContext.Serializer.Encode(inputs);
      assert inputBuffer[..written.value] == record;
      file := file + inputBuffer[..written.value];
      var paddingCount := inputContext.ConfirmedInputSize - written.value;
      for i := 0 to paddingCount
        invariant file == old(file) + record + Zeros(i)
      {
        assert Zeros(i) + [0] == Zeros(i + 1);
        file := file + [0];
      }
      r := Ok(());
    }
  }

  class InputsFileProvider<T> {
    /** The replay file: None when it does not exist. */
    const file: Option<seq<byte>>

    constructor (file: Option<seq<byte>>)
      ensures this.file == file
    {
      this.file := file;
    }

    /**
     * GetInputs: InvalidOperationException when the file does not exist;
     * otherwise the stride-sized chunks read into one reused buffer until a
     * read returns 0, each decoded and appended in file order.
     */
    method GetInputs(context: InputContext<T>, initial: ConfirmedInputs<T>) returns (r: Result<seq<ConfirmedInputs<T>>>)
      ensures r == ReadFile(context.Serializer, context.ConfirmedInputSize, file)
    {
      if file.None? {
        return Err(InvalidOperation);
      }
      var data := file.value;
      var stride := context.ConfirmedInputSize;
      var buffer := new byte[stride](_ => 0);
      assert buffer[..] == Zeros(stride);
      var result := [];
      var confirmedInput := new Slot(initial);
      var position := 0;
      assert data[position..] == data;
      assert Prepend(result, ReadFile(context.Serializer, stride, file)) == ReadFile(context.Serializer, stride, file) by {
        var f := ReadFile(context.Serializer, stride, file);
        if f.Ok? {
          assert result + f.value == f.value;
        }
      }
      while true
        invariant 0 <= position <= |data| && buffer.Length == stride
        invariant ReadFile(context.Serializer, stride, file) == Prepend(result, ReadChunks(context.Serializer, stride, data[position..], buffer[..]))
        decreases |data| - position
      {
        var n := if |data| - position < stride then |data| - position else stride;
        if n == 0 {
          break;
        }
        ghost var stale := buffer[..];
        CopyTo(buffer, 0, data[position..position + n]);
        assert buffer[..] == data[position..][..n] + stale[n..] by {
          assert data[position..position + n] == data[position..][..n];
        }
        ReadChunksStep(context.Serializer, stride, data[position..], stale, n, buffer[..]);
        var read := context.ReadConfirmed(buffer[..], confirmedInput);
        if read.Err? {
          return Err(read.error);
        }
        assert data[position..][n..] == data[position + n..];
        PrependPrepend(result, confirmedInput.value, ReadChunks(context.Serializer, stride, data[position + n..], buffer[..]));
        result := result + [confirmedInput.value];
        position := position + n;
      }
      assert result + [] == result;
      r := Ok(result);
    }
  }
}
