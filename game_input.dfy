/**
 * GameInput: a player's input for one frame. It is a mutable struct whose
 * methods overwrite one field in place. The input type is a type parameter;
 * its default value, default(T), is given to the constructors.
 */
module GameInputs {
  import opened Integers
  import opened Frames
  import opened Utf8Builders

  /** The UTF-8 literal TryFormat starts with. */
  const FramePrefix: seq<byte> := Ascii("Input{Frame: ")
  const FrameSuffix: seq<byte> := [125]

  /** The writes of TryFormat, given the text Frame.Number formats to. */
  function FormatPieces(numberText: seq<byte>): (ps: seq<Piece>)
    ensures AllValid(ps) && Plain(ps) && EndsWhole(ps) && |ps[|ps| - 1].Image()| > 0
    ensures Images(ps) == FramePrefix + numberText + FrameSuffix
  {
    var ps := [Bytes(FramePrefix), Formatted(numberText), Bytes(FrameSuffix)];
    assert ps[1..][1..][1..] == [];
    assert AllValid(ps[1..][1..]) && Plain(ps[1..][1..]);
    assert Images(ps[1..][1..]) == FrameSuffix;
    ps
  }

  class GameInput<T> {
    var Frame: Frames.Frame
    var Data: T
    /** default(T). */
    const Default: T

    /** GameInput(Data, Frame): the primary constructor. */
    constructor (data: T, frame: Frames.Frame, default: T)
      ensures Data == data && Frame == frame && Default == default
    {
      Data := data;
      Frame := frame;
      Default := default;
    }

    /** GameInput(frame): the default input at that frame. */
    constructor AtFrame(frame: Frames.Frame, default: T)
      ensures Data == default && Frame == frame && Default == default
    {
      Data := default;
      Frame := frame;
      Default := default;
    }

    /** GameInput(data): the input at Frame.Null. */
    constructor OfData(data: T, default: T)
      ensures Data == data && Frame == Null && Default == default
    {
      Data := data;
      Frame := Null;
      Default := default;
    }

    /** GameInput(): the default input at Frame.Null. */
    constructor Empty(default: T)
      ensures Data == default && Frame == Null && Default == default
    {
      Data := default;
      Frame := Null;
      Default := default;
    }

    /** IncrementFrame: the frame moves to the next one; the data stays. */
    method IncrementFrame()
      modifies this`Frame
      ensures Frame == old(Frame).Next() && Data == old(Data)
    {
      Frame := Frame.Next();
    }

    /** ResetFrame: the frame becomes Frame.Null; the data stays. Idempotent. */
    method ResetFrame()
      modifies this`Frame
      ensures Frame == Null && Data == old(Data)
      ensures old(Frame) == Null ==> Frame == old(Frame)
    {
      Frame := Null;
    }

    /** Erase: the data becomes default(T); the frame stays. Idempotent. */
    method Erase()
      modifies this`Data
      ensures Data == Default && Frame == old(Frame)
      ensures old(Data) == Default ==> Data == old(Data)
    {
      Data := Default;
    }

    /**
     * TryFormat: "Input{Frame: ", the frame number and "}" written through a
     * Utf8StringBuilder over the destination, joined by &&; numberText is the
     * UTF-8 text Frame.Number formats to.
     */
    method TryFormat(destination: array<byte>, numberText: seq<byte>) returns (ok: bool, bytesWritten: nat)
      modifies destination
      ensures (ok, Builder(destination[..], bytesWritten)) == Chain(Builder(old(destination[..]), 0), FormatPieces(numberText))
    {
      var ps := FormatPieces(numberText);
      ghost var start := Builder(destination[..], 0);
      var writer := new Utf8StringBuilder(destination, 0);
      ChainStep(start, ps);
      ok := writer.WriteBytes(FramePrefix);
      if ok {
        assert ps[1..][0] == Formatted(numberText);
        ChainStep(writer.State(), ps[1..]);
        ok := writer.WriteFormatted(numberText);
        if ok {
          assert ps[1..][1..] == [Bytes(FrameSuffix)];
          ChainStep(writer.State(), ps[1..][1..]);
          ok := writer.WriteBytes(FrameSuffix);
        }
      }
      bytesWritten := writer.offset;
    }
  }

  /**
   * TryFormat succeeds exactly when the whole text fits the destination, and
   * then the destination starts with "Input{Frame: ", the number and "}".
   */
  lemma TryFormatFits(destination: seq<byte>, numberText: seq<byte>)
    ensures Chain(Builder(destination, 0), FormatPieces(numberText)).0 <==> |FramePrefix| + |numberText| + 1 <= |destination|
    ensures var r := Chain(Builder(destination, 0), FormatPieces(numberText));
      r.0 ==> (r.1.offset == |FramePrefix| + |numberText| + 1 &&
        r.1.Text() == FramePrefix + numberText + FrameSuffix)
  {
    var b := Builder(destination, 0);
    ChainExact(b, FormatPieces(numberText));
    assert b.Text() == [];
  }
}
