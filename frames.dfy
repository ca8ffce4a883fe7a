/**
 * The frame domain: Frame (a frame number), FrameSpan (a count of frames)
 * and FrameRange (an inclusive range of frames). All three wrap an Int32 and
 * their arithmetic is unchecked, so every sum, difference and product is
 * truncated to 32 bits.
 */
module Frames {
  import opened Wrappers
  import opened Integers

  // ---------------------------------------------------------------------
  // Frame

  /** Frame: a frame number. Frame.cs is not part of this model; only the members used here are. */
  datatype Frame = Frame(Number: int32) {

    /** Next(): the following frame number (unchecked). */
    function Next(): (f: Frame)
      ensures Number < Int32Max ==> f.Number == Number + 1
      ensures Number == Int32Max ==> f.Number == Int32Min
    {
      Wrap32Fits(Number + 1);
      Frame(Wrap32(Number + 1))
    }

    /** Frame + int (unchecked). */
    function Plus(n: int): (f: Frame)
      ensures Int32Min <= Number + n <= Int32Max ==> f.Number == Number + n
    {
      Wrap32Fits(Number + n);
      Frame(Wrap32(Number + n))
    }
  }

  /** Frame.Null: the "no frame" sentinel. */
  const Null: Frame := Frame(-1)

  /** int.CompareTo: -1, 0 or 1 by integer order. */
  function CompareInt(a: int, b: int): (c: int)
    ensures c == -1 || c == 0 || c == 1
    ensures c < 0 <==> a < b
    ensures c == 0 <==> a == b
    ensures c > 0 <==> a > b
  {
    if a < b then -1 else if a > b then 1 else 0
  }

  // ---------------------------------------------------------------------
  // FrameSpan

  /** FrameSpan: a count of frames. */
  datatype FrameSpan = FrameSpan(Frames: int32) {

    /** ToFrame(): the frame whose number is this count. */
    function ToFrame(): (f: Frame)
      ensures f.Number == Frames
    {
      Frame(Frames)
    }
  }

  const Zero: FrameSpan := FrameSpan(0)
  const One: FrameSpan := FrameSpan(1)
  const MaxValue: FrameSpan := FrameSpan(Int32Max)

  /** FrameSpan.CompareTo. */
  function CompareTo(left: FrameSpan, right: FrameSpan): (c: int)
    ensures c == -1 || c == 0 || c == 1
    ensures c < 0 <==> left.Frames < right.Frames
    ensures c == 0 <==> left == right
    ensures c > 0 <==> left.Frames > right.Frames
  {
    CompareInt(left.Frames, right.Frames)
  }

  /** The operators <, <=, >, >= on FrameSpan. */
  predicate Less(left: FrameSpan, right: FrameSpan) { left.Frames < right.Frames }
  predicate LessEq(left: FrameSpan, right: FrameSpan) { left.Frames <= right.Frames }
  predicate Greater(left: FrameSpan, right: FrameSpan) { left.Frames > right.Frames }
  predicate GreaterEq(left: FrameSpan, right: FrameSpan) { left.Frames >= right.Frames }

  /** The comparison operators agree with CompareTo, which is antisymmetric. */
  lemma ComparisonsAgree(left: FrameSpan, right: FrameSpan)
    ensures Less(left, right) <==> CompareTo(left, right) < 0
    ensures LessEq(left, right) <==> CompareTo(left, right) <= 0
    ensures Greater(left, right) <==> CompareTo(left, right) > 0
    ensures GreaterEq(left, right) <==> CompareTo(left, right) >= 0
    ensures CompareTo(left, right) == -CompareTo(right, left)
  {
  }

  /** span + int, span - int, span * int, int * span (unchecked). */
  function AddInt(left: FrameSpan, right: int32): FrameSpan { FrameSpan(Wrap32(left.Frames + right)) }
  function SubInt(left: FrameSpan, right: int32): FrameSpan { FrameSpan(Wrap32(left.Frames - right)) }
  function MulInt(left: FrameSpan, right: int32): FrameSpan { FrameSpan(Wrap32(left.Frames * right)) }
  function IntMul(left: int32, right: FrameSpan): FrameSpan { MulInt(right, left) }

  /** span + Frame, span - Frame, span + span, span - span (unchecked). */
  function AddFrame(left: FrameSpan, right: Frame): FrameSpan { FrameSpan(Wrap32(left.Frames + right.Number)) }
  function SubFrame(left: FrameSpan, right: Frame): FrameSpan { FrameSpan(Wrap32(left.Frames - right.Number)) }
  function Add(left: FrameSpan, right: FrameSpan): FrameSpan { FrameSpan(Wrap32(left.Frames + right.Frames)) }
  function Sub(left: FrameSpan, right: FrameSpan): FrameSpan { FrameSpan(Wrap32(left.Frames - right.Frames)) }

  /** The operators act on the counts: exact when the result fits in 32 bits, and int * span == span * int. */
  lemma ArithmeticOnCounts(a: FrameSpan, b: FrameSpan, n: int32, f: Frame)
    ensures Int32Min <= a.Frames + n <= Int32Max ==> AddInt(a, n).Frames == a.Frames + n
    ensures Int32Min <= a.Frames - n <= Int32Max ==> SubInt(a, n).Frames == a.Frames - n
    ensures Int32Min <= a.Frames * n <= Int32Max ==> MulInt(a, n).Frames == a.Frames * n
    ensures IntMul(n, a) == MulInt(a, n)
    ensures Int32Min <= a.Frames + f.Number <= Int32Max ==> AddFrame(a, f).Frames == a.Frames + f.Number
    ensures Int32Min <= a.Frames - f.Number <= Int32Max ==> SubFrame(a, f).Frames == a.Frames - f.Number
    ensures Int32Min <= a.Frames + b.Frames <= Int32Max ==> Add(a, b).Frames == a.Frames + b.Frames
    ensures Int32Min <= a.Frames - b.Frames <= Int32Max ==> Sub(a, b).Frames == a.Frames - b.Frames
  {
    var x: int, y: int, k: int, m: int := a.Frames, b.Frames, n, f.Number;
    if Int32Min <= x + k <= Int32Max { Wrap32Identity(x + k); }
    if Int32Min <= x - k <= Int32Max { Wrap32Identity(x - k); }
    if Int32Min <= x * k <= Int32Max { Wrap32Identity(x * k); }
    if Int32Min <= x + m <= Int32Max { Wrap32Identity(x + m); }
    if Int32Min <= x - m <= Int32Max { Wrap32Identity(x - m); }
    if Int32Min <= x + y <= Int32Max { Wrap32Identity(x + y); }
    if Int32Min <= x - y <= Int32Max { Wrap32Identity(x - y); }
  }

  /** Unchecked subtraction undoes unchecked addition, even across an overflow. */
  lemma {:induction false} AddSubInverse(a: FrameSpan, b: FrameSpan)
    ensures Sub(Add(a, b), b) == a
    ensures SubInt(AddInt(a, b.Frames), b.Frames) == a
  {
    var x: int, y: int := a.Frames, b.Frames;
    Wrap32Add(x + y, -y);
    assert x + y + -y == x;
    Wrap32Identity(x);
  }

  /** Unchecked addition undoes unchecked subtraction. */
  lemma {:induction false} SubAddInverse(a: FrameSpan, b: FrameSpan)
    ensures Add(Sub(a, b), b) == a
  {
    var x: int, y: int := a.Frames, b.Frames;
    Wrap32Add(x - y, y);
    assert x - y + y == x;
    Wrap32Identity(x);
  }

  /** Unchecked addition stays commutative and associative. */
  lemma {:induction false} AddCommutesAssociates(a: FrameSpan, b: FrameSpan, c: FrameSpan)
    ensures Add(a, b) == Add(b, a)
    ensures Add(Add(a, b), c) == Add(a, Add(b, c))
  {
    var x: int, y: int, z: int := a.Frames, b.Frames, c.Frames;
    assert Add(a, b).Frames == Wrap32(x + y);
    assert Add(b, c).Frames == Wrap32(y + z);
    Wrap32Add(x + y, z);
    Wrap32Add(x, y + z);
    assert Add(Add(a, b), c).Frames == Wrap32(x + y + z);
    assert Add(a, Add(b, c)).Frames == Wrap32(x + (y + z));
  }

  /** span % int: C#'s remainder, which throws on a zero divisor and on int.MinValue % -1. */
  function Mod(left: FrameSpan, right: int32): (r: Result<FrameSpan>)
    ensures r.Err? <==> right == 0 || (left.Frames == Int32Min && right == -1)
    ensures r.Err? ==> r.error == (if right == 0 then DivideByZero else Overflow)
  {
    if right == 0 then Err(DivideByZero)
    else if left.Frames == Int32Min && right == -1 then Err(Overflow)
    else
      TruncDivision(left.Frames, right);
      Ok(FrameSpan(TruncRem(left.Frames, right)))
  }

  /** The remainder is smaller than the divisor, has the dividend's sign, and differs from it by a multiple of the divisor. */
  lemma {:induction false} ModIsRemainder(left: FrameSpan, right: int32)
    requires Mod(left, right).Ok?
    ensures Abs(Mod(left, right).value.Frames) < Abs(right)
    ensures left.Frames >= 0 ==> Mod(left, right).value.Frames >= 0
    ensures left.Frames <= 0 ==> Mod(left, right).value.Frames <= 0
    ensures exists q: int :: left.Frames == q * right + Mod(left, right).value.Frames
  {
    TruncDivision(left.Frames, right);
    var q := TruncDiv(left.Frames, right);
    assert left.Frames == q * right + Mod(left, right).value.Frames;
  }

  /** FrameSpan.Min / FrameSpan.Max. */
  function Min(left: FrameSpan, right: FrameSpan): FrameSpan { if LessEq(left, right) then left else right }
  function Max(left: FrameSpan, right: FrameSpan): FrameSpan { if GreaterEq(left, right) then left else right }

  /** Min is the lesser and Max the greater argument, left on ties. */
  lemma MinMaxSelect(left: FrameSpan, right: FrameSpan)
    ensures Min(left, right) == left || Min(left, right) == right
    ensures LessEq(Min(left, right), left) && LessEq(Min(left, right), right)
    ensures Max(left, right) == left || Max(left, right) == right
    ensures GreaterEq(Max(left, right), left) && GreaterEq(Max(left, right), right)
    ensures left.Frames == right.Frames ==> Min(left, right) == left && Max(left, right) == left
  {
  }

  /** FrameSpan.Abs via Math.Abs, which throws an OverflowException on int.MinValue. */
  function AbsSpan(frame: FrameSpan): (r: Result<FrameSpan>)
    ensures r.Err? <==> frame.Frames == Int32Min
    ensures r.Err? ==> r.error == Overflow
    ensures r.Ok? ==> r.value.Frames >= 0 && (r.value.Frames == frame.Frames || r.value.Frames == -frame.Frames)
  {
    if frame.Frames == Int32Min then Err(Overflow)
    else Ok(FrameSpan(if frame.Frames < 0 then -frame.Frames else frame.Frames))
  }

  /** FrameSpan.Clamp(frame, int, int) via Math.Clamp, which throws an ArgumentException when min > max. */
  function Clamp(frame: FrameSpan, min: int32, max: int32): (r: Result<FrameSpan>)
  {
    if min > max then Err(Argument)
    else if frame.Frames < min then Ok(FrameSpan(min))
    else if frame.Frames > max then Ok(FrameSpan(max))
    else Ok(frame)
  }

  /** Clamp(frame, FrameSpan, FrameSpan) and Clamp(frame, Frame, Frame) clamp by the counts and the numbers. */
  function ClampSpan(frame: FrameSpan, min: FrameSpan, max: FrameSpan): Result<FrameSpan> { Clamp(frame, min.Frames, max.Frames) }
  function ClampFrame(frame: FrameSpan, min: Frame, max: Frame): Result<FrameSpan> { Clamp(frame, min.Number, max.Number) }

  /** Clamp fails exactly when min > max; otherwise the result is the point of [min, max] nearest the count. */
  lemma ClampBounds(frame: FrameSpan, min: int32, max: int32)
    ensures Clamp(frame, min, max).Err? <==> min > max
    ensures Clamp(frame, min, max).Err? ==> Clamp(frame, min, max).error == Argument
    ensures Clamp(frame, min, max).Ok? ==>
      var c := Clamp(frame, min, max).value.Frames;
      min <= c <= max &&
      (min <= frame.Frames <= max ==> c == frame.Frames) &&
      (frame.Frames < min ==> c == min) &&
      (frame.Frames > max ==> c == max)
  {
  }

  /** Clamping twice with the same bounds gives the same result (Idempotence). */
  lemma ClampIdempotent(frame: FrameSpan, min: int32, max: int32)
    requires Clamp(frame, min, max).Ok?
    ensures Clamp(Clamp(frame, min, max).value, min, max) == Clamp(frame, min, max)
  {
  }

  /** span + range and span - range: both return range + span (the subtraction adds). */
  function AddRange(left: FrameSpan, right: FrameRange): FrameRange { right.AddSpan(left) }
  function SubRange(left: FrameSpan, right: FrameRange): FrameRange { right.AddSpan(left) }

  /** span - range is the same range as span + range, and neither moves Start. */
  lemma SpanRangeOperators(s: FrameSpan, r: FrameRange)
    ensures SubRange(s, r) == AddRange(s, r)
    ensures SubRange(s, r).Start == r.Start
  {
  }

  /** span - range as evidently intended: the mirror of span + range, that is range - span. */
  function SubRangeChecked(left: FrameSpan, right: FrameRange): FrameRange { right.SubSpan(left) }

  /** The intended subtraction keeps Start and takes the span off the duration, and adding the span back restores the range. */
  lemma {:induction false} SubRangeCheckedSpec(s: FrameSpan, r: FrameRange)
    ensures SubRangeChecked(s, r).Start == r.Start
    ensures SubRangeChecked(s, r).Duration() == Sub(r.Duration(), s)
    ensures AddRange(s, SubRangeChecked(s, r)) == r
  {
    FromDurationRoundTrip(r.Start, Sub(r.Duration(), s));
    SubAddInverse(r.Duration(), s);
    FromDurationOfDuration(r);
  }

  /**
   * As written, subtracting the one-frame span from the one-frame range at
   * frame 0 gives the two-frame range [0..1]; the intended subtraction gives
   * the empty range [0..-1].
   */
  lemma SubRangeAdds()
    ensures SubRange(One, FrameRange(Frame(0), Frame(0))) == FrameRange(Frame(0), Frame(1))
    ensures SubRangeChecked(One, FrameRange(Frame(0), Frame(0))) == FrameRange(Frame(0), Frame(-1))
  {
    Wrap32Identity(1);
    Wrap32Identity(2);
    Wrap32Identity(0);
    Wrap32Identity(-1);
  }

  // ---------------------------------------------------------------------
  // FrameRange

  /** FrameRange(Start, End): an inclusive range of frames. */
  datatype FrameRange = FrameRange(Start: Frame, End: Frame) {

    /** Duration: End - Start + 1 (unchecked). */
    function Duration(): FrameSpan
    {
      FrameSpan(Wrap32(End.Number - Start.Number + 1))
    }

    /** Contains(int). */
    predicate Contains(frame: int)
    {
      frame >= Start.Number && frame <= End.Number
    }

    /** Contains(Frame) delegates to the number. */
    predicate ContainsFrame(frame: Frame)
    {
      Contains(frame.Number)
    }

    /** WithDuration(int): the range from Start lasting `duration` frames. */
    function WithDuration(duration: int32): FrameRange
    {
      FrameRange(Start, Start.Plus(Wrap32(duration - 1)))
    }

    /** WithDuration(FrameSpan). */
    function WithDurationSpan(duration: FrameSpan): FrameRange
    {
      WithDuration(duration.Frames)
    }

    /** range + span: same Start, duration Duration + span. */
    function AddSpan(right: FrameSpan): FrameRange
    {
      FromDuration(Start, Add(Duration(), right))
    }

    /** range - span: same Start, duration Duration - span. */
    function SubSpan(right: FrameSpan): FrameRange
    {
      FromDuration(Start, Sub(Duration(), right))
    }
  }

  /** new FrameRange(int start, int end). */
  function FromInts(start: int32, end: int32): (r: FrameRange)
    ensures r.Start.Number == start && r.End.Number == end
  {
    FrameRange(Frame(start), Frame(end))
  }

  /** The value of a System.Index: its constructor refuses a negative one. */
  type IndexValue = v: int32 | 0 <= v

  /** System.Index: a non-negative value, counted from the start or from the end. */
  datatype Index = Index(Value: IndexValue, IsFromEnd: bool)

  /** System.Range. */
  datatype Range = Range(Start: Index, End: Index)

  /** new FrameRange(Range): takes the two index values and ignores whether they count from the end. */
  function FromRange(range: Range): (r: FrameRange)
    ensures r.Start.Number == range.Start.Value && r.End.Number == range.End.Value
  {
    FromInts(range.Start.Value, range.End.Value)
  }

  /** Ranges written with ^ (from the end) give the same frame range as those without. */
  lemma FromRangeIgnoresFromEnd(a: IndexValue, b: IndexValue, fa: bool, fb: bool)
    ensures FromRange(Range(Index(a, fa), Index(b, fb))) == FromRange(Range(Index(a, false), Index(b, false)))
  {
  }

  /** new FrameRange(Frame start, FrameSpan duration): End = start + (duration - 1). */
  function FromDuration(start: Frame, duration: FrameSpan): FrameRange
  {
    FrameRange(start, start.Plus(Wrap32(duration.Frames - 1)))
  }

  /** The implicit conversions from (Frame, Frame) and (Frame, FrameSpan) tuples. */
  function FromTuple(range: (Frame, Frame)): (r: FrameRange)
    ensures r.Start == range.0 && r.End == range.1
  {
    FrameRange(range.0, range.1)
  }

  function FromStartDuration(range: (Frame, FrameSpan)): FrameRange
  {
    FromDuration(range.0, range.1)
  }

  /** The (start, duration) constructor keeps the start and has exactly the given duration, under wrap-around too. */
  lemma {:induction false} FromDurationRoundTrip(start: Frame, duration: FrameSpan)
    ensures FromDuration(start, duration).Start == start
    ensures FromDuration(start, duration).Duration() == duration
  {
    var s: int := start.Number;
    var d: int := duration.Frames;
    var e := FromDurationEnd(start, duration);
    Wrap32Add(s + (d - 1), 1 - s);
    assert e - s + 1 == e + (1 - s);
    assert s + (d - 1) + (1 - s) == d;
    Wrap32Identity(d);
  }

  /** The End of a range from a start and a duration is the wrapped start + (duration - 1). */
  lemma FromDurationEnd(start: Frame, duration: FrameSpan) returns (e: int32)
    ensures e == Wrap32(start.Number + (duration.Frames - 1))
    ensures FromDuration(start, duration).End.Number == e
  {
    var n := Wrap32(duration.Frames - 1);
    assert FromDuration(start, duration).End == start.Plus(n);
    assert start.Plus(n).Number == Wrap32(start.Number + n);
    Wrap32Add(start.Number, duration.Frames - 1);
    e := Wrap32(start.Number + (duration.Frames - 1));
  }

  /** WithDuration keeps Start and yields the requested duration. */
  lemma {:induction false} WithDurationRoundTrip(r: FrameRange, duration: int32)
    ensures r.WithDuration(duration).Start == r.Start
    ensures r.WithDuration(duration).Duration().Frames == duration
    ensures r.WithDurationSpan(FrameSpan(duration)) == r.WithDuration(duration)
  {
    FromDurationRoundTrip(r.Start, FrameSpan(duration));
  }

  /** A range's (start, duration) decomposition rebuilds it. */
  lemma {:induction false} FromDurationOfDuration(r: FrameRange)
    ensures FromDuration(r.Start, r.Duration()) == r
  {
    var end := FromDurationEnd(r.Start, r.Duration());
    WrapDurationBack(r.Start.Number, r.End.Number);
  }

  /** Start + ((End - Start + 1) - 1) gives End back under Int32 wrap. */
  lemma WrapDurationBack(s: int32, e: int32)
    ensures Wrap32(s + (Wrap32(e - s + 1) - 1)) == e
  {
    Wrap32Add(s - 1, e - s + 1);
    assert (s - 1) + (e - s + 1) == e;
    Wrap32Identity(e);
  }

  /** range + span keeps Start and adds span to the duration; range - span subtracts it. */
  lemma {:induction false} AddSubSpanDuration(r: FrameRange, s: FrameSpan)
    ensures r.AddSpan(s).Start == r.Start && r.AddSpan(s).Duration() == Add(r.Duration(), s)
    ensures r.SubSpan(s).Start == r.Start && r.SubSpan(s).Duration() == Sub(r.Duration(), s)
    ensures r.AddSpan(s).SubSpan(s) == r
  {
    FromDurationRoundTrip(r.Start, Add(r.Duration(), s));
    FromDurationRoundTrip(r.Start, Sub(r.Duration(), s));
    AddSubInverse(r.Duration(), s);
    FromDurationRoundTrip(r.Start, Sub(Add(r.Duration(), s), s));
    FromDurationOfDuration(r);
  }

  /** Contains holds exactly between Start and End; a range whose Start is after its End contains nothing. */
  lemma ContainsBetween(r: FrameRange, f: int)
    ensures r.Contains(f) <==> r.Start.Number <= f <= r.End.Number
    ensures r.ContainsFrame(Frame(if Int32Min <= f <= Int32Max then f else 0)) ==> r.Start.Number <= r.End.Number
    ensures r.Start.Number > r.End.Number ==> !r.Contains(f)
  {
  }

  /** A range built from a start and a positive duration that does not overflow contains exactly `duration` frames from start. */
  lemma {:induction false} FromDurationContains(start: Frame, duration: FrameSpan, f: int)
    requires duration.Frames >= 1 && start.Number + duration.Frames - 1 <= Int32Max
    ensures FromDuration(start, duration).Contains(f) <==> start.Number <= f < start.Number + duration.Frames
  {
    Wrap32Identity(duration.Frames - 1);
    Wrap32Identity(start.Number + (duration.Frames - 1));
  }

  /** FrameRange.Compare: the tuple (Start, End) compared lexicographically by frame number. */
  function Compare(left: FrameRange, right: FrameRange): (c: int)
    ensures c == -1 || c == 0 || c == 1
  {
    var first := CompareInt(left.Start.Number, right.Start.Number);
    if first != 0 then first else CompareInt(left.End.Number, right.End.Number)
  }

  /** The relational operators on FrameRange. */
  predicate RangeLess(left: FrameRange, right: FrameRange) { Compare(left, right) < 0 }
  predicate RangeLessEq(left: FrameRange, right: FrameRange) { Compare(left, right) <= 0 }
  predicate RangeGreater(left: FrameRange, right: FrameRange) { Compare(left, right) > 0 }
  predicate RangeGreaterEq(left: FrameRange, right: FrameRange) { Compare(left, right) >= 0 }

  /** Compare is the lexicographic order on (Start, End): antisymmetric, zero only on equal ranges. */
  lemma CompareLexicographic(left: FrameRange, right: FrameRange)
    ensures Compare(left, right) < 0 <==>
      left.Start.Number < right.Start.Number ||
      (left.Start.Number == right.Start.Number && left.End.Number < right.End.Number)
    ensures Compare(left, right) == 0 <==> left == right
    ensures Compare(left, right) == -Compare(right, left)
    ensures RangeLess(left, right) <==> RangeGreater(right, left)
    ensures RangeLessEq(left, right) <==> !RangeGreater(left, right)
    ensures RangeGreaterEq(left, right) <==> !RangeLess(left, right)
  {
  }

  /** The order is transitive. */
  lemma CompareTransitive(a: FrameRange, b: FrameRange, c: FrameRange)
    requires RangeLessEq(a, b) && RangeLessEq(b, c)
    ensures RangeLessEq(a, c)
  {
  }
}
