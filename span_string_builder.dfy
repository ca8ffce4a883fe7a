/**
 * SpanStringBuilder: writes text into a fixed char buffer through an offset
 * shared with the caller. A write succeeds only when its whole text fits in
 * what is left of the buffer; a write that does not fit changes nothing.
 * Number and enum formatting is abstracted to the text TryFormat would
 * produce, and TryFormat succeeds exactly when that text fits.
 */
module SpanStringBuilders {
  import opened Wrappers
  import opened Spans

  /** A buffer and the offset into it: the state SpanStringBuilder works on. */
  datatype Text = Text(buffer: seq<char>, offset: nat)
  {
    /** The length of CurrentBuffer: empty once the offset reaches the end. */
    function Free(): nat
    {
      if offset >= |buffer| then 0 else |buffer| - offset
    }

    /** WrittenSpan, as ToString returns it; slicing past the end raises. */
    function Written(): (r: Result<seq<char>>)
      ensures r.Ok? <==> offset <= |buffer|
      ensures r.Ok? ==> |r.value| == offset
    {
      if offset <= |buffer| then Ok(buffer[..offset]) else Err(ArgumentOutOfRange)
    }

    /** Write(value): TryCopyTo into CurrentBuffer, then the offset moves past the value. */
    function Write(value: seq<char>): (r: (bool, Text))
      ensures r.0 <==> |value| <= Free()
      ensures !r.0 ==> r.1 == this
      ensures |r.1.buffer| == |buffer|
      ensures r.0 ==> r.1.offset == offset + |value|
      ensures r.0 && |value| > 0 ==> (
        r.1.offset <= |buffer| &&
        r.1.buffer[..offset] == buffer[..offset] &&
        r.1.buffer[offset..r.1.offset] == value &&
        r.1.buffer[r.1.offset..] == buffer[r.1.offset..])
    {
      if |value| == 0 then (true, this)
      else if |value| <= Free() then (true, Text(Splice(buffer, offset, value), offset + |value|))
      else (false, this)
    }
  }

  /** Clear: the written prefix [0, n) set to the default char, the rest kept. */
  function Zeroed(s: seq<char>, n: nat): (r: seq<char>)
    requires n <= |s|
    ensures |r| == |s|
    ensures forall k :: 0 <= k < n ==> r[k] == '\0'
    ensures r[n..] == s[n..]
  {
    seq(n, _ => '\0') + s[n..]
  }

  /** A successful write extends the written text by exactly the value. */
  lemma WriteAppends(t: Text, value: seq<char>)
    requires t.offset <= |t.buffer| && t.Write(value).0
    ensures t.Write(value).1.Written() == Ok(t.buffer[..t.offset] + value)
  {
    var next := t.Write(value).1;
    if |value| > 0 {
      assert next.buffer[..next.offset] == next.buffer[..t.offset] + next.buffer[t.offset..next.offset];
    } else {
      assert value == [] && next == t;
      assert t.buffer[..t.offset] + value == t.buffer[..t.offset];
    }
  }

  /** Writing with no space left fails for every non-empty value and succeeds, writing nothing, for the empty one. */
  lemma WriteWhenFull(t: Text, value: seq<char>)
    requires t.offset >= |t.buffer|
    ensures t.Write(value).0 <==> |value| == 0
    ensures t.Write(value).1 == t
  {
  }

  /** All the appends of an interpolated string, joined. */
  function Concat(parts: seq<seq<char>>): seq<char>
    decreases |parts|
  {
    if |parts| == 0 then [] else parts[0] + Concat(parts[1..])
  }

  /**
   * What the interpolated string handler does to the builder: the parts are
   * written in order while every write succeeds, and after the first failure
   * nothing more is written.
   */
  function Interpolate(t: Text, parts: seq<seq<char>>): (r: (bool, Text))
    decreases |parts|
  {
    if |parts| == 0 then (true, t)
    else
      var w := t.Write(parts[0]);
      if !w.0 then (false, t) else Interpolate(w.1, parts[1..])
  }

  /** Two writes in a row are one write of both runs. */
  lemma SpliceTwice(s: seq<char>, start: nat, a: seq<char>, b: seq<char>)
    requires start + |a| + |b| <= |s|
    ensures Splice(Splice(s, start, a), start + |a|, b) == Splice(s, start, a + b)
  {
    var l := Splice(Splice(s, start, a), start + |a|, b);
    var r := Splice(s, start, a + b);
    forall k | 0 <= k < |s|
      ensures l[k] == r[k]
    {
      SpliceAt(Splice(s, start, a), start + |a|, b, k);
      SpliceAt(s, start, a, k);
      SpliceAt(s, start, a + b, k);
    }
  }

  /**
   * The handler succeeds exactly when the joined parts fit after the offset
   * (or are empty), and then the buffer holds them right after the offset and
   * the offset has moved past them.
   */
  lemma {:induction false} InterpolateFits(t: Text, parts: seq<seq<char>>)
    ensures Interpolate(t, parts).0 <==> (|Concat(parts)| == 0 || t.offset + |Concat(parts)| <= |t.buffer|)
    ensures |Interpolate(t, parts).1.buffer| == |t.buffer|
    ensures Interpolate(t, parts).0 ==> Interpolate(t, parts).1.offset == t.offset + |Concat(parts)|
    ensures Interpolate(t, parts).0 && t.offset + |Concat(parts)| <= |t.buffer| ==>
      Interpolate(t, parts).1.buffer == Splice(t.buffer, t.offset, Concat(parts))
    decreases |parts|
  {
    if |parts| > 0 {
      var v := parts[0];
      var w := t.Write(v);
      InterpolateFits(w.1, parts[1..]);
      if w.0 && |v| > 0 {
        assert w.1.buffer == Splice(t.buffer, t.offset, v);
        if t.offset + |Concat(parts)| <= |t.buffer| {
          SpliceTwice(t.buffer, t.offset, v, Concat(parts[1..]));
        }
      } else if w.0 {
        assert v == [] && Concat(parts) == Concat(parts[1..]);
      }
    } else {
      assert t.offset <= |t.buffer| ==> Splice(t.buffer, t.offset, []) == t.buffer;
    }
  }

  /** The success flag is sticky: once a prefix of the parts fails, the rest changes nothing. */
  lemma {:induction false} InterpolateSticky(t: Text, parts: seq<seq<char>>, more: seq<seq<char>>)
    ensures Interpolate(t, parts + more) ==
      if Interpolate(t, parts).0 then Interpolate(Interpolate(t, parts).1, more) else Interpolate(t, parts)
    decreases |parts|
  {
    if |parts| > 0 {
      assert (parts + more)[0] == parts[0] && (parts + more)[1..] == parts[1..] + more;
      var w := t.Write(parts[0]);
      if w.0 {
        InterpolateSticky(w.1, parts[1..], more);
      }
    } else {
      assert parts + more == more;
    }
  }

  /**
   * One more append continues the interpolation: the handler's flag and the
   * builder's state after each call are Interpolate of the parts so far.
   */
  lemma InterpolateStep(t: Text, parts: seq<seq<char>>, p: seq<char>)
    ensures Interpolate(t, parts + [p]) ==
      if Interpolate(t, parts).0 then Interpolate(t, parts).1.Write(p) else (false, Interpolate(t, parts).1)
  {
    InterpolateSticky(t, parts, [p]);
    assert [p][1..] == [];
  }

  /** The builder over an array and a shared offset. Negative offsets are not modelled. */
  class SpanStringBuilder {
    const buffer: array<char>
    var offset: nat

    constructor (destination: array<char>, writtenCount: nat)
      ensures buffer == destination && offset == writtenCount
    {
      buffer := destination;
      offset := writtenCount;
    }

    function State(): Text
      reads this, buffer
    {
      Text(buffer[..], offset)
    }

    /** ToString: the written prefix, or an exception once the offset is past the end. */
    method ToString() returns (r: Result<seq<char>>)
      ensures r.Ok? <==> offset <= buffer.Length
      ensures r.Ok? ==> r.value == buffer[..offset]
    {
      if offset <= buffer.Length {
        r := Ok(buffer[..offset]);
      } else {
        r := Err(ArgumentOutOfRange);
      }
    }

    /** Reset: back to the start; the contents stay. */
    method Reset()
      modifies this`offset
      ensures offset == 0
    {
      offset := 0;
    }

    /** Clear: the written prefix is zeroed, then the offset is reset; slicing past the end raises first. */
    method Clear() returns (r: Result<()>)
      modifies this`offset, buffer
      ensures r.Ok? <==> old(offset) <= buffer.Length
      ensures r.Ok? ==> buffer[..] == Zeroed(old(buffer[..]), old(offset)) && offset == 0
      ensures r.Err? ==> buffer[..] == old(buffer[..]) && offset == old(offset)
    {
      if offset > buffer.Length {
        return Err(ArgumentOutOfRange);
      }
      var i := 0;
      while i < offset
        invariant 0 <= i <= offset <= buffer.Length
        invariant offset == old(offset)
        invariant forall k :: 0 <= k < i ==> buffer[k] == '\0'
        invariant forall k :: i <= k < buffer.Length ==> buffer[k] == old(buffer[k])
      {
        buffer[i] := '\0';
        i := i + 1;
      }
      assert buffer[..] == Zeroed(old(buffer[..]), old(offset));
      Reset();
      r := Ok(());
    }

    /** Write(value): the whole value, or nothing. */
    method Write(value: seq<char>) returns (ok: bool)
      modifies this`offset, buffer
      ensures (ok, State()) == old(State()).Write(value)
    {
      if |value| > 0 && offset >= buffer.Length {
        return false;
      }
      if |value| > 0 && |value| > buffer.Length - offset {
        return false;
      }
      if |value| > 0 {
        CopyTo(buffer, offset, value);
        offset := offset + |value|;
      }
      ok := true;
    }

    /**
     * Write<T>(value, format) and Write<T>(value): TryFormat into the current
     * buffer, given here as the text it produces, succeeds exactly when that
     * text fits, and the offset moves by the count it reports.
     */
    method WriteFormatted(text: seq<char>) returns (ok: bool)
      modifies this`offset, buffer
      ensures (ok, State()) == old(State()).Write(text)
    {
      ok := Write(text);
    }

    /** WriteEnum(value, format): Enum.TryFormat, given as the enum's text. */
    method WriteEnum(name: seq<char>) returns (ok: bool)
      modifies this`offset, buffer
      ensures (ok, State()) == old(State()).Write(name)
    {
      ok := Write(name);
    }
  }

  /** The handler the compiler builds for an interpolated string passed to Append. */
  class InterpolatedStringHandler {
    const builder: SpanStringBuilder
    var succeeded: bool

    constructor (builder: SpanStringBuilder)
      ensures this.builder == builder && succeeded
    {
      this.builder := builder;
      succeeded := true;
    }

    /** AppendLiteral: writes only while every earlier append has succeeded. */
    method AppendLiteral(value: seq<char>)
      modifies this`succeeded, builder`offset, builder.buffer
      ensures (succeeded, builder.State()) ==
        if old(succeeded) then old(builder.State()).Write(value) else (false, old(builder.State()))
    {
      if succeeded {
        succeeded := builder.Write(value);
      }
    }

    /** AppendFormatted, with or without a format: the formatted text, likewise. */
    method AppendFormatted(text: seq<char>)
      modifies this`succeeded, builder`offset, builder.buffer
      ensures (succeeded, builder.State()) ==
        if old(succeeded) then old(builder.State()).Write(text) else (false, old(builder.State()))
    {
      if succeeded {
        succeeded := builder.WriteFormatted(text);
      }
    }
  }

  /** Append(handler): the handler's final success flag. */
  method Append(handler: InterpolatedStringHandler) returns (r: bool)
    ensures r == handler.succeeded
  {
    r := handler.succeeded;
  }
}
