/**
 * Utf8StringBuilder and Utf8ObjectStringWriter: text written into a fixed
 * byte buffer through an offset the caller shares. Text is ASCII here, one
 * byte per character. Formatting a number or an enum value is a foreign call:
 * what the model keeps is the text it produces, passed in as a parameter, and
 * the rule that a TryFormat succeeds exactly when that text fits.
 */
module Utf8Builders {
  import opened Integers
  import opened Spans

  predicate IsAscii(s: seq<char>)
  {
    forall i :: 0 <= i < |s| ==> s[i] as int < 128
  }

  /** UTF-8 of ASCII text: one byte per character, its code. */
  function Ascii(s: seq<char>): (r: seq<byte>)
    requires IsAscii(s)
    ensures |r| == |s|
  {
    seq(|s|, i requires 0 <= i < |s| => s[i] as int)
  }

  lemma AsciiPrefix(s: seq<char>, n: nat)
    requires IsAscii(s) && n <= |s|
    ensures IsAscii(s[..n]) && Ascii(s[..n]) == Ascii(s)[..n]
  {
  }

  function Min(a: nat, b: nat): nat
  {
    if a <= b then a else b
  }

  /** The UTF-8 literals the writers use: "{", "}", ", " and ": ". */
  const OpenBrace: seq<byte> := [123]
  const CloseBrace: seq<byte> := [125]
  const Separator: seq<byte> := [44, 32]
  const NameSeparator: seq<byte> := [58, 32]

  /** The stack buffer WriteFormat and WriteEnum format into. */
  const MaxLocalStringSize: nat := 24

  /** The argument of one Write call of Utf8StringBuilder. */
  datatype Piece =
    | Bytes(bytes: seq<byte>)     // Write(ReadOnlySpan<byte>)
    | Chars(chars: seq<char>)     // Write(ReadOnlySpan<char>)
    | Formatted(utf8: seq<byte>)  // Write<T>(value, format): the UTF-8 text value.TryFormat produces
    | Format(text: seq<char>)     // WriteFormat / WriteEnum: the text value.TryFormat produces
  {
    predicate Valid()
    {
      (Chars? ==> IsAscii(chars)) && (Format? ==> IsAscii(text))
    }

    /** The bytes the piece stands for. */
    function Image(): seq<byte>
      requires Valid()
    {
      match this
      case Bytes(b) => b
      case Chars(c) => Ascii(c)
      case Formatted(u) => u
      case Format(t) => Ascii(t)
    }
  }

  /** A buffer and the shared offset into it. */
  datatype Builder = Builder(buffer: seq<byte>, offset: nat)
  {
    /** The length of CurrentBuffer, which is empty once the offset reaches the end. */
    function Free(): nat
    {
      if offset >= |buffer| then 0 else |buffer| - offset
    }

    /** The text written so far: the buffer before the offset (all of it once the offset has passed the end). */
    function Text(): seq<byte>
    {
      if offset <= |buffer| then buffer[..offset] else buffer
    }

    /** Copy bytes at the offset, then move the offset by advance. */
    function Put(bytes: seq<byte>, advance: nat): Builder
      requires 0 < Free() && |bytes| <= Free()
    {
      Builder(Splice(buffer, offset, bytes), offset + advance)
    }

    /** ASCII characters copied as far as they fit; the offset moves by what was copied. */
    function PutChars(value: seq<char>): Builder
      requires 0 < Free() && IsAscii(value)
    {
      var n := Min(|value|, Free());
      AsciiPrefix(value, n);
      Put(Ascii(value[..n]), n)
    }

    /** One Write call: whether it returns true, and the buffer and offset after it. */
    function Write(p: Piece): (r: (bool, Builder))
      requires p.Valid()
      ensures Free() == 0 ==> r == (false, this)
      ensures !r.0 ==> r.1 == this
      ensures |r.1.buffer| == |buffer| && r.1.offset >= offset
    {
      if Free() == 0 then (false, this)
      else match p
        case Bytes(value) => (true, Put(value[..Min(|value|, Free())], |value|))
        case Chars(value) => (true, PutChars(value))
        case Formatted(utf8) => if |utf8| <= Free() then (true, Put(utf8, |utf8|)) else (false, this)
        case Format(text) => if |text| <= MaxLocalStringSize then (true, PutChars(text)) else (false, this)
    }
  }

  lemma SplicePrefix(s: seq<byte>, start: nat, bytes: seq<byte>)
    requires start + |bytes| <= |s|
    ensures Splice(s, start, bytes)[..start + |bytes|] == s[..start] + bytes
  {
    var r := Splice(s, start, bytes);
    assert r[..start + |bytes|] == r[..start] + r[start..start + |bytes|];
  }

  /** Every write keeps what was written before it. */
  lemma WriteKeepsText(b: Builder, p: Piece)
    requires p.Valid()
    ensures b.Text() <= b.Write(p).1.Text()
  {
    var r := b.Write(p).1;
    if b.Free() > 0 && r != b {
      assert r.buffer[..b.offset] == b.buffer[..b.offset];
    }
  }

  /** A piece that fits is appended whole, and the offset moves by its length. */
  lemma WriteFits(b: Builder, p: Piece)
    requires p.Valid() && 0 < b.Free() && |p.Image()| <= b.Free()
    requires p.Format? ==> |p.text| <= MaxLocalStringSize
    ensures b.Write(p).0
    ensures b.Write(p).1.Text() == b.Text() + p.Image()
    ensures b.Write(p).1.offset == b.offset + |p.Image()|
  {
    var img := p.Image();
    match p
    case Bytes(value) =>
      assert value[..Min(|value|, b.Free())] == img;
    case Chars(value) =>
      assert value[..Min(|value|, b.Free())] == value;
    case Formatted(utf8) =>
    case Format(text) =>
      assert text[..Min(|text|, b.Free())] == text;
    SplicePrefix(b.buffer, b.offset, img);
  }

  /**
   * A piece longer than the free space. Formatted text is refused and nothing
   * changes. Bytes and characters are cut to what fits and the write reports
   * success; the buffer is then full. Bytes move the offset by their whole
   * length, past the end; characters move it to the end.
   */
  lemma WriteOverflows(b: Builder, p: Piece)
    requires p.Valid() && 0 < b.Free() < |p.Image()|
    ensures p.Formatted? ==> b.Write(p) == (false, b)
    ensures p.Format? && |p.text| > MaxLocalStringSize ==> b.Write(p) == (false, b)
    ensures p.Bytes? || p.Chars? || (p.Format? && |p.text| <= MaxLocalStringSize) ==>
      b.Write(p).0 && b.Write(p).1.Free() == 0 &&
      b.Write(p).1.Text() == b.Text() + p.Image()[..b.Free()]
    ensures p.Bytes? ==> b.Write(p).1.offset == b.offset + |p.bytes| > |b.buffer|
    ensures p.Chars? ==> b.Write(p).1.offset == |b.buffer|
  {
    var n := b.Free();
    match p
    case Bytes(value) =>
      SplicePrefix(b.buffer, b.offset, value[..n]);
    case Chars(value) =>
      AsciiPrefix(value, n);
      SplicePrefix(b.buffer, b.offset, Ascii(value[..n]));
    case Formatted(_) =>
    case Format(text) =>
      if |text| <= MaxLocalStringSize {
        AsciiPrefix(text, n);
        SplicePrefix(b.buffer, b.offset, Ascii(text[..n]));
      }
  }

  predicate AllValid(ps: seq<Piece>)
    decreases |ps|
  {
    |ps| == 0 || (ps[0].Valid() && AllValid(ps[1..]))
  }

  /** Write calls joined by &&: the first one that returns false ends the chain. */
  function Chain(b: Builder, ps: seq<Piece>): (r: (bool, Builder))
    requires AllValid(ps)
    decreases |ps|
  {
    if |ps| == 0 then (true, b)
    else
      var first := b.Write(ps[0]);
      if !first.0 then first else Chain(first.1, ps[1..])
  }

  lemma ChainStep(b: Builder, ps: seq<Piece>)
    requires AllValid(ps) && |ps| > 0
    ensures Chain(b, ps) == if b.Write(ps[0]).0 then Chain(b.Write(ps[0]).1, ps[1..]) else (false, b)
  {
  }

  function Images(ps: seq<Piece>): (r: seq<byte>)
    requires AllValid(ps)
    decreases |ps|
  {
    if |ps| == 0 then [] else ps[0].Image() + Images(ps[1..])
  }

  /** Each piece in turn finds free space and fits in what is left of it. */
  predicate Fits(offset: nat, length: nat, ps: seq<Piece>)
    requires AllValid(ps)
    decreases |ps|
  {
    |ps| == 0 ||
    (offset < length && offset + |ps[0].Image()| <= length &&
     (ps[0].Format? ==> |ps[0].text| <= MaxLocalStringSize) &&
     Fits(offset + |ps[0].Image()|, length, ps[1..]))
  }

  /** The first piece of a fitting chain is written whole, and the rest still fit after it. */
  lemma FitsStep(b: Builder, ps: seq<Piece>) returns (next: Builder)
    requires AllValid(ps) && |ps| > 0 && Fits(b.offset, |b.buffer|, ps)
    ensures AllValid(ps[1..]) && Chain(b, ps) == Chain(next, ps[1..])
    ensures next.Text() == b.Text() + ps[0].Image()
    ensures next.offset == b.offset + |ps[0].Image()|
    ensures |next.buffer| == |b.buffer|
    ensures Fits(next.offset, |b.buffer|, ps[1..])
    ensures Images(ps) == ps[0].Image() + Images(ps[1..])
  {
    WriteFits(b, ps[0]);
    next := b.Write(ps[0]).1;
  }

  lemma ConcatAssoc(a: seq<byte>, b: seq<byte>, c: seq<byte>)
    ensures (a + b) + c == a + (b + c)
  {
  }

  /** A chain whose pieces fit writes all of them, one after the other. */
  lemma {:induction false} ChainFits(b: Builder, ps: seq<Piece>)
    requires AllValid(ps) && Fits(b.offset, |b.buffer|, ps)
    ensures Chain(b, ps).0
    ensures Chain(b, ps).1.Text() == b.Text() + Images(ps)
    ensures Chain(b, ps).1.offset == b.offset + |Images(ps)|
    ensures |Chain(b, ps).1.buffer| == |b.buffer|
    decreases |ps|
  {
    if |ps| > 0 {
      var next := FitsStep(b, ps);
      ChainFits(next, ps[1..]);
      ConcatAssoc(b.Text(), ps[0].Image(), Images(ps[1..]));
    }
  }

  /** The last piece of a chain is one that a short buffer refuses rather than cuts. */
  predicate EndsWhole(ps: seq<Piece>)
    requires AllValid(ps)
  {
    |ps| > 0 && ps[|ps| - 1].Valid() && (ps[|ps| - 1].Formatted? || |ps[|ps| - 1].Image()| <= 1)
  }

  /** Conversely, a chain ending whole that returns true had room for every piece: nothing was cut. */
  lemma {:induction false} ChainSucceedsOnlyWhole(b: Builder, ps: seq<Piece>)
    requires AllValid(ps) && EndsWhole(ps) && Chain(b, ps).0
    ensures Fits(b.offset, |b.buffer|, ps)
    decreases |ps|
  {
    var p := ps[0];
    var next := b.Write(p).1;
    if |p.Image()| > b.Free() {
      WriteOverflows(b, p);
      assert false;
    } else {
      if p.Format? && |p.text| > MaxLocalStringSize {
      } else {
        WriteFits(b, p);
      }
      if |ps| > 1 {
        var rest := ps[1..];
        assert rest[|rest| - 1] == ps[|ps| - 1];
        ChainSucceedsOnlyWhole(next, rest);
      }
    }
  }

  /** A Utf8StringBuilder over a caller's buffer and offset. */
  class Utf8StringBuilder {
    const buffer: array<byte>
    var offset: nat

    constructor (buffer: array<byte>, offset: nat)
      ensures this.buffer == buffer && this.offset == offset
    {
      this.buffer := buffer;
      this.offset := offset;
    }

    function State(): Builder
      reads this, buffer
    {
      Builder(buffer[..], offset)
    }

    /** The piece's bytes at the offset, the offset moved by advance. */
    method Put(bytes: seq<byte>, advance: nat)
      requires 0 < State().Free() && |bytes| <= State().Free()
      modifies buffer, this`offset
      ensures State() == old(State()).Put(bytes, advance)
    {
      CopyTo(buffer, offset, bytes);
      offset := offset + advance;
    }

    /** Write(ReadOnlySpan<byte>): copies what fits and moves the offset by the whole value. */
    method WriteBytes(value: seq<byte>) returns (ok: bool)
      modifies buffer, this`offset
      ensures (ok, State()) == old(State()).Write(Bytes(value))
    {
      if offset >= buffer.Length {
        return false;
      }
      var bytes := if |value| <= buffer.Length - offset then value else value[..buffer.Length - offset];
      assert bytes == value[..Min(|value|, State().Free())];
      Put(bytes, |value|);
      ok := true;
    }

    /** Write(ReadOnlySpan<char>): copies the characters that fit and moves the offset by the bytes written. */
    method WriteChars(value: seq<char>) returns (ok: bool)
      requires IsAscii(value)
      modifies buffer, this`offset
      ensures (ok, State()) == old(State()).Write(Chars(value))
    {
      if offset >= buffer.Length {
        return false;
      }
      var size := |value|;
      var chars := if size <= buffer.Length - offset then value else value[..buffer.Length - offset];
      assert chars == value[..Min(|value|, State().Free())];
      Put(Ascii(chars), |chars|);
      ok := true;
    }

    /** Write<T>(value, format): value formats to utf8, which TryFormat writes only when it fits. */
    method WriteFormatted(utf8: seq<byte>) returns (ok: bool)
      modifies buffer, this`offset
      ensures (ok, State()) == old(State()).Write(Formatted(utf8))
    {
      if offset >= buffer.Length {
        return false;
      }
      if |utf8| > buffer.Length - offset {
        return false;
      }
      Put(utf8, |utf8|);
      ok := true;
    }

    /** WriteFormat<T>: value formats to text in a 24-character stack buffer, then goes through WriteChars. */
    method WriteFormat(text: seq<char>) returns (ok: bool)
      requires IsAscii(text)
      modifies buffer, this`offset
      ensures (ok, State()) == old(State()).Write(Format(text))
    {
      if offset >= buffer.Length {
        return false;
      }
      if |text| > MaxLocalStringSize {
        return false;
      }
      ok := WriteChars(text);
    }

    /** WriteEnum<T>: as WriteFormat, with the enum member's name as the text. */
    method WriteEnum(name: seq<char>) returns (ok: bool)
      requires IsAscii(name)
      modifies buffer, this`offset
      ensures (ok, State()) == old(State()).Write(Format(name))
    {
      ok := WriteFormat(name);
    }
  }

  /** The pieces of one object field: ", " unless it is the first field, the name, ": ", the value. */
  function FieldPieces(separate: bool, name: seq<char>, utf8: seq<byte>): (ps: seq<Piece>)
    requires IsAscii(name)
    ensures AllValid(ps) && EndsWhole(ps)
  {
    var tail := [Chars(name), Bytes(NameSeparator), Formatted(utf8)];
    assert AllValid(tail) by {
      assert tail[1..][1..][1..] == [];
      assert AllValid(tail[1..][1..]);
      assert AllValid(tail[1..]);
    }
    if separate then
      assert ([Bytes(Separator)] + tail)[1..] == tail;
      [Bytes(Separator)] + tail
    else tail
  }

  /** Utf8ObjectStringWriter: "{" on construction, name: value fields, "}" on Dispose. */
  class Utf8ObjectStringWriter {
    const writer: Utf8StringBuilder
    const firstOffset: nat

    constructor (buffer: array<byte>, offset: nat)
      modifies buffer
      ensures writer.buffer == buffer && fresh(writer)
      ensures writer.State() == Builder(old(buffer[..]), offset).Write(Bytes(OpenBrace)).1
      ensures firstOffset == writer.offset
    {
      var w := new Utf8StringBuilder(buffer, offset);
      var _ := w.WriteBytes(OpenBrace);
      writer := w;
      firstOffset := w.offset;
    }

    /** Write<T>(value, format, name): the separator is written only once the offset has moved past "{". */
    method Write(name: seq<char>, utf8: seq<byte>) returns (ok: bool)
      requires IsAscii(name)
      modifies writer.buffer, writer`offset
      ensures (ok, writer.State()) == Chain(old(writer.State()), FieldPieces(firstOffset != old(writer.offset), name, utf8))
    {
      ghost var ps := FieldPieces(firstOffset != writer.offset, name, utf8);
      ghost var rest := ps;
      if firstOffset != writer.offset {
        ChainStep(writer.State(), rest);
        var separated := writer.WriteBytes(Separator);
        if !separated {
          return false;
        }
        rest := rest[1..];
      }
      assert rest == [Chars(name), Bytes(NameSeparator), Formatted(utf8)];
      ChainStep(writer.State(), rest);
      var named := writer.WriteChars(name);
      if !named {
        return false;
      }
      rest := rest[1..];
      ChainStep(writer.State(), rest);
      var colon := writer.WriteBytes(NameSeparator);
      if !colon {
        return false;
      }
      rest := rest[1..];
      ChainStep(writer.State(), rest);
      assert rest[1..] == [];
      ok := writer.WriteFormatted(utf8);
    }

    /** Dispose writes "}" and ignores whether it fitted. */
    method Dispose()
      modifies writer.buffer, writer`offset
      ensures writer.State() == old(writer.State()).Write(Bytes(CloseBrace)).1
    {
      var _ := writer.WriteBytes(CloseBrace);
    }
  }

  /** One named, formatted field of an object. */
  datatype Field = Field(name: seq<char>, utf8: seq<byte>)

  predicate FieldsAscii(fields: seq<Field>)
  {
    forall i :: 0 <= i < |fields| ==> IsAscii(fields[i].name)
  }

  /** Field writes joined by &&; each is separated unless the offset is still at firstOffset. */
  function WriteObjectFields(b: Builder, first: nat, fields: seq<Field>): (r: (bool, Builder))
    requires FieldsAscii(fields)
    decreases |fields|
  {
    if |fields| == 0 then (true, b)
    else
      var f := Chain(b, FieldPieces(b.offset != first, fields[0].name, fields[0].utf8));
      if !f.0 then f else WriteObjectFields(f.1, first, fields[1..])
  }

  /**
   * The TryFormat of the protocol messages: the writer's constructor writes
   * "{", the fields are written joined by &&, and the `using` declaration
   * calls Dispose, which writes "}", after the result has been computed.
   */
  function FormatObject(b: Builder, fields: seq<Field>): (r: (bool, Builder))
    requires FieldsAscii(fields)
  {
    var started := b.Write(Bytes(OpenBrace)).1;
    var body := WriteObjectFields(started, started.offset, fields);
    (body.0, body.1.Write(Bytes(CloseBrace)).1)
  }

  /** The same, also reporting whether the closing "}" was written. */
  function FormatObjectChecked(b: Builder, fields: seq<Field>): (r: (bool, Builder))
    requires FieldsAscii(fields)
  {
    var started := b.Write(Bytes(OpenBrace)).1;
    var body := WriteObjectFields(started, started.offset, fields);
    var closed := body.1.Write(Bytes(CloseBrace));
    (body.0 && closed.0, closed.1)
  }

  /** The text of one field: ", " unless it is the first, the name, ": ", the value. */
  function FieldText(separate: bool, name: seq<char>, utf8: seq<byte>): seq<byte>
    requires IsAscii(name)
  {
    (if separate then Separator else []) + Ascii(name) + NameSeparator + utf8
  }

  /** The fields of an object, as text. */
  function FieldsText(fields: seq<Field>, separate: bool): seq<byte>
    requires FieldsAscii(fields)
    decreases |fields|
  {
    if |fields| == 0 then []
    else FieldText(separate, fields[0].name, fields[0].utf8) + FieldsText(fields[1..], true)
  }

  /** An object as text: "{", the fields joined by ", ", "}". */
  function ObjectText(fields: seq<Field>): seq<byte>
    requires FieldsAscii(fields)
  {
    OpenBrace + FieldsText(fields, false) + CloseBrace
  }

  /**
   * As written, a destination that holds the fields but not the closing brace
   * makes TryFormat report success: a 5-byte buffer and one field named "a"
   * with the value "1" give true and the text "{a: 1".
   */
  lemma FormatObjectDropsBrace()
    ensures FormatObject(Builder([0, 0, 0, 0, 0], 0), [Field("a", [49])]).0
    ensures FormatObject(Builder([0, 0, 0, 0, 0], 0), [Field("a", [49])]).1.Text() == [123, 97, 58, 32, 49]
    ensures |ObjectText([Field("a", [49])])| == 6
  {
    var b := Builder([0, 0, 0, 0, 0], 0);
    var fields := [Field("a", [49])];
    assert b.Write(Bytes(OpenBrace)).1 == Builder([123, 0, 0, 0, 0], 1);
    var body := SampleFields();
    assert body.Write(Bytes(CloseBrace)) == (false, body);
    assert |FieldsText(fields, false)| == 4 by {
      assert fields[1..] == [];
    }
  }

  /** The field "a: 1" after "{" fills the 5-byte buffer. */
  lemma SampleFields() returns (body: Builder)
    ensures WriteObjectFields(Builder([123, 0, 0, 0, 0], 1), 1, [Field("a", [49])]) == (true, body)
    ensures body.Text() == [123, 97, 58, 32, 49] && body.Free() == 0
  {
    var started := Builder([123, 0, 0, 0, 0], 1);
    var fields := [Field("a", [49])];
    var ps := FieldPieces(false, "a", [49]);
    assert Ascii("a") == [97];
    FieldPiecesImages(false, "a", [49]);
    assert Images(ps) == [97, 58, 32, 49];
    PlainFieldPieces(false, "a", [49]);
    FitsByLength(1, 5, ps);
    ChainFits(started, ps);
    WriteObjectFieldsIsChain(started, 1, fields);
    assert FieldsPieces(fields, false) == ps + [];
    ChainAppend(started, ps, []);
    body := Chain(started, ps).1;
  }

  /** With the check, TryFormat succeeds exactly when the whole object fits, and then writes exactly its text. */
  lemma FormatObjectCheckedSpec(b: Builder, fields: seq<Field>)
    requires FieldsAscii(fields)
    ensures FormatObjectChecked(b, fields).0 <==> b.offset + |ObjectText(fields)| <= |b.buffer|
    ensures FormatObjectChecked(b, fields).0 ==> FormatObjectChecked(b, fields).1.Text() == b.Text() + ObjectText(fields)
  {
    FormatObjectIsChain(b, fields);
    ObjectPiecesImages(fields);
    ChainExact(b, ObjectPieces(fields));
  }

  /**
   * A chain of plain pieces that ends in a non-empty whole piece succeeds
   * exactly when all of its text fits after the offset, and then writes
   * exactly that text.
   */
  lemma ChainExact(b: Builder, ps: seq<Piece>)
    requires AllValid(ps) && Plain(ps) && EndsWhole(ps) && |ps[|ps| - 1].Image()| > 0
    ensures Chain(b, ps).0 <==> b.offset + |Images(ps)| <= |b.buffer|
    ensures Chain(b, ps).0 ==> Chain(b, ps).1.Text() == b.Text() + Images(ps)
    ensures Chain(b, ps).0 ==> Chain(b, ps).1.offset == b.offset + |Images(ps)|
  {
    FitsByLength(b.offset, |b.buffer|, ps);
    if Chain(b, ps).0 {
      ChainSucceedsOnlyWhole(b, ps);
      ChainFits(b, ps);
    } else if b.offset + |Images(ps)| <= |b.buffer| {
      ChainFits(b, ps);
    }
  }

  /** The pieces of an object's fields, each field separated from the one before. */
  function FieldsPieces(fields: seq<Field>, separate: bool): (ps: seq<Piece>)
    requires FieldsAscii(fields)
    ensures AllValid(ps) && Plain(ps)
    decreases |fields|
  {
    if |fields| == 0 then []
    else
      var head := FieldPieces(separate, fields[0].name, fields[0].utf8);
      var tail := FieldsPieces(fields[1..], true);
      PlainFieldPieces(separate, fields[0].name, fields[0].utf8);
      AppendValid(head, tail);
      head + tail
  }

  /** All the pieces of an object: "{", the fields, "}". */
  function ObjectPieces(fields: seq<Field>): (ps: seq<Piece>)
    requires FieldsAscii(fields)
    ensures AllValid(ps) && Plain(ps) && EndsWhole(ps) && |ps[|ps| - 1].Image()| > 0
  {
    var inner := FieldsPieces(fields, false);
    assert Plain([Bytes(OpenBrace)]) && Plain([Bytes(CloseBrace)]) by {
      assert [Bytes(OpenBrace)][1..] == [] && [Bytes(CloseBrace)][1..] == [];
    }
    AppendValid([Bytes(OpenBrace)], inner);
    AppendValid([Bytes(OpenBrace)] + inner, [Bytes(CloseBrace)]);
    [Bytes(OpenBrace)] + inner + [Bytes(CloseBrace)]
  }

  /** No piece goes through the 24-character stack buffer. */
  predicate Plain(ps: seq<Piece>)
    decreases |ps|
  {
    |ps| == 0 || (!ps[0].Format? && Plain(ps[1..]))
  }

  lemma PlainFieldPieces(separate: bool, name: seq<char>, utf8: seq<byte>)
    requires IsAscii(name)
    ensures Plain(FieldPieces(separate, name, utf8))
  {
    var ps := FieldPieces(separate, name, utf8);
    var tail := [Chars(name), Bytes(NameSeparator), Formatted(utf8)];
    assert Plain(tail) by {
      assert tail[1..][1..][1..] == [];
      assert Plain(tail[1..][1..]);
      assert Plain(tail[1..]);
    }
    if separate {
      assert ps[1..] == tail;
    }
  }

  lemma {:induction false} AppendValid(ps: seq<Piece>, qs: seq<Piece>)
    requires AllValid(ps) && AllValid(qs)
    ensures AllValid(ps + qs) && (Plain(ps) && Plain(qs) ==> Plain(ps + qs))
    decreases |ps|
  {
    if |ps| > 0 {
      assert (ps + qs)[1..] == ps[1..] + qs;
      AppendValid(ps[1..], qs);
    } else {
      assert ps + qs == qs;
    }
  }

  lemma {:induction false} ChainAppend(b: Builder, ps: seq<Piece>, qs: seq<Piece>)
    requires AllValid(ps) && AllValid(qs)
    ensures AllValid(ps + qs)
    ensures Chain(b, ps + qs) == if Chain(b, ps).0 then Chain(Chain(b, ps).1, qs) else Chain(b, ps)
    decreases |ps|
  {
    AppendValid(ps, qs);
    if |ps| > 0 {
      assert (ps + qs)[1..] == ps[1..] + qs;
      assert (ps + qs)[0] == ps[0];
      ChainStep(b, ps + qs);
      ChainStep(b, ps);
      var first := b.Write(ps[0]);
      if first.0 {
        ChainAppend(first.1, ps[1..], qs);
      }
    } else {
      assert ps + qs == qs;
    }
  }

  lemma {:induction false} ImagesAppend(ps: seq<Piece>, qs: seq<Piece>)
    requires AllValid(ps) && AllValid(qs)
    ensures AllValid(ps + qs) && Images(ps + qs) == Images(ps) + Images(qs)
    decreases |ps|
  {
    AppendValid(ps, qs);
    if |ps| > 0 {
      assert (ps + qs)[1..] == ps[1..] + qs;
      assert (ps + qs)[0] == ps[0];
      ImagesAppend(ps[1..], qs);
      ConcatAssoc(ps[0].Image(), Images(ps[1..]), Images(qs));
    } else {
      assert ps + qs == qs;
    }
  }

  /** A field that is written moves the offset at least past ": ". */
  lemma FieldAdvances(b: Builder, separate: bool, name: seq<char>, utf8: seq<byte>)
    requires IsAscii(name)
    ensures Chain(b, FieldPieces(separate, name, utf8)).0 ==>
      Chain(b, FieldPieces(separate, name, utf8)).1.offset >= b.offset + 2
  {
    var ps := FieldPieces(separate, name, utf8);
    var tail := [Chars(name), Bytes(NameSeparator), Formatted(utf8)];
    var start := b;
    if separate {
      assert ps[0] == Bytes(Separator) && ps[1..] == tail;
      ChainStep(b, ps);
      start := b.Write(ps[0]).1;
    } else {
      assert ps == tail;
    }
    assert Chain(b, ps).0 ==> Chain(b, ps) == Chain(start, tail);
    ChainStep(start, tail);
    var s1 := start.Write(tail[0]).1;
    assert tail[1..][0] == Bytes(NameSeparator);
    ChainStep(s1, tail[1..]);
    var s2 := s1.Write(Bytes(NameSeparator)).1;
    assert tail[1..][1..] == [Formatted(utf8)];
    ChainStep(s2, tail[1..][1..]);
  }

  /** The fields' writes are one chain of pieces: the separator test only ever skips the first field's. */
  lemma {:induction false} WriteObjectFieldsIsChain(b: Builder, first: nat, fields: seq<Field>)
    requires FieldsAscii(fields) && b.offset >= first
    ensures WriteObjectFields(b, first, fields) == Chain(b, FieldsPieces(fields, b.offset != first))
    decreases |fields|
  {
    if |fields| > 0 {
      var sep := b.offset != first;
      var head := FieldPieces(sep, fields[0].name, fields[0].utf8);
      var tail := FieldsPieces(fields[1..], true);
      PlainFieldPieces(sep, fields[0].name, fields[0].utf8);
      ChainAppend(b, head, tail);
      var f := Chain(b, head);
      if f.0 {
        FieldAdvances(b, sep, fields[0].name, fields[0].utf8);
        WriteObjectFieldsIsChain(f.1, first, fields[1..]);
      }
    }
  }

  lemma FormatObjectIsChain(b: Builder, fields: seq<Field>)
    requires FieldsAscii(fields)
    ensures FormatObjectChecked(b, fields).0 == Chain(b, ObjectPieces(fields)).0
    ensures FormatObjectChecked(b, fields).0 ==> FormatObjectChecked(b, fields).1 == Chain(b, ObjectPieces(fields)).1
  {
    var inner := FieldsPieces(fields, false);
    var open, close := [Bytes(OpenBrace)], [Bytes(CloseBrace)];
    assert AllValid(open) && AllValid(close);
    ChainAppend(b, open, inner);
    ChainAppend(b, open + inner, close);
    ChainStep(b, open);
    var started := b.Write(Bytes(OpenBrace));
    WriteObjectFieldsIsChain(started.1, started.1.offset, fields);
    if started.0 {
      assert Chain(b, open) == Chain(started.1, []);
      var body := Chain(started.1, inner);
      if body.0 {
        ChainStep(body.1, close);
      }
    } else {
      if |fields| > 0 {
        ChainStep(b, inner);
      }
      ChainStep(WriteObjectFields(b, b.offset, fields).1, close);
    }
  }

  /** The object's pieces stand for its text. */
  lemma ObjectPiecesImages(fields: seq<Field>)
    requires FieldsAscii(fields)
    ensures Images(ObjectPieces(fields)) == ObjectText(fields)
  {
    var inner := FieldsPieces(fields, false);
    var open, close := [Bytes(OpenBrace)], [Bytes(CloseBrace)];
    assert Images(open) == OpenBrace && Images(close) == CloseBrace;
    ImagesAppend(open, inner);
    ImagesAppend(open + inner, close);
    FieldsPiecesImages(fields, false);
  }

  lemma {:induction false} FieldsPiecesImages(fields: seq<Field>, separate: bool)
    requires FieldsAscii(fields)
    ensures Images(FieldsPieces(fields, separate)) == FieldsText(fields, separate)
    decreases |fields|
  {
    if |fields| > 0 {
      var f := fields[0];
      var head := FieldPieces(separate, f.name, f.utf8);
      FieldsPiecesImages(fields[1..], true);
      ImagesAppend(head, FieldsPieces(fields[1..], true));
      FieldPiecesImages(separate, f.name, f.utf8);
    }
  }

  lemma FieldPiecesImages(separate: bool, name: seq<char>, utf8: seq<byte>)
    requires IsAscii(name)
    ensures Images(FieldPieces(separate, name, utf8)) == FieldText(separate, name, utf8)
  {
    var ps := FieldPieces(separate, name, utf8);
    var tail := [Chars(name), Bytes(NameSeparator), Formatted(utf8)];
    var t1 := tail[1..];
    var t2 := t1[1..];
    assert t2[1..] == [];
    assert Images(t2) == utf8 by {
      assert Images(t2) == t2[0].Image() + Images(t2[1..]);
    }
    assert Images(t1) == NameSeparator + utf8;
    assert Images(tail) == Ascii(name) + (NameSeparator + utf8);
    ConcatAssoc(Ascii(name), NameSeparator, utf8);
    if separate {
      assert ps[1..] == tail;
      ConcatAssoc(Separator, Ascii(name) + NameSeparator, utf8);
      ConcatAssoc(Separator, Ascii(name), NameSeparator);
    } else {
      assert ps == tail;
      assert [] + Ascii(name) == Ascii(name);
    }
  }

  /** For plain pieces ending in a non-empty one, fitting is a matter of total length. */
  lemma {:induction false} FitsByLength(offset: nat, length: nat, ps: seq<Piece>)
    requires AllValid(ps) && Plain(ps) && |ps| > 0 && ps[|ps| - 1].Valid() && |ps[|ps| - 1].Image()| > 0
    ensures Fits(offset, length, ps) <==> offset + |Images(ps)| <= length
    decreases |ps|
  {
    var rest := ps[1..];
    if |rest| > 0 {
      assert rest[|rest| - 1] == ps[|ps| - 1];
      FitsByLength(offset + |ps[0].Image()|, length, rest);
      LastImageCounts(rest);
    }
  }

  lemma {:induction false} LastImageCounts(ps: seq<Piece>)
    requires AllValid(ps) && |ps| > 0 && ps[|ps| - 1].Valid()
    ensures |Images(ps)| >= |ps[|ps| - 1].Image()|
    decreases |ps|
  {
    if |ps| > 1 {
      var rest := ps[1..];
      assert rest[|rest| - 1] == ps[|ps| - 1];
      LastImageCounts(rest);
    }
  }
}
