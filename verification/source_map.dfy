/** What a `mappings` string means: the format of the "Source Map Revision 3 Proposal", section
    "Proposed Format" (also ECMA-426), read one byte at a time. */
module SourceMapFormat {
  import opened Wrappers
  import opened Vlq
  import Sequences

  const SEMICOLON: byte := 59
  const COMMA: byte := 44
  const PADDING: byte := 61
  const NEWLINE: byte := 10

  datatype Origin = Origin(source: int, line: int, col: int)

  /** A generated position, and where it came from if the segment has 4 or 5 fields. */
  datatype Segment = Segment(line: nat, col: int, origin: Option<Origin>)

  /** A running position: generated column, and the last origin. Segments
      are written relative to it. */
  datatype Position = Position(col: int, last: Origin)

  const ORIGIN := Position(0, Origin(0, 0, 0))

  /** A decoder part-way through: generated line, running position, the fields of the current segment,
      the number being read (its bits so far, and the place of the next), whether all was standard so
      far, and the segments read. The format has segments of 1, 4 or 5 fields and 64 digits; the original
      also reads other segments of at least 2 fields, and the padding character as a digit. */
  datatype Decoder = Bad | Decoder(
    line: nat, at: Position, fields: seq<int>, raw: nat, shift: nat, standard: bool, segments: seq<Segment>)
  {
    predicate Between() {
      Decoder? && raw == 0 && shift == 0
    }

    predicate Idle() {
      Between() && fields == []
    }
  }

  const START := Decoder(0, ORIGIN, [], 0, 0, true, [])

  /** The sign of a finished number is its lowest bit. */
  function FromZigzag(raw: nat): int {
    if raw % 2 == 1 then -(raw / 2) else raw / 2
  }

  function Field(d: Decoder, i: nat): int
    requires d.Decoder?
  {
    if i < |d.fields| then d.fields[i] else 0
  }

  function FieldOrigin(d: Decoder): Origin
    requires d.Decoder?
  {
    Origin(d.at.last.source + Field(d, 1), d.at.last.line + Field(d, 2), d.at.last.col + Field(d, 3))
  }

  /** A segment ends: its fields are relative to the ones before, and a name (the fifth) is not kept. */
  function EndSegment(d: Decoder): Decoder {
    if !d.Between() then Bad
    else if |d.fields| == 0 then d
    else if |d.fields| == 1 then
      var col := d.at.col + d.fields[0];
      d.(at := d.at.(col := col), fields := [], segments := d.segments + [Segment(d.line, col, None)])
    else
      var p := Position(d.at.col + d.fields[0], FieldOrigin(d));
      d.(at := p, fields := [], standard := d.standard && 4 <= |d.fields| <= 5,
         segments := d.segments + [Segment(d.line, p.col, Some(p.last))])
  }

  /** A digit that more digits follow. */
  function WithDigit(d: Decoder, digit: digit): Decoder
    requires d.Decoder?
  {
    d.(raw := d.raw + Doubled(Low(digit), d.shift), shift := d.shift + 5)
  }

  /** A number has ended. */
  function WithField(d: Decoder, n: int): Decoder
    requires d.Decoder?
  {
    d.(fields := d.fields + [n], raw := 0, shift := 0)
  }

  function FeedDigit(d: Decoder, digit: digit): Decoder
    requires d.Decoder?
  {
    var d' := WithDigit(d, digit);
    if d'.raw >= 0x8000_0000 then Bad else if digit >= 32 then d' else WithField(d, FromZigzag(d'.raw))
  }

  function NextLine(d: Decoder): Decoder {
    if d.Bad? then Bad else d.(line := d.line + 1, at := d.at.(col := 0))
  }

  function Feed(d: Decoder, b: byte): Decoder {
    if d.Bad? then Bad
    else if b == SEMICOLON then NextLine(EndSegment(d))
    else if b == COMMA then EndSegment(d)
    else if CharToInteger(b) == 255 then Bad
    else FeedDigit(if b == PADDING then d.(standard := false) else d, SixBits(b))
  }

  function FeedAll(d: Decoder, s: seq<byte>): Decoder {
    if s == [] then d else Feed(FeedAll(d, s[..|s| - 1]), s[|s| - 1])
  }

  function Decode(s: seq<byte>): Decoder {
    EndSegment(FeedAll(START, s))
  }

  // ----- Feeding -----

  lemma FeedSnoc(d: Decoder, s: seq<byte>, b: byte)
    ensures FeedAll(d, s + [b]) == Feed(FeedAll(d, s), b)
  {
  }

  lemma {:induction false} FeedConcat(d: Decoder, s: seq<byte>, t: seq<byte>)
    ensures FeedAll(d, s + t) == FeedAll(FeedAll(d, s), t)
    decreases |t|
  {
    if t == [] {
      assert s + t == s;
    } else {
      FeedConcat(d, s, t[..|t| - 1]);
      assert (s + t)[..|s + t| - 1] == s + t[..|t| - 1];
    }
  }

  /** A small map, `CAEG,gB;IACD`: relative fields, a column alone, a second line. */
  lemma KnownMap()
    ensures var d := Decode([67, 65, 69, 71] + [COMMA] + [103, 66] + [SEMICOLON] + [73, 65, 67, 68]);
      d.Decoder? && d.standard && d.segments == [
        Segment(0, 1, Some(Origin(0, 2, 3))),
        Segment(0, 17, None),
        Segment(1, 4, Some(Origin(0, 3, 2)))]
  {
    var start := [67, 65, 69, 71] + [COMMA] + [103, 66] + [SEMICOLON];
    KnownLine();
    var d := FeedAll(START, start);
    FeedFour(d, 73, 65, 67, 68);
    FeedConcat(START, start, [73, 65, 67, 68]);
  }

  lemma KnownLine()
    ensures var d := FeedAll(START, [67, 65, 69, 71] + [COMMA] + [103, 66] + [SEMICOLON]);
      d.Idle() && d.standard && d.line == 1 && d.at == Position(0, Origin(0, 2, 3))
      && d.segments == [Segment(0, 1, Some(Origin(0, 2, 3))), Segment(0, 17, None)]
  {
    KnownSegment();
    var start := [67, 65, 69, 71] + [COMMA];
    var d := FeedAll(START, start);
    FeedTwo(d, 103, 66);
    FeedConcat(START, start, [103, 66]);
    FeedSnoc(START, start + [103, 66], SEMICOLON);
  }

  lemma KnownSegment()
    ensures var d := FeedAll(START, [67, 65, 69, 71] + [COMMA]);
      d.Idle() && d.standard && d.line == 0 && d.at == Position(1, Origin(0, 2, 3))
      && d.segments == [Segment(0, 1, Some(Origin(0, 2, 3)))]
  {
    FeedFour(START, 67, 65, 69, 71);
    FeedSnoc(START, [67, 65, 69, 71], COMMA);
  }

  lemma FeedFour(d: Decoder, w: byte, x: byte, y: byte, z: byte)
    requires d.Idle() && CharToInteger(w) < 32 && CharToInteger(x) < 32 && CharToInteger(y) < 32 && CharToInteger(z) < 32
    ensures FeedAll(d, [w, x, y, z]) == d.(fields := [FromZigzag(CharToInteger(w)), FromZigzag(CharToInteger(x)),
                                                       FromZigzag(CharToInteger(y)), FromZigzag(CharToInteger(z))])
  {
    FeedPair(d, w, x);
    var e := FeedAll(d, [w, x]);
    FeedPair(e, y, z);
    FeedConcat(d, [w, x], [y, z]);
    assert [w, x] + [y, z] == [w, x, y, z];
  }

  lemma FeedPair(d: Decoder, x: byte, y: byte)
    requires d.Between() && CharToInteger(x) < 32 && CharToInteger(y) < 32
    ensures FeedAll(d, [x, y]) == d.(fields := d.fields + [FromZigzag(CharToInteger(x)), FromZigzag(CharToInteger(y))])
  {
    FeedSmall(d, x);
    FeedSmall(Feed(d, x), y);
    FeedBytes(d, x, y);
  }

  lemma FeedBytes(d: Decoder, x: byte, y: byte)
    ensures FeedAll(d, [x, y]) == Feed(Feed(d, x), y)
  {
    assert [] + [x] == [x] && [x] + [y] == [x, y];
    FeedSnoc(d, [], x);
    FeedSnoc(d, [x], y);
  }

  lemma FeedSmall(d: Decoder, b: byte)
    requires d.Between() && CharToInteger(b) < 32
    ensures Feed(d, b) == d.(fields := d.fields + [FromZigzag(CharToInteger(b))])
  {
    assert Doubled(Low(SixBits(b)), 0) == CharToInteger(b);
  }

  lemma FeedTwo(d: Decoder, x: byte, y: byte)
    requires d.Between() && 32 <= CharToInteger(x) < 64 && CharToInteger(y) < 32
    ensures FeedAll(d, [x, y]) == WithField(d, FromZigzag(CharToInteger(x) - 32 + 32 * CharToInteger(y)))
  {
    FeedBytes(d, x, y);
    FeedHigh(d, x);
    FeedRest(d, Feed(d, x), CharToInteger(x) - 32, y);
  }

  lemma FeedHigh(d: Decoder, x: byte)
    requires d.Between() && 32 <= CharToInteger(x) < 64
    ensures Feed(d, x) == d.(raw := CharToInteger(x) - 32, shift := 5)
  {
    assert Doubled(Low(SixBits(x)), 0) == CharToInteger(x) - 32;
  }

  lemma FeedRest(d: Decoder, e: Decoder, low: nat, y: byte)
    requires d.Between() && low < 32 && e == d.(raw := low, shift := 5) && CharToInteger(y) < 32
    ensures Feed(e, y) == WithField(d, FromZigzag(low + 32 * CharToInteger(y)))
  {
    Doubled5(CharToInteger(y));
    assert Low(SixBits(y)) == CharToInteger(y);
  }

  /** What was read stays read, and a bad string has no good continuation. */
  lemma {:induction false} FeedGrows(d: Decoder, s: seq<byte>, k: nat)
    requires k <= |s| && FeedAll(d, s).Decoder?
    ensures FeedAll(d, s[..k]).Decoder? && FeedAll(d, s[..k]).segments <= FeedAll(d, s).segments
    ensures FeedAll(d, s[..k]).line <= FeedAll(d, s).line
    decreases |s|
  {
    if k == |s| {
      assert s[..k] == s;
    } else {
      var front := s[..|s| - 1];
      FeedGrows(d, front, k);
      assert front[..k] == s[..k];
    }
  }

  /** One encoded number becomes one field. */
  lemma FeedEncode(d: Decoder, n: int)
    requires d.Between() && -0x4000_0000 < n < 0x4000_0000
    ensures FeedAll(d, Encode(n)) == d.(fields := d.fields + [n])
  {
    ZigzagInverse(n);
    var v := Zigzag(n);
    DigitsValue(v);
    FeedDigits(d, Digits(v), v);
  }

  lemma ZigzagInverse(n: int)
    requires -0x4000_0000 < n < 0x4000_0000
    ensures 0 <= Zigzag(n) < 0x8000_0000 && FromZigzag(Zigzag(n)) == n
  {
    ZigzagExact(n);
  }

  lemma {:induction false} FeedDigits(d: Decoder, ds: seq<digit>, total: nat)
    requires d.Decoder? && Terminated(ds) && total == d.raw + Doubled(Value(ds), d.shift) < 0x8000_0000
    ensures FeedAll(d, Chars(ds)) == WithField(d, FromZigzag(total))
    decreases |ds|
  {
    FeedFirst(d, ds);
    if |ds| > 1 {
      FeedMore(d, ds, total);
      FeedDigits(WithDigit(d, ds[0]), ds[1..], total);
    } else {
      FeedLast(d, ds, total);
    }
  }

  lemma FeedMore(d: Decoder, ds: seq<digit>, total: nat)
    requires d.Decoder? && |ds| > 1 && ds[0] >= 32 && total == d.raw + Doubled(Value(ds), d.shift) < 0x8000_0000
    ensures var d' := WithDigit(d, ds[0]);
      FeedDigit(d, ds[0]) == d' && total == d'.raw + Doubled(Value(ds[1..]), d'.shift)
  {
    FirstDigit(ds, d.shift);
  }

  lemma FeedLast(d: Decoder, ds: seq<digit>, total: nat)
    requires d.Decoder? && |ds| == 1 && ds[0] < 32 && total == d.raw + Doubled(Value(ds), d.shift) < 0x8000_0000
    ensures FeedDigit(d, ds[0]) == WithField(d, FromZigzag(total))
  {
    FirstDigit(ds, d.shift);
  }

  lemma FeedFirst(d: Decoder, ds: seq<digit>)
    requires d.Decoder? && ds != []
    ensures FeedAll(d, Chars(ds)) == FeedAll(FeedDigit(d, ds[0]), Chars(ds[1..]))
  {
    FeedCons(d, ds[0], Chars(ds[1..]));
    FirstChar(ds);
  }

  lemma FirstChar(ds: seq<digit>)
    requires ds != []
    ensures Chars(ds) == [IntegerToChar(ds[0])] + Chars(ds[1..])
  {
  }

  lemma FeedCons(d: Decoder, digit: digit, s: seq<byte>)
    requires d.Decoder?
    ensures FeedAll(d, [IntegerToChar(digit)] + s) == FeedAll(FeedDigit(d, digit), s)
  {
    AlphabetInverse(digit);
    FeedConcat(d, [IntegerToChar(digit)], s);
    FeedSnoc(d, [], IntegerToChar(digit));
    assert [] + [IntegerToChar(digit)] == [IntegerToChar(digit)];
  }

  // ----- An encoder, and that the decoder inverts it -----

  /** One mapping of a generated line, by absolute values. */
  datatype Mapping = Mapping(col: int, origin: Option<Origin>)

  function EncodeMapping(m: Mapping, p: Position): seq<byte> {
    Encode(m.col - p.col) +
    match m.origin
    case None => []
    case Some(o) => EncodeOrigin(o, p)
  }

  function EncodeOrigin(o: Origin, p: Position): seq<byte> {
    Encode(o.source - p.last.source) + Encode(o.line - p.last.line) + Encode(o.col - p.last.col)
  }

  function After(m: Mapping, p: Position): Position {
    match m.origin
    case None => p.(col := m.col)
    case Some(o) => Position(m.col, o)
  }

  function EncodeLine(ms: seq<Mapping>, p: Position): seq<byte> {
    if ms == [] then [] else EncodeMapping(ms[0], p) + [COMMA] + EncodeLine(ms[1..], After(ms[0], p))
  }

  function AfterLine(ms: seq<Mapping>, p: Position): Position {
    if ms == [] then p else AfterLine(ms[1..], After(ms[0], p))
  }

  function EncodeLines(lines: seq<seq<Mapping>>, p: Position): seq<byte> {
    if lines == [] then []
    else EncodeLine(lines[0], p) + [SEMICOLON] + EncodeLines(lines[1..], AfterLine(lines[0], p).(col := 0))
  }

  function SegmentsOfLine(line: nat, ms: seq<Mapping>): seq<Segment> {
    if ms == [] then [] else [Segment(line, ms[0].col, ms[0].origin)] + SegmentsOfLine(line, ms[1..])
  }

  function SegmentsOf(line: nat, lines: seq<seq<Mapping>>): seq<Segment>
    decreases |lines|
  {
    if lines == [] then [] else SegmentsOfLine(line, lines[0]) + SegmentsOf(line + 1, lines[1..])
  }

  predicate InRange(x: int) {
    0 <= x < 0x4000_0000
  }

  predicate Encodable(m: Mapping) {
    InRange(m.col) && match m.origin case None => true case Some(o) => InRange(o.source) && InRange(o.line) && InRange(o.col)
  }

  predicate EncodableLine(ms: seq<Mapping>) {
    forall i :: 0 <= i < |ms| ==> Encodable(ms[i])
  }

  predicate InRangeAt(p: Position) {
    InRange(p.col) && InRange(p.last.source) && InRange(p.last.line) && InRange(p.last.col)
  }

  /** The fields of an encoded mapping. */
  function FieldsOf(m: Mapping, p: Position): seq<int> {
    [m.col - p.col] + if m.origin.None? then [] else OriginFields(m.origin.value, p)
  }

  function OriginFields(o: Origin, p: Position): seq<int> {
    [o.source - p.last.source, o.line - p.last.line, o.col - p.last.col]
  }

  lemma MappingParts(m: Mapping, p: Position)
    ensures m.origin.None? ==> EncodeMapping(m, p) == Encode(m.col - p.col) && FieldsOf(m, p) == [m.col - p.col]
    ensures m.origin.Some? ==> EncodeMapping(m, p) == Encode(m.col - p.col) + EncodeOrigin(m.origin.value, p)
    ensures m.origin.Some? ==> FieldsOf(m, p) == [m.col - p.col] + OriginFields(m.origin.value, p)
  {
  }

  lemma FeedFields(d: Decoder, m: Mapping)
    requires d.Idle() && InRangeAt(d.at) && Encodable(m)
    ensures FeedAll(d, EncodeMapping(m, d.at)) == d.(fields := FieldsOf(m, d.at))
  {
    MappingParts(m, d.at);
    FeedCol(d, m.col - d.at.col);
    if m.origin.Some? {
      FeedColAndOrigin(d, m.col - d.at.col, m.origin.value);
    }
  }

  lemma FeedCol(d: Decoder, col: int)
    requires d.Idle() && -0x4000_0000 < col < 0x4000_0000
    ensures FeedAll(d, Encode(col)) == d.(fields := [col])
  {
    FeedEncode(d, col);
    OneField(d.fields, col);
  }

  lemma OneField(fields: seq<int>, col: int)
    requires fields == []
    ensures fields + [col] == [col]
  {
  }

  lemma FeedColAndOrigin(d: Decoder, col: int, o: Origin)
    requires d.Idle() && InRangeAt(d.at) && -0x4000_0000 < col < 0x4000_0000
    requires InRange(o.source) && InRange(o.line) && InRange(o.col)
    ensures FeedAll(d, Encode(col) + EncodeOrigin(o, d.at)) == d.(fields := [col] + OriginFields(o, d.at))
  {
    var d1 := d.(fields := [col]);
    FeedCol(d, col);
    FeedOrigin(d1, o);
    FeedBoth(d, Encode(col), EncodeOrigin(o, d.at), d1, d1.(fields := [col] + OriginFields(o, d.at)));
  }

  lemma FeedBoth(d: Decoder, s: seq<byte>, t: seq<byte>, d1: Decoder, d2: Decoder)
    requires FeedAll(d, s) == d1 && FeedAll(d1, t) == d2
    ensures FeedAll(d, s + t) == d2
  {
    FeedConcat(d, s, t);
  }

  lemma FeedOrigin(d: Decoder, o: Origin)
    requires d.Between() && InRangeAt(d.at) && InRange(o.source) && InRange(o.line) && InRange(o.col)
    ensures FeedAll(d, EncodeOrigin(o, d.at)) == d.(fields := d.fields + OriginFields(o, d.at))
  {
    var last := d.at.last;
    var a, b, c := o.source - last.source, o.line - last.line, o.col - last.col;
    DeltaInRange(o.source, last.source);
    DeltaInRange(o.line, last.line);
    DeltaInRange(o.col, last.col);
    FeedThree(d, a, b, c);
    OriginEncoded(o, d.at);
  }

  lemma DeltaInRange(x: int, y: int)
    requires InRange(x) && InRange(y)
    ensures -0x4000_0000 < x - y < 0x4000_0000
  {
  }

  lemma OriginEncoded(o: Origin, p: Position)
    ensures EncodeOrigin(o, p) == Encode(o.source - p.last.source) + Encode(o.line - p.last.line) + Encode(o.col - p.last.col)
    ensures OriginFields(o, p) == [o.source - p.last.source, o.line - p.last.line, o.col - p.last.col]
  {
  }

  lemma FeedThree(d: Decoder, a: int, b: int, c: int)
    requires d.Between()
    requires -0x4000_0000 < a < 0x4000_0000 && -0x4000_0000 < b < 0x4000_0000 && -0x4000_0000 < c < 0x4000_0000
    ensures FeedAll(d, Encode(a) + Encode(b) + Encode(c)) == d.(fields := d.fields + [a, b, c])
  {
    FeedEncode(d, a);
    var d1 := d.(fields := d.fields + [a]);
    FeedEncode(d1, b);
    var d2 := d1.(fields := d1.fields + [b]);
    FeedEncode(d2, c);
    FeedBoth(d, Encode(a), Encode(b), d1, d2);
    assert d2.fields + [c] == d.fields + [a, b, c];
    FeedBoth(d, Encode(a) + Encode(b), Encode(c), d2, d2.(fields := d.fields + [a, b, c]));
  }

  /** What a mapping does to a decoder. */
  function WithMapping(d: Decoder, m: Mapping): Decoder
    requires d.Decoder?
  {
    d.(at := After(m, d.at), segments := d.segments + [Segment(d.line, m.col, m.origin)])
  }

  /** The separator after the fields of a mapping makes them its segment. */
  lemma EndMapping(d: Decoder, m: Mapping)
    requires d.Idle()
    ensures EndSegment(d.(fields := FieldsOf(m, d.at))) == WithMapping(d, m)
  {
  }

  lemma FeedParts(d: Decoder, s: seq<byte>, b: byte, t: seq<byte>)
    ensures FeedAll(d, s + [b] + t) == FeedAll(Feed(FeedAll(d, s), b), t)
  {
    FeedSnoc(d, s, b);
    FeedConcat(d, s + [b], t);
  }

  /** A mapping, a comma, and the rest of the line. */
  lemma FeedMapping(d: Decoder, m: Mapping, rest: seq<byte>)
    requires d.Idle() && InRangeAt(d.at) && Encodable(m)
    ensures FeedAll(d, EncodeMapping(m, d.at) + [COMMA] + rest) == FeedAll(WithMapping(d, m), rest)
    ensures WithMapping(d, m).Idle() && InRangeAt(After(m, d.at))
  {
    FeedFields(d, m);
    EndMapping(d, m);
    FeedParts(d, EncodeMapping(m, d.at), COMMA, rest);
  }

  function WithLine(d: Decoder, ms: seq<Mapping>): Decoder
    requires d.Decoder?
  {
    d.(at := AfterLine(ms, d.at), segments := d.segments + SegmentsOfLine(d.line, ms))
  }

  lemma {:induction false} FeedLine(d: Decoder, ms: seq<Mapping>)
    requires d.Idle() && InRangeAt(d.at) && EncodableLine(ms)
    ensures FeedAll(d, EncodeLine(ms, d.at)) == WithLine(d, ms) && InRangeAt(AfterLine(ms, d.at))
    decreases |ms|
  {
    if ms == [] {
      assert d.segments + [] == d.segments;
    } else {
      var m, rest := ms[0], ms[1..];
      var d' := WithMapping(d, m);
      FeedMapping(d, m, EncodeLine(rest, d'.at));
      FeedLine(d', rest);
      Sequences.Associate(d.segments, [Segment(d.line, m.col, m.origin)], SegmentsOfLine(d.line, rest));
    }
  }

  /** A line, its semicolon, and the lines after it. */
  lemma FeedLineEnd(d: Decoder, ms: seq<Mapping>, rest: seq<byte>)
    requires d.Idle() && InRangeAt(d.at) && EncodableLine(ms)
    ensures FeedAll(d, EncodeLine(ms, d.at) + [SEMICOLON] + rest) == FeedAll(NextLine(WithLine(d, ms)), rest)
    ensures InRangeAt(NextLine(WithLine(d, ms)).at)
  {
    FeedLine(d, ms);
    FeedParts(d, EncodeLine(ms, d.at), SEMICOLON, rest);
  }

  function AfterLines(lines: seq<seq<Mapping>>, p: Position): Position {
    if lines == [] then p else AfterLines(lines[1..], AfterLine(lines[0], p).(col := 0))
  }

  function WithLines(d: Decoder, lines: seq<seq<Mapping>>): Decoder
    requires d.Decoder?
  {
    d.(line := d.line + |lines|, at := AfterLines(lines, d.at), segments := d.segments + SegmentsOf(d.line, lines))
  }

  lemma {:induction false} FeedLines(d: Decoder, lines: seq<seq<Mapping>>)
    requires d.Idle() && InRangeAt(d.at) && forall i :: 0 <= i < |lines| ==> EncodableLine(lines[i])
    ensures FeedAll(d, EncodeLines(lines, d.at)) == WithLines(d, lines)
    decreases |lines|
  {
    if lines == [] {
      assert d.segments + [] == d.segments;
    } else {
      var line, rest := lines[0], lines[1..];
      var d' := NextLine(WithLine(d, line));
      FeedLineEnd(d, line, EncodeLines(rest, d'.at));
      FeedLines(d', rest);
      LinesCompose(d, line, rest);
      assert lines == [line] + rest;
    }
  }

  lemma LinesCompose(d: Decoder, line: seq<Mapping>, rest: seq<seq<Mapping>>)
    requires d.Decoder?
    ensures WithLines(NextLine(WithLine(d, line)), rest) == WithLines(d, [line] + rest)
  {
  }

  lemma DecodeFrom(d: Decoder, lines: seq<seq<Mapping>>)
    requires d.Idle() && InRangeAt(d.at) && forall i :: 0 <= i < |lines| ==> EncodableLine(lines[i])
    ensures EndSegment(FeedAll(d, EncodeLines(lines, d.at))) == WithLines(d, lines)
  {
    FeedLines(d, lines);
  }

  /** The decoder inverts the encoder: every table of mappings by line is read back as it was. */
  lemma DecodeEncode(lines: seq<seq<Mapping>>)
    requires forall i :: 0 <= i < |lines| ==> EncodableLine(lines[i])
    ensures var t := Decode(EncodeLines(lines, ORIGIN));
      t.Decoder? && t.standard && t.line == |lines| && t.segments == SegmentsOf(0, lines)
  {
    DecodeFrom(START, lines);
  }
}
