/** The value side of source-map concatenation: what `addSource` owes its caller, and one lemma for each
    branch of its loop. */
module SourceMapStack {
  import opened Wrappers
  import opened Vlq
  import opened SourceMapFormat
  import Sequences

  // ----- Meaning: segments that name their source -----

  datatype NamedOrigin = NamedOrigin(source: string, line: int, col: int)
  datatype NamedSegment = NamedSegment(line: nat, col: int, origin: Option<NamedOrigin>)

  predicate SegmentInRange(s: Segment, sources: nat) {
    InRange(s.col) && match s.origin
      case None => true
      case Some(o) => 0 <= o.source < sources && InRange(o.line) && InRange(o.col)
  }

  predicate SegmentsInRange(segments: seq<Segment>, sources: nat) {
    forall i :: 0 <= i < |segments| ==> SegmentInRange(segments[i], sources)
  }

  function NameOne(s: Segment, sources: seq<string>, line: nat): NamedSegment
    requires SegmentInRange(s, |sources|)
  {
    NamedSegment(s.line + line, s.col,
      match s.origin
      case None => None
      case Some(o) => Some(NamedOrigin(sources[o.source], o.line, o.col)))
  }

  /** The segments as a reader sees them, with `line` added to each generated line. */
  function Name(segments: seq<Segment>, sources: seq<string>, line: nat): seq<NamedSegment>
    requires SegmentsInRange(segments, |sources|)
  {
    seq(|segments|, i requires 0 <= i < |segments| => NameOne(segments[i], sources, line))
  }

  // ----- Sources -----

  /** A file to append: its text ends with a newline unless empty, and has its own source map. */
  datatype Source = Source(content: seq<byte>, sources: seq<string>, mappings: seq<byte>, sourceLines: nat)

  function Newlines(s: seq<byte>): nat {
    if s == [] then 0 else Newlines(s[..|s| - 1]) + if s[|s| - 1] == NEWLINE then 1 else 0
  }

  lemma {:induction false} NewlinesConcat(s: seq<byte>, t: seq<byte>)
    ensures Newlines(s + t) == Newlines(s) + Newlines(t)
    decreases |t|
  {
    if t == [] {
      assert s + t == s;
    } else {
      NewlinesConcat(s, t[..|t| - 1]);
      assert (s + t)[..|s + t| - 1] == s + t[..|t| - 1];
    }
  }

  /** The byte makes `addSource` throw. */
  predicate Invalid(b: byte) {
    b != SEMICOLON && b != COMMA && CharToInteger(b) == 255
  }

  /** None of the first k characters throws. */
  predicate ValidUpTo(s: seq<byte>, k: nat)
    requires k <= |s|
  {
    forall i :: 0 <= i < k ==> !Invalid(s[i])
  }

  /** The mappings are well formed as far as they are read: up to the first character that throws, or
      altogether if none does. They refer to no source from `sources` on. */
  ghost predicate Readable(first: Decoder, input: seq<byte>, sources: nat) {
    && (forall k :: 0 <= k <= |input| && ValidUpTo(input, k) ==> ReadableUpTo(first, input, sources, k))
    && (ValidUpTo(input, |input|) ==>
          var d := EndSegment(FeedAll(first, input)); d.Decoder? && SegmentsInRange(d.segments, sources))
  }

  ghost predicate ReadableUpTo(first: Decoder, input: seq<byte>, sources: nat, k: nat)
    requires k <= |input|
  {
    var d := FeedAll(first, input[..k]);
    d.Decoder? && SegmentsInRange(d.segments, sources)
  }

  /** The mappings end at the start of a line that the content reaches, or above it. */
  ghost predicate Fits(s: Source) {
    var d := FeedAll(START, s.mappings);
    d.Decoder? && (d.line < s.sourceLines || (d.line == s.sourceLines && d.fields == [] && d.at.col == 0))
  }

  // ----- The loop of `addSource` -----

  /** The locals of the loop: output line, input position, the number being read, and how many fields
      of the segment have been read. */
  datatype Cursor = Cursor(outputLine: nat, at: Position, shift: nat, value: int, valpos: nat)

  /** The input segment with its source renumbered and its line shifted. */
  function Remap(s: Segment, remap: seq<nat>, line: nat): Segment
    requires SegmentInRange(s, |remap|)
  {
    Segment(s.line + line, s.col,
      match s.origin
      case None => None
      case Some(o) => Some(o.(source := remap[o.source])))
  }

  function RemapAll(segments: seq<Segment>, remap: seq<nat>, line: nat): seq<Segment>
    requires SegmentsInRange(segments, |remap|)
  {
    seq(|segments|, i requires 0 <= i < |segments| => Remap(segments[i], remap, line))
  }

  /** The locals follow the decoder of the input. */
  predicate Follows(c: Cursor, a: Decoder) {
    && a.Decoder?
    && c.value == a.raw && c.shift == a.shift && c.valpos == |a.fields| && c.outputLine == a.line
    && c.at == Position(a.at.col + Field(a, 0), FieldOrigin(a))
  }

  /** Between separators: `a` reads the input so far, `b` the output so far, `b0` the output before. */
  predicate InStep(a: Decoder, b: Decoder, b0: Decoder, remap: seq<nat>, p: Position) {
    && a.Decoder? && b0.Decoder? && b.Idle() && b.standard && b.at == p && InRangeAt(p) && p.col == a.at.col
    && b.line == b0.line + a.line
    && SegmentsInRange(a.segments, |remap|)
    && b.segments == b0.segments + RemapAll(a.segments, remap, b0.line)
  }

  /** A digit that does not end its number. */
  lemma DigitContinues(c: Cursor, a: Decoder, digit: digit)
    requires Follows(c, a) && 32 <= digit && FeedDigit(a, digit).Decoder?
    ensures Follows(c.(value := AddDigit(c.value, digit, c.shift), shift := c.shift + 5), FeedDigit(a, digit))
  {
    AddDigitExact(c.value, digit, c.shift);
  }

  /** A digit that ends its number. */
  lemma DigitEnds(c: Cursor, a: Decoder, digit: digit)
    requires Follows(c, a) && digit < 32 && FeedDigit(a, digit).Decoder?
    ensures Follows(AddField(c, Signed(AddDigit(c.value, digit, c.shift))), FeedDigit(a, digit))
  {
    AddDigitExact(c.value, digit, c.shift);
    SignedExact(a.raw + Doubled(Low(digit), a.shift));
  }

  /** The switch on `valpos`. */
  function AddField(c: Cursor, value: int): Cursor {
    var d := c.(valpos := c.valpos + 1, value := 0, shift := 0);
    match c.valpos
    case 0 => d.(at := c.at.(col := c.at.col + value))
    case 1 => d.(at := c.at.(last := c.at.last.(source := c.at.last.source + value)))
    case 2 => d.(at := c.at.(last := c.at.last.(line := c.at.last.line + value)))
    case 3 => d.(at := c.at.(last := c.at.last.(col := c.at.last.col + value)))
    case _ => d
  }

  /** The mapping that `commit` writes, if any. */
  function Committed(c: Cursor, remap: seq<nat>): Mapping
    requires c.valpos > 1 ==> 0 <= c.at.last.source < |remap|
  {
    Mapping(c.at.col,
      if c.valpos <= 1 then None else Some(c.at.last.(source := remap[c.at.last.source])))
  }

  /** A separator: `commit` writes a mapping that the separator closes, and both sides stay in step. */
  lemma CommitInStep(c: Cursor, a: Decoder, b: Decoder, b0: Decoder, remap: seq<nat>, p: Position)
    requires Follows(c, a) && InStep(a, b, b0, remap, p)
    requires forall i :: 0 <= i < |remap| ==> InRange(remap[i])
    requires EndSegment(a).Decoder? && SegmentsInRange(EndSegment(a).segments, |remap|)
    ensures c.valpos == 0 ==> EndSegment(a) == a
    ensures c.valpos > 1 ==> 0 <= c.at.last.source < |remap|
    ensures c.valpos > 0 ==>
      var m := Committed(c, remap);
      var t := FeedAll(b, EncodeMapping(m, p));
      t.Decoder? && t.fields != [] && EndSegment(t).Decoder? && InStep(EndSegment(a), EndSegment(t), b0, remap, After(m, p))
    ensures Follows(c.(valpos := 0), EndSegment(a))
  {
    if c.valpos > 0 {
      var n := |a.segments|;
      var s := EndSegment(a).segments[n];
      assert EndSegment(a).segments == a.segments + [s];
      assert SegmentInRange(s, |remap|);
      var m := Committed(c, remap);
      FeedFields(b, m);
      EndMapping(b, m);
      assert Remap(s, remap, b0.line) == Segment(b.line, m.col, m.origin);
      RemapSnoc(a.segments, s, remap, b0.line);
      Sequences.Associate(b0.segments, RemapAll(a.segments, remap, b0.line), [Remap(s, remap, b0.line)]);
    }
  }

  lemma RemapSnoc(segments: seq<Segment>, s: Segment, remap: seq<nat>, line: nat)
    requires SegmentsInRange(segments, |remap|) && SegmentInRange(s, |remap|)
    ensures SegmentsInRange(segments + [s], |remap|)
    ensures RemapAll(segments + [s], remap, line) == RemapAll(segments, remap, line) + [Remap(s, remap, line)]
  {
  }

  /** Renumbering keeps the names: the output means the input, stacked below what was there. */
  lemma NameStacked(before: seq<Segment>, segments: seq<Segment>, remap: seq<nat>, line: nat,
                    inputs: seq<string>, known: seq<string>, outputs: seq<string>)
    requires known <= outputs && SegmentsInRange(before, |known|)
    requires |remap| == |inputs| && SegmentsInRange(segments, |inputs|)
    requires forall i :: 0 <= i < |remap| ==> remap[i] < |outputs| && outputs[remap[i]] == inputs[i]
    ensures SegmentsInRange(before + RemapAll(segments, remap, line), |outputs|)
    ensures Name(before + RemapAll(segments, remap, line), outputs, 0) == Name(before, known, 0) + Name(segments, inputs, line)
  {
  }

  /** A semicolon takes both sides to the next line. */
  lemma NextLineInStep(c: Cursor, a: Decoder, b: Decoder, b0: Decoder, remap: seq<nat>, p: Position)
    requires Follows(c, a) && c.valpos == 0 && InStep(a, b, b0, remap, p)
    ensures InStep(NextLine(a), NextLine(b), b0, remap, p.(col := 0))
    ensures Follows(c.(at := c.at.(col := 0), outputLine := c.outputLine + 1), NextLine(a))
  {
  }

  /** Reading the next character of readable mappings. */
  lemma ReadNext(first: Decoder, a: Decoder, input: seq<byte>, sources: nat, ip: nat)
    requires Readable(first, input, sources) && ip < |input| && ValidUpTo(input, ip) && !Invalid(input[ip])
    requires a == FeedAll(first, input[..ip])
    ensures ValidUpTo(input, ip + 1) && Feed(a, input[ip]) == FeedAll(first, input[..ip + 1])
    ensures Feed(a, input[ip]).Decoder? && SegmentsInRange(Feed(a, input[ip]).segments, sources)
  {
    assert input[..ip + 1] == input[..ip] + [input[ip]];
    FeedSnoc(first, input[..ip], input[ip]);
    assert ValidUpTo(input, ip + 1);
    assert ReadableUpTo(first, input, sources, ip + 1);
  }

  /** A decoder away from the start of its line has read a segment of that line. */
  predicate ColumnHasSegment(d: Decoder) {
    d.Decoder? && d.at.col != 0 ==> d.segments != [] && d.segments[|d.segments| - 1].line == d.line
  }

  lemma {:induction false} ReadColumnHasSegment(s: seq<byte>)
    ensures ColumnHasSegment(FeedAll(START, s))
    decreases |s|
  {
    if s != [] {
      ReadColumnHasSegment(s[..|s| - 1]);
      FeedColumn(FeedAll(START, s[..|s| - 1]), s[|s| - 1]);
    }
  }

  lemma FeedColumn(d: Decoder, b: byte)
    requires ColumnHasSegment(d)
    ensures ColumnHasSegment(Feed(d, b)) && ColumnHasSegment(EndSegment(d))
  {
  }

  /** Mappings fit if no segment lies on the line after the last semicolon, when that is the line after
      the content. */
  lemma SegmentsFit(s: Source)
    requires var d := Decode(s.mappings);
      d.Decoder? && d.line <= s.sourceLines && forall i :: 0 <= i < |d.segments| ==> d.segments[i].line < s.sourceLines
    ensures Fits(s)
  {
    ReadColumnHasSegment(s.mappings);
    FeedColumn(FeedAll(START, s.mappings), COMMA);
    var a := Decode(s.mappings);
    if a.segments != [] {
      assert a.segments[|a.segments| - 1].line < s.sourceLines;
    }
  }
}
