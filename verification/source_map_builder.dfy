/** The source-map builder: output text and mappings grow together, line by line. */
module SourceMapBuilding {
  import opened Wrappers
  import opened Vlq
  import opened SourceMapFormat
  import opened SourceMapStack
  import DynamicBuffers
  import Sequences

  method CountNL(b: seq<byte>) returns (res: nat)
    ensures res == Newlines(b)
  {
    res := 0;
    for i := 0 to |b|
      invariant res == Newlines(b[..i])
    {
      assert b[..i + 1] == b[..i] + [b[i]];
      NewlinesConcat(b[..i], [b[i]]);
      assert Newlines([b[i]]) == Newlines([]) + if b[i] == NEWLINE then 1 else 0;
      if b[i] == NEWLINE {
        res := res + 1;
      }
    }
    assert b[..|b|] == b;
  }

  /** Completes the last line and counts the lines. */
  method NewSource(content: seq<byte>, sources: seq<string>, mappings: seq<byte>) returns (s: Source)
    ensures s.sources == sources && s.mappings == mappings && s.sourceLines == Newlines(s.content)
    ensures s.content == if content != [] && content[|content| - 1] != NEWLINE then content + [NEWLINE] else content
  {
    var sourceLines := CountNL(content);
    var text := content;
    if |content| > 0 && content[|content| - 1] != NEWLINE {
      sourceLines := sourceLines + 1;
      text := content + [NEWLINE];
      assert text[..|content|] == content;
    }
    s := Source(text, sources, mappings, sourceLines);
  }

  /** A list of distinct names is no longer than a set that holds them. */
  lemma {:induction false} DistinctFits(names: seq<string>, universe: set<string>)
    requires Sequences.Distinct(names) && forall i :: 0 <= i < |names| ==> names[i] in universe
    ensures |names| <= |universe|
    decreases |names|
  {
    if names != [] {
      var last := names[|names| - 1];
      DistinctFits(names[..|names| - 1], universe - {last});
    }
  }

  class SourceMapBuilder {
    const outputBuffer: DynamicBuffers.DynamicBuffer
    const mappings: DynamicBuffers.DynamicBuffer
    /** A decoder that has read nothing. */
    ghost const start: Decoder
    var sources: seq<string>
    var lastSourceIndex: int
    var lastSourceLine: int
    var lastSourceCol: int

    ghost function Repr(): set<object>
      reads this, outputBuffer, mappings
    {
      {this, outputBuffer, mappings, outputBuffer.buffer, mappings.buffer}
    }

    ghost predicate Separate()
      reads this, outputBuffer, mappings
    {
      outputBuffer != mappings && outputBuffer.buffer != mappings.buffer && outputBuffer.Valid() && mappings.Valid()
    }

    /** What the mappings written so far decode to. */
    ghost function Decoded(): Decoder
      reads this, outputBuffer, mappings, mappings.buffer
      requires Separate()
    {
      FeedAll(start, mappings.Contents())
    }

    ghost function Last(col: int): Position
      reads this
    {
      Position(col, Origin(lastSourceIndex, lastSourceLine, lastSourceCol))
    }

    /** Decoding the mappings ends at the start of the line that the output text has reached, with the
        source position the builder remembers. */
    ghost predicate Valid()
      reads this, outputBuffer, outputBuffer.buffer, mappings, mappings.buffer
    {
      && start == START && Separate() && Sequences.Distinct(sources) && |sources| <= 0x4000_0000
      && Decoded().Idle() && Decoded().standard && Decoded().at == Last(0) && InRangeAt(Last(0))
      && SegmentsInRange(Decoded().segments, |sources|)
      && Decoded().line == Newlines(outputBuffer.Contents())
    }

    /** What a reader sees in the mappings, the last segment included. */
    ghost predicate Holds(meaning: seq<NamedSegment>)
      reads this, outputBuffer, mappings, mappings.buffer
    {
      && Separate() && EndSegment(Decoded()).Decoder? && EndSegment(Decoded()).standard
      && SegmentsInRange(EndSegment(Decoded()).segments, |sources|)
      && Name(EndSegment(Decoded()).segments, sources, 0) == meaning
    }

    /** The mappings as a reader sees them. */
    ghost function Meaning(): seq<NamedSegment>
      reads this, outputBuffer, outputBuffer.buffer, mappings, mappings.buffer
      requires Valid()
    {
      Name(Decoded().segments, sources, 0)
    }

    ghost function Lines(): nat
      reads this, outputBuffer, outputBuffer.buffer, mappings, mappings.buffer
      requires Valid()
    {
      Newlines(outputBuffer.Contents())
    }

    constructor ()
      ensures Valid() && Meaning() == [] && outputBuffer.Contents() == [] && sources == []
      ensures fresh(Repr())
    {
      start := START;
      outputBuffer := new DynamicBuffers.DynamicBuffer();
      mappings := new DynamicBuffers.DynamicBuffer();
      sources := [];
      lastSourceIndex, lastSourceLine, lastSourceCol := 0, 0, 0;
    }

    /** Some text and a newline, and an empty line of mappings: still line by line if and only if the text
        is a single line. */
    method AddLine(text: seq<byte>)
      requires Valid()
      modifies this, outputBuffer, outputBuffer.buffer, mappings, mappings.buffer
      ensures fresh(Repr() - old(Repr())) && sources == old(sources)
      ensures Separate() && Holds(old(Meaning())) && Decoded() == NextLine(old(Decoded()))
      ensures Valid() <==> NEWLINE !in text
      ensures Valid() ==> Meaning() == old(Meaning()) && Lines() == old(Lines()) + 1
      ensures outputBuffer.Contents() == old(outputBuffer.Contents()) + text + [NEWLINE]
    {
      OneMoreLine(outputBuffer.Contents(), text);
      AddText(text);
      EmptyLine();
    }

    method AddText(text: seq<byte>)
      requires Separate()
      modifies outputBuffer, outputBuffer.buffer
      ensures Separate() && (outputBuffer.buffer == old(outputBuffer.buffer) || fresh(outputBuffer.buffer))
      ensures mappings.buffer == old(mappings.buffer) && Decoded() == old(Decoded())
      ensures outputBuffer.Contents() == old(outputBuffer.Contents()) + text + [NEWLINE]
    {
      outputBuffer.AddBuffer(text);
      outputBuffer.AddByte(NEWLINE);
    }

    method EmptyLine()
      requires Separate()
      modifies mappings, mappings.buffer
      ensures Separate() && (mappings.buffer == old(mappings.buffer) || fresh(mappings.buffer))
      ensures outputBuffer.buffer == old(outputBuffer.buffer) && outputBuffer.Contents() == old(outputBuffer.Contents())
      ensures Decoded() == NextLine(EndSegment(old(Decoded())))
    {
      FeedSnoc(start, mappings.Contents(), SEMICOLON);
      mappings.AddByte(SEMICOLON);
    }

    static lemma OneMoreLine(lines: seq<byte>, text: seq<byte>)
      ensures Newlines(lines + text + [NEWLINE]) == Newlines(lines) + 1 <==> NEWLINE !in text
    {
      NewlinesConcat(lines, text);
      NewlinesConcat(lines + text, [NEWLINE]);
      NoNewlines(text);
      assert Newlines([NEWLINE]) == Newlines([]) + 1;
    }

    static lemma {:induction false} NoNewlines(s: seq<byte>)
      ensures Newlines(s) == 0 <==> NEWLINE !in s
    {
      if s != [] {
        NoNewlines(s[..|s| - 1]);
        assert s == s[..|s| - 1] + [s[|s| - 1]];
      }
    }

    /** Where each source of a map stands in the builder's list, extended by those it lacked. */
    method RemapSources(names: seq<string>, ghost universe: set<string>) returns (remap: seq<nat>)
      requires Sequences.Distinct(sources)
      requires forall i :: 0 <= i < |sources| ==> sources[i] in universe
      requires forall i :: 0 <= i < |names| ==> names[i] in universe
      modifies this`sources
      ensures old(sources) <= sources && Sequences.Distinct(sources)
      ensures forall i :: 0 <= i < |sources| ==> sources[i] in universe
      ensures |remap| == |names|
      ensures forall i :: 0 <= i < |names| ==> remap[i] < |sources| && sources[remap[i]] == names[i]
    {
      remap := [];
      for i := 0 to |names|
        invariant old(sources) <= sources && Sequences.Distinct(sources) && |remap| == i
        invariant forall j :: 0 <= j < |sources| ==> sources[j] in universe
        invariant forall j :: 0 <= j < i ==> remap[j] < |sources| && sources[remap[j]] == names[j]
      {
        var pos := IndexOf(sources, names[i]);
        if pos < 0 {
          pos := |sources|;
          sources := sources + [names[i]];
        }
        remap := remap + [pos];
      }
    }

    static method IndexOf(sources: seq<string>, name: string) returns (pos: int)
      ensures -1 <= pos < |sources|
      ensures pos >= 0 ==> sources[pos] == name
      ensures pos < 0 ==> name !in sources
    {
      for i := 0 to |sources|
        invariant name !in sources[..i]
      {
        if sources[i] == name {
          return i;
        }
      }
      return -1;
    }

    /** `commit`: writes the current segment, without a name, relative to what was last written. */
    method Commit(c: Cursor, lastOutputCol: int, remap: seq<nat>)
      requires Separate() && (c.valpos > 1 ==> 0 <= c.at.last.source < |remap|)
      modifies this`lastSourceIndex, this`lastSourceLine, this`lastSourceCol, mappings, mappings.buffer
      ensures Separate() && (mappings.buffer == old(mappings.buffer) || fresh(mappings.buffer))
      ensures outputBuffer.buffer == old(outputBuffer.buffer)
      ensures c.valpos == 0 ==> mappings.Contents() == old(mappings.Contents()) && Last(lastOutputCol) == old(Last(lastOutputCol))
      ensures c.valpos > 0 ==>
        mappings.Contents() == old(mappings.Contents()) + EncodeMapping(Committed(c, remap), old(Last(lastOutputCol)))
        && Last(c.at.col) == After(Committed(c, remap), old(Last(lastOutputCol)))
    {
      if c.valpos == 0 {
        return;
      }
      ghost var before, p := mappings.Contents(), Last(lastOutputCol);
      Parts(before, Committed(c, remap), p);
      mappings.AddVLQ(c.at.col - lastOutputCol);
      if c.valpos > 1 {
        CommitOrigin(c.at.last.(source := remap[c.at.last.source]), p);
      }
    }

    /** A mapping is its column, then its origin if it has one. */
    static lemma Parts(s: seq<byte>, m: Mapping, p: Position)
      ensures m.origin.None? ==> s + EncodeMapping(m, p) == s + Encode(m.col - p.col)
      ensures m.origin.Some? ==> s + EncodeMapping(m, p) == s + Encode(m.col - p.col) + EncodeOrigin(m.origin.value, p)
    {
    }

    /** The three source fields. */
    method CommitOrigin(o: Origin, ghost p: Position)
      requires Separate() && p == Last(p.col)
      modifies this`lastSourceIndex, this`lastSourceLine, this`lastSourceCol, mappings, mappings.buffer
      ensures Separate() && (mappings.buffer == old(mappings.buffer) || fresh(mappings.buffer))
      ensures outputBuffer.buffer == old(outputBuffer.buffer)
      ensures mappings.Contents() == old(mappings.Contents()) + EncodeOrigin(o, p)
      ensures lastSourceIndex == o.source && lastSourceLine == o.line && lastSourceCol == o.col
    {
      ghost var before := mappings.Contents();
      OriginParts(before, o, p);
      CommitSource(o);
      AddNumber(o.col - lastSourceCol);
      lastSourceCol := o.col;
    }

    /** The first two of them. */
    method CommitSource(o: Origin)
      requires Separate()
      modifies this`lastSourceIndex, this`lastSourceLine, mappings, mappings.buffer
      ensures Separate() && (mappings.buffer == old(mappings.buffer) || fresh(mappings.buffer))
      ensures outputBuffer.buffer == old(outputBuffer.buffer)
      ensures mappings.Contents() == old(mappings.Contents()) +
        Encode(o.source - old(lastSourceIndex)) + Encode(o.line - old(lastSourceLine))
      ensures lastSourceIndex == o.source && lastSourceLine == o.line
    {
      AddNumber(o.source - lastSourceIndex);
      lastSourceIndex := o.source;
      AddNumber(o.line - lastSourceLine);
      lastSourceLine := o.line;
    }

    method AddNumber(n: int)
      requires Separate()
      modifies mappings, mappings.buffer
      ensures Separate() && (mappings.buffer == old(mappings.buffer) || fresh(mappings.buffer))
      ensures outputBuffer.buffer == old(outputBuffer.buffer)
      ensures mappings.Contents() == old(mappings.Contents()) + Encode(n)
    {
      mappings.AddVLQ(n);
    }

    static lemma OriginParts(s: seq<byte>, o: Origin, p: Position)
      ensures s + Encode(o.source - p.last.source) + Encode(o.line - p.last.line) + Encode(o.col - p.last.col)
           == s + EncodeOrigin(o, p)
    {
      Regroup(s, Encode(o.source - p.last.source), Encode(o.line - p.last.line), Encode(o.col - p.last.col));
    }

    static lemma Regroup(s: seq<byte>, a: seq<byte>, b: seq<byte>, c: seq<byte>)
      ensures s + a + b + c == s + (a + b + c)
    {
    }

    /** `commit` and a separator; returns the new `lastOutputCol`. */
    method WriteSeparator(c: Cursor, lastOutputCol: int, remap: seq<nat>, separator: byte, ghost a: Decoder, ghost b0: Decoder)
      returns (outputCol: int)
      requires Separate() && Follows(c, a) && InStep(a, Decoded(), b0, remap, Last(lastOutputCol))
      requires EndSegment(a).Decoder? && SegmentsInRange(EndSegment(a).segments, |remap|)
      requires forall i :: 0 <= i < |remap| ==> InRange(remap[i])
      requires separator == SEMICOLON || separator == COMMA
      modifies this`lastSourceIndex, this`lastSourceLine, this`lastSourceCol, mappings, mappings.buffer
      ensures Separate() && (mappings.buffer == old(mappings.buffer) || fresh(mappings.buffer))
      ensures outputBuffer.buffer == old(outputBuffer.buffer)
      ensures Follows(c.(valpos := 0), EndSegment(a))
      ensures separator == COMMA ==> InStep(EndSegment(a), Decoded(), b0, remap, Last(outputCol))
      ensures separator == SEMICOLON ==> InStep(NextLine(EndSegment(a)), Decoded(), b0, remap, Last(0))
    {
      ghost var before, b, p := mappings.Contents(), Decoded(), Last(lastOutputCol);
      CommitInStep(c, a, b, b0, remap, p);
      Commit(c, lastOutputCol, remap);
      outputCol := if c.valpos > 0 then c.at.col else lastOutputCol;
      if c.valpos > 0 {
        FeedConcat(start, before, EncodeMapping(Committed(c, remap), p));
      }
      assert InStep(EndSegment(a), EndSegment(Decoded()), b0, remap, Last(outputCol));
      NextLineInStep(c.(valpos := 0), EndSegment(a), EndSegment(Decoded()), b0, remap, Last(outputCol));
      FeedSnoc(start, mappings.Contents(), separator);
      mappings.AddByte(separator);
    }

    /** One character of the input mappings, past the test that throws. */
    method CopyByte(b: byte, c: Cursor, lastOutputCol: int, remap: seq<nat>, ghost a: Decoder, ghost b0: Decoder)
      returns (c': Cursor, outputCol: int)
      requires Separate() && Follows(c, a) && InStep(a, Decoded(), b0, remap, Last(lastOutputCol))
      requires Feed(a, b).Decoder? && SegmentsInRange(Feed(a, b).segments, |remap|)
      requires forall i :: 0 <= i < |remap| ==> InRange(remap[i])
      modifies this`lastSourceIndex, this`lastSourceLine, this`lastSourceCol, mappings, mappings.buffer
      ensures Separate() && (mappings.buffer == old(mappings.buffer) || fresh(mappings.buffer))
      ensures outputBuffer.buffer == old(outputBuffer.buffer)
      ensures Follows(c', Feed(a, b)) && InStep(Feed(a, b), Decoded(), b0, remap, Last(outputCol))
    {
      if b == SEMICOLON {
        outputCol := WriteSeparator(c, lastOutputCol, remap, SEMICOLON, a, b0);
        outputCol := 0;
        c' := c.(valpos := 0, at := c.at.(col := 0), outputLine := c.outputLine + 1);
      } else if b == COMMA {
        outputCol := WriteSeparator(c, lastOutputCol, remap, COMMA, a, b0);
        c' := c.(valpos := 0);
      } else {
        outputCol := lastOutputCol;
        var digit := SixBits(b);
        if digit >= 32 {
          DigitContinues(c, a, digit);
          c' := c.(value := AddDigit(c.value, digit, c.shift), shift := c.shift + 5);
        } else {
          DigitEnds(c, a, digit);
          c' := AddField(c, Signed(AddDigit(c.value, digit, c.shift)));
        }
      }
    }

    /** The character at `ip`, which does not throw. */
    method CopyNext(input: seq<byte>, ip: nat, c: Cursor, lastOutputCol: int, remap: seq<nat>,
                    ghost first: Decoder, ghost a: Decoder, ghost b0: Decoder)
      returns (c': Cursor, outputCol: int)
      requires ip < |input| && ValidUpTo(input, ip) && !Invalid(input[ip])
      requires Readable(first, input, |remap|) && a == FeedAll(first, input[..ip])
      requires forall i :: 0 <= i < |remap| ==> InRange(remap[i])
      requires Separate() && Follows(c, a) && InStep(a, Decoded(), b0, remap, Last(lastOutputCol))
      modifies this`lastSourceIndex, this`lastSourceLine, this`lastSourceCol, mappings, mappings.buffer
      ensures Separate() && (mappings.buffer == old(mappings.buffer) || fresh(mappings.buffer))
      ensures outputBuffer.buffer == old(outputBuffer.buffer)
      ensures ValidUpTo(input, ip + 1) && Feed(a, input[ip]) == FeedAll(first, input[..ip + 1])
      ensures Follows(c', Feed(a, input[ip])) && InStep(Feed(a, input[ip]), Decoded(), b0, remap, Last(outputCol))
    {
      ReadNext(first, a, input, |remap|, ip);
      c', outputCol := CopyByte(input[ip], c, lastOutputCol, remap, a, b0);
    }

    /** The loop of `addSource` over the input mappings, and the `commit` after it. The cursor and the column
        are its locals as they start; `first` has read nothing. */
    method CopyMappings(input: seq<byte>, remap: seq<nat>, c0: Cursor, outputCol0: int, ghost first: Decoder)
      returns (ok: bool, outputLine: nat)
      requires Separate() && Follows(c0, first) && InStep(first, Decoded(), Decoded(), remap, Last(outputCol0))
      requires Readable(first, input, |remap|) && forall i :: 0 <= i < |remap| ==> InRange(remap[i])
      modifies this`lastSourceIndex, this`lastSourceLine, this`lastSourceCol, mappings, mappings.buffer
      ensures Separate() && (mappings.buffer == old(mappings.buffer) || fresh(mappings.buffer))
      ensures outputBuffer.buffer == old(outputBuffer.buffer)
      ensures ok <==> ValidUpTo(input, |input|)
      ensures ok ==> var a := EndSegment(FeedAll(first, input));
        a.Decoder? && outputLine == a.line && InStep(a, EndSegment(Decoded()), old(Decoded()), remap, Last(a.at.col))
      ensures ok ==> var a := FeedAll(first, input);
        a.Decoder? && Decoded().Decoder? && (a.fields == [] <==> Decoded().fields == [])
    {
      var c, lastOutputCol;
      ok, c, lastOutputCol := CopyLoop(input, remap, c0, outputCol0, first, Decoded());
      if ok {
        FinishCommit(c, lastOutputCol, remap, FeedAll(first, input), old(Decoded()));
      }
      outputLine := c.outputLine;
    }

    method CopyLoop(input: seq<byte>, remap: seq<nat>, c0: Cursor, outputCol0: int, ghost first: Decoder, ghost b0: Decoder)
      returns (ok: bool, c: Cursor, lastOutputCol: int)
      requires Separate() && Follows(c0, first) && InStep(first, Decoded(), b0, remap, Last(outputCol0))
      requires Readable(first, input, |remap|) && forall i :: 0 <= i < |remap| ==> InRange(remap[i])
      modifies this`lastSourceIndex, this`lastSourceLine, this`lastSourceCol, mappings, mappings.buffer
      ensures Separate() && (mappings.buffer == old(mappings.buffer) || fresh(mappings.buffer))
      ensures outputBuffer.buffer == old(outputBuffer.buffer)
      ensures ok <==> ValidUpTo(input, |input|)
      ensures ok ==> var a := FeedAll(first, input); Follows(c, a) && InStep(a, Decoded(), b0, remap, Last(lastOutputCol))
    {
      ghost var a := first;
      c, lastOutputCol := c0, outputCol0;
      var ip := 0;
      while ip < |input|
        invariant 0 <= ip <= |input| && ValidUpTo(input, ip) && a == FeedAll(first, input[..ip])
        invariant Separate() && (mappings.buffer == old(mappings.buffer) || fresh(mappings.buffer))
        invariant outputBuffer.buffer == old(outputBuffer.buffer)
        invariant Follows(c, a) && InStep(a, Decoded(), b0, remap, Last(lastOutputCol))
      {
        if Invalid(input[ip]) {
          return false, c, lastOutputCol;
        }
        c, lastOutputCol := CopyNext(input, ip, c, lastOutputCol, remap, first, a, b0);
        a, ip := Feed(a, input[ip]), ip + 1;
      }
      assert input[..ip] == input;
      ok := true;
    }

    /** The loop, with the locals of `addSource` as they start. */
    method CopySource(input: seq<byte>, remap: seq<nat>) returns (ok: bool, outputLine: nat)
      requires Separate() && Decoded().Idle() && Decoded().standard && Decoded().at == Last(0) && InRangeAt(Last(0))
      requires Readable(START, input, |remap|) && forall i :: 0 <= i < |remap| ==> InRange(remap[i])
      modifies this`lastSourceIndex, this`lastSourceLine, this`lastSourceCol, mappings, mappings.buffer
      ensures Separate() && (mappings.buffer == old(mappings.buffer) || fresh(mappings.buffer))
      ensures outputBuffer.buffer == old(outputBuffer.buffer)
      ensures ok <==> ValidUpTo(input, |input|)
      ensures ok ==> var a := Decode(input);
        a.Decoder? && outputLine == a.line && InStep(a, EndSegment(Decoded()), old(Decoded()), remap, Last(a.at.col))
      ensures ok ==> var a := FeedAll(START, input);
        a.Decoder? && Decoded().Decoder? && (a.fields == [] <==> Decoded().fields == [])
    {
      var c, lastOutputCol := StartCopy(remap, Decoded());
      ok, outputLine := CopyMappings(input, remap, c, lastOutputCol, START);
    }

    /** Where they start. */
    method StartCopy(remap: seq<nat>, ghost b0: Decoder) returns (c: Cursor, lastOutputCol: int)
      requires Separate() && b0.Idle() && b0.standard && b0.at == Last(0) && InRangeAt(Last(0))
      ensures Follows(c, START) && InStep(START, b0, b0, remap, Last(lastOutputCol))
    {
      c := Cursor(0, ORIGIN, 0, 0, 0);
      lastOutputCol := 0;
      StartInStep(c, b0, remap, Last(0));
    }

    static lemma StartInStep(c: Cursor, b0: Decoder, remap: seq<nat>, p: Position)
      requires c == Cursor(0, ORIGIN, 0, 0, 0) && b0.Idle() && b0.standard && b0.at == p && InRangeAt(p) && p.col == 0
      ensures Follows(c, START) && InStep(START, b0, b0, remap, p)
    {
      assert b0.segments == b0.segments + RemapAll([], remap, b0.line);
    }

    /** The `commit` after the loop; the lines that follow close its segment. */
    method FinishCommit(c: Cursor, lastOutputCol: int, remap: seq<nat>, ghost a: Decoder, ghost b0: Decoder)
      requires Separate() && Follows(c, a) && InStep(a, Decoded(), b0, remap, Last(lastOutputCol))
      requires EndSegment(a).Decoder? && SegmentsInRange(EndSegment(a).segments, |remap|)
      requires forall i :: 0 <= i < |remap| ==> InRange(remap[i])
      modifies this`lastSourceIndex, this`lastSourceLine, this`lastSourceCol, mappings, mappings.buffer
      ensures Separate() && (mappings.buffer == old(mappings.buffer) || fresh(mappings.buffer))
      ensures outputBuffer.buffer == old(outputBuffer.buffer)
      ensures c.outputLine == EndSegment(a).line && Decoded().Decoder? && (a.fields == [] <==> Decoded().fields == [])
      ensures InStep(EndSegment(a), EndSegment(Decoded()), b0, remap, Last(EndSegment(a).at.col))
    {
      ghost var before, b, p := mappings.Contents(), Decoded(), Last(lastOutputCol);
      CommitInStep(c, a, b, b0, remap, p);
      Commit(c, lastOutputCol, remap);
      if c.valpos > 0 {
        FeedConcat(start, before, EncodeMapping(Committed(c, remap), p));
      }
    }

    /** The loop that gives every line of the content a line of mappings. The first semicolon closes the
        last segment. */
    method PadLines(outputLine: nat, sourceLines: nat)
      requires Separate() && EndSegment(Decoded()).Decoder?
      modifies mappings, mappings.buffer
      ensures Separate() && (mappings.buffer == old(mappings.buffer) || fresh(mappings.buffer))
      ensures outputBuffer.buffer == old(outputBuffer.buffer)
      ensures outputLine >= sourceLines ==> Decoded() == old(Decoded())
      ensures outputLine < sourceLines ==> Decoded() == Lower(EndSegment(old(Decoded())), sourceLines - outputLine)
    {
      ghost var t := EndSegment(Decoded());
      var line := outputLine;
      while line < sourceLines
        invariant outputLine < sourceLines ==> outputLine <= line <= sourceLines
        invariant line == outputLine || line <= sourceLines
        invariant Separate() && (mappings.buffer == old(mappings.buffer) || fresh(mappings.buffer))
        invariant outputBuffer.buffer == old(outputBuffer.buffer)
        invariant line > outputLine ==> Decoded() == Lower(t, line - outputLine)
        invariant line <= outputLine ==> line == outputLine && Decoded() == old(Decoded())
      {
        EmptyLine();
        line := line + 1;
      }
    }

    /** The start of the n-th line from here on. */
    static ghost function Lower(d: Decoder, n: nat): Decoder
      requires d.Decoder?
    {
      d.(line := d.line + n, at := d.at.(col := 0))
    }

    /** Whether the line of the mappings is the line of the text again. */
    lemma InLine(b: Decoder, a: Decoder, d: Decoder, b0: Decoder, remap: seq<nat>, sourceLines: nat, p: Position)
      requires d.Decoder? && a == EndSegment(d) && InStep(a, EndSegment(b), b0, remap, p) && b.Decoder?
      requires d.fields == [] <==> b.fields == []
      ensures var after := if a.line < sourceLines then Lower(EndSegment(b), sourceLines - a.line) else b;
        (after.Idle() && after.at.col == 0 && after.line == b0.line + sourceLines)
        <==> a.line < sourceLines || (a.line == sourceLines && d.fields == [] && d.at.col == 0)
    {
    }

    /** Appends a source: its text, and its mappings moved below the lines already there. The decoded
        result names the same sources at the same places; names of identifiers are dropped. `universe` holds
        every source name that the builder will meet. Returns false where the original throws, leaving
        the mappings half written. Mappings and text stay line by line if and only if the mappings fit. */
    method AddSource(source: Source, ghost universe: set<string>) returns (ok: bool)
      requires Valid() && Readable(START, source.mappings, |source.sources|) && source.sourceLines == Newlines(source.content)
      requires |universe| <= 0x4000_0000
      requires forall i :: 0 <= i < |sources| ==> sources[i] in universe
      requires forall i :: 0 <= i < |source.sources| ==> source.sources[i] in universe
      modifies this, outputBuffer, outputBuffer.buffer, mappings, mappings.buffer
      ensures ok <==> ValidUpTo(source.mappings, |source.mappings|)
      ensures fresh(Repr() - old(Repr())) && forall i :: 0 <= i < |sources| ==> sources[i] in universe
      ensures Separate() && outputBuffer.Contents() == old(outputBuffer.Contents()) + source.content
      ensures ok ==> Holds(old(Meaning()) + Name(Decode(source.mappings).segments, source.sources, old(Lines())))
      ensures ok ==> (Valid() <==> Fits(source))
      ensures ok && Fits(source) ==> Lines() == old(Lines()) + source.sourceLines
      ensures ok && Fits(source) ==>
        Meaning() == old(Meaning()) + Name(Decode(source.mappings).segments, source.sources, old(Lines()))
    {
      ghost var text, b0, names := outputBuffer.Contents(), Decoded(), sources;
      outputBuffer.AddBuffer(source.content);
      NewlinesConcat(text, source.content);
      var remap := RemapSources(source.sources, universe);
      DistinctFits(sources, universe);
      var outputLine;
      ok, outputLine := CopySource(source.mappings, remap);
      if ok {
        ghost var a := Decode(source.mappings);
        NameStacked(b0.segments, a.segments, remap, b0.line, source.sources, names, sources);
        FinishLines(source, outputLine, b0, remap);
      }
    }

    /** The padding, and where it leaves the mappings. */
    method FinishLines(source: Source, outputLine: nat, ghost b0: Decoder, ghost remap: seq<nat>)
      requires Separate() && FeedAll(START, source.mappings).Decoder? && Decode(source.mappings).Decoder?
      requires Decoded().Decoder? && (FeedAll(START, source.mappings).fields == [] <==> Decoded().fields == [])
      requires var a := Decode(source.mappings);
        outputLine == a.line && InStep(a, EndSegment(Decoded()), b0, remap, Last(a.at.col))
      modifies mappings, mappings.buffer
      ensures Separate() && (mappings.buffer == old(mappings.buffer) || fresh(mappings.buffer))
      ensures outputBuffer.buffer == old(outputBuffer.buffer)
      ensures Decoded().Decoder? && EndSegment(Decoded()).Decoder? && EndSegment(Decoded()).standard
      ensures EndSegment(Decoded()).segments == EndSegment(old(Decoded())).segments
      ensures Fits(source) <==>
        Decoded().Idle() && Decoded().at == Last(0) && Decoded().line == b0.line + source.sourceLines
    {
      ghost var a := Decode(source.mappings);
      InLine(Decoded(), a, FeedAll(START, source.mappings), b0, remap, source.sourceLines, Last(a.at.col));
      PadLines(outputLine, source.sourceLines);
    }
  }
}
