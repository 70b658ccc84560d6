/** Streaming frame extraction: the msgpack decoder over a growing buffer, and the receive loop that
    drains it after every read. The object parser is a parameter. */
module Framing {
  import opened Wrappers
  import Sequences

  /** What parsing one object from the start of a buffer gives: the object and the bytes it took, an
      unexpected end of input, or any other error. */
  datatype ParseResult<T> = Done(obj: T, len: nat) | Incomplete | Invalid

  type Parser<!T> = seq<byte> -> ParseResult<T>

  datatype Frame<T> = Frame(obj: T, vec: seq<byte>)

  /** The frames found in order, the bytes not used, and whether an error ended the loop. */
  datatype Outcome<T> = Outcome(frames: seq<Frame<T>>, leftover: seq<byte>, failed: bool)

  /** An object takes at least one byte of the buffer, and nothing can be read from an empty one. */
  ghost predicate Sized<T>(parse: Parser<T>) {
    parse([]).Incomplete? && forall b :: parse(b).Done? ==> 0 < parse(b).len <= |b|
  }

  /** A verdict does not change when more bytes arrive. */
  ghost predicate PrefixDeterministic<T>(parse: Parser<T>) {
    forall b, more :: !parse(b).Incomplete? ==> parse(b + more) == parse(b)
  }

  /** The frames of a whole buffer. */
  ghost function Drain<T>(parse: Parser<T>, b: seq<byte>): Outcome<T>
    requires Sized(parse)
    decreases |b|
  {
    match parse(b)
    case Incomplete => Outcome([], b, false)
    case Invalid => Outcome([], b, true)
    case Done(obj, len) => Preceded([Frame(obj, b[..len])], Drain(parse, b[len..]))
  }

  ghost function Preceded<T>(frames: seq<Frame<T>>, o: Outcome<T>): Outcome<T> {
    Outcome(frames + o.frames, o.leftover, o.failed)
  }

  /** The frames when the bytes arrive in chunks, and every chunk is drained before the next is read. */
  ghost function DrainChunks<T>(parse: Parser<T>, buffer: seq<byte>, chunks: seq<seq<byte>>): Outcome<T>
    requires Sized(parse)
    decreases |chunks|
  {
    if chunks == [] then Outcome([], buffer, false)
    else
      var first := Drain(parse, buffer + chunks[0]);
      if first.failed then first else Preceded(first.frames, DrainChunks(parse, first.leftover, chunks[1..]))
  }

  lemma DrainNext<T>(parse: Parser<T>, buffer: seq<byte>, chunks: seq<seq<byte>>, i: nat)
    requires Sized(parse) && i < |chunks|
    ensures var first := Drain(parse, buffer + chunks[i]);
      DrainChunks(parse, buffer, chunks[i..]) ==
        if first.failed then first else Preceded(first.frames, DrainChunks(parse, first.leftover, chunks[i + 1..]))
  {
  }

  function Concat(chunks: seq<seq<byte>>): seq<byte> {
    if chunks == [] then [] else chunks[0] + Concat(chunks[1..])
  }

  function Bytes<T>(frames: seq<Frame<T>>): seq<byte> {
    if frames == [] then [] else frames[0].vec + Bytes(frames[1..])
  }

  /** The same frames and the same error; after an error the buffer does not matter. */
  ghost predicate Agree<T>(a: Outcome<T>, b: Outcome<T>) {
    a.frames == b.frames && a.failed == b.failed && (!a.failed ==> a.leftover == b.leftover)
  }

  /** Draining what is left when more bytes arrive continues as if they had been there from the start. */
  lemma {:induction false} DrainMore<T>(parse: Parser<T>, b: seq<byte>, more: seq<byte>)
    requires Sized(parse) && PrefixDeterministic(parse)
    ensures var first := Drain(parse, b);
      Agree(Drain(parse, b + more),
            if first.failed then first else Preceded(first.frames, Drain(parse, first.leftover + more)))
    decreases |b|
  {
    match parse(b)
    case Incomplete =>
    case Invalid => assert parse(b + more).Invalid?;
    case Done(obj, len) =>
      assert parse(b + more) == parse(b);
      assert (b + more)[len..] == b[len..] + more && (b + more)[..len] == b[..len];
      DrainMore(parse, b[len..], more);
      var frame, rest := [Frame(obj, b[..len])], Drain(parse, b[len..]);
      if !rest.failed {
        Sequences.Associate(frame, rest.frames, Drain(parse, rest.leftover + more).frames);
      }
  }

  lemma {:induction false} LeftoverIncomplete<T>(parse: Parser<T>, b: seq<byte>)
    requires Sized(parse)
    ensures !Drain(parse, b).failed ==> parse(Drain(parse, b).leftover).Incomplete?
    decreases |b|
  {
    if parse(b).Done? {
      LeftoverIncomplete(parse, b[parse(b).len..]);
    }
  }

  /** Frames do not depend on how the stream was cut into chunks. */
  lemma {:induction false} ChunkingIrrelevant<T>(parse: Parser<T>, buffer: seq<byte>, chunks: seq<seq<byte>>)
    requires Sized(parse) && PrefixDeterministic(parse) && parse(buffer).Incomplete?
    ensures Agree(DrainChunks(parse, buffer, chunks), Drain(parse, buffer + Concat(chunks)))
    decreases |chunks|
  {
    if chunks == [] {
      assert buffer + [] == buffer;
    } else {
      var now, later := buffer + chunks[0], Concat(chunks[1..]);
      assert buffer + Concat(chunks) == now + later;
      DrainMore(parse, now, later);
      LeftoverIncomplete(parse, now);
      var first := Drain(parse, now);
      if !first.failed {
        ChunkingIrrelevant(parse, first.leftover, chunks[1..]);
      }
    }
  }

  /** A stream cut at two different sets of places gives the same result. */
  ghost predicate Independent<T>(parse: Parser<T>)
    requires Sized(parse)
  {
    forall left, right :: Concat(left) == Concat(right) ==>
      Agree(DrainChunks(parse, [], left), DrainChunks(parse, [], right))
  }

  /** The law on the parser is exactly what makes framing independent of chunking. */
  lemma IndependentExactly<T>(parse: Parser<T>)
    requires Sized(parse)
    ensures Independent(parse) <==> PrefixDeterministic(parse)
  {
    if PrefixDeterministic(parse) {
      forall left, right | Concat(left) == Concat(right)
        ensures Agree(DrainChunks(parse, [], left), DrainChunks(parse, [], right))
      {
        ChunkingIrrelevant(parse, [], left);
        ChunkingIrrelevant(parse, [], right);
      }
    }
    if Independent(parse) {
      forall b, more | !parse(b).Incomplete? ensures parse(b + more) == parse(b) {
        VerdictStands(parse, b, more);
      }
    }
  }

  lemma VerdictStands<T>(parse: Parser<T>, b: seq<byte>, more: seq<byte>)
    requires Sized(parse) && Independent(parse) && !parse(b).Incomplete?
    ensures parse(b + more) == parse(b)
  {
    SameConcat(b, more);
    var cut, whole := DrainChunks(parse, [], [b] + [more]), DrainChunks(parse, [], [b + more] + []);
    assert Agree(cut, whole);
    FirstVerdict(parse, b, [more]);
    FirstVerdict(parse, b + more, []);
    if parse(b).Done? {
      assert |cut.frames[0].vec| == parse(b).len;
      assert |whole.frames[0].vec| == parse(b + more).len;
    }
  }

  lemma SameConcat(b: seq<byte>, more: seq<byte>)
    ensures Concat([b] + [more]) == Concat([b + more] + [])
  {
    assert ([b] + [more])[1..] == [more] && [more][1..] == [];
    assert ([b + more] + [])[1..] == [];
    assert Concat([more]) == more + Concat([]) == more;
  }

  /** The first chunk's first verdict shows in the outcome. */
  lemma FirstVerdict<T>(parse: Parser<T>, b: seq<byte>, chunks: seq<seq<byte>>)
    requires Sized(parse)
    ensures var o := DrainChunks(parse, [], [b] + chunks);
      match parse(b)
      case Done(obj, len) => |o.frames| > 0 && o.frames[0] == Frame(obj, b[..len])
      case Invalid => o.frames == [] && o.failed
      case Incomplete => chunks == [] ==> o.frames == [] && !o.failed
  {
    assert [] + b == b;
    assert ([b] + chunks)[1..] == chunks;
  }

  lemma BytesPreceded<T>(frame: Frame<T>, frames: seq<Frame<T>>)
    ensures Bytes([frame] + frames) == frame.vec + Bytes(frames)
  {
  }

  lemma BytesAppend<T>(a: seq<Frame<T>>, b: seq<Frame<T>>)
    ensures Bytes(a + b) == Bytes(a) + Bytes(b)
    decreases |a|
  {
    if a == [] {
      assert a + b == b;
    } else {
      assert (a + b)[1..] == a[1..] + b;
      BytesAppend(a[1..], b);
    }
  }

  lemma Reassemble(b: seq<byte>, len: nat, used: seq<byte>, leftover: seq<byte>)
    requires len <= |b| && used + leftover == b[len..]
    ensures (b[..len] + used) + leftover == b
  {
  }

  /** No byte of the buffer is lost, doubled or moved. */
  lemma {:induction false} DrainConserves<T>(parse: Parser<T>, b: seq<byte>)
    requires Sized(parse)
    ensures Bytes(Drain(parse, b).frames) + Drain(parse, b).leftover == b
    decreases |b|
  {
    if parse(b).Done? {
      var len := parse(b).len;
      var rest := Drain(parse, b[len..]);
      DrainConserves(parse, b[len..]);
      BytesPreceded(Frame(parse(b).obj, b[..len]), rest.frames);
      Reassemble(b, len, Bytes(rest.frames), rest.leftover);
    }
  }

  /** The bytes of all frames, then the buffer, are the bytes received: all of them without an error. */
  lemma {:induction false} ChunksConserve<T>(parse: Parser<T>, buffer: seq<byte>, chunks: seq<seq<byte>>)
    requires Sized(parse)
    ensures var o := DrainChunks(parse, buffer, chunks);
      Bytes(o.frames) + o.leftover <= buffer + Concat(chunks)
      && (!o.failed ==> Bytes(o.frames) + o.leftover == buffer + Concat(chunks))
    decreases |chunks|
  {
    if chunks != [] {
      var now, later := buffer + chunks[0], Concat(chunks[1..]);
      Sequences.Associate(buffer, chunks[0], later);
      var first := Drain(parse, now);
      DrainConserves(parse, now);
      if !first.failed {
        ChunksConserve(parse, first.leftover, chunks[1..]);
        Glue(first, DrainChunks(parse, first.leftover, chunks[1..]), now, later);
      }
    }
  }

  lemma Glue<T>(first: Outcome<T>, rest: Outcome<T>, now: seq<byte>, later: seq<byte>)
    requires Bytes(first.frames) + first.leftover == now
    requires Bytes(rest.frames) + rest.leftover <= first.leftover + later
    ensures var o := Preceded(first.frames, rest); Bytes(o.frames) + o.leftover <= now + later
    ensures Bytes(rest.frames) + rest.leftover == first.leftover + later ==>
      var o := Preceded(first.frames, rest); Bytes(o.frames) + o.leftover == now + later
  {
    var head := Bytes(first.frames);
    BytesAppend(first.frames, rest.frames);
    Sequences.Associate(head, Bytes(rest.frames), rest.leftover);
    Sequences.Associate(head, first.leftover, later);
    PrefixUnder(head, Bytes(rest.frames) + rest.leftover, first.leftover + later);
  }

  lemma PrefixUnder<T>(a: seq<T>, b: seq<T>, c: seq<T>)
    requires b <= c
    ensures a + b <= a + c
  {
  }

  /** `encode` writes objects that the parser reads back, whatever follows them. */
  ghost predicate Inverse<T(!new)>(encode: T -> seq<byte>, parse: Parser<T>) {
    forall obj, more :: parse(encode(obj) + more) == Done(obj, |encode(obj)|)
  }

  function Encoded<T>(encode: T -> seq<byte>, objs: seq<T>): seq<byte> {
    if objs == [] then [] else encode(objs[0]) + Encoded(encode, objs[1..])
  }

  function Frames<T>(encode: T -> seq<byte>, objs: seq<T>): seq<Frame<T>> {
    seq(|objs|, i requires 0 <= i < |objs| => Frame(objs[i], encode(objs[i])))
  }

  /** Objects written one after another, with a started one behind them, come out as they went in. */
  lemma {:induction false} EncodedDrains<T(!new)>(encode: T -> seq<byte>, parse: Parser<T>, objs: seq<T>, tail: seq<byte>)
    requires Sized(parse) && Inverse(encode, parse) && parse(tail).Incomplete?
    ensures Drain(parse, Encoded(encode, objs) + tail) == Outcome(Frames(encode, objs), tail, false)
    decreases |objs|
  {
    if objs == [] {
      assert Encoded(encode, objs) + tail == tail;
    } else {
      var head, rest := encode(objs[0]), Encoded(encode, objs[1..]) + tail;
      assert Encoded(encode, objs) + tail == head + rest;
      assert (head + rest)[|head|..] == rest && (head + rest)[..|head|] == head;
      EncodedDrains(encode, parse, objs[1..], tail);
      assert [Frame(objs[0], head)] + Frames(encode, objs[1..]) == Frames(encode, objs);
    }
  }

  /** Messages sent and cut anywhere on the way arrive whole, in order and once each. */
  lemma MessagesArrive<T(!new)>(encode: T -> seq<byte>, parse: Parser<T>, objs: seq<T>, tail: seq<byte>, chunks: seq<seq<byte>>)
    requires Sized(parse) && PrefixDeterministic(parse) && Inverse(encode, parse) && parse(tail).Incomplete?
    requires Concat(chunks) == Encoded(encode, objs) + tail
    ensures DrainChunks(parse, [], chunks) == Outcome(Frames(encode, objs), tail, false)
  {
    ChunkingIrrelevant(parse, [], chunks);
    EncodedDrains(encode, parse, objs, tail);
    assert [] + Concat(chunks) == Concat(chunks);
  }

  class BytesMut {
    var bytes: seq<byte>

    constructor ()
      ensures bytes == []
    {
      bytes := [];
    }

    method Extend(more: seq<byte>)
      modifies this
      ensures bytes == old(bytes) + more
    {
      bytes := bytes + more;
    }

    method Advance(len: nat)
      requires len <= |bytes|
      modifies this
      ensures bytes == old(bytes)[len..]
    {
      bytes := bytes[len..];
    }
  }

  datatype Decoded<T> = Read(frame: Frame<T>) | NeedMore | BadData

  class MsgPackCodec<T> {
    const parse: Parser<T>

    constructor (parse: Parser<T>)
      ensures this.parse == parse
    {
      this.parse := parse;
    }

    /** One frame off the front of the buffer; without one the buffer stays. */
    method Decode(src: BytesMut) returns (r: Decoded<T>)
      requires Sized(parse)
      modifies src
      ensures var o := Drain(parse, old(src.bytes));
        match r
        case Read(frame) => Preceded([frame], Drain(parse, src.bytes)) == o && |src.bytes| < |old(src.bytes)|
        case NeedMore => o == Outcome([], src.bytes, false) && src.bytes == old(src.bytes)
        case BadData => o == Outcome([], src.bytes, true) && src.bytes == old(src.bytes)
    {
      match parse(src.bytes)
      case Incomplete => r := NeedMore;
      case Invalid => r := BadData;
      case Done(obj, len) =>
        var vec := src.bytes[..len];
        src.Advance(len);
        r := Read(Frame(obj, vec));
    }
  }

  /** The reading arm of the connection's loop. */
  class Connection<T> {
    const decoder: MsgPackCodec<T>
    const decoderBuf: BytesMut
    /** Frames handed to the dispatcher. */
    var dispatched: seq<Frame<T>>

    constructor (parse: Parser<T>)
      requires Sized(parse)
      ensures decoder.parse == parse && dispatched == [] && decoderBuf.bytes == [] && fresh(decoderBuf)
    {
      decoder := new MsgPackCodec(parse);
      decoderBuf := new BytesMut();
      dispatched := [];
    }

    method DrainBuffer() returns (ok: bool)
      requires Sized(decoder.parse)
      modifies this, decoderBuf
      ensures var o := Drain(decoder.parse, old(decoderBuf.bytes));
        dispatched == old(dispatched) + o.frames && decoderBuf.bytes == o.leftover && ok == !o.failed
    {
      while true
        invariant Preceded(dispatched, Drain(decoder.parse, decoderBuf.bytes))
               == Preceded(old(dispatched), Drain(decoder.parse, old(decoderBuf.bytes)))
        decreases |decoderBuf.bytes|
      {
        ghost var before := dispatched;
        var frame := decoder.Decode(decoderBuf);
        match frame
        case NeedMore => return true;
        case BadData => return false;
        case Read(f) =>
          dispatched := dispatched + [f];
          Sequences.Associate(before, [f], Drain(decoder.parse, decoderBuf.bytes).frames);
      }
    }

    /** Reads the chunks one by one until the first error. */
    method Run(chunks: seq<seq<byte>>) returns (ok: bool)
      requires Sized(decoder.parse)
      modifies this, decoderBuf
      ensures var o := DrainChunks(decoder.parse, old(decoderBuf.bytes), chunks);
        dispatched == old(dispatched) + o.frames && decoderBuf.bytes == o.leftover && ok == !o.failed
    {
      var i := 0;
      assert chunks[0..] == chunks;
      while i < |chunks|
        invariant 0 <= i <= |chunks|
        invariant Preceded(dispatched, DrainChunks(decoder.parse, decoderBuf.bytes, chunks[i..]))
               == Preceded(old(dispatched), DrainChunks(decoder.parse, old(decoderBuf.bytes), chunks))
      {
        ghost var buffer, before := decoderBuf.bytes, dispatched;
        ghost var first := Drain(decoder.parse, buffer + chunks[i]);
        DrainNext(decoder.parse, buffer, chunks, i);
        decoderBuf.Extend(chunks[i]);
        ok := DrainBuffer();
        if !ok {
          return;
        }
        i := i + 1;
        Sequences.Associate(before, first.frames, DrainChunks(decoder.parse, decoderBuf.bytes, chunks[i..]).frames);
      }
      assert chunks[i..] == [];
      ok := true;
    }
  }
}
