/** The growing byte buffer that the source-map builder writes to. */
module DynamicBuffers {
  import opened Wrappers
  import opened Vlq
  import Sequences

  class DynamicBuffer {
    var buffer: array<byte>
    var size: nat

    ghost predicate Valid()
      reads this
    {
      size <= buffer.Length
    }

    ghost function Contents(): seq<byte>
      reads this, buffer
      requires Valid()
    {
      buffer[..size]
    }

    constructor ()
      ensures Valid() && fresh(buffer) && Contents() == []
    {
      buffer := new byte[512](_ => 0);
      size := 0;
    }

    /** Reallocates at least twofold when the capacity is short; what was written stays. */
    method EnsureCapacity(capacity: nat)
      requires Valid()
      modifies this`buffer
      ensures Valid() && buffer.Length >= capacity && (buffer == old(buffer) || fresh(buffer))
      ensures Contents() == old(Contents())
    {
      if buffer.Length >= capacity {
        return;
      }
      var length := if buffer.Length * 2 >= capacity then buffer.Length * 2 else capacity;
      var grown := new byte[length](_ => 0);
      for i := 0 to buffer.Length
        invariant buffer == old(buffer) && buffer[..] == old(buffer[..])
        invariant grown[..i] == buffer[..i]
      {
        grown[i] := buffer[i];
      }
      buffer := grown;
    }

    method AddByte(b: byte)
      requires Valid()
      modifies this, buffer
      ensures Valid() && (buffer == old(buffer) || fresh(buffer))
      ensures Contents() == old(Contents()) + [b]
    {
      EnsureCapacity(size + 1);
      buffer[size] := b;
      size := size + 1;
    }

    /** Writes num as a base64 variable-length quantity. */
    method AddVLQ(num: int)
      requires Valid()
      modifies this, buffer
      ensures Valid() && (buffer == old(buffer) || fresh(buffer))
      ensures Contents() == old(Contents()) + Encode(num)
    {
      var rest := Zigzag(num);
      ghost var digits := [];
      var more := true;
      while more
        invariant Valid() && (buffer == old(buffer) || fresh(buffer))
        invariant more ==> digits + Digits(rest) == Digits(Zigzag(num))
        invariant !more ==> digits == Digits(Zigzag(num))
        invariant Contents() == old(Contents()) + Chars(digits)
        decreases more, if rest > 0 then rest else 0
      {
        var clamped: digit := rest % 32;
        ghost var v := rest;
        rest := rest / 32;
        if rest > 0 {
          clamped := clamped + 32;
        }
        AddByte(IntegerToChar(clamped));
        NextDigit(digits, v, clamped);
        digits := digits + [clamped];
        more := rest > 0;
      }
    }

    method AddBuffer(b: seq<byte>)
      requires Valid()
      modifies this, buffer
      ensures Valid() && (buffer == old(buffer) || fresh(buffer))
      ensures Contents() == old(Contents()) + b
    {
      EnsureCapacity(size + |b|);
      for i := 0 to |b|
        invariant Valid() && size == old(size) && size + |b| <= buffer.Length && (buffer == old(buffer) || fresh(buffer))
        invariant buffer[..size + i] == old(Contents()) + b[..i]
      {
        buffer[size + i] := b[i];
        assert buffer[..size + (i + 1)] == buffer[..size + i] + [b[i]];
        Grow(old(Contents()), b, i);
      }
      assert b[..|b|] == b;
      size := size + |b|;
    }

    static lemma Grow(s: seq<byte>, b: seq<byte>, i: nat)
      requires i < |b|
      ensures s + b[..i] + [b[i]] == s + b[..i + 1]
    {
    }

    method ToBuffer() returns (bytes: seq<byte>)
      requires Valid()
      ensures bytes == Contents()
    {
      bytes := buffer[..size];
    }
  }

  /** One round of the loop that writes the digits of v. */
  lemma NextDigit(digits: seq<digit>, v: int, d: digit)
    requires d == if v / 32 > 0 then v % 32 + 32 else v % 32
    ensures v / 32 > 0 ==> (digits + [d]) + Digits(v / 32) == digits + Digits(v)
    ensures v / 32 <= 0 ==> digits + [d] == digits + Digits(v)
    ensures Chars(digits + [d]) == Chars(digits) + [IntegerToChar(d)]
  {
    CharsSnoc(digits, d);
    if v / 32 > 0 {
      assert Digits(v) == [d] + Digits(v / 32);
      Sequences.Associate(digits, [d], Digits(v / 32));
    } else {
      assert Digits(v) == [d];
    }
  }

  lemma {:induction false} CharsSnoc(digits: seq<digit>, d: digit)
    ensures Chars(digits + [d]) == Chars(digits) + [IntegerToChar(d)]
  {
    if digits != [] {
      CharsSnoc(digits[1..], d);
      assert (digits + [d])[1..] == digits[1..] + [d];
    }
  }
}
