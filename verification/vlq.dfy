/** Base64 variable-length quantities under JavaScript's 32-bit shifts. */
module Vlq {
  import opened Wrappers

  type digit = d: int | 0 <= d < 64

  /** x moved up by k bits, without wrapping. */
  function Doubled(x: int, k: nat): (r: int)
    ensures x >= 0 ==> r >= x
    decreases k
  {
    if k == 0 then x else 2 * Doubled(x, k - 1)
  }

  /** x moved down by k bits, rounding down. */
  function Halved(x: int, k: nat): int
    decreases k
  {
    if k == 0 then x else Halved(x / 2, k - 1)
  }

  /** JavaScript's ToInt32, and the shifts built on it. */
  function ToInt32(x: int): int {
    var m := x % 0x1_0000_0000;
    if m < 0x8000_0000 then m else m - 0x1_0000_0000
  }

  function Shl(x: int, k: nat): int {
    ToInt32(Doubled(ToInt32(x), k % 32))
  }

  function Shr(x: int, k: nat): int {
    Halved(ToInt32(x), k % 32)
  }

  // ----- The digit alphabet: section 4 of RFC 4648, and '=' as a 65th character -----

  function IntegerToChar(d: digit): byte {
    if d < 26 then d + 65
    else if d < 52 then d - 26 + 97
    else if d < 62 then d - 52 + 48
    else if d == 62 then 43 else 47
  }

  function CharToInteger(b: byte): byte {
    if 65 <= b <= 90 then b - 65
    else if 97 <= b <= 122 then b - 97 + 26
    else if 48 <= b <= 57 then b - 48 + 52
    else if b == 43 then 62
    else if b == 47 then 63
    else if b == 61 then 64
    else 255
  }

  /** The bits of a character that the decoder looks at: those of '=' are zero. */
  function SixBits(b: byte): digit
    requires CharToInteger(b) != 255
  {
    if CharToInteger(b) == 64 then 0 else CharToInteger(b)
  }

  /** The digits are A to Z, a to z, 0 to 9, + and /. */
  lemma Alphabet(d: digit)
    ensures d < 26 ==> IntegerToChar(d) == 'A' as int + d
    ensures 26 <= d < 52 ==> IntegerToChar(d) == 'a' as int + (d - 26)
    ensures 52 <= d < 62 ==> IntegerToChar(d) == '0' as int + (d - 52)
    ensures d == 62 ==> IntegerToChar(d) == '+' as int
    ensures d == 63 ==> IntegerToChar(d) == '/' as int
  {
  }

  lemma AlphabetInverse(d: digit)
    ensures CharToInteger(IntegerToChar(d)) != 255 && SixBits(IntegerToChar(d)) == d
    ensures CharToInteger(IntegerToChar(d)) == d
    ensures IntegerToChar(d) != 59 && IntegerToChar(d) != 44 && IntegerToChar(d) != 61
  {
  }

  // ----- Encoding -----

  /** The sign moves to the lowest bit; `-num << 1 | 1` and `num << 1` wrap at 32 bits. */
  function Zigzag(num: int): int {
    if num < 0 then Shl(-num, 1) + 1 else Shl(num, 1)
  }

  /** The digits the do-while loop of `addVLQ` writes, low end first. */
  function Digits(v: int): (ds: seq<digit>)
    ensures |ds| > 0
    decreases if v > 0 then v else 0
  {
    var rest := v / 32;
    if rest > 0 then [v % 32 + 32] + Digits(rest) else [v % 32]
  }

  function Chars(digits: seq<digit>): (s: seq<byte>)
    ensures |s| == |digits|
  {
    if digits == [] then [] else [IntegerToChar(digits[0])] + Chars(digits[1..])
  }

  function Encode(num: int): seq<byte> {
    Chars(Digits(Zigzag(num)))
  }

  // ----- The inline decoder of `addSource` -----

  /** One more digit: the five low bits go in at the current shift. */
  function AddDigit(value: int, digit: nat, shift: nat): int {
    value + Shl(digit % 32, shift)
  }

  /** The end of a number: the lowest bit is the sign. */
  function Signed(value: int): int {
    if ToInt32(value) % 2 == 1 then -Shr(value, 1) else Shr(value, 1)
  }

  /** The digits of one number from the front of `s`: their value and how many characters they took. */
  function ReadRaw(s: seq<byte>, value: int, shift: nat): Option<(int, nat)> {
    if s == [] || CharToInteger(s[0]) == 255 then None
    else
      var digit := SixBits(s[0]);
      var value' := AddDigit(value, digit, shift);
      if digit < 32 then Some((value', 1))
      else
        match ReadRaw(s[1..], value', shift + 5)
        case None => None
        case Some(r) => Some((r.0, r.1 + 1))
  }

  /** Reads one number from the front of `s`: its value and how many characters it took. */
  function Read(s: seq<byte>): Option<(int, nat)> {
    match ReadRaw(s, 0, 0)
    case None => None
    case Some(r) => Some((Signed(r.0), r.1))
  }

  // ----- Arithmetic -----

  lemma {:induction false} DoubledGrows(x: int, y: int, j: nat, k: nat)
    requires 0 <= x <= y && j <= k
    ensures 0 <= Doubled(x, j) <= Doubled(y, k)
    decreases k
  {
    if 0 < j {
      DoubledGrows(x, y, j - 1, k - 1);
    } else if 0 < k {
      DoubledGrows(x, y, 0, k - 1);
    }
  }

  lemma {:induction false} DoubledAdds(x: int, y: int, k: nat)
    ensures Doubled(x + y, k) == Doubled(x, k) + Doubled(y, k)
  {
    if k > 0 {
      DoubledAdds(x, y, k - 1);
    }
  }

  lemma {:induction false} DoubledTwice(x: int, j: nat, k: nat)
    ensures Doubled(Doubled(x, j), k) == Doubled(x, k + j)
    decreases k
  {
    if k > 0 {
      DoubledTwice(x, j, k - 1);
    }
  }

  lemma Doubled5(x: int)
    ensures Doubled(x, 5) == 32 * x
  {
  }

  /** A number's lowest digit at the current place, and the rest five places up. */
  lemma DoubledSplit(low: nat, rest: nat, k: nat)
    ensures Doubled(low + 32 * rest, k) == Doubled(low, k) + Doubled(rest, k + 5)
  {
    DoubledAdds(low, 32 * rest, k);
    Doubled5(rest);
    DoubledTwice(rest, 5, k);
  }

  lemma Doubled31()
    ensures Doubled(1, 31) == 0x8000_0000
  {
    Doubled5(1);
    DoubledTwice(1, 5, 5);
    Doubled5(32);
    DoubledTwice(1, 10, 5);
    Doubled5(1024);
    DoubledTwice(1, 15, 5);
    Doubled5(32768);
    DoubledTwice(1, 20, 5);
    Doubled5(0x10_0000);
    DoubledTwice(1, 25, 5);
    Doubled5(0x200_0000);
  }

  lemma ToInt32Exact(x: int)
    requires 0 <= x < 0x8000_0000
    ensures ToInt32(x) == x
  {
  }

  lemma ShrOne(x: int)
    ensures Shr(x, 1) == ToInt32(x) / 2
  {
  }

  lemma ShlOne(x: int)
    ensures Shl(x, 1) == ToInt32(2 * ToInt32(x))
  {
  }

  lemma ShiftBound(d: nat, shift: nat)
    requires d > 0 && Doubled(d, shift) < 0x8000_0000
    ensures shift < 31
  {
    if shift >= 31 {
      DoubledGrows(1, d, 31, shift);
      Doubled31();
    }
  }

  /** While the number stays below 2^31, the 32-bit shift puts a digit where plain arithmetic would. */
  lemma ShlExact(d: nat, shift: nat)
    requires d < 32 && Doubled(d, shift) < 0x8000_0000
    ensures Shl(d, shift) == Doubled(d, shift)
  {
    ToInt32Exact(d);
    if d > 0 {
      ShiftBound(d, shift);
      assert shift % 32 == shift;
      DoubledGrows(0, d, shift, shift);
      ToInt32Exact(Doubled(d, shift));
    } else {
      DoubledZero(shift % 32);
      DoubledZero(shift);
      ToInt32Exact(0);
    }
  }

  lemma {:induction false} DoubledZero(k: nat)
    ensures Doubled(0, k) == 0
  {
    if k > 0 {
      DoubledZero(k - 1);
    }
  }

  /** The five low bits of a digit; the sixth says that more digits follow. */
  function Low(d: digit): (r: nat)
    ensures r == d % 32
  {
    if d < 32 then d else d - 32
  }

  lemma AddDigitExact(value: nat, d: digit, shift: nat)
    requires value + Doubled(Low(d), shift) < 0x8000_0000
    ensures AddDigit(value, d, shift) == value + Doubled(Low(d), shift)
  {
    ShlExact(Low(d), shift);
  }

  /** Only the last digit says that it is the last. */
  predicate Terminated(ds: seq<digit>) {
    |ds| > 0 && if |ds| == 1 then ds[0] < 32 else ds[0] >= 32 && Terminated(ds[1..])
  }

  function Value(ds: seq<digit>): nat {
    if ds == [] then 0 else Low(ds[0]) + 32 * Value(ds[1..])
  }

  lemma {:induction false} DigitsValue(v: nat)
    ensures Terminated(Digits(v)) && Value(Digits(v)) == v
    decreases v
  {
    if v / 32 > 0 {
      DigitsValue(v / 32);
      assert Digits(v)[1..] == Digits(v / 32);
    } else {
      assert Digits(v)[1..] == [];
    }
  }

  /** Reading digits adds their number at the current shift. */
  lemma {:induction false} ReadDigits(ds: seq<digit>, value: nat, shift: nat, tail: seq<byte>, total: nat)
    requires Terminated(ds) && total == value + Doubled(Value(ds), shift) < 0x8000_0000
    ensures ReadRaw(Chars(ds) + tail, value, shift) == Some((total, |ds|))
    decreases |ds|
  {
    FirstDigit(ds, shift);
    ReadFirst(ds, value, shift, tail);
    if |ds| > 1 {
      ReadDigits(ds[1..], value + Doubled(Low(ds[0]), shift), shift + 5, tail, total);
    }
  }

  lemma ReadFirst(ds: seq<digit>, value: nat, shift: nat, tail: seq<byte>)
    requires ds != [] && value + Doubled(Low(ds[0]), shift) < 0x8000_0000
    ensures ReadRaw(Chars(ds) + tail, value, shift) ==
      var value' := value + Doubled(Low(ds[0]), shift);
      if ds[0] < 32 then Some((value', 1))
      else match ReadRaw(Chars(ds[1..]) + tail, value', shift + 5) case None => None case Some(r) => Some((r.0, r.1 + 1))
  {
    CharsCons(ds, tail);
    ReadCons(ds[0], Chars(ds[1..]) + tail, value, shift);
  }

  lemma FirstDigit(ds: seq<digit>, shift: nat)
    requires ds != []
    ensures Doubled(Value(ds), shift) == Doubled(Low(ds[0]), shift) + Doubled(Value(ds[1..]), shift + 5)
    ensures |ds| == 1 ==> Doubled(Value(ds), shift) == Doubled(Low(ds[0]), shift)
  {
    DoubledSplit(Low(ds[0]), Value(ds[1..]), shift);
    if |ds| == 1 {
      assert Value(ds[1..]) == 0;
      DoubledZero(shift + 5);
    }
  }

  lemma CharsCons(ds: seq<digit>, tail: seq<byte>)
    requires ds != []
    ensures Chars(ds) + tail == [IntegerToChar(ds[0])] + (Chars(ds[1..]) + tail)
  {
  }

  lemma ReadCons(d: digit, s: seq<byte>, value: nat, shift: nat)
    requires value + Doubled(Low(d), shift) < 0x8000_0000
    ensures ReadRaw([IntegerToChar(d)] + s, value, shift) ==
      var value' := value + Doubled(Low(d), shift);
      if d < 32 then Some((value', 1))
      else match ReadRaw(s, value', shift + 5) case None => None case Some(r) => Some((r.0, r.1 + 1))
  {
    AlphabetInverse(d);
    AddDigitExact(value, d, shift);
    assert ([IntegerToChar(d)] + s)[1..] == s;
  }

  lemma ZigzagExact(num: int)
    requires -0x4000_0000 < num < 0x4000_0000
    ensures Zigzag(num) == if num < 0 then 2 * -num + 1 else 2 * num
    ensures 0 <= Zigzag(num) < 0x8000_0000
  {
    var m := if num < 0 then -num else num;
    ShlOne(m);
    ToInt32Exact(m);
    ToInt32Exact(2 * m);
  }

  /** Outside the range the shift wraps, but it stays a 32-bit even number. */
  lemma ZigzagWraps(num: int)
    ensures -0x8000_0000 <= Zigzag(num) < 0x8000_0000
  {
  }

  lemma SignedExact(value: nat)
    requires value < 0x8000_0000
    ensures Signed(value) == if value % 2 == 1 then -(value / 2) else value / 2
  {
    ToInt32Exact(value);
    ShrOne(value);
  }

  /** The bits of a number that get written: a negative one is written as one digit. */
  function Raw(v: int): nat {
    if v < 0 then v % 32 else v
  }

  /** What a written number reads as. */
  function Reads(v: int): int {
    if Raw(v) % 2 == 1 then -(Raw(v) / 2) else Raw(v) / 2
  }

  lemma DigitsOfRaw(v: int)
    ensures Digits(v) == Digits(Raw(v))
  {
    if v < 0 {
      assert v / 32 <= 0 && (v % 32) / 32 == 0;
    }
  }

  lemma RawInRange(v: int)
    requires v < 0x8000_0000
    ensures Raw(v) < 0x8000_0000
  {
  }

  lemma ReadsAsSigned(v: int)
    requires v < 0x8000_0000
    ensures Signed(Raw(v)) == Reads(v)
  {
    RawInRange(v);
    SignedExact(Raw(v));
  }

  lemma ReadBack(v: int, tail: seq<byte>)
    requires v < 0x8000_0000
    ensures Read(Chars(Digits(v)) + tail) == Some((Reads(v), |Digits(v)|))
  {
    RawInRange(v);
    DigitsOfRaw(v);
    RawBack(Raw(v), tail);
    ReadsAsSigned(v);
  }

  lemma RawBack(raw: nat, tail: seq<byte>)
    requires raw < 0x8000_0000
    ensures ReadRaw(Chars(Digits(raw)) + tail, 0, 0) == Some((raw, |Digits(raw)|))
  {
    DigitsValue(raw);
    ReadDigits(Digits(raw), 0, 0, tail, raw);
  }

  lemma ZigzagReads(n: int)
    ensures Reads(Zigzag(n)) == n <==> -0x4000_0000 < n < 0x4000_0000
  {
    ZigzagWraps(n);
    if -0x4000_0000 < n < 0x4000_0000 {
      ZigzagExact(n);
    }
  }

  /** Decoding the encoding of n gives n back if and only if |n| < 2^30, whatever follows it. */
  lemma RoundTrip(n: int, tail: seq<byte>)
    ensures Read(Encode(n) + tail) == Some((n, |Encode(n)|)) <==> -0x4000_0000 < n < 0x4000_0000
  {
    ZigzagWraps(n);
    ZigzagReads(n);
    ReadBack(Zigzag(n), tail);
  }

  /** Any concatenation of encodings reads back as the same numbers. */
  function EncodeAll(ns: seq<int>): seq<byte> {
    if ns == [] then [] else Encode(ns[0]) + EncodeAll(ns[1..])
  }

  function ReadAll(s: seq<byte>): Option<seq<int>> {
    if s == [] then Some([])
    else match Read(s)
      case None => None
      case Some(r) =>
        if 0 < r.1 <= |s| then
          match ReadAll(s[r.1..])
          case None => None
          case Some(ns) => Some([r.0] + ns)
        else None
  }

  lemma {:induction false} RoundTripAll(ns: seq<int>)
    requires forall i :: 0 <= i < |ns| ==> -0x4000_0000 < ns[i] < 0x4000_0000
    ensures ReadAll(EncodeAll(ns)) == Some(ns)
  {
    if ns != [] {
      var rest := ns[1..];
      RoundTripAll(rest);
      ReadAllStep(ns[0], EncodeAll(rest), rest);
      assert ns == [ns[0]] + rest;
    }
  }

  lemma ReadAllStep(n: int, tail: seq<byte>, ns: seq<int>)
    requires -0x4000_0000 < n < 0x4000_0000 && ReadAll(tail) == Some(ns)
    ensures ReadAll(Encode(n) + tail) == Some([n] + ns)
  {
    RoundTrip(n, tail);
    var e := Encode(n);
    assert |e| > 0;
    assert (e + tail)[|e|..] == tail;
  }

  // ----- Known numbers -----

  /** Some numbers as they are written in every source map: A, C, D and e (section 4 of RFC 4648
      for the characters). */
  lemma KnownValues()
    ensures Encode(0) == [65] && Encode(1) == [67] && Encode(-1) == [68] && Encode(15) == [101]
  {
    OneChar(0, 0);
    OneChar(1, 2);
    OneChar(-1, 3);
    OneChar(15, 30);
  }

  lemma OneChar(n: int, d: digit)
    requires -16 < n < 16 && d == if n < 0 then 2 * -n + 1 else 2 * n
    ensures Encode(n) == [IntegerToChar(d)]
  {
    EncodedAs(n, [d]);
  }

  /** And gB, hB. */
  lemma KnownLongValues()
    ensures Encode(16) == [103, 66] && Encode(-16) == [104, 66]
  {
    TwoChars(16, 0, 1);
    TwoChars(-16, 1, 1);
  }

  lemma TwoChars(n: int, low: digit, high: digit)
    requires -0x200 < n < 0x200 && low < 32 && 0 < high < 32
    requires low + 32 * high == if n < 0 then 2 * -n + 1 else 2 * n
    ensures Encode(n) == [IntegerToChar(low + 32), IntegerToChar(high)]
  {
    var first: digit := low + 32;
    var ds: seq<digit> := [first, high];
    assert ds[1..] == [high] && [high][1..] == [];
    assert Value([high]) == high;
    EncodedAs(n, ds);
    assert Chars([high]) == [IntegerToChar(high)];
  }

  lemma EncodedAs(n: int, ds: seq<digit>)
    requires -0x4000_0000 < n < 0x4000_0000 && Value(ds) == (if n < 0 then 2 * -n + 1 else 2 * n)
    requires Terminated(ds) && (|ds| > 1 ==> ds[|ds| - 1] > 0)
    ensures Encode(n) == Chars(ds)
  {
    ZigzagExact(n);
    DigitsOf(ds);
  }

  lemma {:induction false} DigitsOf(ds: seq<digit>)
    requires Terminated(ds) && (|ds| > 1 ==> ds[|ds| - 1] > 0)
    ensures Digits(Value(ds)) == ds && (|ds| > 1 || ds[0] > 0 ==> Value(ds) > 0)
    decreases |ds|
  {
    if |ds| > 1 {
      DigitsOf(ds[1..]);
      assert Value(ds) / 32 == Value(ds[1..]) && Value(ds) % 32 + 32 == ds[0];
    } else {
      assert Value(ds[1..]) == 0;
    }
  }
}
