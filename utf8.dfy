/** Option, as returned by Rust's `char::from_u32`, `VecDeque::pop_front` and the
    bounded retry loops of this model. */
module Wrappers {
  datatype Option<+T> = None | Some(value: T)
}

/** The UTF-8 semantics the generator relies on: the encoded length of a scalar
    value (`char::len_utf8`), the encoding of a string (`String::from_iter`), the
    checked conversion `char::from_u32`, and the lossy decoder
    `String::from_utf8_lossy`. Encoding and decoding follow section 3 of RFC 3629;
    the well-formed byte sequences are those of Table 3-7 in section 3.9 of the
    Unicode Standard, and ill-formed input is replaced by U+FFFD one maximal
    subpart at a time. Dafny's `char` is exactly a Unicode scalar value, as
    Rust's `char` is. */
module Utf8 {
  import opened Wrappers

  /** A Rust `u8`. */
  type Byte = x: int | 0 <= x < 0x100

  /** U+FFFD, `char::REPLACEMENT_CHARACTER`. */
  const Replacement: char := '\U{FFFD}'

  /** The scalar values: everything up to U+10FFFF except the surrogates. */
  predicate IsScalarValue(x: int) {
    0 <= x <= 0x10FFFF && !(0xD800 <= x <= 0xDFFF)
  }

  /** `char::from_u32`: accepts exactly the scalar values. */
  function FromU32(x: int): (r: Option<char>)
    ensures r.Some? <==> IsScalarValue(x)
    ensures r.Some? ==> r.value as int == x
  {
    if x > 0x10FFFF || (0xD800 <= x && x <= 0xDFFF) || x < 0 then None
    else Some(x as char)
  }

  /** `char::from_u32` inverts `c as u32`: every character comes back as
      itself. */
  lemma FromU32Inverse(c: char)
    ensures FromU32(c as int) == Some(c)
  {
  }

  /** The draws the full-range sampler redraws: the one value past U+10FFFF
      in its range, and the surrogates. */
  lemma FromU32Rejects(x: int)
    requires x == 0x110000 || 0xD800 <= x <= 0xDFFF
    ensures FromU32(x) == None
  {
  }

  /** `char::len_utf8`: the number of bytes of the UTF-8 encoding. */
  function LenUtf8(c: char): (n: nat)
    ensures 1 <= n <= 4
    ensures n == |EncodeChar(c)|
  {
    var x := c as int;
    if x < 0x80 then 1
    else if x < 0x800 then 2
    else if x < 0x10000 then 3
    else 4
  }

  predicate IsContinuation(b: Byte) {
    0x80 <= b <= 0xBF
  }

  /** The UTF-8 encoding of one scalar value. */
  function EncodeChar(c: char): (r: seq<Byte>)
    ensures 1 <= |r| <= 4
    ensures |r| == 1 <==> c as int < 0x80
    ensures forall k :: 1 <= k < |r| ==> IsContinuation(r[k])
  {
    var x := c as int;
    if x < 0x80 then [x]
    else if x < 0x800 then [0xC0 + x / 0x40, 0x80 + x % 0x40]
    else if x < 0x10000 then [0xE0 + x / 0x1000, 0x80 + (x / 0x40) % 0x40, 0x80 + x % 0x40]
    else [0xF0 + x / 0x40000, 0x80 + (x / 0x1000) % 0x40, 0x80 + (x / 0x40) % 0x40, 0x80 + x % 0x40]
  }

  /** The UTF-8 encoding of a string: the concatenation of the encodings of its
      characters, in order. */
  function EncodeString(s: string): (r: seq<Byte>)
    ensures |s| <= |r| <= 4 * |s|
  {
    if s == [] then [] else EncodeChar(s[0]) + EncodeString(s[1..])
  }

  /** The byte length of a string: the sum of `len_utf8` over its characters. */
  function Utf8Len(s: string): (n: nat)
    ensures |s| <= n <= 4 * |s|
  {
    if s == [] then 0 else LenUtf8(s[0]) + Utf8Len(s[1..])
  }

  /** The result of decoding at the front of a byte sequence: a scalar value and
      the bytes it took, or an ill-formed maximal subpart of `size` bytes. */
  datatype Step = Scalar(c: char, size: nat) | Invalid(size: nat)

  /** The length of the sequence a lead byte starts, or 0 when the byte cannot
      start one (0x80..0xC1 and 0xF5..0xFF). */
  function Width(b: Byte): nat {
    if b <= 0x7F then 1
    else if b < 0xC2 then 0
    else if b <= 0xDF then 2
    else if b <= 0xEF then 3
    else if b <= 0xF4 then 4
    else 0
  }

  /** The bounds Table 3-7 puts on the second byte after lead byte `b`. */
  function SecondLow(b: Byte): Byte {
    if b == 0xE0 then 0xA0 else if b == 0xF0 then 0x90 else 0x80
  }

  function SecondHigh(b: Byte): Byte {
    if b == 0xED then 0x9F else if b == 0xF4 then 0x8F else 0xBF
  }

  /** Decodes the first well-formed sequence of `b`, or reports the length of
      its maximal ill-formed subpart. */
  function DecodeFirst(b: seq<Byte>): (st: Step)
    requires |b| > 0
    ensures 1 <= st.size <= |b| && st.size <= 4
  {
    var b0 := b[0];
    var w := Width(b0);
    if w == 0 then Invalid(1)
    else if w == 1 then Scalar(b0 as char, 1)
    else if |b| < 2 || !(SecondLow(b0) <= b[1] <= SecondHigh(b0)) then Invalid(1)
    else if w == 2 then Scalar(Join2(b0, b[1]) as char, 2)
    else if |b| < 3 || !IsContinuation(b[2]) then Invalid(2)
    else if w == 3 then Scalar(Join3(b0, b[1], b[2]), 3)
    else if |b| < 4 || !IsContinuation(b[3]) then Invalid(3)
    else Scalar(Join4(b0, b[1], b[2], b[3]), 4)
  }

  /** The value a well-formed two-byte sequence carries. */
  function Join2(b0: Byte, b1: Byte): (x: int)
    requires 0xC2 <= b0 <= 0xDF && IsContinuation(b1)
    ensures 0x80 <= x < 0x800
  {
    (b0 as int - 0xC0) * 0x40 + (b1 as int - 0x80)
  }

  /** The value a well-formed three-byte sequence carries; the bounds on the
      second byte keep it out of the overlong forms and the surrogates. */
  function Join3(b0: Byte, b1: Byte, b2: Byte): (c: char)
    requires 0xE0 <= b0 <= 0xEF && SecondLow(b0) <= b1 <= SecondHigh(b0) && IsContinuation(b2)
    ensures 0x800 <= c as int < 0x10000
  {
    var x := (b0 as int - 0xE0) * 0x1000 + (b1 as int - 0x80) * 0x40 + (b2 as int - 0x80);
    assert b0 == 0xED ==> x <= 0xD7FF;
    assert b0 < 0xED ==> x < 0xD000;
    assert b0 > 0xED ==> x >= 0xE000;
    x as char
  }

  /** The value a well-formed four-byte sequence carries. */
  function Join4(b0: Byte, b1: Byte, b2: Byte, b3: Byte): (c: char)
    requires 0xF0 <= b0 <= 0xF4 && SecondLow(b0) <= b1 <= SecondHigh(b0)
    requires IsContinuation(b2) && IsContinuation(b3)
    ensures 0x10000 <= c as int <= 0x10FFFF
  {
    ((b0 as int - 0xF0) * 0x40000 + (b1 as int - 0x80) * 0x1000
      + (b2 as int - 0x80) * 0x40 + (b3 as int - 0x80)) as char
  }

  /** `str::from_utf8`: the string the bytes encode, or None when they are not
      well-formed UTF-8. */
  function FromUtf8(b: seq<Byte>): Option<string>
    decreases |b|
  {
    if b == [] then Some([])
    else
      match DecodeFirst(b)
      case Invalid(_) => None
      case Scalar(c, n) =>
        match FromUtf8(b[n..])
        case None => None
        case Some(rest) => Some([c] + rest)
  }

  /** `String::from_utf8_lossy`: decodes the bytes, replacing every maximal
      ill-formed subpart by one U+FFFD. */
  function FromUtf8Lossy(b: seq<Byte>): (r: string)
    ensures |r| <= |b|
    ensures b != [] ==> r != []
    decreases |b|
  {
    if b == [] then []
    else
      match DecodeFirst(b)
      case Invalid(n) => [Replacement] + FromUtf8Lossy(b[n..])
      case Scalar(c, n) => [c] + FromUtf8Lossy(b[n..])
  }

  /** Decoding the front of an encoding recovers the character and its length,
      whatever follows it. */
  lemma DecodeFirstEncode(c: char, rest: seq<Byte>)
    ensures DecodeFirst(EncodeChar(c) + rest) == Scalar(c, LenUtf8(c))
  {
    var x := c as int;
    var b := EncodeChar(c) + rest;
    if x < 0x80 {
    } else if x < 0x800 {
      assert b[0] == 0xC0 + x / 0x40 && b[1] == 0x80 + x % 0x40;
      assert Join2(b[0], b[1]) == x;
    } else if x < 0x10000 {
      Split3(x);
      assert b[0] == 0xE0 + x / 0x1000;
      assert b[1] == 0x80 + (x / 0x40) % 0x40 && b[2] == 0x80 + x % 0x40;
      assert Join3(b[0], b[1], b[2]) == c;
    } else {
      Split4(x);
      assert b[0] == 0xF0 + x / 0x40000;
      assert b[1] == 0x80 + (x / 0x1000) % 0x40;
      assert b[2] == 0x80 + (x / 0x40) % 0x40 && b[3] == 0x80 + x % 0x40;
      assert Join4(b[0], b[1], b[2], b[3]) == c;
    }
  }

  /** The six-bit groups of a three-byte value. */
  lemma Split3(x: int)
    requires 0x800 <= x < 0x10000 && !(0xD800 <= x <= 0xDFFF)
    ensures (x / 0x1000) * 0x1000 + ((x / 0x40) % 0x40) * 0x40 + x % 0x40 == x
    ensures x / 0x1000 < 0x10 && (x / 0x1000 == 0 ==> (x / 0x40) % 0x40 >= 0x20)
    ensures x / 0x1000 == 0xD ==> (x / 0x40) % 0x40 < 0x20
  {
  }

  /** The six-bit groups of a four-byte value. */
  lemma Split4(x: int)
    requires 0x10000 <= x <= 0x10FFFF
    ensures (x / 0x40000) * 0x40000 + ((x / 0x1000) % 0x40) * 0x1000
      + ((x / 0x40) % 0x40) * 0x40 + x % 0x40 == x
    ensures x / 0x40000 <= 4 && (x / 0x40000 == 0 ==> (x / 0x1000) % 0x40 >= 0x10)
    ensures x / 0x40000 == 4 ==> (x / 0x1000) % 0x40 < 0x10
  {
  }

  /** A sequence the decoder accepts is the canonical encoding of what it
      decodes to: no overlong form, no surrogate, nothing above U+10FFFF. */
  lemma DecodeFirstSound(b: seq<Byte>)
    requires |b| > 0 && DecodeFirst(b).Scalar?
    ensures b[..DecodeFirst(b).size] == EncodeChar(DecodeFirst(b).c)
  {
    var n := DecodeFirst(b).size;
    if n == 2 {
      Join2Encodes(b[0], b[1]);
      assert b[..2] == [b[0], b[1]];
    } else if n == 3 {
      Join3Encodes(b[0], b[1], b[2]);
      assert b[..3] == [b[0], b[1], b[2]];
    } else if n == 4 {
      Join4Encodes(b[0], b[1], b[2], b[3]);
      assert b[..4] == [b[0], b[1], b[2], b[3]];
    }
  }

  /** Each joined value re-encodes to the bytes it was joined from. */
  lemma Join2Encodes(b0: Byte, b1: Byte)
    requires 0xC2 <= b0 <= 0xDF && IsContinuation(b1)
    ensures EncodeChar(Join2(b0, b1) as char) == [b0, b1]
  {
  }

  lemma Join3Encodes(b0: Byte, b1: Byte, b2: Byte)
    requires 0xE0 <= b0 <= 0xEF && SecondLow(b0) <= b1 <= SecondHigh(b0) && IsContinuation(b2)
    ensures EncodeChar(Join3(b0, b1, b2)) == [b0, b1, b2]
  {
    var x := Join3(b0, b1, b2) as int;
    var d0, d1, d2 := b0 as int - 0xE0, b1 as int - 0x80, b2 as int - 0x80;
    assert x == d0 * 0x1000 + d1 * 0x40 + d2;
    assert x / 0x40 == d0 * 0x40 + d1 && x % 0x40 == d2;
    assert x / 0x1000 == d0 && (x / 0x40) % 0x40 == d1;
  }

  lemma Join4Encodes(b0: Byte, b1: Byte, b2: Byte, b3: Byte)
    requires 0xF0 <= b0 <= 0xF4 && SecondLow(b0) <= b1 <= SecondHigh(b0)
    requires IsContinuation(b2) && IsContinuation(b3)
    ensures EncodeChar(Join4(b0, b1, b2, b3)) == [b0, b1, b2, b3]
  {
    var x := Join4(b0, b1, b2, b3) as int;
    var d0, d1, d2, d3 := b0 as int - 0xF0, b1 as int - 0x80, b2 as int - 0x80, b3 as int - 0x80;
    assert x == d0 * 0x40000 + d1 * 0x1000 + d2 * 0x40 + d3;
    assert x / 0x40 == d0 * 0x1000 + d1 * 0x40 + d2 && x % 0x40 == d3;
    assert x / 0x1000 == d0 * 0x40 + d1 && (x / 0x40) % 0x40 == d2;
    assert x / 0x40000 == d0 && (x / 0x1000) % 0x40 == d1;
  }

  lemma {:induction false} EncodeStringLength(s: string)
    ensures |EncodeString(s)| == Utf8Len(s)
  {
    if s != [] {
      EncodeStringLength(s[1..]);
    }
  }

  /** Encoding then decoding gives back the string: the encoding of any string
      is well-formed UTF-8. */
  lemma {:induction false} FromUtf8EncodeString(s: string)
    ensures FromUtf8(EncodeString(s)) == Some(s)
  {
    if s != [] {
      var e := EncodeString(s);
      DecodeFirstEncode(s[0], EncodeString(s[1..]));
      assert e[LenUtf8(s[0])..] == EncodeString(s[1..]);
      FromUtf8EncodeString(s[1..]);
      assert [s[0]] + s[1..] == s;
    }
  }

  /** Decoding succeeds only on the encoding of the string it returns. */
  lemma {:induction false} FromUtf8Sound(b: seq<Byte>)
    requires FromUtf8(b).Some?
    ensures EncodeString(FromUtf8(b).value) == b
    decreases |b|
  {
    if b != [] {
      var st := DecodeFirst(b);
      var tail := b[st.size..];
      var rest := FromUtf8(tail).value;
      var s := FromUtf8(b).value;
      assert s == [st.c] + rest;
      FromUtf8Sound(tail);
      DecodeFirstSound(b);
      assert s[0] == st.c && s[1..] == rest;
      assert EncodeString(s) == EncodeChar(st.c) + EncodeString(rest);
      assert b == b[..st.size] + tail;
    }
  }

  /** On well-formed input the lossy decoder agrees with the strict one, so it
      substitutes nothing. */
  lemma {:induction false} LossyAgreesOnValid(b: seq<Byte>)
    requires FromUtf8(b).Some?
    ensures FromUtf8Lossy(b) == FromUtf8(b).value
    decreases |b|
  {
    if b != [] {
      LossyAgreesOnValid(b[DecodeFirst(b).size..]);
    }
  }

  lemma {:induction false} Utf8LenAppend(s: string, t: string)
    ensures Utf8Len(s + t) == Utf8Len(s) + Utf8Len(t)
  {
    if s != [] {
      assert (s + t)[0] == s[0] && (s + t)[1..] == s[1..] + t;
      Utf8LenAppend(s[1..], t);
    } else {
      assert s + t == t;
    }
  }

  /** The byte length depends only on which characters occur, not on their
      order: a permutation keeps it. */
  lemma {:induction false} Utf8LenPermutation(s: string, t: string)
    requires multiset(s) == multiset(t)
    ensures Utf8Len(s) == Utf8Len(t)
    decreases |s|
  {
    if s != [] {
      assert s[0] in multiset(t);
      var j :| 0 <= j < |t| && t[j] == s[0];
      var rest := [t[j]] + t[j + 1..];
      var t' := t[..j] + t[j + 1..];
      assert t == t[..j] + rest;
      assert s == [s[0]] + s[1..];
      calc {
        multiset(s[1..]);
        multiset(s) - multiset{s[0]};
        multiset(t) - multiset{t[j]};
        (multiset(t[..j]) + multiset{t[j]} + multiset(t[j + 1..])) - multiset{t[j]};
        multiset(t');
      }
      Utf8LenPermutation(s[1..], t');
      Utf8LenAppend(t[..j], rest);
      Utf8LenAppend(t[..j], t[j + 1..]);
      assert rest[0] == t[j] && rest[1..] == t[j + 1..];
      assert Utf8Len(rest) == LenUtf8(t[j]) + Utf8Len(t[j + 1..]);
    }
  }
}
