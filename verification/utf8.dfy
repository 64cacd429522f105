/** UTF-8 as RFC 3629 defines it: the byte form of a Rust `String`. `Decode` is the
    check `String::from_utf8` performs; `Encode` is `String::into_bytes`. */
module Utf8 {
  import opened Wrappers
  import opened Bytes

  /** A Unicode scalar value: a code point that is not a surrogate. Exactly the values
      a Dafny `char` can hold. */
  predicate IsScalar(cp: int) {
    0 <= cp < 0xD800 || 0xE000 <= cp < 0x11_0000
  }

  /** The bytes of one character (RFC 3629 section 3). */
  function EncodeChar(c: char): (r: seq<byte>)
    ensures 1 <= |r| <= 4
  {
    var cp := c as int;
    if cp < 0x80 then [cp]
    else if cp < 0x800 then [0xC0 + cp / 64, 0x80 + cp % 64]
    else if cp < 0x1_0000 then [0xE0 + cp / 4096, 0x80 + cp / 64 % 64, 0x80 + cp % 64]
    else [0xF0 + cp / 262144, 0x80 + cp / 4096 % 64, 0x80 + cp / 64 % 64, 0x80 + cp % 64]
  }

  function Encode(s: string): (r: seq<byte>)
    ensures |r| >= |s|
  {
    if |s| == 0 then [] else EncodeChar(s[0]) + Encode(s[1..])
  }

  predicate IsContinuation(b: byte) {
    0x80 <= b < 0xC0
  }

  /** How many bytes a sequence starting with lead byte `b` has; 0 when `b` cannot
      start a sequence. */
  function SequenceLength(b: byte): nat {
    if b < 0x80 then 1
    else if 0xC0 <= b < 0xE0 then 2
    else if 0xE0 <= b < 0xF0 then 3
    else if 0xF0 <= b < 0xF8 then 4
    else 0
  }

  /** The smallest code point that needs `n` bytes; anything below is an overlong form. */
  function MinCodePoint(n: nat): int {
    if n <= 1 then 0 else if n == 2 then 0x80 else if n == 3 then 0x800 else 0x1_0000
  }

  /** The code point the payload bits of an `n`-byte sequence spell. */
  function CodePoint(b: seq<byte>, n: nat): int
    requires 1 <= n <= 4 && |b| >= n
  {
    var b0 := b[0] as int;
    if n == 1 then b0
    else if n == 2 then (b0 - 0xC0) * 64 + Payload(b[1])
    else if n == 3 then (b0 - 0xE0) * 4096 + Payload(b[1]) * 64 + Payload(b[2])
    else (b0 - 0xF0) * 262144 + Payload(b[1]) * 4096 + Payload(b[2]) * 64 + Payload(b[3])
  }

  /** The six payload bits of a continuation byte. */
  function Payload(b: byte): int {
    b as int - 0x80
  }

  /** The first character of a non-empty buffer and the number of bytes it takes, or
      None when the buffer does not start with a well-formed sequence: a bad lead byte,
      a missing or wrong continuation byte, an overlong form, a surrogate or a code
      point above U+10FFFF (the syntax of RFC 3629 section 4). */
  function DecodeFirst(b: seq<byte>): (r: Option<(char, nat)>)
    requires |b| > 0
    ensures r.Some? ==> 1 <= r.value.1 <= 4 && r.value.1 <= |b|
  {
    var n := SequenceLength(b[0]);
    if n == 0 || |b| < n then None
    else if !(forall i :: 1 <= i < n ==> IsContinuation(b[i])) then None
    else
      var cp := CodePoint(b, n);
      if cp < MinCodePoint(n) || !IsScalar(cp) then None
      else Some((cp as char, n))
  }

  /** `String::from_utf8`: the text the buffer holds, or None when it is not UTF-8. */
  function Decode(b: seq<byte>): (r: Option<string>)
    ensures r.Some? ==> |r.value| <= |b| <= 4 * |r.value|
    decreases |b|
  {
    if |b| == 0 then Some([])
    else
      match DecodeFirst(b)
      case None => None
      case Some((c, n)) =>
        match Decode(b[n..])
        case None => None
        case Some(rest) => Some([c] + rest)
  }

  predicate Valid(b: seq<byte>) {
    Decode(b).Some?
  }

  lemma DivMod64(q: int, r: int)
    requires 0 <= r < 64
    ensures (q * 64 + r) / 64 == q && (q * 64 + r) % 64 == r
  {
  }

  /** Decoding the bytes of one character gives back that character, whatever follows. */
  lemma DecodeFirstOfEncodeChar(c: char, rest: seq<byte>)
    ensures DecodeFirst(EncodeChar(c) + rest) == Some((c, |EncodeChar(c)|))
  {
    var cp := c as int;
    if cp < 0x80 {
    } else if cp < 0x800 {
      DecodeFirstOfTwo(c, rest);
    } else if cp < 0x1_0000 {
      DecodeFirstOfThree(c, rest);
    } else {
      DecodeFirstOfFour(c, rest);
    }
  }

  lemma DecodeFirstOfTwo(c: char, rest: seq<byte>)
    requires 0x80 <= c as int < 0x800
    ensures DecodeFirst(EncodeChar(c) + rest) == Some((c, 2))
  {
    var cp := c as int;
    assert cp == cp / 64 * 64 + cp % 64;
    assert CodePoint(EncodeChar(c) + rest, 2) == cp;
  }

  lemma DecodeFirstOfThree(c: char, rest: seq<byte>)
    requires 0x800 <= c as int < 0x1_0000
    ensures DecodeFirst(EncodeChar(c) + rest) == Some((c, 3))
  {
    var cp := c as int;
    assert cp == cp / 64 * 64 + cp % 64;
    assert cp / 64 == cp / 4096 * 64 + cp / 64 % 64;
    assert CodePoint(EncodeChar(c) + rest, 3) == cp;
  }

  lemma DecodeFirstOfFour(c: char, rest: seq<byte>)
    requires 0x1_0000 <= c as int
    ensures DecodeFirst(EncodeChar(c) + rest) == Some((c, 4))
  {
    var cp := c as int;
    assert cp == cp / 64 * 64 + cp % 64;
    assert cp / 64 == cp / 4096 * 64 + cp / 64 % 64;
    assert cp / 4096 == cp / 262144 * 64 + cp / 4096 % 64;
    assert CodePoint(EncodeChar(c) + rest, 4) == cp;
  }

  /** A successfully decoded first character re-encodes to exactly the bytes it was
      read from: the decoder accepts only the shortest form. */
  lemma EncodeCharOfDecodeFirst(b: seq<byte>)
    requires |b| > 0 && DecodeFirst(b).Some?
    ensures EncodeChar(DecodeFirst(b).value.0) == b[..DecodeFirst(b).value.1]
  {
    var n := SequenceLength(b[0]);
    if n == 2 {
      EncodeCharOfTwo(b);
    } else if n == 3 {
      EncodeCharOfThree(b);
    } else if n == 4 {
      EncodeCharOfFour(b);
    }
  }

  lemma EncodeCharOfTwo(b: seq<byte>)
    requires |b| > 0 && DecodeFirst(b).Some? && SequenceLength(b[0]) == 2
    ensures EncodeChar(DecodeFirst(b).value.0) == b[..2]
  {
    DivMod64(b[0] as int - 0xC0, Payload(b[1]));
  }

  lemma EncodeCharOfThree(b: seq<byte>)
    requires |b| > 0 && DecodeFirst(b).Some? && SequenceLength(b[0]) == 3
    ensures EncodeChar(DecodeFirst(b).value.0) == b[..3]
  {
    var cp := CodePoint(b, 3);
    var b0 := b[0] as int;
    DivMod64(b0 - 0xE0, Payload(b[1]));
    DivMod64((b0 - 0xE0) * 64 + Payload(b[1]), Payload(b[2]));
    assert cp / 64 / 64 == cp / 4096;
  }

  lemma EncodeCharOfFour(b: seq<byte>)
    requires |b| > 0 && DecodeFirst(b).Some? && SequenceLength(b[0]) == 4
    ensures EncodeChar(DecodeFirst(b).value.0) == b[..4]
  {
    var cp := CodePoint(b, 4);
    var b0 := b[0] as int;
    DivMod64(b0 - 0xF0, Payload(b[1]));
    DivMod64((b0 - 0xF0) * 64 + Payload(b[1]), Payload(b[2]));
    DivMod64(((b0 - 0xF0) * 64 + Payload(b[1])) * 64 + Payload(b[2]), Payload(b[3]));
    assert cp / 64 / 64 == cp / 4096;
    assert cp / 4096 / 64 == cp / 262144;
  }

  /** Round trip: every text survives encoding and decoding. */
  lemma {:induction false} DecodeEncode(s: string)
    ensures Decode(Encode(s)) == Some(s)
  {
    if |s| > 0 {
      var e := EncodeChar(s[0]);
      DecodeFirstOfEncodeChar(s[0], Encode(s[1..]));
      assert (e + Encode(s[1..]))[|e|..] == Encode(s[1..]);
      DecodeEncode(s[1..]);
      assert [s[0]] + s[1..] == s;
    }
  }

  /** Round trip the other way: a buffer that decodes is the encoding of its text, so
      the decoder loses nothing and admits a single byte form per text. */
  lemma {:induction false} EncodeDecode(b: seq<byte>)
    requires Decode(b).Some?
    ensures Encode(Decode(b).value) == b
    decreases |b|
  {
    if |b| > 0 {
      DecodeCons(b);
      var (c, n) := DecodeFirst(b).value;
      var rest := Decode(b[n..]).value;
      EncodeCons(c, rest);
      EncodeCharOfDecodeFirst(b);
      EncodeDecode(b[n..]);
      Glue(b, n, EncodeChar(c), Encode(rest));
    }
  }

  lemma Glue(b: seq<byte>, n: nat, head: seq<byte>, tail: seq<byte>)
    requires n <= |b| && head == b[..n] && tail == b[n..]
    ensures head + tail == b
  {
  }

  lemma EncodeCons(c: char, rest: string)
    ensures Encode([c] + rest) == EncodeChar(c) + Encode(rest)
  {
    assert ([c] + rest)[1..] == rest;
  }

  /** A buffer that decodes is its first character followed by the decoded remainder. */
  lemma DecodeCons(b: seq<byte>)
    requires |b| > 0 && Decode(b).Some?
    ensures DecodeFirst(b).Some?
    ensures Decode(b[DecodeFirst(b).value.1..]).Some?
    ensures Decode(b).value == [DecodeFirst(b).value.0] + Decode(b[DecodeFirst(b).value.1..]).value
  {
  }

  /** Bytes below 0x80 are ASCII: they always decode, one character per byte, each
      character's code being its byte. */
  lemma {:induction false} DecodeAscii(b: seq<byte>)
    requires forall i :: 0 <= i < |b| ==> b[i] < 0x80
    ensures Decode(b).Some? && |Decode(b).value| == |b|
    ensures forall i :: 0 <= i < |b| ==> Decode(b).value[i] as int == b[i]
    decreases |b|
  {
    if |b| > 0 {
      assert DecodeFirst(b) == Some((b[0] as char, 1));
      DecodeAscii(b[1..]);
      var s := Decode(b).value;
      assert s == [b[0] as char] + Decode(b[1..]).value;
      forall i | 0 <= i < |b|
        ensures s[i] as int == b[i]
      {
        if i > 0 {
          assert s[i] == Decode(b[1..]).value[i - 1];
        }
      }
    }
  }
}
