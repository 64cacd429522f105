/** Base64 as RFC 4648 defines it, for the two engines the tool uses: the standard
    alphabet with '=' padding (section 4) and the URL- and filename-safe alphabet
    without padding (section 5, padding omitted as section 3.2 allows). Decoding is
    strict, as both engines are configured: every symbol must belong to the
    alphabet, padding must be exactly what the encoder would write, and the unused
    low bits of the last symbol must be zero (the canonical encoding of section 3.5). */
module Base64 {
  import opened Wrappers
  import opened Bytes

  datatype Alphabet = Standard | UrlSafe

  /** A base64 engine: an alphabet and whether the output is padded with '='. */
  datatype Engine = Engine(alphabet: Alphabet, padding: bool)

  /** `base64::engine::general_purpose::STANDARD`. */
  const STANDARD := Engine(Standard, true)

  /** `base64::engine::general_purpose::URL_SAFE_NO_PAD`. */
  const URL_SAFE_NO_PAD := Engine(UrlSafe, false)

  const PAD := '='

  /** The kinds of `base64::DecodeError`, without the byte offset the crate adds. */
  datatype DecodeError = InvalidSymbol | InvalidLength | InvalidLastSymbol | InvalidPadding

  /** The symbol for a 6-bit value: Table 1 of RFC 4648 for the standard alphabet,
      Table 2 for the URL-safe one; they differ only at 62 and 63. */
  function Symbol(a: Alphabet, v: int): (c: char)
    requires 0 <= v < 64
    ensures c != PAD
  {
    if v < 26 then ('A' as int + v) as char
    else if v < 52 then ('a' as int + v - 26) as char
    else if v < 62 then ('0' as int + v - 52) as char
    else if v == 62 then (if a == Standard then '+' else '-')
    else (if a == Standard then '/' else '_')
  }

  /** The 6-bit value of a symbol, or None for a character outside the alphabet. */
  function Value(a: Alphabet, c: char): (r: Option<int>)
    ensures r.Some? ==> 0 <= r.value < 64
  {
    if 'A' <= c <= 'Z' then Some(c as int - 'A' as int)
    else if 'a' <= c <= 'z' then Some(c as int - 'a' as int + 26)
    else if '0' <= c <= '9' then Some(c as int - '0' as int + 52)
    else if c == (if a == Standard then '+' else '-') then Some(62)
    else if c == (if a == Standard then '/' else '_') then Some(63)
    else None
  }

  /** `Symbol` and `Value` are inverse bijections between 0..63 and the alphabet. */
  lemma ValueOfSymbol(a: Alphabet, v: int)
    requires 0 <= v < 64
    ensures Value(a, Symbol(a, v)) == Some(v)
  {
  }

  lemma SymbolOfValue(a: Alphabet, c: char)
    requires Value(a, c).Some?
    ensures Symbol(a, Value(a, c).value) == c
  {
  }

  function SymbolValue(a: Alphabet, c: char): Result<int, DecodeError> {
    match Value(a, c)
    case Some(v) => Ok(v)
    case None => Err(InvalidSymbol)
  }

  /** A symbol's value reads back through `SymbolValue` and maps back to the symbol. */
  lemma SymbolRoundTrip(a: Alphabet, c: char)
    requires Value(a, c).Some?
    ensures SymbolValue(a, c) == Ok(Value(a, c).value)
    ensures Symbol(a, Value(a, c).value) == c
  {
    SymbolOfValue(a, c);
  }

  /** The four symbols of one full group of three bytes. */
  function EncodeGroup(a: Alphabet, b0: int, b1: int, b2: int): (s: string)
    requires 0 <= b0 < 256 && 0 <= b1 < 256 && 0 <= b2 < 256
    ensures |s| == 4
  {
    [Symbol(a, b0 / 4), Symbol(a, b0 % 4 * 16 + b1 / 16), Symbol(a, b1 % 16 * 4 + b2 / 64), Symbol(a, b2 % 64)]
  }

  /** The 2 or 3 symbols of a final group of 1 or 2 bytes, unused low bits zero. */
  function EncodeTail(a: Alphabet, b: seq<byte>): (s: string)
    requires |b| < 3
    ensures |s| == (4 * |b| + 2) / 3
  {
    if |b| == 2 then
      var b0, b1 := b[0] as int, b[1] as int;
      [Symbol(a, b0 / 4), Symbol(a, b0 % 4 * 16 + b1 / 16), Symbol(a, b1 % 16 * 4)]
    else if |b| == 1 then
      var b0 := b[0] as int;
      [Symbol(a, b0 / 4), Symbol(a, b0 % 4 * 16)]
    else
      []
  }

  /** Unpadded encoding: every 3 bytes become 4 symbols; a final 1 or 2 bytes become
      2 or 3 symbols. */
  function EncodeBody(a: Alphabet, b: seq<byte>): (s: string)
    decreases |b|
  {
    if |b| >= 3 then EncodeGroup(a, b[0] as int, b[1] as int, b[2] as int) + EncodeBody(a, b[3..])
    else EncodeTail(a, b)
  }

  /** The '=' characters a padded engine appends for an input of `n` bytes. */
  function Padding(e: Engine, n: nat): string {
    if !e.padding || n % 3 == 0 then "" else if n % 3 == 1 then "==" else "="
  }

  /** `Engine::encode`. The output takes 4 * ceil(n/3) characters with padding and
      ceil(4n/3) without; every character is a symbol of the alphabet, except the
      final '=' characters of a padded engine. */
  function Encode(e: Engine, b: seq<byte>): (s: string)
    ensures e.padding ==> |s| == 4 * ((|b| + 2) / 3)
    ensures !e.padding ==> |s| == (4 * |b| + 2) / 3
    ensures forall i :: 0 <= i < |s| ==> Value(e.alphabet, s[i]).Some? || (e.padding && s[i] == PAD)
  {
    EncodeBodyLength(e.alphabet, b);
    EncodeBodySymbols(e.alphabet, b);
    PaddedLength(|b|);
    EncodeBody(e.alphabet, b) + Padding(e, |b|)
  }

  /** The three bytes of a full group of four symbols. */
  function DecodeGroup(a: Alphabet, s: string): Result<seq<byte>, DecodeError>
    requires |s| == 4
  {
    var v0 :- SymbolValue(a, s[0]);
    var v1 :- SymbolValue(a, s[1]);
    var v2 :- SymbolValue(a, s[2]);
    var v3 :- SymbolValue(a, s[3]);
    Ok([v0 * 4 + v1 / 16, v1 % 16 * 16 + v2 / 4, v2 % 4 * 64 + v3])
  }

  /** The bytes of a final group of fewer than four symbols: 2 or 3 symbols give 1 or
      2 bytes and must leave their unused bits zero; a single symbol is an error. */
  function DecodeTail(a: Alphabet, s: string): Result<seq<byte>, DecodeError>
    requires |s| < 4
  {
    if |s| == 3 then
      var v0 :- SymbolValue(a, s[0]);
      var v1 :- SymbolValue(a, s[1]);
      var v2 :- SymbolValue(a, s[2]);
      if v2 % 4 != 0 then Err(InvalidLastSymbol)
      else Ok([v0 * 4 + v1 / 16, v1 % 16 * 16 + v2 / 4])
    else if |s| == 2 then
      var v0 :- SymbolValue(a, s[0]);
      var v1 :- SymbolValue(a, s[1]);
      if v1 % 16 != 0 then Err(InvalidLastSymbol)
      else Ok([v0 * 4 + v1 / 16])
    else if |s| == 1 then
      Err(InvalidLength)
    else
      Ok([])
  }

  /** Decoding of unpadded symbols, group by group. */
  function DecodeBody(a: Alphabet, s: string): Result<seq<byte>, DecodeError>
    decreases |s|
  {
    if |s| >= 4 then
      var group :- DecodeGroup(a, s[..4]);
      var rest :- DecodeBody(a, s[4..]);
      Ok(group + rest)
    else
      DecodeTail(a, s)
  }

  /** The text before the final '=' characters: one or two are removed. */
  function Unpad(s: string): (body: string)
    ensures |body| <= |s| && body == s[..|body|]
  {
    if |s| >= 2 && s[|s| - 2..] == [PAD, PAD] then s[..|s| - 2]
    else if |s| >= 1 && s[|s| - 1] == PAD then s[..|s| - 1]
    else s
  }

  /** Alphabet symbols followed by nothing, or by the '=' a padded encoder writes
      after a final group: one or two after two symbols, one after three. */
  predicate WellPlacedPadding(a: Alphabet, s: string) {
    var body := Unpad(s);
    && AllSymbols(a, body)
    && (|body| == |s| || |body| % 4 == 2 || (|body| % 4 == 3 && |s| == |body| + 1))
  }

  /** Every character is a symbol of the alphabet. */
  predicate AllSymbols(a: Alphabet, s: string)
    decreases |s|
  {
    |s| == 0 || (Value(a, s[0]).Some? && AllSymbols(a, s[1..]))
  }

  /** `Engine::decode`. A length of 1 modulo 4 is rejected before anything else,
      unless the last character is neither a symbol nor '='. A padded engine otherwise
      requires a multiple of 4 characters, reporting wrong padding when the text is
      symbols followed by well-placed '=', and strips one or two final '='; the rest
      must be alphabet symbols, so padding anywhere else is rejected. An unpadded
      engine rejects well-placed '=' as padding and any other '=' as a symbol. */
  function Decode(e: Engine, s: string): (r: Result<seq<byte>, DecodeError>)
    ensures |s| % 4 == 1 ==>
      r == Err(if s[|s| - 1] == PAD || Value(e.alphabet, s[|s| - 1]).Some? then InvalidLength else InvalidSymbol)
    ensures e.padding && |s| % 4 >= 2 ==>
      r == Err(if WellPlacedPadding(e.alphabet, s) then InvalidPadding else InvalidSymbol)
    ensures !e.padding && |Unpad(s)| < |s| && WellPlacedPadding(e.alphabet, s) ==> r == Err(InvalidPadding)
    ensures r.Ok? ==> Encode(e, r.value) == s
  {
    if |s| % 4 == 1 then
      Err(if s[|s| - 1] == PAD || Value(e.alphabet, s[|s| - 1]).Some? then InvalidLength else InvalidSymbol)
    else if e.padding && |s| % 4 != 0 then
      Err(if WellPlacedPadding(e.alphabet, s) then InvalidPadding else InvalidSymbol)
    else if !e.padding && |Unpad(s)| < |s| && WellPlacedPadding(e.alphabet, s) then
      Err(InvalidPadding)
    else if !e.padding then
      var r := DecodeBody(e.alphabet, s);
      if r.Ok? then EncodeDecodeBody(e.alphabet, s); r else r
    else
      var r := DecodeBody(e.alphabet, Unpad(s));
      if r.Ok? then
        EncodeDecodeBody(e.alphabet, Unpad(s));
        EncodeBodyLength(e.alphabet, r.value);
        PaddedShape(e, s, |r.value|);
        r
      else r
  }

  /** Number of symbols in an unpadded encoding of `n` bytes: ceil(4n/3). */
  lemma {:induction false} EncodeBodyLength(a: Alphabet, b: seq<byte>)
    ensures |EncodeBody(a, b)| == (4 * |b| + 2) / 3
    decreases |b|
  {
    if |b| >= 3 {
      EncodeBodyLength(a, b[3..]);
    }
  }

  /** Every character of an unpadded encoding is a symbol of the alphabet. */
  lemma {:induction false} EncodeBodySymbols(a: Alphabet, b: seq<byte>)
    ensures forall i :: 0 <= i < |EncodeBody(a, b)| ==> Value(a, EncodeBody(a, b)[i]).Some?
    decreases |b|
  {
    var s := EncodeBody(a, b);
    forall v | 0 <= v < 64
      ensures Value(a, Symbol(a, v)).Some?
    {
      ValueOfSymbol(a, v);
    }
    if |b| >= 3 {
      var g := EncodeGroup(a, b[0] as int, b[1] as int, b[2] as int);
      var t := EncodeBody(a, b[3..]);
      EncodeBodySymbols(a, b[3..]);
      assert s == g + t;
      forall i | 0 <= i < |s|
        ensures Value(a, s[i]).Some?
      {
        if i < 4 {
          assert s[i] == g[i];
        } else {
          assert s[i] == t[i - 4];
        }
      }
    }
  }

  /** No character of an unpadded encoding is '='. */
  lemma EncodeBodyHasNoPad(a: Alphabet, b: seq<byte>)
    ensures PAD !in EncodeBody(a, b)
  {
    EncodeBodySymbols(a, b);
  }

  /** The bit arithmetic of a group: splitting three bytes into four 6-bit values and
      joining them again is the identity. */
  lemma SplitJoin(b0: int, b1: int, b2: int)
    requires 0 <= b0 < 256 && 0 <= b1 < 256 && 0 <= b2 < 256
    ensures var v0, v1, v2, v3 := b0 / 4, b0 % 4 * 16 + b1 / 16, b1 % 16 * 4 + b2 / 64, b2 % 64;
      && 0 <= v0 < 64 && 0 <= v1 < 64 && 0 <= v2 < 64 && 0 <= v3 < 64
      && v0 * 4 + v1 / 16 == b0 && v1 % 16 * 16 + v2 / 4 == b1 && v2 % 4 * 64 + v3 == b2
  {
  }

  lemma SymbolValueOfSymbol(a: Alphabet, v: int)
    requires 0 <= v < 64
    ensures SymbolValue(a, Symbol(a, v)) == Ok(v)
  {
    ValueOfSymbol(a, v);
  }

  /** One full group decodes back to its three bytes. */
  lemma DecodeEncodeGroup(a: Alphabet, b0: int, b1: int, b2: int)
    requires 0 <= b0 < 256 && 0 <= b1 < 256 && 0 <= b2 < 256
    ensures DecodeGroup(a, EncodeGroup(a, b0, b1, b2)) == Ok([b0, b1, b2])
  {
    var v0, v1, v2, v3 := b0 / 4, b0 % 4 * 16 + b1 / 16, b1 % 16 * 4 + b2 / 64, b2 % 64;
    SplitJoin(b0, b1, b2);
    DecodeGroupOfSymbols(a, v0, v1, v2, v3);
  }

  /** Four symbols decode to the bytes their values join into. */
  lemma DecodeGroupOfSymbols(a: Alphabet, v0: int, v1: int, v2: int, v3: int)
    requires 0 <= v0 < 64 && 0 <= v1 < 64 && 0 <= v2 < 64 && 0 <= v3 < 64
    ensures DecodeGroup(a, [Symbol(a, v0), Symbol(a, v1), Symbol(a, v2), Symbol(a, v3)])
            == Ok([v0 * 4 + v1 / 16, v1 % 16 * 16 + v2 / 4, v2 % 4 * 64 + v3])
  {
    SymbolValueOfSymbol(a, v0);
    SymbolValueOfSymbol(a, v1);
    SymbolValueOfSymbol(a, v2);
    SymbolValueOfSymbol(a, v3);
  }

  /** A final group decodes back to its one or two bytes. */
  lemma DecodeEncodeTail(a: Alphabet, b: seq<byte>)
    requires |b| < 3
    ensures DecodeTail(a, EncodeTail(a, b)) == Ok(b)
  {
    if |b| == 2 {
      DecodeEncodeTwo(a, b);
    } else if |b| == 1 {
      DecodeEncodeOne(a, b);
    }
  }

  lemma DecodeEncodeTwo(a: Alphabet, b: seq<byte>)
    requires |b| == 2
    ensures DecodeTail(a, EncodeTail(a, b)) == Ok(b)
  {
    var b0, b1 := b[0] as int, b[1] as int;
    var v0, v1, v2 := b0 / 4, b0 % 4 * 16 + b1 / 16, b1 % 16 * 4;
    SplitJoinTwo(b0, b1);
    assert EncodeTail(a, b) == [Symbol(a, v0), Symbol(a, v1), Symbol(a, v2)];
    SymbolValueOfSymbol(a, v0);
    SymbolValueOfSymbol(a, v1);
    SymbolValueOfSymbol(a, v2);
    assert b == [b0, b1];
  }

  lemma SplitJoinTwo(b0: int, b1: int)
    requires 0 <= b0 < 256 && 0 <= b1 < 256
    ensures var v0, v1, v2 := b0 / 4, b0 % 4 * 16 + b1 / 16, b1 % 16 * 4;
      && 0 <= v0 < 64 && 0 <= v1 < 64 && 0 <= v2 < 64 && v2 % 4 == 0
      && v0 * 4 + v1 / 16 == b0 && v1 % 16 * 16 + v2 / 4 == b1
  {
  }

  lemma SplitJoinOne(b0: int)
    requires 0 <= b0 < 256
    ensures var v0, v1 := b0 / 4, b0 % 4 * 16;
      && 0 <= v0 < 64 && 0 <= v1 < 64 && v1 % 16 == 0 && v0 * 4 + v1 / 16 == b0
  {
  }

  lemma DecodeEncodeOne(a: Alphabet, b: seq<byte>)
    requires |b| == 1
    ensures DecodeTail(a, EncodeTail(a, b)) == Ok(b)
  {
    var b0 := b[0] as int;
    var v0, v1 := b0 / 4, b0 % 4 * 16;
    SplitJoinOne(b0);
    assert EncodeTail(a, b) == [Symbol(a, v0), Symbol(a, v1)];
    SymbolValueOfSymbol(a, v0);
    SymbolValueOfSymbol(a, v1);
    assert b == [b0];
  }

  /** Round trip for unpadded symbols: decoding the encoding gives the bytes back. */
  lemma {:induction false} DecodeEncodeBody(a: Alphabet, b: seq<byte>)
    ensures DecodeBody(a, EncodeBody(a, b)) == Ok(b)
    decreases |b|
  {
    if |b| >= 3 {
      var g := EncodeGroup(a, b[0] as int, b[1] as int, b[2] as int);
      var s := g + EncodeBody(a, b[3..]);
      DecodeEncodeGroup(a, b[0] as int, b[1] as int, b[2] as int);
      DecodeEncodeBody(a, b[3..]);
      assert s[..4] == g && s[4..] == EncodeBody(a, b[3..]);
      assert b == [b[0], b[1], b[2]] + b[3..];
    } else {
      DecodeEncodeTail(a, b);
    }
  }

  /** The bit arithmetic the other way: joining four 6-bit values into three bytes and
      splitting them again is the identity. */
  lemma JoinSplit(v0: int, v1: int, v2: int, v3: int)
    requires 0 <= v0 < 64 && 0 <= v1 < 64 && 0 <= v2 < 64 && 0 <= v3 < 64
    ensures var b0, b1, b2 := v0 * 4 + v1 / 16, v1 % 16 * 16 + v2 / 4, v2 % 4 * 64 + v3;
      && 0 <= b0 < 256 && 0 <= b1 < 256 && 0 <= b2 < 256
      && b0 / 4 == v0 && b0 % 4 * 16 + b1 / 16 == v1 && b1 % 16 * 4 + b2 / 64 == v2 && b2 % 64 == v3
  {
  }

  /** One full group of symbols that decodes re-encodes to the same symbols. */
  lemma EncodeDecodeGroup(a: Alphabet, s: string)
    requires |s| == 4 && DecodeGroup(a, s).Ok?
    ensures var g := DecodeGroup(a, s).value; EncodeGroup(a, g[0], g[1], g[2]) == s
  {
    DecodeGroupValues(a, s);
    EncodeGroupSpells(a, s);
  }

  /** Four symbols re-encode from the bytes their values join into. */
  lemma EncodeGroupSpells(a: Alphabet, s: string)
    requires |s| == 4 && Value(a, s[0]).Some? && Value(a, s[1]).Some? && Value(a, s[2]).Some? && Value(a, s[3]).Some?
    ensures var v0, v1, v2, v3 := Value(a, s[0]).value, Value(a, s[1]).value, Value(a, s[2]).value, Value(a, s[3]).value;
      var b0, b1, b2 := v0 * 4 + v1 / 16, v1 % 16 * 16 + v2 / 4, v2 % 4 * 64 + v3;
      && 0 <= b0 < 256 && 0 <= b1 < 256 && 0 <= b2 < 256
      && EncodeGroup(a, b0, b1, b2) == s
  {
    var v0, v1, v2, v3 := Value(a, s[0]).value, Value(a, s[1]).value, Value(a, s[2]).value, Value(a, s[3]).value;
    EncodeGroupOfValues(a, v0, v1, v2, v3);
    SymbolsOfFour(a, s);
  }

  /** Four symbols of the alphabet are spelled by their values. */
  lemma SymbolsOfFour(a: Alphabet, s: string)
    requires |s| == 4 && Value(a, s[0]).Some? && Value(a, s[1]).Some? && Value(a, s[2]).Some? && Value(a, s[3]).Some?
    ensures s == [Symbol(a, Value(a, s[0]).value), Symbol(a, Value(a, s[1]).value),
                  Symbol(a, Value(a, s[2]).value), Symbol(a, Value(a, s[3]).value)]
  {
    SymbolOfValue(a, s[0]);
    SymbolOfValue(a, s[1]);
    SymbolOfValue(a, s[2]);
    SymbolOfValue(a, s[3]);
  }

  /** The bytes a decoded group holds, in terms of its symbols' values. */
  lemma DecodeGroupValues(a: Alphabet, s: string)
    requires |s| == 4 && DecodeGroup(a, s).Ok?
    ensures Value(a, s[0]).Some? && Value(a, s[1]).Some? && Value(a, s[2]).Some? && Value(a, s[3]).Some?
    ensures var v0, v1, v2, v3 := Value(a, s[0]).value, Value(a, s[1]).value, Value(a, s[2]).value, Value(a, s[3]).value;
      DecodeGroup(a, s).value == [v0 * 4 + v1 / 16, v1 % 16 * 16 + v2 / 4, v2 % 4 * 64 + v3]
  {
  }

  /** Re-encoding the bytes four 6-bit values join into spells those values. */
  lemma EncodeGroupOfValues(a: Alphabet, v0: int, v1: int, v2: int, v3: int)
    requires 0 <= v0 < 64 && 0 <= v1 < 64 && 0 <= v2 < 64 && 0 <= v3 < 64
    ensures var b0, b1, b2 := v0 * 4 + v1 / 16, v1 % 16 * 16 + v2 / 4, v2 % 4 * 64 + v3;
      && 0 <= b0 < 256 && 0 <= b1 < 256 && 0 <= b2 < 256
      && EncodeGroup(a, b0, b1, b2) == [Symbol(a, v0), Symbol(a, v1), Symbol(a, v2), Symbol(a, v3)]
  {
    JoinSplit(v0, v1, v2, v3);
  }

  /** A final group that decodes re-encodes to the same symbols: the zero-bits check
      rules out every other spelling. */
  lemma EncodeDecodeTail(a: Alphabet, s: string)
    requires |s| < 4 && DecodeTail(a, s).Ok?
    ensures EncodeTail(a, DecodeTail(a, s).value) == s
  {
    if |s| == 3 {
      EncodeDecodeThree(a, s);
    } else if |s| == 2 {
      EncodeDecodeTwo(a, s);
    }
  }

  lemma EncodeDecodeThree(a: Alphabet, s: string)
    requires |s| == 3 && DecodeTail(a, s).Ok?
    ensures EncodeTail(a, DecodeTail(a, s).value) == s
  {
    DecodeThreeValues(a, s);
    EncodeThreeSpells(a, s);
  }

  lemma DecodeThreeValues(a: Alphabet, s: string)
    requires |s| == 3 && DecodeTail(a, s).Ok?
    ensures Value(a, s[0]).Some? && Value(a, s[1]).Some? && Value(a, s[2]).Some?
    ensures Value(a, s[2]).value % 4 == 0
    ensures var v0, v1, v2 := Value(a, s[0]).value, Value(a, s[1]).value, Value(a, s[2]).value;
      DecodeTail(a, s).value == [v0 * 4 + v1 / 16, v1 % 16 * 16 + v2 / 4]
  {
  }

  lemma EncodeThreeSpells(a: Alphabet, s: string)
    requires |s| == 3 && Value(a, s[0]).Some? && Value(a, s[1]).Some? && Value(a, s[2]).Some?
    requires Value(a, s[2]).value % 4 == 0
    ensures var v0, v1, v2 := Value(a, s[0]).value, Value(a, s[1]).value, Value(a, s[2]).value;
      var b0, b1 := v0 * 4 + v1 / 16, v1 % 16 * 16 + v2 / 4;
      && 0 <= b0 < 256 && 0 <= b1 < 256
      && EncodeTail(a, [b0, b1]) == s
  {
    EncodeThreeOfValues(a, Value(a, s[0]).value, Value(a, s[1]).value, Value(a, s[2]).value);
    SymbolOfValue(a, s[0]);
    SymbolOfValue(a, s[1]);
    SymbolOfValue(a, s[2]);
  }

  lemma EncodeThreeOfValues(a: Alphabet, v0: int, v1: int, v2: int)
    requires 0 <= v0 < 64 && 0 <= v1 < 64 && 0 <= v2 < 64 && v2 % 4 == 0
    ensures var b0, b1 := v0 * 4 + v1 / 16, v1 % 16 * 16 + v2 / 4;
      && 0 <= b0 < 256 && 0 <= b1 < 256
      && EncodeTail(a, [b0, b1]) == [Symbol(a, v0), Symbol(a, v1), Symbol(a, v2)]
  {
    JoinSplit(v0, v1, v2, 0);
  }

  lemma EncodeDecodeTwo(a: Alphabet, s: string)
    requires |s| == 2 && DecodeTail(a, s).Ok?
    ensures EncodeTail(a, DecodeTail(a, s).value) == s
  {
    DecodeTwoValues(a, s);
    EncodeTwoSpells(a, s);
  }

  lemma DecodeTwoValues(a: Alphabet, s: string)
    requires |s| == 2 && DecodeTail(a, s).Ok?
    ensures Value(a, s[0]).Some? && Value(a, s[1]).Some?
    ensures Value(a, s[1]).value % 16 == 0
    ensures DecodeTail(a, s).value == [Value(a, s[0]).value * 4 + Value(a, s[1]).value / 16]
  {
  }

  lemma EncodeTwoSpells(a: Alphabet, s: string)
    requires |s| == 2 && Value(a, s[0]).Some? && Value(a, s[1]).Some?
    requires Value(a, s[1]).value % 16 == 0
    ensures var b0 := Value(a, s[0]).value * 4 + Value(a, s[1]).value / 16;
      && 0 <= b0 < 256
      && EncodeTail(a, [b0]) == s
  {
    EncodeTwoOfValues(a, Value(a, s[0]).value, Value(a, s[1]).value);
    SymbolOfValue(a, s[0]);
    SymbolOfValue(a, s[1]);
  }

  lemma EncodeTwoOfValues(a: Alphabet, v0: int, v1: int)
    requires 0 <= v0 < 64 && 0 <= v1 < 64 && v1 % 16 == 0
    ensures var b0 := v0 * 4 + v1 / 16;
      && 0 <= b0 < 256
      && EncodeTail(a, [b0]) == [Symbol(a, v0), Symbol(a, v1)]
  {
    JoinSplit(v0, v1, 0, 0);
  }

  /** The converse round trip: symbols that decode are the encoding of their bytes, so
      decoding accepts only canonical text. */
  lemma {:induction false} EncodeDecodeBody(a: Alphabet, s: string)
    requires DecodeBody(a, s).Ok?
    ensures EncodeBody(a, DecodeBody(a, s).value) == s
    decreases |s|
  {
    if |s| >= 4 {
      var g := DecodeGroup(a, s[..4]).value;
      var rest := DecodeBody(a, s[4..]).value;
      assert DecodeBody(a, s).value == g + rest;
      EncodeDecodeGroup(a, s[..4]);
      EncodeDecodeBody(a, s[4..]);
      var b := g + rest;
      assert b[3..] == rest;
      assert EncodeBody(a, b) == EncodeGroup(a, g[0], g[1], g[2]) + EncodeBody(a, rest);
      assert s == s[..4] + s[4..];
    } else {
      EncodeDecodeTail(a, s);
    }
  }


  /** The unpadded length plus the padding length is four symbols per started group. */
  lemma PaddedLength(n: nat)
    ensures (4 * n + 2) / 3 + (if n % 3 == 0 then 0 else if n % 3 == 1 then 2 else 1)
            == 4 * ((n + 2) / 3)
  {
    var q, r := n / 3, n % 3;
    assert n == 3 * q + r;
    assert 4 * n + 2 == 3 * (4 * q + r) + (r + 2);
    assert n + 2 == 3 * q + (r + 2);
    if r == 0 {
      assert (4 * n + 2) / 3 == 4 * q;
      assert (n + 2) / 3 == q;
    } else if r == 1 {
      assert (4 * n + 2) / 3 == 4 * q + 2;
      assert (n + 2) / 3 == q + 1;
    } else {
      assert (4 * n + 2) / 3 == 4 * q + 3;
      assert (n + 2) / 3 == q + 1;
    }
  }


  /** Unpadding a '='-free text followed by the padding for its length gives the text. */
  lemma UnpadPadded(e: Engine, body: string, n: nat)
    requires e.padding && PAD !in body && |body| == (4 * n + 2) / 3
    ensures |body + Padding(e, n)| % 4 == 0
    ensures Unpad(body + Padding(e, n)) == body
  {
    PadCount(n, |body|);
    UnpadPaddedCase(e, body, n, n % 3);
  }

  /** `UnpadPadded` for one remainder `r` of the byte count, with the length facts
      already established. */
  lemma UnpadPaddedCase(e: Engine, body: string, n: nat, r: nat)
    requires e.padding && PAD !in body && r == n % 3
    requires r == 0 ==> |body| % 4 == 0
    requires r == 1 ==> (|body| + 2) % 4 == 0
    requires r == 2 ==> |body| > 0 && (|body| + 1) % 4 == 0
    ensures |body + Padding(e, n)| % 4 == 0
    ensures Unpad(body + Padding(e, n)) == body
  {
    if r == 1 {
      assert Padding(e, n) == [PAD, PAD];
      UnpadTwo(body);
    } else if r == 2 {
      assert Padding(e, n) == [PAD];
      UnpadOne(body);
    } else {
      assert Padding(e, n) == [];
      UnpadNone(body);
    }
  }

  /** How many '=' complete the unpadded length `m` of `n` bytes to a multiple of 4. */
  lemma PadCount(n: nat, m: nat)
    requires m == (4 * n + 2) / 3
    ensures n % 3 == 0 ==> m % 4 == 0
    ensures n % 3 == 1 ==> (m + 2) % 4 == 0
    ensures n % 3 == 2 ==> m > 0 && (m + 1) % 4 == 0
  {
    var q, r := n / 3, n % 3;
    assert n == 3 * q + r;
    if r == 0 {
      assert m == 4 * q;
    } else if r == 1 {
      assert m == 4 * q + 2;
    } else {
      assert m == 4 * q + 3;
    }
  }

  lemma UnpadTwo(body: string)
    ensures Unpad(body + [PAD, PAD]) == body
  {
    var s := body + [PAD, PAD];
    assert s[|s| - 2..] == [PAD, PAD];
    assert s[..|s| - 2] == body;
  }

  lemma UnpadOne(body: string)
    requires |body| > 0 && PAD !in body
    ensures Unpad(body + [PAD]) == body
  {
    var s := body + [PAD];
    assert body[|body| - 1] in body;
    assert s[|s| - 2..] == [body[|body| - 1], PAD];
    assert s[..|s| - 1] == body;
  }

  lemma UnpadNone(body: string)
    requires PAD !in body
    ensures Unpad(body) == body
  {
    if |body| > 0 {
      assert body[|body| - 1] in body;
    }
  }

  /** Padding in the wrong amount is its own error: "QUI" lacks the '=' the standard
      engine requires, and "QQ==" carries '=' the unpadded engine forbids. A stray '='
      inside the text is an invalid symbol, and "QUJDQ" is too short by one symbol. */
  lemma PaddingErrors()
    ensures Decode(STANDARD, "QUI") == Err(InvalidPadding)
    ensures Decode(URL_SAFE_NO_PAD, "QQ==") == Err(InvalidPadding)
    ensures Decode(URL_SAFE_NO_PAD, "QQ=A") == Err(InvalidSymbol)
    ensures Decode(STANDARD, "QUJDQ") == Err(InvalidLength)
  {
    assert WellPlacedPadding(Standard, "QUI") by {
      assert AllSymbols(Standard, "QUI"[2..]);
    }
    assert WellPlacedPadding(UrlSafe, "QQ==") by {
      assert Unpad("QQ==") == "QQ";
      assert AllSymbols(UrlSafe, "QQ"[1..]);
    }
    assert DecodeBody(UrlSafe, "QQ=A") == Err(InvalidSymbol) by {
      assert "QQ=A"[..4] == "QQ=A";
      assert SymbolValue(UrlSafe, '=') == Err(InvalidSymbol);
    }
    assert Unpad("QQ=A") == "QQ=A";
  }

  /** Round trip: an engine decodes its own encoding of any bytes. */
  lemma DecodeEncode(e: Engine, b: seq<byte>)
    ensures Decode(e, Encode(e, b)) == Ok(b)
  {
    var body := EncodeBody(e.alphabet, b);
    DecodeEncodeBody(e.alphabet, b);
    EncodeBodyLength(e.alphabet, b);
    EncodeBodyHasNoPad(e.alphabet, b);
    if e.padding {
      EncodedPaddedShape(e, b);
      DecodeWellFormed(e, Encode(e, b));
    } else {
      EncodedUnpaddedShape(e, b);
      DecodeWellFormed(e, Encode(e, b));
    }
  }

  /** A padded encoding has a multiple of 4 characters and unpads to its body. */
  lemma EncodedPaddedShape(e: Engine, b: seq<byte>)
    requires e.padding
    ensures |Encode(e, b)| % 4 == 0 && Unpad(Encode(e, b)) == EncodeBody(e.alphabet, b)
  {
    EncodeBodyLength(e.alphabet, b);
    EncodeBodyHasNoPad(e.alphabet, b);
    UnpadPadded(e, EncodeBody(e.alphabet, b), |b|);
  }

  /** An unpadded encoding is its body, never 1 modulo 4 long, and has no '='. */
  lemma EncodedUnpaddedShape(e: Engine, b: seq<byte>)
    requires !e.padding
    ensures Encode(e, b) == EncodeBody(e.alphabet, b)
    ensures |Encode(e, b)| % 4 != 1 && PAD !in Encode(e, b) && Unpad(Encode(e, b)) == Encode(e, b)
  {
    var body := EncodeBody(e.alphabet, b);
    assert Encode(e, b) == body by {
      assert Padding(e, |b|) == "";
    }
    var n := |body|;
    assert n == (4 * |b| + 2) / 3 by {
      EncodeBodyLength(e.alphabet, b);
    }
    assert n % 4 != 1 by {
      UnpaddedLengthMod(|b|);
    }
    EncodeBodyHasNoPad(e.alphabet, b);
    UnpadNone(body);
  }

  /** Text of a length an engine can produce, and without '=' for an unpadded engine,
      passes the length and padding checks and is decoded group by group. */
  lemma DecodeWellFormed(e: Engine, s: string)
    requires e.padding ==> |s| % 4 == 0
    requires !e.padding ==> |s| % 4 != 1 && Unpad(s) == s
    ensures Decode(e, s) == DecodeBody(e.alphabet, if e.padding then Unpad(s) else s)
  {
  }

  /** A text that unpads to a body of a given decoded length is that body followed by
      the padding for that length. */
  lemma PaddedShape(e: Engine, s: string, n: nat)
    requires e.padding && |s| % 4 == 0 && |Unpad(s)| == (4 * n + 2) / 3
    ensures s == Unpad(s) + Padding(e, n)
  {
    var body := Unpad(s);
    UnpaddedLengthMod(n);
    if |s| >= 2 && s[|s| - 2..] == [PAD, PAD] {
      assert |body| % 4 == 2;
      assert Padding(e, n) == [PAD, PAD];
      assert s == body + [PAD, PAD];
    } else if |s| >= 1 && s[|s| - 1] == PAD {
      assert |body| % 4 == 3;
      assert Padding(e, n) == [PAD];
      assert s == body + [PAD];
    } else {
      assert |body| % 4 == 0;
      assert Padding(e, n) == [];
      assert s == body;
    }
  }

  /** The unpadded length of `n` bytes, modulo 4, tells how many '=' follow. */
  lemma UnpaddedLengthMod(n: nat)
    ensures (4 * n + 2) / 3 % 4 == (if n % 3 == 0 then 0 else if n % 3 == 1 then 2 else 3)
  {
    var q, r := n / 3, n % 3;
    assert n == 3 * q + r;
    assert 4 * n + 2 == 3 * (4 * q + r) + (r + 2);
    if r == 0 {
      assert (4 * n + 2) / 3 == 4 * q;
    } else if r == 1 {
      assert (4 * n + 2) / 3 == 4 * q + 2;
    } else {
      assert (4 * n + 2) / 3 == 4 * q + 3;
    }
  }
}
