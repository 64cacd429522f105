/** The `base64 encode` / `base64 decode` commands (src/process/b64.rs): pick an engine
    from the format, encode raw bytes, or trim the text, decode it and require the
    result to be UTF-8. Reading the input (`read_data`) and printing are outside the
    model: encoding takes the input bytes and returns the printed line, decoding takes
    the input text and returns the printed text. */
module B64Process {
  import opened Wrappers
  import opened Bytes
  import opened Strings
  import Base64
  import Base64Opts
  import Utf8

  datatype Error =
    | Decode(cause: Base64.DecodeError)  // the trimmed text is not base64 for the engine
    | InvalidUtf8                        // `String::from_utf8` rejected the decoded bytes

  /** The engine both commands use for a format: the standard alphabet with padding, or
      the URL-safe alphabet without. */
  function EngineOf(format: Base64Opts.Base64Format): (e: Base64.Engine)
    ensures format.Standard? ==> e.alphabet == Base64.Standard && e.padding
    ensures format.Urlsafe? ==> e.alphabet == Base64.UrlSafe && !e.padding
  {
    match format
    case Standard => Base64.STANDARD
    case Urlsafe => Base64.URL_SAFE_NO_PAD
  }

  /** `process_base64_encode`: the printed line decodes back to the input with the same
      engine; padded output has 4 * ceil(n/3) characters, unpadded output ceil(4n/3)
      and no '='. */
  function ProcessBase64Encode(input: seq<byte>, format: Base64Opts.Base64Format): (out: string)
    ensures Base64.Decode(EngineOf(format), out) == Ok(input)
    ensures format.Standard? ==> |out| == 4 * ((|input| + 2) / 3)
    ensures format.Urlsafe? ==> |out| == (4 * |input| + 2) / 3 && Base64.PAD !in out
  {
    var e := EngineOf(format);
    Base64.DecodeEncode(e, input);
    if e.padding then Base64.Encode(e, input)
    else Base64.EncodedUnpaddedShape(e, input); Base64.Encode(e, input)
  }

  /** `process_base64_decode`: surrounding whitespace is trimmed first; then a decoding
      failure is an error, and so are decoded bytes that are not UTF-8; otherwise the
      result is the text those bytes encode. */
  function ProcessBase64Decode(input: string, format: Base64Opts.Base64Format): (r: Result<string, Error>)
    ensures var decoded := Base64.Decode(EngineOf(format), Trim(input));
      && (decoded.Err? ==> r == Err(Decode(decoded.error)))
      && (decoded.Ok? ==> (r.Ok? <==> Utf8.Valid(decoded.value)))
      && (decoded.Ok? && !Utf8.Valid(decoded.value) ==> r == Err(InvalidUtf8))
      && (r.Ok? ==> decoded.Ok? && Utf8.Encode(r.value) == decoded.value)
  {
    var text := Trim(input);
    var bytes :- match Base64.Decode(EngineOf(format), text)
      case Ok(b) => Ok(b)
      case Err(e) => Err(Decode(e));
    match Utf8.Decode(bytes)
    case None => Err(InvalidUtf8)
    case Some(s) =>
      Utf8.EncodeDecode(bytes);
      Ok(s)
  }

  /** Base64 text contains no whitespace: every character is a symbol or '='. */
  lemma EncodedHasNoWhitespace(e: Base64.Engine, b: seq<byte>)
    ensures NoWhitespace(Base64.Encode(e, b))
  {
    var body := Base64.EncodeBody(e.alphabet, b);
    var s := Base64.Encode(e, b);
    Base64.EncodeBodySymbols(e.alphabet, b);
    forall i | 0 <= i < |s|
      ensures !IsWhitespace(s[i])
    {
      if i < |body| {
        assert s[i] == body[i];
        assert Base64.Value(e.alphabet, body[i]).Some?;
      }
    }
  }

  /** End to end: any text, encoded by `base64 encode` and fed back to `base64 decode`
      with the same format, comes out unchanged, even with whitespace around it (such
      as the newline `println!` adds). */
  lemma EncodeThenDecode(s: string, format: Base64Opts.Base64Format, pre: string, post: string)
    requires AllWhitespace(pre) && AllWhitespace(post)
    ensures ProcessBase64Decode(pre + ProcessBase64Encode(Utf8.Encode(s), format) + post, format) == Ok(s)
  {
    var bytes := Utf8.Encode(s);
    var encoded := ProcessBase64Encode(bytes, format);
    EncodedHasNoWhitespace(EngineOf(format), bytes);
    TrimPadded(pre, encoded, post);
    Utf8.DecodeEncode(s);
  }
}
