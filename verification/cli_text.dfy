/** The algorithm selector of the `text` subcommands (src/cli/text.rs): parsed
    case-sensitively from its lower-case name, printed with a capital letter. */
module TextOpts {
  import opened Wrappers
  import opened Strings

  datatype TextSignFormat = Blake3 | Ed25519

  /** The `anyhow` error `from_str` raises, carrying the rejected input. */
  datatype FormatError = InvalidFormat(input: string)

  function Message(e: FormatError): string {
    "Invalid format: " + e.input
  }

  /** The one spelling the parser accepts for each format. */
  function Keyword(f: TextSignFormat): string {
    match f
    case Blake3 => "blake3"
    case Ed25519 => "ed25519"
  }

  /** `FromStr for TextSignFormat` (also `parse_format`, the clap value parser):
      exactly the two lower-case keywords are accepted, compared character by
      character; every other text is rejected with an error naming it. */
  function Parse(s: string): (r: Result<TextSignFormat, FormatError>)
    ensures r.Ok? <==> s == "blake3" || s == "ed25519"
    ensures r.Ok? ==> Keyword(r.value) == s
    ensures r.Err? ==> r.error == InvalidFormat(s)
  {
    if s == "blake3" then Ok(Blake3)
    else if s == "ed25519" then Ok(Ed25519)
    else Err(InvalidFormat(s))
  }

  /** `Display for TextSignFormat`: the keyword with a capital first letter. */
  function Display(f: TextSignFormat): (r: string)
    ensures |r| == |Keyword(f)| && r[0] as int == Keyword(f)[0] as int - 32
    ensures r[1..] == Keyword(f)[1..]
    ensures ToLower(r) == Keyword(f)
  {
    match f
    case Blake3 => "Blake3"
    case Ed25519 => "Ed25519"
  }

  /** `From<TextSignFormat> for String`: the keyword with a capital first letter. */
  function ToString(f: TextSignFormat): (r: string)
    ensures |r| == |Keyword(f)| && r[0] as int == Keyword(f)[0] as int - 32
    ensures r[1..] == Keyword(f)[1..]
    ensures ToLower(r) == Keyword(f)
  {
    match f
    case Blake3 => "Blake3"
    case Ed25519 => "Ed25519"
  }

  /** Round trip through the keyword, and the keyword is the only accepted spelling:
      parsing succeeds with `f` exactly on `Keyword(f)`. */
  lemma ParseKeyword(s: string, f: TextSignFormat)
    ensures Parse(s) == Ok(f) <==> s == Keyword(f)
  {
  }

  /** The two printers agree on every format. */
  lemma DisplayIsToString(f: TextSignFormat)
    ensures Display(f) == ToString(f)
    ensures |Display(f)| > 0 && 'A' <= Display(f)[0] <= 'Z'
  {
  }

  /** Parsing is case-sensitive, so the printed form never parses back. */
  lemma DisplayDoesNotParse(f: TextSignFormat)
    ensures Parse(Display(f)) == Err(InvalidFormat(Display(f)))
    ensures Parse(ToString(f)).Err?
  {
    DisplayIsToString(f);
  }

  /** The `default_value` of `--format` for `text sign`, `text verify` and
      `text generator`. */
  const SIGN_DEFAULT_FORMAT := "blake3"
  const VERIFY_DEFAULT_FORMAT := "blake3"
  const GENERATOR_DEFAULT_FORMAT := "blake3"

  /** All three commands default to Blake3. */
  lemma DefaultsAreBlake3()
    ensures Parse(SIGN_DEFAULT_FORMAT) == Ok(Blake3)
    ensures Parse(VERIFY_DEFAULT_FORMAT) == Ok(Blake3)
    ensures Parse(GENERATOR_DEFAULT_FORMAT) == Ok(Blake3)
  {
  }
}
