/** The encoding selector of the `base64` subcommands (src/cli/base64_opt.rs): parsed
    after lowercasing, so in any letter case, while its printed form "URL-safe" is
    not a spelling the parser knows. */
module Base64Opts {
  import opened Wrappers
  import opened Strings

  datatype Base64Format = Standard | Urlsafe

  /** The `anyhow` error `from_str` bails with, carrying the LOWERCASED input. */
  datatype FormatError = UnsupportedFormat(value: string)

  function Message(e: FormatError): string {
    "Unsupported format: " + e.value
  }

  /** The lower-case spelling the parser matches for each format. */
  function Keyword(f: Base64Format): string {
    match f
    case Standard => "standard"
    case Urlsafe => "urlsafe"
  }

  /** `FromStr for Base64Format` (also `parse_base64_format`). */
  function Parse(s: string): (r: Result<Base64Format, FormatError>)
    ensures r.Ok? <==> ToLower(s) == "standard" || ToLower(s) == "urlsafe"
    ensures r.Ok? ==> Keyword(r.value) == ToLower(s)
    ensures r.Err? ==> r.error == UnsupportedFormat(ToLower(s))
  {
    var v := ToLower(s);
    if v == "standard" then Ok(Standard)
    else if v == "urlsafe" then Ok(Urlsafe)
    else Err(UnsupportedFormat(v))
  }

  /** `Display for Base64Format`: the Standard keyword with a capital first letter;
      for Urlsafe the text "url-safe" with its first three letters in upper case.
      Only the first matches its keyword up to letter case: the URL-safe name
      carries a hyphen. */
  function Display(f: Base64Format): (r: string)
    ensures |r| > 0 && 'A' <= r[0] <= 'Z'
    ensures ToLower(r) == Keyword(f) <==> f.Standard?
    ensures f.Standard? ==> r[0] as int == Keyword(f)[0] as int - 32 && r[1..] == Keyword(f)[1..]
    ensures f.Urlsafe? ==> ToLower(r) == "url-safe"
    ensures f.Urlsafe? ==> (forall i :: 0 <= i < |r| ==> ('A' <= r[i] <= 'Z' <==> i < 3))
  {
    match f
    case Standard => "Standard"
    case Urlsafe => "URL-safe"
  }

  /** `From<Base64Format> for String`, with the same names as `Display`. */
  function ToString(f: Base64Format): (r: string)
    ensures |r| > 0 && 'A' <= r[0] <= 'Z'
    ensures ToLower(r) == Keyword(f) <==> f.Standard?
    ensures f.Standard? ==> r[0] as int == Keyword(f)[0] as int - 32 && r[1..] == Keyword(f)[1..]
    ensures f.Urlsafe? ==> ToLower(r) == "url-safe"
    ensures f.Urlsafe? ==> (forall i :: 0 <= i < |r| ==> ('A' <= r[i] <= 'Z' <==> i < 3))
  {
    match f
    case Standard => "Standard"
    case Urlsafe => "URL-safe"
  }

  /** Letter case does not matter: texts equal up to case parse alike. */
  lemma ParseIgnoresCase(s: string, t: string)
    requires ToLower(s) == ToLower(t)
    ensures Parse(s) == Parse(t)
  {
  }

  /** The keyword parses to its format, and a text parses to `f` exactly when it is
      the keyword of `f` in some letter case. */
  lemma ParseKeyword(s: string, f: Base64Format)
    ensures Parse(Keyword(f)) == Ok(f)
    ensures Parse(s) == Ok(f) <==> ToLower(s) == Keyword(f)
  {
    ToLowerOfLower(Keyword(f));
  }

  /** The two printers agree. */
  lemma DisplayIsToString(f: Base64Format)
    ensures Display(f) == ToString(f)
  {
  }

  /** "Standard" parses back to Standard, but "URL-safe" is rejected: the hyphen is
      not part of the keyword. */
  lemma DisplayRoundTrip()
    ensures Parse(Display(Standard)) == Ok(Standard)
    ensures Parse(Display(Urlsafe)) == Err(UnsupportedFormat("url-safe"))
  {
    assert ToLower("Standard") == "standard";
    assert ToLower("URL-safe") == "url-safe";
  }

  /** The `default_value` of `--format` for `base64 encode` and `base64 decode`. */
  const ENCODE_DEFAULT_FORMAT := "standard"
  const DECODE_DEFAULT_FORMAT := "standard"

  /** Both commands default to Standard. */
  lemma DefaultsAreStandard()
    ensures Parse(ENCODE_DEFAULT_FORMAT) == Ok(Standard)
    ensures Parse(DECODE_DEFAULT_FORMAT) == Ok(Standard)
  {
    ParseKeyword(ENCODE_DEFAULT_FORMAT, Standard);
  }
}
