/** The output selector of the `csv` subcommand (src/cli/csv_opt.rs, the module the
    command-line layer declares): two parsers that lowercase first, and a printer
    whose output both of them accept. */
module CsvOpt {
  import opened Wrappers
  import opened Strings

  datatype OutputFormat = Json | Yaml

  /** The `anyhow` error both parsers bail with, carrying the LOWERCASED input. */
  datatype FormatError = UnsupportedFormat(value: string)

  function Message(e: FormatError): string {
    "Unsupported format: " + e.value
  }

  /** `From<OutputFormat> for &'static str`. */
  function Name(f: OutputFormat): string {
    match f
    case Json => "json"
    case Yaml => "yaml"
  }

  /** `Display for OutputFormat`: writes `Name`, which is lower case, so both
      parsers read it back. */
  function Display(f: OutputFormat): (r: string)
    ensures ToLower(r) == r
    ensures FromStr(r) == Ok(f) && TryFrom(r) == Ok(f)
  {
    ToLowerOfLower(Name(f));
    Name(f)
  }

  /** `FromStr for OutputFormat` (also `parse_format`). */
  function FromStr(s: string): (r: Result<OutputFormat, FormatError>)
    ensures r.Ok? <==> ToLower(s) == "json" || ToLower(s) == "yaml"
    ensures r.Ok? ==> Name(r.value) == ToLower(s)
    ensures r.Err? ==> r.error == UnsupportedFormat(ToLower(s))
  {
    var v := ToLower(s);
    if v == "json" then Ok(Json)
    else if v == "yaml" then Ok(Yaml)
    else Err(UnsupportedFormat(v))
  }

  /** `TryFrom<&str> for OutputFormat`. */
  function TryFrom(s: string): (r: Result<OutputFormat, FormatError>)
    ensures r.Ok? <==> ToLower(s) == "json" || ToLower(s) == "yaml"
    ensures r.Err? ==> r.error == UnsupportedFormat(ToLower(s))
  {
    var v := ToLower(s);
    if v == "json" then Ok(Json)
    else if v == "yaml" then Ok(Yaml)
    else Err(UnsupportedFormat(v))
  }

  /** The two parsers give the same answer, success or error, on every input. */
  lemma FromStrIsTryFrom(s: string)
    ensures FromStr(s) == TryFrom(s)
  {
  }

  /** Round trip: the printed name of a format parses back to it, through either
      parser, and in any letter case. */
  lemma ParseDisplay(f: OutputFormat, s: string)
    ensures FromStr(Display(f)) == Ok(f)
    ensures TryFrom(Display(f)) == Ok(f)
    ensures ToLower(s) == Display(f) ==> FromStr(s) == Ok(f)
  {
    ToLowerOfLower(Name(f));
  }

  /** The `default_value_t` of `--delimiter` and `--header`. */
  const DEFAULT_DELIMITER := ','
  const DEFAULT_HEADER := true
}
