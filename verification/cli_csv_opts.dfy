/** A second copy of the `csv` output selector (src/cli/csv_opts.rs). The command-line
    layer does not declare this module, so it is dead code; it defines its own
    `OutputFormat` with the same parsers and printer, and the model proves the copy
    agrees with `CsvOpt` on every input. */
module CsvOpts {
  import opened Wrappers
  import opened Strings
  import CsvOpt

  datatype OutputFormat = Json | Yaml

  datatype FormatError = UnsupportedFormat(value: string)

  /** `From<OutputFormat> for &'static str`. */
  function Name(f: OutputFormat): string {
    match f
    case Json => "json"
    case Yaml => "yaml"
  }

  /** `Display for OutputFormat`: writes `Name`, which both parsers read back. */
  function Display(f: OutputFormat): (r: string)
    ensures ToLower(r) == r
    ensures FromStr(r) == Ok(f) && TryFrom(r) == Ok(f)
  {
    ToLowerOfLower(Name(f));
    Name(f)
  }

  /** `FromStr for OutputFormat`. */
  function FromStr(s: string): (r: Result<OutputFormat, FormatError>)
    ensures r.Ok? <==> ToLower(s) == "json" || ToLower(s) == "yaml"
    ensures r.Ok? ==> Name(r.value) == ToLower(s)
    ensures r.Err? ==> r.error == UnsupportedFormat(ToLower(s))
  {
    var v := ToLower(s);
    if v == "json" then Ok(Json)
    else if v == "yaml" then Ok(Yaml)
    else Err(UnsupportedFormat(v))
  }

  /** `TryFrom<&str> for OutputFormat`. */
  function TryFrom(s: string): (r: Result<OutputFormat, FormatError>)
    ensures r.Ok? <==> ToLower(s) == "json" || ToLower(s) == "yaml"
    ensures r.Err? ==> r.error == UnsupportedFormat(ToLower(s))
  {
    var v := ToLower(s);
    if v == "json" then Ok(Json)
    else if v == "yaml" then Ok(Yaml)
    else Err(UnsupportedFormat(v))
  }

  /** The two parsers give the same answer on every input. */
  lemma FromStrIsTryFrom(s: string)
    ensures FromStr(s) == TryFrom(s)
  {
  }

  /** Round trip: the printed name of a format parses back to it. */
  lemma ParseDisplay(f: OutputFormat)
    ensures FromStr(Display(f)) == Ok(f)
    ensures TryFrom(Display(f)) == Ok(f)
  {
    ToLowerOfLower(Name(f));
  }

  /** The same format in the live module. */
  function ToLive(f: OutputFormat): CsvOpt.OutputFormat {
    match f
    case Json => CsvOpt.Json
    case Yaml => CsvOpt.Yaml
  }

  /** The copy is faithful: it accepts the same texts as `CsvOpt`, yields the
      corresponding format, prints the same names and reports the same value in its
      errors. */
  lemma AgreesWithCsvOpt(s: string, f: OutputFormat)
    ensures FromStr(s).Ok? <==> CsvOpt.FromStr(s).Ok?
    ensures FromStr(s).Ok? ==> ToLive(FromStr(s).value) == CsvOpt.FromStr(s).value
    ensures FromStr(s).Err? ==> FromStr(s).error.value == CsvOpt.FromStr(s).error.value
    ensures Display(f) == CsvOpt.Display(ToLive(f))
  {
  }

  /** The `default_value_t` of `--delimiter` and `--header`. */
  const DEFAULT_DELIMITER := ','
  const DEFAULT_HEADER := true
}
