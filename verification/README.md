# rcli core, modelled in Dafny

`rcli` is a small command-line toolbox. This project models its processing core:

- **Text signing.** `text sign`, `text verify` and `text generator` use a BLAKE3 keyed hash or Ed25519.
  - Signatures travel as URL-safe base64 without padding.
  - Verification prints "Verified" or "Not verified".
- **Password generator.** Covers the character classes, the filler characters and the shuffle.
- **Format selectors.** Parsers and printers for the `text`, `base64` and `csv` commands.
- **`base64 encode` / `base64 decode`.** Covers engine choice, trimming and the UTF-8 check.
- **JWT helper.** Parses the `"<n>d"` expiry, builds the claims and maps decode outcomes to true, false or an error.
- **CSV conversion.** Zips each record with the header row.

Modelling choices:

- **Cryptography** (`Crypto.Primitives`) is a record of functions. These are BLAKE3's keyed hash, Ed25519 public-key derivation, the public-key check, signing and verification.
  - The ghost predicate `Crypto.Valid` states only what the code relies on: lengths of 32 and 64 bytes, and that a signature verifies under the public key derived from its secret key.
  - `Crypto.Constant` is a record of constant functions that satisfies `Valid`, which shows the assumptions are consistent. It models nothing in the source.
- **Randomness** (`thread_rng`, `OsRng`) is nondeterministic choice (`:|`). Every property holds for every possible draw.
- **The clock** (`Utc::now()`) is the parameter `now`, in whole seconds.
- **Reading input and writing output** are left out. An operation takes the bytes or text it would read and returns what it would print or write.
- **Base64** follows RFC 4648:
  - the standard alphabet of section 4 with '=' padding (`STANDARD`);
  - the URL-safe alphabet of section 5 without padding (`URL_SAFE_NO_PAD`);
  - decoding is canonical, as in the `base64` crate: non-zero trailing bits and wrong padding are rejected.
- **UTF-8** follows RFC 3629. It rejects overlong forms, surrogates and code points above U+10FFFF.
- **Source panics** become preconditions: slicing a short key buffer, `usize` underflow, choosing from an empty pool, scoring an empty password, and chrono's range checks.

Modules and files:

| module | file |
|---|---|
| `Wrappers`, `Bytes` | `wrappers.dfy` |
| `Strings` (trim, ASCII lowercasing) | `strings.dfy` |
| `Utf8` | `utf8.dfy` |
| `Base64` | `base64.dfy` |
| `Crypto` | `crypto.dfy` |
| `TextOpts` | `cli_text.dfy` |
| `Base64Opts` | `cli_base64.dfy` |
| `CsvOpt` | `cli_csv_opt.dfy` |
| `CsvOpts` | `cli_csv_opts.dfy` |
| `TextProcess` | `process_text.dfy` |
| `B64Process` | `process_b64.dfy` |
| `GenPass` | `process_gen_pass.dfy` |
| `Jwt` | `process_jwt.dfy` |
| `CsvConvert` | `process_csv.dfy` |

Every key constructor's `try_new` slices `&key[..32]`, which panics on a shorter buffer, so `|key| >= 32` is a precondition of every key constructor. `text verify` decodes `--sig` before it loads the key, so its model asks for 32 key bytes only once the signature has decoded.

## Model

| member | source | states |
|---|---|---|
| TextProcess.Blake3TryNew | src/process/text.rs:46-51 | Building a BLAKE3 signer never fails once 32 bytes are present. The key is exactly the first 32 bytes of the buffer. |
| TextProcess.Ed25519SignerTryNew | src/process/text.rs:83-89 | Building an Ed25519 signer never fails once 32 bytes are present. The secret key is the first 32 bytes. |
| TextProcess.Ed25519VerifierTryNew | src/process/text.rs:123-129 | Building a verifier succeeds exactly when the first 32 bytes are a valid public key. Otherwise it fails with InvalidPublicKey. |
| TextProcess.TryNewUsesFirst32 | src/process/text.rs:47-48 | Two key buffers give the same signer exactly when their first 32 bytes agree. Bytes after the 32nd are ignored by all three constructors. |
| TextProcess.Blake3Sign | src/process/text.rs:190-197 | A BLAKE3 signature is always 32 bytes. |
| TextProcess.Blake3Verify | src/process/text.rs:199-207 | BLAKE3 verification holds exactly when the signature equals the signature of the same data under the same key. A signature of the wrong length gives false, never an error. |
| TextProcess.Ed25519Sign | src/process/text.rs:209-216 | An Ed25519 signature is 64 bytes and verifies under the public key derived from the signing key. |
| TextProcess.Ed25519Verify | src/process/text.rs:218-225 | Ed25519 verification is an error exactly when the signature is not 64 bytes. Otherwise it returns the library's verdict, with every failure turned into false. |
| TextProcess.Ed25519KeyPair | src/process/text.rs:240-248 | Data signed with a secret key verifies as true under the matching public key. |
| TextProcess.RawSignature | src/process/text.rs:144-153 | A BLAKE3 signature is 32 bytes and verifies under the same key. An Ed25519 signature is 64 bytes and verifies under the public key derived from the first 32 bytes. |
| TextProcess.ProcessTextSign | src/process/text.rs:142-156 | Signing never fails. Its output decodes as URL-safe unpadded base64 to a 32-byte BLAKE3 tag that verifies, or to a 64-byte Ed25519 signature valid under the matching public key. |
| TextProcess.VerifyRaw | src/process/text.rs:166-175 | BLAKE3 never fails and accepts exactly the signature that signing with the same key produces. Ed25519 fails exactly when the key is not a public key or the signature is not 64 bytes. A bad key is reported before a bad length. Otherwise the verdict is true exactly when the library accepts. |
| TextProcess.ProcessTextVerify | src/process/text.rs:158-181 | The signature text is decoded first. A decoding failure is an error for any key buffer, even one shorter than 32 bytes. BLAKE3 gives "Verified" exactly when the decoded bytes equal the keyed hash. Ed25519 is an error exactly when the key is not a public key or the signature is not 64 bytes, and a bad key is reported first. It gives "Verified" exactly when the library accepts. Every success is "Verified" or "Not verified". |
| TextProcess.Blake3SignVerify | src/process/text.rs:231-238 | BLAKE3 round trip: what `text sign` prints, `text verify` reports as "Verified" for the same key and input. |
| TextProcess.Ed25519SignVerify | src/process/text.rs:240-248 | Ed25519 round trip: a signature made with a secret key is "Verified" by any key buffer that starts with the matching public key. |
| TextProcess.RandomKey | src/process/text.rs:107 | A freshly drawn key is exactly 32 bytes, whatever the random source yields. |
| TextProcess.ProcessGenerator | src/process/text.rs:183-188 | BLAKE3 yields one 32-byte key. Ed25519 yields two keys, the secret key followed by the public key derived from it. For every input, signing with the first key and verifying with the last gives "Verified". |
| TextOpts.Parse | src/cli/text.rs:87-97 | Accepts exactly "blake3" and "ed25519", case-sensitively. A success is the keyword of its format. Any other text, "Blake3" included, is rejected with an error carrying that text. |
| TextOpts.ParseKeyword | src/cli/text.rs:90-94 | A text parses to a given format exactly when it is that format's keyword. |
| TextOpts.Display | src/cli/text.rs:69-76 | The printed name is the format's keyword with its first letter upper-cased ("Blake3", "Ed25519"): same length, same tail, first character 32 code points lower. So it lowercases to the keyword. |
| TextOpts.ToString | src/cli/text.rs:78-85 | The `String` conversion is the same keyword with its first letter upper-cased, and so lowercases to the keyword. |
| TextOpts.DisplayIsToString | src/cli/text.rs:69-85 | `Display` and the `String` conversion agree on every format, and the text starts with a capital letter. |
| TextOpts.DisplayDoesNotParse | src/cli/text.rs:72-73 | The capitalised printed form never parses back: both "Blake3" and "Ed25519" are rejected. |
| TextOpts.DefaultsAreBlake3 | src/cli/text.rs:25 | The `text sign`, `text verify` and `text generator` commands all default to Blake3 through the text "blake3". |
| Base64Opts.Parse | src/cli/base64_opt.rs:62-72 | The input is lowercased first. It is accepted exactly when the lowercased text is "standard" or "urlsafe". Otherwise the error carries the lowercased text. |
| Base64Opts.ParseIgnoresCase | src/cli/base64_opt.rs:66 | Texts that are equal up to letter case parse alike. |
| Base64Opts.ParseKeyword | src/cli/base64_opt.rs:66-68 | A text parses to a format exactly when it is that format's keyword in some letter case. |
| Base64Opts.Display | src/cli/base64_opt.rs:40-47 | The printed name starts with a capital letter. For Standard it is the keyword "standard" with its first letter upper-cased. For Urlsafe it lowercases to "url-safe" and exactly its first three characters are capitals, which pins it to "URL-safe". It lowercases to the keyword exactly for Standard. |
| Base64Opts.ToString | src/cli/base64_opt.rs:49-56 | The `String` conversion has the same properties as `Display`: "Standard" and "URL-safe". |
| Base64Opts.DisplayIsToString | src/cli/base64_opt.rs:40-56 | `Display` and the `String` conversion agree on every format. |
| Base64Opts.DisplayRoundTrip | src/cli/base64_opt.rs:43-44 | The printed "Standard" parses back to Standard. The printed "URL-safe" is rejected as "url-safe". |
| Base64Opts.DefaultsAreStandard | src/cli/base64_opt.rs:20 | Both `base64 encode` and `base64 decode` default to Standard. |
| CsvOpt.FromStr | src/cli/csv_opt.rs:65-76 | Accepts "json" and "yaml" in any letter case, and the result's name is the lowercased input. Otherwise the error carries the lowercased input. |
| CsvOpt.TryFrom | src/cli/csv_opt.rs:52-63 | Accepts exactly the texts whose lowercase form is "json" or "yaml". Otherwise the error carries the lowercased input. |
| CsvOpt.FromStrIsTryFrom | src/cli/csv_opt.rs:52-76 | The two parsers give the same result, success or error, on every input. |
| CsvOpt.Display | src/cli/csv_opt.rs:32-50 | The printed name is already lower case, and both parsers read it back as the same format. |
| CsvOpt.ParseDisplay | src/cli/csv_opt.rs:32-50 | Round trip: the printed name of a format parses back to that format through either parser and in any letter case. |
| CsvOpts.FromStr | src/cli/csv_opts.rs:71-82 | Accepts "json" and "yaml" in any letter case. The error carries the lowercased input. |
| CsvOpts.TryFrom | src/cli/csv_opts.rs:58-69 | Accepts exactly the texts whose lowercase form is "json" or "yaml". The error carries the lowercased input. |
| CsvOpts.FromStrIsTryFrom | src/cli/csv_opts.rs:58-82 | The two parsers agree on every input. |
| CsvOpts.Display | src/cli/csv_opts.rs:38-56 | The printed name is already lower case, and both parsers read it back as the same format. |
| CsvOpts.ParseDisplay | src/cli/csv_opts.rs:38-56 | Round trip: printing then parsing gives back the format. |
| CsvOpts.AgreesWithCsvOpt | src/cli/csv_opts.rs:31-82 | This copy accepts the same texts as the `csv_opt.rs` selector, yields the corresponding format, reports the same value in its errors and prints the same names. |
| B64Process.EngineOf | src/process/b64.rs:12-15 | Standard selects the RFC 4648 section 4 alphabet with padding. Urlsafe selects the section 5 alphabet without padding. |
| B64Process.ProcessBase64Encode | src/process/b64.rs:8-18 | The printed text decodes back to the input with the engine of the same format. Padded output has 4·⌈n/3⌉ characters. Unpadded output has ⌈4n/3⌉ characters and no '='. |
| B64Process.ProcessBase64Decode | src/process/b64.rs:20-35 | The text is trimmed before decoding. A decoding failure is an error. Decoded bytes that are not valid UTF-8 are an error. Otherwise the result is the text whose UTF-8 encoding is the decoded bytes. |
| B64Process.EncodedHasNoWhitespace | src/process/b64.rs:16 | Encoded output contains no whitespace. |
| B64Process.EncodeThenDecode | src/process/b64.rs:12-15 | End to end, for either format: any text encoded by `base64 encode` and decoded by `base64 decode` with the same format comes back unchanged, even with whitespace around it. |
| Base64.Encode | src/process/b64.rs:12-16 | Padded output has 4·⌈n/3⌉ characters and unpadded output ⌈4n/3⌉. Every character is a symbol of the engine's alphabet, except the '=' that only a padded engine writes. |
| Base64.Decode | src/process/b64.rs:27-33 | A length of 1 modulo 4 is an invalid length, unless the last character is neither a symbol nor '='. A padded engine given 2 or 3 modulo 4 characters reports invalid padding when they are symbols followed by well-placed '=', and an invalid symbol otherwise. An unpadded engine reports invalid padding for symbols followed by well-placed '='. Every text an engine accepts is exactly its encoding of the decoded bytes, so decoding is canonical. |
| Base64.PaddingErrors | src/process/b64.rs:33 | "QUI" under the standard engine and "QQ==" under the unpadded one are padding errors. "QQ=A" is an invalid symbol. "QUJDQ" is an invalid length. |
| Base64.DecodeEncode | src/process/b64.rs:27-30 | For either engine, decoding the encoding of any bytes gives those bytes back. The URL-safe case is the round trip `src/process/chacha20poly1305.rs` relies on. |
| Base64.DecodeEncodeBody | src/process/text.rs:154 | Decoding the unpadded symbol body of any bytes gives the bytes back. |
| Base64.EncodeDecodeBody | src/process/text.rs:165 | An unpadded body that decodes is the encoding of its result. |
| Base64.EncodeBodySymbols | src/process/text.rs:154 | Every character of an encoded body is a symbol of the alphabet. |
| Base64.EncodeBodyLength | src/process/text.rs:154 | An encoded body of n bytes has ⌈4n/3⌉ symbols. |
| Strings.Trim | src/process/b64.rs:25 | The result is a slice of the input with only whitespace before and after it, and it neither starts nor ends with whitespace. So exactly the maximal whitespace prefix and suffix are removed. |
| Strings.TrimStart | src/process/b64.rs:25 | Removes exactly the maximal whitespace prefix. |
| Strings.TrimEnd | src/process/b64.rs:25 | Removes exactly the maximal whitespace suffix. |
| Strings.TrimPadded | src/process/b64.rs:24-25 | Trimming whitespace-free text surrounded by whitespace gives that text. |
| Strings.ToLower | src/cli/base64_opt.rs:66 | Keeps the length and lowercases each character separately. |
| Strings.ToLowerIdempotent | src/cli/csv_opt.rs:56 | Lowercasing twice is lowercasing once. |
| Utf8.Decode | src/process/b64.rs:33 | A buffer that decodes holds between one and four bytes per character. |
| Utf8.DecodeEncode | src/process/b64.rs:33 | Every text survives UTF-8 encoding and decoding. |
| Utf8.EncodeDecode | src/process/b64.rs:33 | Bytes that decode are the encoding of their text, so the decoder loses nothing. |
| Utf8.DecodeAscii | src/process/gen_pass.rs:64 | Bytes below 0x80 always decode, one character per byte, each character's code being its byte. |
| GenPass.AlphabetsAreAscii | src/process/gen_pass.rs:4-7 | Every character of the four classes is ASCII, so the bytes pushed are the characters' codes. |
| GenPass.AlphabetsOmitAmbiguous | src/process/gen_pass.rs:4-7 | Upper and lower case letters omit 'O' and 'o', the digits omit '0'; the classes hold 25, 25, 9 and 10 characters. |
| GenPass.Pool | src/process/gen_pass.rs:18-51 | The pool is ASCII, and it is empty exactly when no class is enabled. |
| GenPass.PoolContains | src/process/gen_pass.rs:20-51 | A character is in the pool exactly when it belongs to an enabled class. |
| GenPass.Draw | src/process/gen_pass.rs:22-26 | `choose` on a non-empty class appends one character of that class and keeps the password before it. |
| GenPass.PickRequired | src/process/gen_pass.rs:20-51 | The first phase adds one character per enabled class, in class order: the character of a class sits right after those of the enabled classes before it and belongs to that class. |
| GenPass.RequiredInPool | src/process/gen_pass.rs:20-51 | Every character chosen in the first phase is in the pool built alongside it. |
| GenPass.Fill | src/process/gen_pass.rs:53-58 | The filler loop appends exactly the requested number of characters, all from the pool, and keeps what came before. |
| GenPass.Shuffle | src/process/gen_pass.rs:60 | The shuffle only permutes: the length and the multiset of characters are unchanged. |
| GenPass.PermutationCovers | src/process/gen_pass.rs:60-62 | A permutation covers exactly the classes the original covers. |
| GenPass.Finish | src/process/gen_pass.rs:60-64 | Shuffling then converting the ASCII bytes to a `String` always succeeds and yields a permutation of the drawn characters, all still from the pool. |
| GenPass.ProcessGenpass | src/process/gen_pass.rs:9-70 | The password has exactly `length` characters, all from enabled classes, with at least one from every enabled class. The UTF-8 conversion cannot fail. Three panics make it require at least one enabled class and `length` at least the number of enabled classes. With too small a `length` the subtraction underflows. With no class enabled, either the pool is empty or the empty password makes the strength estimate's `unwrap` panic. |
| Jwt.Accumulate | src/process/jwt.rs:20 | The digit loop of `parse::<i64>` succeeds exactly when every character is a digit and the value stays in range. The result is that value. |
| Jwt.ParseI64 | src/process/jwt.rs:20 | `parse::<i64>` accepts exactly an optional sign followed by at least one digit, with the value in the `i64` range. The result is that value. |
| Jwt.NatToString | src/process/jwt.rs:20 | The decimal digits of a natural number denote that number. |
| Jwt.Show | src/process/jwt.rs:20 | The printed form of an integer is signed decimal text denoting it. |
| Jwt.ParseShow | src/process/jwt.rs:20 | Every `i64`, printed and parsed, comes back unchanged. |
| Jwt.ParseExpiry | src/process/jwt.rs:17-20 | Without a trailing 'd' the expiry is an error. Otherwise the text before that one 'd' must be a signed decimal `i64`, and the result is its value. |
| Jwt.ExpiryRoundTrip | src/process/jwt.rs:17-20 | Any `i64` followed by one 'd' parses as that many days. |
| Jwt.ExpiryRejects | src/process/jwt.rs:17-20 | "30" lacks the suffix. "d" leaves an empty number. "5dd" leaves the non-digit "5d". "30d" gives 30. |
| Jwt.AsUsize | src/process/jwt.rs:26 | `as usize` keeps a non-negative timestamp and adds 2^64 to a negative one. |
| Jwt.ProcessJwtSign | src/process/jwt.rs:16-31 | Signing fails exactly when the expiry fails to parse, with that error. `sub` and `aud` are copied unchanged. For a timestamp not before 1970, `exp` is `now + days·86400`. chrono's range panics are preconditions. |
| Jwt.SignExpiry | src/process/jwt.rs:21-27 | Signing with `"<n>d"` gives the claims `aud`, `sub` and `exp = now + n·86400`, taken as unsigned. |
| Jwt.ProcessJwtVerify | src/process/jwt.rs:33-50 | A decoded token gives true. `InvalidToken` gives false. Every other failure is an error, and only `InvalidIssuer` gives the issuer error. |
| Jwt.RejectionsAreErrors | src/process/jwt.rs:41-47 | A bad signature, an expired token and a wrong audience are errors, never false. |
| Jwt.Validate | src/process/jwt.rs:34-36 | With an intact signature, the default HS256 validation accepts exactly a token whose `exp` is within the 60-second leeway and whose audience matches. |
| Jwt.SignThenVerify | src/process/jwt.rs:16-50 | A token this program signed verifies as true exactly when the audience matches and the leeway after `exp` has not passed. It never verifies as false. |
| Jwt.PreEpochExpiryNeverExpires | src/process/jwt.rs:21-26 | As written, a token signed with "-30000d" in November 2023 has an expiry before 1970 that wraps, and it verifies as true at every later time. |
| Jwt.ProcessJwtSignChecked | src/process/jwt.rs:16-31 | Corrected signing succeeds exactly when the expiry parses and lies in 1970 or later. Then `exp = now + days·86400` with no wrap-around. |
| Jwt.CheckedTokensExpire | src/process/jwt.rs:21-27 | Every token the corrected signing issues is rejected with an error once the leeway after its `exp` has passed. |
| Jwt.CheckedAgrees | src/process/jwt.rs:21-27 | Wherever the corrected signing succeeds, it produces the same claims as the original. |
| CsvConvert.Zip | src/process/csv_convert.rs:25 | Pairs the i-th header with the i-th field and stops at the shorter of the two. |
| CsvConvert.ToObject | src/process/csv_convert.rs:25 | The object's keys are exactly the keys of the pairs. |
| CsvConvert.ToObjectLookup | src/process/csv_convert.rs:25 | A key is in the object exactly when some pair carries it, and its value comes from the last such pair. |
| CsvConvert.Row | src/process/csv_convert.rs:25 | A record's object has as keys exactly the headers at the zipped positions. |
| CsvConvert.RowKeys | src/process/csv_convert.rs:25 | A record's object has exactly the headers that have a field beside them as keys. |
| CsvConvert.RowValue | src/process/csv_convert.rs:25 | A header maps to the field under its last occurrence among the zipped columns. |
| CsvConvert.RowDistinct | src/process/csv_convert.rs:25 | With distinct headers, each zipped column keeps its own field. |
| CsvConvert.ProcessCsv | src/process/csv_convert.rs:19-37 | A reader error on the header or on a record aborts with the first such error. Otherwise there is exactly one object per record, in record order, and the header row is never emitted. The objects depend only on the header and the records, so JSON and YAML receive the same list. |

## Left out

- Reading files and standard input (`get_data`, `read_data`, `fs::read`) is left out, and so are writing key files and printing.
  - Operations take the bytes or text read and return what is printed.
  - `TextLoader::load` is therefore just the key constructor applied to the file's bytes.
- BLAKE3 internals, Ed25519 curve arithmetic and point decoding (RFC 8032) are left out. They are the abstract `Crypto.Primitives` with length and key-pair assumptions.
- BLAKE3 key generation is left out. The source calls `process_genpass` and uses its result as a key, but that function returns `()`. It is modelled as 32 random bytes.
- The HS256 encoding and signature checking of `jsonwebtoken` are left out.
  - Signing returns the claims that would be encoded.
  - Verification takes the decoder's outcome as input.
  - `Jwt.Validate` models only the expiry and audience checks that apply to tokens this program issues.
- The fixed secret `your-256-bit-secret` is not modelled, because no property depends on the key's value.
- Jwt.Validate: requires `now >= 60`. With an earlier clock, jsonwebtoken's unsigned `now - leeway` would underflow.
- Jwt.ProcessJwtSign: the chrono range bounds are those of chrono 0.4's `NaiveDate` (years -262144 to 262143). Other chrono versions may differ slightly at the extremes.
- The csv reader is left out, and so are the serde_json/serde_yaml serialisers and the unused `Player` record.
  - `CsvConvert.ProcessCsv` receives the reader's header and records, each possibly an error, and returns the objects handed to the serialiser.
  - The default reader rejects records whose length differs from the header's, so in practice the zip never truncates.
  - The delimiter and header options are ignored by the source as well.
- CsvConvert.ToObject: the key order of the serialised object is not modelled, only its contents.
- zxcvbn strength scoring after password generation is left out. It only prints a score; its one effect on the model is the panic on an empty password, which is a precondition.
- `chacha20poly1305`, `http_serve`, `src/process.rs` and the clap plumbing are left out, as are the genpass options' defaults beyond the constant `GenPass.DEFAULT_LENGTH`.
- Strings.ToLower: lowercases ASCII letters only, while Rust's `to_lowercase` is Unicode-aware.
  - The accepted sets are still exact. The only non-ASCII character that lowercases to ASCII is the Kelvin sign, which becomes 'k', and no keyword contains 'k'.
  - For non-ASCII input, the error messages may differ from the source's.
- Strings.TrimStart: whitespace is the Unicode White_Space property, as in Rust's `trim`.
- Base64.Decode: the error kinds are the `base64` crate's four (`InvalidByte`, here `InvalidSymbol`; `InvalidLength`; `InvalidLastSymbol`; `InvalidPadding`), without the byte offset. When a text has several faults, the reported kind follows the rules in the Model table and then the group-by-group order.
  - The model follows the order of checks in crate version 0.21: first a length of 1 modulo 4, then the symbols, then the padding, then the unused bits of the last symbol.
  - Version 0.22 checks a length of 1 modulo 4 only after the symbols. For such a text with an invalid or misplaced character, 0.22 reports an invalid byte where the model reports an invalid length.

## Findings

| source | as written | input that shows it | evidently intended | confidence | as-written member | corrected member |
|---|---|---|---|---|---|---|
| src/process/jwt.rs:21-26 | The expiry timestamp is converted with `as usize`, so a date before 1970 wraps to a value near 2^64. | `jwt sign --exp=-30000d` in November 2023 (`now` = 1700000000): the token verifies as true at any later time. | An expiry in the past yields a token that is already expired, or the command reports an error. | medium, not executed | Jwt.PreEpochExpiryNeverExpires | Jwt.ProcessJwtSignChecked |
