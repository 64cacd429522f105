/** The JWT helper (src/process/jwt.rs): the `"<n>d"` expiry parser, the claims a
    signing call builds, and the mapping of decode outcomes to true, false or an error.
    The clock is the parameter `now` (whole seconds since the Unix epoch); the HS256
    signature itself is outside the model, so decoding is represented by its outcome. */
module Jwt {
  import opened Wrappers

  const I64_MIN := -0x8000_0000_0000_0000
  const I64_MAX := 0x7FFF_FFFF_FFFF_FFFF
  const USIZE_MODULUS := 0x1_0000_0000_0000_0000
  const SECONDS_PER_DAY := 86400

  /** chrono rejects a duration beyond i64::MAX milliseconds in either direction. */
  const MAX_DURATION_SECONDS := 9_223_372_036_854_775
  /** chrono's date range, January 1 of year -262144 to the last second of year 262143,
      as Unix timestamps. */
  const MIN_TIMESTAMP := -8_334_632_937_600
  const MAX_TIMESTAMP := 8_210_298_412_799

  /** The leeway jsonwebtoken's default validation grants the `exp` claim. */
  const LEEWAY := 60

  // ---------------------------------------------------------------------------
  // Decimal text, as `str::parse::<i64>` and `i64`'s `Display` see it

  predicate IsDigit(c: char) {
    '0' <= c <= '9'
  }

  predicate AllDigits(s: string) {
    forall i :: 0 <= i < |s| ==> IsDigit(s[i])
  }

  function DigitValue(c: char): nat
    requires IsDigit(c)
  {
    c as int - '0' as int
  }

  function Pow10(n: nat): (r: nat)
    ensures r >= 1
  {
    if n == 0 then 1 else 10 * Pow10(n - 1)
  }

  /** The number a digit string denotes, most significant digit first. */
  function Value(s: string): nat
    requires AllDigits(s)
  {
    if |s| == 0 then 0 else DigitValue(s[0]) * Pow10(|s| - 1) + Value(s[1..])
  }

  /** Text with an optional sign and at least one digit. */
  predicate IsSignedDecimal(s: string) {
    if |s| > 0 && (s[0] == '+' || s[0] == '-') then |s| > 1 && AllDigits(s[1..])
    else |s| > 0 && AllDigits(s)
  }

  function SignedValue(s: string): int
    requires IsSignedDecimal(s)
  {
    if s[0] == '-' then 0 - Value(s[1..]) else if s[0] == '+' then Value(s[1..]) else Value(s)
  }

  datatype ParseIntError = Empty | InvalidDigit | PosOverflow | NegOverflow

  /** The digit loop of `i64::from_str`: left to right, a non-digit is reported before
      the overflow the same character would cause. A positive number accumulates
      upwards from `acc >= 0` and a negative one downwards from `acc <= 0`. */
  function Accumulate(ds: string, acc: int, positive: bool): (r: Result<int, ParseIntError>)
    requires positive ==> 0 <= acc <= I64_MAX
    requires !positive ==> I64_MIN <= acc <= 0
    ensures positive ==>
      (r.Ok? <==> AllDigits(ds) && acc * Pow10(|ds|) + Value(ds) <= I64_MAX)
    ensures !positive ==>
      (r.Ok? <==> AllDigits(ds) && (-acc) * Pow10(|ds|) + Value(ds) <= -I64_MIN)
    ensures r.Ok? && positive ==> r.value == acc * Pow10(|ds|) + Value(ds)
    ensures r.Ok? && !positive ==> r.value == -((-acc) * Pow10(|ds|) + Value(ds))
    decreases |ds|, 1
  {
    if |ds| == 0 then Ok(acc)
    else if !IsDigit(ds[0]) then Err(InvalidDigit)
    else
      DigitsTail(ds);
      if AllDigits(ds) && positive then
        ShiftUp(acc, DigitValue(ds[0]), Pow10(|ds[1..]|), Value(ds[1..]), Pow10(|ds|), Value(ds));
        AccumulateStep(ds, acc, positive)
      else if AllDigits(ds) then
        ShiftUp(-acc, DigitValue(ds[0]), Pow10(|ds[1..]|), Value(ds[1..]), Pow10(|ds|), Value(ds));
        AccumulateStep(ds, acc, positive)
      else
        AccumulateStep(ds, acc, positive)
  }

  /** One step of the digit loop, for a text whose first character is a digit. */
  function AccumulateStep(ds: string, acc: int, positive: bool): Result<int, ParseIntError>
    requires |ds| > 0 && IsDigit(ds[0])
    requires positive ==> 0 <= acc <= I64_MAX
    requires !positive ==> I64_MIN <= acc <= 0
    decreases |ds|, 0
  {
      var d := DigitValue(ds[0]);
      var next := if positive then acc * 10 + d else acc * 10 - d;
      if positive && next > I64_MAX then Err(PosOverflow)
      else if !positive && next < I64_MIN then Err(NegOverflow)
      else Accumulate(ds[1..], next, positive)
  }

  /** A digit string is its first digit followed by a digit string. */
  lemma DigitsTail(ds: string)
    requires |ds| > 0 && IsDigit(ds[0])
    ensures AllDigits(ds) <==> AllDigits(ds[1..])
    ensures AllDigits(ds) ==> Value(ds) == DigitValue(ds[0]) * Pow10(|ds[1..]|) + Value(ds[1..])
    ensures Pow10(|ds|) == 10 * Pow10(|ds[1..]|)
  {
    assert forall i :: 1 <= i < |ds| ==> ds[i] == ds[1..][i - 1];
  }

  /** Taking one digit `d` into the accumulator does not change the number denoted,
      and the new accumulator alone already bounds it from below. `bigP` and `bigV` are
      the power and value of the whole digit string, `p` and `v` those of its tail. A
      negative number is accumulated downwards, which is this step on the negated
      accumulator. */
  lemma ShiftUp(acc: nat, d: nat, p: nat, v: nat, bigP: nat, bigV: nat)
    requires p >= 1 && bigP == 10 * p && bigV == d * p + v
    ensures acc * bigP + bigV == (acc * 10 + d) * p + v
    ensures acc * bigP + bigV >= acc * 10 + d
  {
    var x := acc * 10 + d;
    assert acc * (10 * p) == (acc * 10) * p;
    assert x * p >= x by { MulAtLeast(x, p); }
  }

  lemma MulAtLeast(a: nat, b: nat)
    requires b >= 1
    ensures a * b >= a
  {
  }

  /** `str::parse::<i64>`: an optional '+' or '-', then decimal digits, within range;
      an empty text and a lone sign are errors. */
  function ParseI64(s: string): (r: Result<int, ParseIntError>)
    ensures r.Ok? <==> IsSignedDecimal(s) && I64_MIN <= SignedValue(s) <= I64_MAX
    ensures r.Ok? ==> r.value == SignedValue(s)
    ensures |s| == 0 ==> r == Err(Empty)
  {
    if |s| == 0 then Err(Empty)
    else if (s[0] == '+' || s[0] == '-') && |s| == 1 then Err(InvalidDigit)
    else if s[0] == '+' then Accumulate(s[1..], 0, true)
    else if s[0] == '-' then Accumulate(s[1..], 0, false)
    else Accumulate(s, 0, true)
  }

  /** The decimal digits of a natural number, without leading zeros. */
  function NatToString(n: nat): (s: string)
    ensures |s| > 0 && AllDigits(s) && Value(s) == n
    ensures s[0] != '+' && s[0] != '-'
  {
    var digit := ['0' + (n % 10) as char];
    if n < 10 then
      digit
    else
      var prefix := NatToString(n / 10);
      ValueSnoc(prefix, digit[0]);
      prefix + digit
  }

  /** Appending a digit multiplies the value by ten and adds the digit. */
  lemma {:induction false} ValueSnoc(s: string, c: char)
    requires AllDigits(s) && IsDigit(c)
    ensures AllDigits(s + [c])
    ensures Value(s + [c]) == Value(s) * 10 + DigitValue(c)
    decreases |s|
  {
    if |s| > 0 {
      var t := s + [c];
      assert t[1..] == s[1..] + [c];
      assert AllDigits(t);
      ValueSnoc(s[1..], c);
      var d0, q, w := DigitValue(s[0]), Pow10(|s| - 1), Value(s[1..]);
      assert Value(t) == d0 * Pow10(|s|) + (w * 10 + DigitValue(c));
      assert Pow10(|s|) == 10 * q;
      assert Value(s) == d0 * q + w;
      Regroup(d0, q, w, DigitValue(c));
    }
  }

  lemma Regroup(d0: int, q: int, w: int, d: int)
    ensures d0 * (10 * q) + (w * 10 + d) == (d0 * q + w) * 10 + d
  {
  }

  /** `i64`'s `Display`: a '-' for negative numbers, never a '+'. */
  function Show(n: int): (s: string)
    ensures IsSignedDecimal(s) && SignedValue(s) == n
  {
    if n < 0 then
      var t := NatToString(-n);
      assert ("-" + t)[1..] == t;
      "-" + t
    else NatToString(n)
  }

  /** Every `i64` survives printing and parsing. */
  lemma ParseShow(n: int)
    requires I64_MIN <= n <= I64_MAX
    ensures ParseI64(Show(n)) == Ok(n)
  {
  }

  // ---------------------------------------------------------------------------
  // process_jwt_sign

  datatype ExpiryError = MissingSuffix | BadNumber(cause: ParseIntError)

  /** The expiry argument: exactly one trailing 'd' is stripped and the rest must parse
      as an `i64` number of days. */
  function ParseExpiry(exp: string): (r: Result<int, ExpiryError>)
    ensures (|exp| == 0 || exp[|exp| - 1] != 'd') ==> r == Err(MissingSuffix)
    ensures r.Ok? <==> |exp| > 0 && exp[|exp| - 1] == 'd' && IsSignedDecimal(exp[..|exp| - 1])
                       && I64_MIN <= SignedValue(exp[..|exp| - 1]) <= I64_MAX
    ensures r.Ok? ==> r.value == SignedValue(exp[..|exp| - 1])
  {
    if |exp| == 0 || exp[|exp| - 1] != 'd' then Err(MissingSuffix)
    else match ParseI64(exp[..|exp| - 1]) {
      case Ok(days) => Ok(days)
      case Err(e) => Err(BadNumber(e))
    }
  }

  /** Any `i64` printed and followed by one 'd' is accepted as that many days. */
  lemma ExpiryRoundTrip(n: int)
    requires I64_MIN <= n <= I64_MAX
    ensures ParseExpiry(Show(n) + "d") == Ok(n)
  {
    assert (Show(n) + "d")[..|Show(n) + "d"| - 1] == Show(n);
  }

  /** A missing 'd', a bare 'd' and a doubled 'd' are all rejected. */
  lemma ExpiryRejects()
    ensures ParseExpiry("30") == Err(MissingSuffix)
    ensures ParseExpiry("d") == Err(BadNumber(Empty))
    ensures ParseExpiry("5dd") == Err(BadNumber(InvalidDigit))
    ensures ParseExpiry("30d") == Ok(30)
  {
    assert "d"[..0] == "";
    assert "5dd"[..2] == "5d";
    assert "5d"[1..] == "d";
    assert "30d"[..2] == "30";
    assert Value("30") == 30 by {
      assert "30"[1..] == "0";
      assert "0"[1..] == "";
    }
  }

  /** The token's claims: audience and subject as given, `exp` the expiry timestamp. */
  datatype Claims = Claims(aud: string, sub: string, exp: nat)

  /** `timestamp() as usize` on a 64-bit target: two's-complement reinterpretation. */
  function AsUsize(t: int): (u: nat)
    requires I64_MIN <= t <= I64_MAX
    ensures u < USIZE_MODULUS
    ensures 0 <= t ==> u == t
    ensures t < 0 ==> u == t + USIZE_MODULUS
  {
    t % USIZE_MODULUS
  }

  /** `now + Duration::days(days)` does not panic: the duration is within chrono's
      bound and the resulting date within chrono's range. */
  predicate Representable(now: int, days: int) {
    -MAX_DURATION_SECONDS <= days * SECONDS_PER_DAY <= MAX_DURATION_SECONDS
    && MIN_TIMESTAMP <= now + days * SECONDS_PER_DAY <= MAX_TIMESTAMP
  }

  /** `process_jwt_sign`, returning the claims that get encoded. A bad expiry is an
      error; otherwise `exp` is `now` plus that many days, reinterpreted as unsigned.
      The chrono panics on out-of-range durations and dates are preconditions. */
  function ProcessJwtSign(sub: string, aud: string, exp: string, now: int): (r: Result<Claims, ExpiryError>)
    requires MIN_TIMESTAMP <= now <= MAX_TIMESTAMP
    requires ParseExpiry(exp).Ok? ==> Representable(now, ParseExpiry(exp).value)
    ensures r.Ok? <==> ParseExpiry(exp).Ok?
    ensures r.Err? ==> r.error == ParseExpiry(exp).error
    ensures r.Ok? ==> r.value.sub == sub && r.value.aud == aud
    ensures r.Ok? && now + ParseExpiry(exp).value * SECONDS_PER_DAY >= 0 ==>
      r.value.exp == now + ParseExpiry(exp).value * SECONDS_PER_DAY
  {
    var days :- ParseExpiry(exp);
    Ok(Claims(aud, sub, AsUsize(now + days * SECONDS_PER_DAY)))
  }

  /** Signing with `"<n>d"` sets `exp` to `n` days after `now`. */
  lemma SignExpiry(sub: string, aud: string, n: int, now: int)
    requires I64_MIN <= n <= I64_MAX
    requires MIN_TIMESTAMP <= now <= MAX_TIMESTAMP && Representable(now, n)
    ensures ProcessJwtSign(sub, aud, Show(n) + "d", now)
         == Ok(Claims(aud, sub, AsUsize(now + n * SECONDS_PER_DAY)))
  {
    ExpiryRoundTrip(n);
  }

  // ---------------------------------------------------------------------------
  // process_jwt_verify

  /** jsonwebtoken's error kinds. */
  datatype ErrorKind =
    | InvalidToken | InvalidSignature | InvalidEcdsaKey | InvalidRsaKey
    | RsaFailedSigning | InvalidAlgorithmName | InvalidKeyFormat
    | MissingRequiredClaim(claim: string) | ExpiredSignature | InvalidIssuer
    | InvalidAudience | InvalidSubject | ImmatureSignature | InvalidAlgorithm
    | MissingAlgorithm | Base64 | Json | Utf8 | Crypto

  /** What `decode::<Claims>` returned. */
  datatype DecodeOutcome = Decoded(claims: Claims) | Failed(kind: ErrorKind)

  datatype VerifyError = IssuerInvalid | Other(kind: ErrorKind)

  /** `process_jwt_verify` after decoding: a decoded token is true, a malformed token
      (`InvalidToken`) is false, and every other failure is an error, with the issuer
      failure singled out. */
  function ProcessJwtVerify(outcome: DecodeOutcome): (r: Result<bool, VerifyError>)
    ensures r == Ok(true) <==> outcome.Decoded?
    ensures r == Ok(false) <==> outcome == Failed(InvalidToken)
    ensures r.Err? <==> outcome.Failed? && outcome.kind != InvalidToken
    ensures r == Err(IssuerInvalid) <==> outcome == Failed(InvalidIssuer)
    ensures r.Err? && outcome.kind != InvalidIssuer ==> r == Err(Other(outcome.kind))
  {
    match outcome
    case Decoded(_) => Ok(true)
    case Failed(InvalidToken) => Ok(false)
    case Failed(InvalidIssuer) => Err(IssuerInvalid)
    case Failed(kind) => Err(Other(kind))
  }

  /** A forged signature, an expired token and a wrong audience are errors, not false. */
  lemma RejectionsAreErrors()
    ensures ProcessJwtVerify(Failed(InvalidSignature)).Err?
    ensures ProcessJwtVerify(Failed(ExpiredSignature)).Err?
    ensures ProcessJwtVerify(Failed(InvalidAudience)).Err?
  {
  }

  /** The claim checks of `Validation::new(HS256)` with one expected audience, for a
      token whose HS256 signature under the shared key is intact: the token has expired
      when `exp` is more than the leeway before `now`, then the audience must match. */
  function Validate(claims: Claims, aud: string, now: nat): (o: DecodeOutcome)
    requires now >= LEEWAY
    ensures o.Decoded? <==> now - LEEWAY <= claims.exp && claims.aud == aud
    ensures o.Decoded? ==> o.claims == claims
    ensures claims.exp < now - LEEWAY ==> o == Failed(ExpiredSignature)
  {
    if claims.exp < now - LEEWAY then Failed(ExpiredSignature)
    else if claims.aud != aud then Failed(InvalidAudience)
    else Decoded(claims)
  }

  /** A token this program signed verifies as true exactly when the audience matches
      and it has not expired beyond the leeway; it never verifies as false. */
  lemma SignThenVerify(sub: string, aud: string, n: int, now: int, aud2: string, later: nat)
    requires I64_MIN <= n <= I64_MAX
    requires MIN_TIMESTAMP <= now <= MAX_TIMESTAMP && Representable(now, n)
    requires now + n * SECONDS_PER_DAY >= 0
    requires later >= LEEWAY
    ensures ProcessJwtSign(sub, aud, Show(n) + "d", now).Ok?
    ensures var out := ProcessJwtVerify(Validate(ProcessJwtSign(sub, aud, Show(n) + "d", now).value, aud2, later));
      (out == Ok(true) <==> aud2 == aud && later <= now + n * SECONDS_PER_DAY + LEEWAY)
      && out != Ok(false)
  {
    SignExpiry(sub, aud, n, now);
  }

  // ---------------------------------------------------------------------------
  // Expiry dates before 1970

  /** As written, an expiry that lands before 1970 wraps around in `as usize` to a
      timestamp near 2^64, so the token never expires: signed with `"-30000d"` at
      `now` = 1_700_000_000 (November 2023), it verifies as true at every later time. */
  lemma PreEpochExpiryNeverExpires(later: nat)
    requires LEEWAY <= later <= I64_MAX
    ensures ParseExpiry("-30000d") == Ok(-30000)
    ensures ProcessJwtSign("alice", "web", "-30000d", 1_700_000_000).Ok?
    ensures ProcessJwtVerify(Validate(ProcessJwtSign("alice", "web", "-30000d", 1_700_000_000).value, "web", later))
         == Ok(true)
  {
    assert "-30000d"[..6] == "-30000";
    assert "-30000"[1..] == "30000";
    assert Value("30000") == 30000 by {
      assert "30000"[1..] == "0000";
      assert "0000"[1..] == "000";
      assert "000"[1..] == "00";
      assert "00"[1..] == "0";
      assert "0"[1..] == "";
    }
  }

  datatype SignError = Expiry(cause: ExpiryError) | BeforeEpoch

  /** The evidently intended signing: the timestamp is converted with a checked
      conversion, so an expiry before 1970 is an error instead of a wrapped value. */
  function ProcessJwtSignChecked(sub: string, aud: string, exp: string, now: int): (r: Result<Claims, SignError>)
    requires MIN_TIMESTAMP <= now <= MAX_TIMESTAMP
    requires ParseExpiry(exp).Ok? ==> Representable(now, ParseExpiry(exp).value)
    ensures r.Ok? <==> ParseExpiry(exp).Ok? && now + ParseExpiry(exp).value * SECONDS_PER_DAY >= 0
    ensures r.Ok? ==> r.value.sub == sub && r.value.aud == aud
                      && r.value.exp == now + ParseExpiry(exp).value * SECONDS_PER_DAY
    ensures ParseExpiry(exp).Err? ==> r == Err(Expiry(ParseExpiry(exp).error))
  {
    match ParseExpiry(exp)
    case Err(e) => Err(Expiry(e))
    case Ok(days) =>
      var t := now + days * SECONDS_PER_DAY;
      if t < 0 then Err(BeforeEpoch) else Ok(Claims(aud, sub, t))
  }

  /** Every token the checked signing issues expires: once the leeway has passed after
      its expiry it is rejected with an error. */
  lemma CheckedTokensExpire(sub: string, aud: string, exp: string, now: int, aud2: string, later: nat)
    requires MIN_TIMESTAMP <= now <= MAX_TIMESTAMP
    requires ParseExpiry(exp).Ok? ==> Representable(now, ParseExpiry(exp).value)
    requires ProcessJwtSignChecked(sub, aud, exp, now).Ok?
    requires later > ProcessJwtSignChecked(sub, aud, exp, now).value.exp + LEEWAY
    ensures ProcessJwtVerify(Validate(ProcessJwtSignChecked(sub, aud, exp, now).value, aud2, later))
         == Err(Other(ExpiredSignature))
  {
  }

  /** Where the expiry is not before 1970 the checked signing agrees with the original. */
  lemma CheckedAgrees(sub: string, aud: string, exp: string, now: int)
    requires MIN_TIMESTAMP <= now <= MAX_TIMESTAMP
    requires ParseExpiry(exp).Ok? ==> Representable(now, ParseExpiry(exp).value)
    requires ProcessJwtSignChecked(sub, aud, exp, now).Ok?
    ensures ProcessJwtSign(sub, aud, exp, now) == Ok(ProcessJwtSignChecked(sub, aud, exp, now).value)
  {
  }
}
