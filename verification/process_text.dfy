/** Text signing (src/process/text.rs): three key types built from the first 32 bytes
    of a key buffer, their sign and verify operations, the dispatcher behind
    `text sign` / `text verify` that base64-encodes signatures (URL-safe, unpadded),
    and the key generator behind `text generator`.

    Key files, the input reader and the random source are outside the model: the
    operations take the key buffer and the input as byte sequences, and generation
    draws its random bytes by nondeterministic choice. */
module TextProcess {
  import opened Wrappers
  import opened Bytes
  import opened Crypto
  import TextOpts
  import Base64

  /** A BLAKE3 keyed-hash key; signs and verifies. */
  datatype Blake3 = Blake3(key: Bytes32)

  /** An Ed25519 secret key; signs only. */
  datatype Ed25519Signer = Ed25519Signer(key: Bytes32)

  /** An Ed25519 public key; verifies only. Built only from bytes that decode to a
      curve point. */
  datatype Ed25519Verifier = Ed25519Verifier(key: Bytes32)

  datatype Error =
    | InvalidPublicKey                            // `VerifyingKey::from_bytes` failed
    | SignatureLength(length: nat)                // the signature is not 64 bytes
    | SignatureEncoding(cause: Base64.DecodeError) // `--sig` is not URL-safe base64

  const VERIFIED := "Verified"
  const NOT_VERIFIED := "Not verified"

  /** `Blake3::try_new`. The slice `&key[..32]` panics on a shorter buffer, hence the
      precondition. */
  function Blake3TryNew(key: seq<byte>): (r: Result<Blake3, Error>)
    requires |key| >= 32
    ensures r.Ok? && r.value.key == key[..32]
  {
    Ok(Blake3(key[..32]))
  }

  /** `Ed25519Signer::try_new`: any 32 bytes are a secret key. */
  function Ed25519SignerTryNew(key: seq<byte>): (r: Result<Ed25519Signer, Error>)
    requires |key| >= 32
    ensures r.Ok? && r.value.key == key[..32]
  {
    Ok(Ed25519Signer(key[..32]))
  }

  /** `Ed25519Verifier::try_new`: fails exactly when the 32 bytes are not a public key. */
  function Ed25519VerifierTryNew(p: Primitives, key: seq<byte>): (r: Result<Ed25519Verifier, Error>)
    requires |key| >= 32
    ensures r.Ok? <==> p.isPublicKey(key[..32])
    ensures r.Ok? ==> r.value.key == key[..32]
    ensures r.Err? ==> r.error == InvalidPublicKey
  {
    if p.isPublicKey(key[..32]) then Ok(Ed25519Verifier(key[..32])) else Err(InvalidPublicKey)
  }

  /** Every constructor reads the first 32 bytes and nothing else: two buffers give the
      same key exactly when their first 32 bytes agree. */
  lemma TryNewUsesFirst32(p: Primitives, key: seq<byte>, other: seq<byte>)
    requires |key| >= 32 && |other| >= 32
    ensures Blake3TryNew(key) == Blake3TryNew(other) <==> key[..32] == other[..32]
    ensures Ed25519SignerTryNew(key) == Ed25519SignerTryNew(other) <==> key[..32] == other[..32]
    ensures key[..32] == other[..32] ==> Ed25519VerifierTryNew(p, key) == Ed25519VerifierTryNew(p, other)
    ensures Ed25519VerifierTryNew(p, key).Ok? && Ed25519VerifierTryNew(p, key) == Ed25519VerifierTryNew(p, other)
        ==> key[..32] == other[..32]
  {
  }

  /** `TextSign for Blake3`: the keyed hash of the whole input. */
  function Blake3Sign(p: Primitives, signer: Blake3, data: seq<byte>): (signature: seq<byte>)
    requires Valid(p)
    ensures |signature| == 32
  {
    p.keyedHash(signer.key, data)
  }

  /** `TextVerify for Blake3`: recompute and compare byte for byte. A signature of the
      wrong length is a `false` verdict, never an error. */
  function Blake3Verify(p: Primitives, verifier: Blake3, data: seq<byte>, signature: seq<byte>): (verified: bool)
    requires Valid(p)
    ensures verified <==> signature == Blake3Sign(p, verifier, data)
    ensures |signature| != 32 ==> !verified
  {
    p.keyedHash(verifier.key, data) == signature
  }

  /** `TextSign for Ed25519Signer`. */
  function Ed25519Sign(p: Primitives, signer: Ed25519Signer, data: seq<byte>): (signature: seq<byte>)
    requires Valid(p)
    ensures |signature| == 64
    ensures p.verify(p.publicKey(signer.key), data, signature)
  {
    p.sign(signer.key, data)
  }

  /** `TextVerify for Ed25519Verifier`: an error exactly when the signature is not 64
      bytes long (the conversion to `&[u8; 64]` fails); otherwise the library's verdict,
      every failure collapsed to `false`. */
  function Ed25519Verify(p: Primitives, verifier: Ed25519Verifier, data: seq<byte>, signature: seq<byte>)
    : (r: Result<bool, Error>)
    ensures r.Err? <==> |signature| != 64
    ensures r.Err? ==> r.error == SignatureLength(|signature|)
    ensures r.Ok? ==> r.value == p.verify(verifier.key, data, signature)
  {
    if |signature| != 64 then Err(SignatureLength(|signature|))
    else Ok(p.verify(verifier.key, data, signature))
  }

  /** A signature made with a secret key verifies under the public key derived from it. */
  lemma Ed25519KeyPair(p: Primitives, secret: Bytes32, data: seq<byte>)
    requires Valid(p)
    ensures Ed25519Verify(p, Ed25519Verifier(p.publicKey(secret)), data,
                          Ed25519Sign(p, Ed25519Signer(secret), data)) == Ok(true)
  {
  }

  /** The raw signature for `format`, before text encoding. Loading the signer cannot
      fail once 32 bytes are present. */
  function RawSignature(p: Primitives, data: seq<byte>, key: seq<byte>, format: TextOpts.TextSignFormat)
    : (signature: seq<byte>)
    requires Valid(p) && |key| >= 32
    ensures format.Blake3? ==> |signature| == 32 && Blake3Verify(p, Blake3(key[..32]), data, signature)
    ensures format.Ed25519? ==> |signature| == 64 && p.verify(p.publicKey(key[..32]), data, signature)
  {
    match format
    case Blake3 => Blake3Sign(p, Blake3TryNew(key).value, data)
    case Ed25519 => Ed25519Sign(p, Ed25519SignerTryNew(key).value, data)
  }

  /** `process_text_sign`: sign with the variant the format names and print the
      signature as URL-safe base64 without padding. It cannot fail once the key buffer
      holds 32 bytes; what it prints decodes to a 32-byte BLAKE3 tag that verifies
      against the same key, or to a 64-byte Ed25519 signature that verifies under the
      matching public key. */
  function ProcessTextSign(p: Primitives, data: seq<byte>, key: seq<byte>, format: TextOpts.TextSignFormat)
    : (r: Result<string, Error>)
    requires Valid(p) && |key| >= 32
    ensures r.Ok?
    ensures Base64.Decode(Base64.URL_SAFE_NO_PAD, r.value).Ok?
    ensures var raw := Base64.Decode(Base64.URL_SAFE_NO_PAD, r.value).value;
      match format
      case Blake3 => |raw| == 32 && Blake3Verify(p, Blake3(key[..32]), data, raw)
      case Ed25519 => |raw| == 64 && p.verify(p.publicKey(key[..32]), data, raw)
  {
    var signature := RawSignature(p, data, key, format);
    Base64.DecodeEncode(Base64.URL_SAFE_NO_PAD, signature);
    Ok(Base64.Encode(Base64.URL_SAFE_NO_PAD, signature))
  }

  /** The verdict of the variant the format names, on an already decoded signature.
      BLAKE3 accepts exactly the signature `RawSignature` makes with the same key and
      never fails. Ed25519 first rejects a key that is not a public key, then a
      signature that is not 64 bytes, and otherwise gives the library's verdict. */
  function VerifyRaw(p: Primitives, data: seq<byte>, key: seq<byte>, format: TextOpts.TextSignFormat, signature: seq<byte>)
    : (r: Result<bool, Error>)
    requires Valid(p) && |key| >= 32
    ensures format.Blake3? ==> r == Ok(signature == RawSignature(p, data, key, format))
    ensures format.Ed25519? ==> (r.Err? <==> !p.isPublicKey(key[..32]) || |signature| != 64)
    ensures format.Ed25519? && !p.isPublicKey(key[..32]) ==> r == Err(InvalidPublicKey)
    ensures format.Ed25519? && p.isPublicKey(key[..32]) && |signature| != 64 ==> r == Err(SignatureLength(|signature|))
    ensures format.Ed25519? ==>
      (r == Ok(true) <==> p.isPublicKey(key[..32]) && |signature| == 64 && p.verify(key[..32], data, signature))
  {
    match format
    case Blake3 =>
      Ok(Blake3Verify(p, Blake3TryNew(key).value, data, signature))
    case Ed25519 =>
      var verifier :- Ed25519VerifierTryNew(p, key);
      Ed25519Verify(p, verifier, data, signature)
  }

  /** `process_text_verify`: decode the signature first (a decoding failure is an
      error, and the key buffer is not read), then verify with the variant the format
      names and report exactly "Verified" or "Not verified". For BLAKE3 the only error
      is the decoding; for Ed25519 the key must also be a public key, checked before
      the signature's length of 64 bytes. */
  function ProcessTextVerify(p: Primitives, data: seq<byte>, key: seq<byte>, format: TextOpts.TextSignFormat, sig: string)
    : (r: Result<string, Error>)
    requires Valid(p)
    requires Base64.Decode(Base64.URL_SAFE_NO_PAD, sig).Ok? ==> |key| >= 32
    ensures r.Ok? ==> r.value == VERIFIED || r.value == NOT_VERIFIED
    ensures Base64.Decode(Base64.URL_SAFE_NO_PAD, sig).Err? ==>
      r == Err(SignatureEncoding(Base64.Decode(Base64.URL_SAFE_NO_PAD, sig).error))
    ensures Base64.Decode(Base64.URL_SAFE_NO_PAD, sig).Ok? ==>
      var raw := Base64.Decode(Base64.URL_SAFE_NO_PAD, sig).value;
      match format
      case Blake3 =>
        r == Ok(if raw == p.keyedHash(key[..32], data) then VERIFIED else NOT_VERIFIED)
      case Ed25519 =>
        && (r.Err? <==> !p.isPublicKey(key[..32]) || |raw| != 64)
        && (!p.isPublicKey(key[..32]) ==> r == Err(InvalidPublicKey))
        && (r == Ok(VERIFIED) <==> p.isPublicKey(key[..32]) && |raw| == 64 && p.verify(key[..32], data, raw))
  {
    match Base64.Decode(Base64.URL_SAFE_NO_PAD, sig)
    case Err(e) => Err(SignatureEncoding(e))
    case Ok(signature) =>
      var verified :- VerifyRaw(p, data, key, format, signature);
      Ok(if verified then VERIFIED else NOT_VERIFIED)
  }

  /** Round trip for BLAKE3: what `text sign` prints, `text verify` accepts with the
      same key and the same input. */
  lemma Blake3SignVerify(p: Primitives, data: seq<byte>, key: seq<byte>)
    requires Valid(p) && |key| >= 32
    ensures ProcessTextVerify(p, data, key, TextOpts.Blake3,
                              ProcessTextSign(p, data, key, TextOpts.Blake3).value) == Ok(VERIFIED)
  {
    var raw := RawSignature(p, data, key, TextOpts.Blake3);
    Base64.DecodeEncode(Base64.URL_SAFE_NO_PAD, raw);
  }

  /** Round trip for Ed25519: what `text sign` prints with a secret key, `text verify`
      accepts with any key buffer that starts with the matching public key. */
  lemma Ed25519SignVerify(p: Primitives, data: seq<byte>, secret: seq<byte>, public: seq<byte>)
    requires Valid(p) && |secret| >= 32 && |public| >= 32
    requires public[..32] == p.publicKey(secret[..32])
    ensures ProcessTextVerify(p, data, public, TextOpts.Ed25519,
                              ProcessTextSign(p, data, secret, TextOpts.Ed25519).value) == Ok(VERIFIED)
  {
    var raw := RawSignature(p, data, secret, TextOpts.Ed25519);
    Base64.DecodeEncode(Base64.URL_SAFE_NO_PAD, raw);
  }

  /** 32 bytes from the operating system's random source (`OsRng`), chosen
      nondeterministically one at a time. */
  method RandomKey() returns (key: seq<byte>)
    ensures |key| == 32
  {
    var bytes: seq<byte> := [];
    while |bytes| < 32
      invariant |bytes| <= 32
    {
      var b :| 0 <= b < 256;
      bytes := bytes + [b];
    }
    key := bytes;
  }

  /** `process_generator`: one 32-byte key for BLAKE3; for Ed25519 a fresh secret key
      followed by the public key derived from it. Either way the keys it writes work:
      signing with the first and verifying with the last succeeds for every input. */
  method ProcessGenerator(p: Primitives, format: TextOpts.TextSignFormat) returns (keys: seq<seq<byte>>)
    requires Valid(p)
    ensures format.Blake3? ==> |keys| == 1 && |keys[0]| == 32
    ensures format.Ed25519? ==> |keys| == 2 && |keys[0]| == 32 && keys[1] == p.publicKey(keys[0])
    ensures |keys[0]| >= 32 && |keys[|keys| - 1]| >= 32
    ensures forall data: seq<byte> ::
      ProcessTextVerify(p, data, keys[|keys| - 1], format,
                        ProcessTextSign(p, data, keys[0], format).value) == Ok(VERIFIED)
  {
    var secret: Bytes32 := RandomKey();
    match format {
      case Blake3 =>
        keys := [secret];
        forall data: seq<byte> {
          Blake3SignVerify(p, data, secret);
        }
      case Ed25519 =>
        var public := p.publicKey(secret);
        keys := [secret, public];
        assert secret[..32] == secret && public[..32] == public;
        forall data: seq<byte> {
          Ed25519SignVerify(p, data, secret, public);
        }
    }
  }
}
