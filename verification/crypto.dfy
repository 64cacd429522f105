/** The cryptographic primitives the signing core borrows from its libraries
    (`blake3` and `ed25519_dalek`). Their internals are not modelled: a `Primitives`
    value is any choice of functions, and `Valid` states the only facts the core relies
    on, namely output lengths and that a signature made with a signing key verifies
    under the public key derived from it (RFC 8032). */
module Crypto {
  import opened Bytes

  datatype Primitives = Primitives(
    /** `blake3::keyed_hash(key, data)`, as bytes. */
    keyedHash: (seq<byte>, seq<byte>) -> seq<byte>,
    /** `SigningKey::from_bytes(secret).verifying_key().to_bytes()`. */
    publicKey: seq<byte> -> seq<byte>,
    /** Whether `VerifyingKey::from_bytes(bytes)` succeeds (the bytes decode to a
        valid curve point). */
    isPublicKey: seq<byte> -> bool,
    /** `SigningKey::from_bytes(secret).sign(data).to_bytes()`. */
    sign: (seq<byte>, seq<byte>) -> seq<byte>,
    /** Whether `VerifyingKey::verify(data, signature)` returns `Ok`. */
    verify: (seq<byte>, seq<byte>, seq<byte>) -> bool)

  ghost predicate Valid(p: Primitives) {
    && (forall key: seq<byte>, data: seq<byte> | |key| == 32 :: |p.keyedHash(key, data)| == 32)
    && (forall secret: seq<byte> | |secret| == 32 ::
          |p.publicKey(secret)| == 32 && p.isPublicKey(p.publicKey(secret)))
    && (forall secret: seq<byte>, data: seq<byte> | |secret| == 32 :: |p.sign(secret, data)| == 64)
    && (forall secret: seq<byte>, data: seq<byte> | |secret| == 32 ::
          p.verify(p.publicKey(secret), data, p.sign(secret, data)))
  }

  /** A stand-in that meets every requirement: it shows `Valid` is consistent. */
  function Constant(): (p: Primitives)
    ensures Valid(p)
  {
    Primitives(
      (key, data) => seq(32, _ => 0),
      secret => seq(32, _ => 0),
      bytes => true,
      (secret, data) => seq(64, _ => 0),
      (public, data, signature) => true)
  }
}
