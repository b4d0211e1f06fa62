/**
 * The cryptographic collaborators the command-line tool calls into: SHA-256 (sha2), point
 * parsing and serialisation, key pairs and ECDSA (secp256k1), and the hex/compact text form
 * of a signature (hex, secp256k1). None of them is modelled internally: they are fields of
 * a `Crypto` value that the core receives as a parameter, and `Laws` states the properties
 * of the real primitives that the proofs about the core rely on.
 */
module Primitives {
  import opened Wrappers

  newtype byte = b: int | 0 <= b < 0x100

  /** A SHA-256 digest, and a secp256k1 message: always 32 bytes. */
  type Hash32 = s: seq<byte> | |s| == 32 witness seq(32, _ => 0)

  /** `PublicKey::serialize()`: a compressed point, always 33 bytes. */
  type Bytes33 = s: seq<byte> | |s| == 33 witness seq(33, _ => 0)

  const EvenPrefix: byte := 0x02
  const OddPrefix: byte := 0x03

  /**
   * The primitives, with P the type of curve points (public keys), K of secret keys and
   * S of ECDSA signatures.
   */
  datatype Crypto<!P, !K, !S> = Crypto(
    sha256: seq<byte> -> Hash32,            // Sha256 over a whole byte string
    parsePoint: seq<byte> -> Option<P>,     // PublicKey::from_slice
    serializePoint: P -> Bytes33,           // PublicKey::serialize
    publicKeyOf: K -> P,                    // PublicKey::from_secret_key
    signEcdsa: (Hash32, K) -> S,            // Secp256k1::sign_ecdsa
    verifyEcdsa: (Hash32, S, P) -> bool,    // Secp256k1::verify_ecdsa(..).is_ok()
    encodeSignature: S -> seq<char>,        // hex::encode(serialize_compact())
    decodeSignature: seq<char> -> Option<S> // hex::decode then Signature::from_compact
  )

  /**
   * A point's compressed form parses back to the point. A byte string with a 0x02 or 0x03
   * prefix parses only when it is 33 bytes long, and then it is the point's compressed form.
   * Uncompressed and hybrid forms (0x04, 0x06, 0x07, 65 bytes) are left unconstrained.
   */
  ghost predicate PointEncoding<P(!new), K, S>(c: Crypto<P, K, S>) {
    && (forall p :: c.parsePoint(c.serializePoint(p)) == Some(p))
    && (forall a :: |a| > 0 && (a[0] == EvenPrefix || a[0] == OddPrefix) && c.parsePoint(a).Some? ==>
          |a| == 33 && c.serializePoint(c.parsePoint(a).value) == a)
    && (forall p :: c.serializePoint(p)[0] == EvenPrefix || c.serializePoint(p)[0] == OddPrefix)
  }

  /**
   * secp256k1 has no point with y = 0, so an x-coordinate on the curve has one even and one
   * odd y: the two compressed forms of an x-coordinate parse together or not at all.
   */
  ghost predicate ParityPairs<P, K, S>(c: Crypto<P, K, S>) {
    forall x: seq<byte> :: |x| == 32 ==>
      (c.parsePoint([EvenPrefix] + x).Some? <==> c.parsePoint([OddPrefix] + x).Some?)
  }

  /** A signature verifies under its signer's public key. */
  ghost predicate EcdsaComplete<P, K(!new), S>(c: Crypto<P, K, S>) {
    forall d, k :: c.verifyEcdsa(d, c.signEcdsa(d, k), c.publicKeyOf(k))
  }

  /**
   * Of the two keys with the signer's x-coordinate, only the signer's own key verifies its
   * signature. (The negated key verifies only when the digest is 0 modulo the group order,
   * an event of negligible probability that this law idealises away. Keys with another
   * x-coordinate, such as one recovered from the signature, are not constrained.)
   */
  ghost predicate SameXOnlySigner<P(!new), K(!new), S>(c: Crypto<P, K, S>) {
    forall d, k, p :: c.verifyEcdsa(d, c.signEcdsa(d, k), p)
                      && c.serializePoint(p)[1..] == c.serializePoint(c.publicKeyOf(k))[1..]
                      ==> p == c.publicKeyOf(k)
  }

  /** The hex text of a signature decodes back to it. */
  ghost predicate SignatureText<P, K, S(!new)>(c: Crypto<P, K, S>) {
    forall s :: c.decodeSignature(c.encodeSignature(s)) == Some(s)
  }

  ghost predicate Laws<P(!new), K(!new), S(!new)>(c: Crypto<P, K, S>) {
    PointEncoding(c) && ParityPairs(c) && EcdsaComplete(c) && SameXOnlySigner(c) && SignatureText(c)
  }

  /**
   * An incremental SHA-256 hasher (`Sha256::new`, `update`, `finalize`): it absorbs bytes
   * and finally yields the digest of everything absorbed.
   */
  class Sha256Hasher {
    const sha256: seq<byte> -> Hash32
    var absorbed: seq<byte>

    constructor (sha256: seq<byte> -> Hash32)
      ensures this.sha256 == sha256 && absorbed == []
    {
      this.sha256 := sha256;
      absorbed := [];
    }

    method Update(data: seq<byte>)
      modifies this
      ensures absorbed == old(absorbed) + data
    {
      absorbed := absorbed + data;
    }

    method Finalize() returns (digest: Hash32)
      ensures digest == sha256(absorbed)
    {
      digest := sha256(absorbed);
    }
  }
}
