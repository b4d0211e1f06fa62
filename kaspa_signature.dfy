/**
 * The message-signing core of the Kaspa signature tool: turning a public key into the
 * 32-byte x-only address payload, rebuilding the two candidate public keys from such a
 * payload, the rule that decides which candidate is verified, and the double SHA-256
 * message digest shared by signing and verification.
 */
module KaspaSignature {
  import opened Wrappers
  import opened Primitives

  datatype Failure =
    | UnexpectedPublicKeyFormat  // the panic of x-only extraction
    | InvalidMessage             // Message::from_slice on a slice that is not 32 bytes
    | MalformedSignature         // hex::decode or Signature::from_compact failed

  // ---------------------------------------------------------------- x-only payload

  /**
   * The address payload of a compressed public key: the 32 bytes after a 0x02 or 0x03
   * prefix. Any other prefix stops the program (a panic).
   */
  function XOnly(key: Bytes33): (r: Result<seq<byte>, Failure>)
    ensures r.Ok? <==> key[0] == EvenPrefix || key[0] == OddPrefix
    ensures r.Err? ==> r.error == UnexpectedPublicKeyFormat
    ensures r.Ok? ==> |r.value| == 32 && r.value == key[1..]
    ensures r.Ok? ==> Candidate(key[0], r.value) == key
  {
    if key[0] == EvenPrefix || key[0] == OddPrefix then
      assert [key[0]] + key[1..33] == key;
      Ok(key[1..33])
    else
      Err(UnexpectedPublicKeyFormat)
  }

  /**
   * The tail of key derivation: the public key of a derived secret key, serialised, and cut
   * down to its x-only payload (which the address then encodes).
   */
  function DeriveKeyAndAddress<P, K, S>(c: Crypto<P, K, S>, secret: K): (r: Result<(K, seq<byte>), Failure>)
    ensures var key := c.serializePoint(c.publicKeyOf(secret));
            && (r.Ok? <==> key[0] == EvenPrefix || key[0] == OddPrefix)
            && (r.Ok? ==> r.value.0 == secret)
            && (r.Ok? ==> |r.value.1| == 32 && Candidate(key[0], r.value.1) == key)
  {
    match XOnly(c.serializePoint(c.publicKeyOf(secret)))
    case Ok(payload) => Ok((secret, payload))
    case Err(e) => Err(e)
  }

  /**
   * The payload forgets exactly the parity: two well-formed keys share a payload when they
   * are equal or are the even and odd forms of one x-coordinate.
   */
  lemma XOnlyForgetsOnlyParity(k1: Bytes33, k2: Bytes33)
    requires XOnly(k1).Ok? && XOnly(k2).Ok?
    ensures XOnly(k1) == XOnly(k2) <==>
      k1 == k2 || k1 == Candidate(if k2[0] == EvenPrefix then OddPrefix else EvenPrefix, k2[1..])
  {
  }

  // ---------------------------------------------------------------- candidate keys

  /** A compressed public key: the prefix byte followed by the payload. */
  function Candidate(prefix: byte, payload: seq<byte>): (key: seq<byte>)
  {
    [prefix] + payload
  }

  /** `vec![prefix]` followed by `extend_from_slice(payload)`. */
  method BuildCandidate(prefix: byte, payload: seq<byte>) returns (key: seq<byte>)
    ensures |key| == 1 + |payload| && key[0] == prefix && key[1..] == payload
    ensures key == Candidate(prefix, payload)
  {
    key := [prefix];
    key := key + payload;
  }

  /**
   * The two candidates have the same length and differ only in the prefix byte, and
   * dropping the prefix of either gives back the payload.
   */
  lemma {:induction false} CandidatesDifferOnlyInPrefix(payload: seq<byte>)
    ensures var even, odd := Candidate(EvenPrefix, payload), Candidate(OddPrefix, payload);
            && |even| == |odd| == 1 + |payload|
            && even[0] == EvenPrefix && odd[0] == OddPrefix
            && (forall i :: 0 < i < |even| ==> even[i] == odd[i])
            && even[1..] == odd[1..] == payload
  {
  }

  // ---------------------------------------------------------------- the decision

  /**
   * The `match (even_pubkey_result, odd_pubkey_result)` of the verifier. Arms are tried in
   * order, so once the even candidate has parsed, its verdict is final and the odd
   * candidate is never looked at.
   */
  function Decide<P, S>(even: Option<P>, odd: Option<P>, verify: (Hash32, S, P) -> bool,
                        digest: Hash32, sig: S): (valid: bool)
    // accepted only by a candidate that parsed and verified
    ensures valid ==>
      (even.Some? && verify(digest, sig, even.value)) || (odd.Some? && verify(digest, sig, odd.value))
    // a parsed even key is the only key tried
    ensures even.Some? ==> (valid <==> verify(digest, sig, even.value))
    // the odd key is tried only when the even key does not parse; neither parsing is a plain false
    ensures even.None? ==> (valid <==> odd.Some? && verify(digest, sig, odd.value))
  {
    match (even, odd)
    case (Some(e), _) => verify(digest, sig, e)
    case (_, Some(o)) => verify(digest, sig, o)
    case _ => false
  }

  /** Whatever the odd candidate is, it does not change the verdict once the even one parsed. */
  lemma OddIgnoredWhenEvenParses<P, S>(e: P, odd1: Option<P>, odd2: Option<P>,
                                       verify: (Hash32, S, P) -> bool, digest: Hash32, sig: S)
    ensures Decide(Some(e), odd1, verify, digest, sig) == Decide(Some(e), odd2, verify, digest, sig)
  {
  }

  // ---------------------------------------------------------------- digest

  /** The digest that is signed and verified: SHA-256 of the SHA-256 of the message bytes. */
  function DoubleHash(sha256: seq<byte> -> Hash32, message: seq<byte>): (h: Hash32)
  {
    sha256(sha256(message))
  }

  /** `double_sha256`: two hashers, the second fed the first's 32-byte digest, copied out. */
  method DoubleSha256(sha256: seq<byte> -> Hash32, message: seq<byte>) returns (output: Hash32)
    ensures output == sha256(sha256(message))
  {
    var hasher1 := new Sha256Hasher(sha256);
    hasher1.Update(message);
    assert hasher1.absorbed == message;
    var firstHash := hasher1.Finalize();

    var hasher2 := new Sha256Hasher(sha256);
    hasher2.Update(firstHash);
    assert hasher2.absorbed == firstHash;
    var out := new byte[32];
    var secondHash := hasher2.Finalize();
    // `output.copy_from_slice(..)`: the 32 digest bytes are copied one by one
    for i := 0 to 32
      invariant out[..i] == secondHash[..i]
    {
      out[i] := secondHash[i];
    }
    output := out[..];
  }

  /** `Message::from_slice`: accepts exactly 32 bytes. */
  function MessageFromSlice(bytes: seq<byte>): (m: Option<Hash32>)
    ensures m.Some? <==> |bytes| == 32
    ensures m.Some? ==> m.value == bytes
  {
    if |bytes| == 32 then Some(bytes) else None
  }

  // ---------------------------------------------------------------- sign and verify

  /** The hex signature text `sign_message` returns for a message and a secret key. */
  function SignatureHex<P, K, S>(c: Crypto<P, K, S>, message: seq<byte>, secret: K): seq<char>
  {
    c.encodeSignature(c.signEcdsa(DoubleHash(c.sha256, message), secret))
  }

  /** `sign_message`: hash, sign the digest, hex-encode the compact signature. */
  method SignMessage<P, K, S>(c: Crypto<P, K, S>, message: seq<byte>, secret: K)
    returns (r: Result<seq<char>, Failure>)
    ensures r == Ok(c.encodeSignature(c.signEcdsa(c.sha256(c.sha256(message)), secret)))
    ensures r == Ok(SignatureHex(c, message, secret))
  {
    var messageHash := DoubleSha256(c.sha256, message);
    var secpMessage := MessageFromSlice(messageHash);
    if secpMessage.None? {
      return Err(InvalidMessage);
    }
    var signature := c.signEcdsa(secpMessage.value, secret);
    return Ok(c.encodeSignature(signature));
  }

  /** What `verify_signature` returns for a message, a signature text and an address payload. */
  function VerifyOutcome<P, K, S>(c: Crypto<P, K, S>, message: seq<byte>, signatureHex: seq<char>,
                                  payload: seq<byte>): (r: Result<bool, Failure>)
    // the only error is an unreadable signature
    ensures r.Err? <==> c.decodeSignature(signatureHex).None?
    ensures r.Err? ==> r.error == MalformedSignature
    // valid only when a candidate that parsed verifies the signature over the double hash
    ensures r == Ok(true) ==>
      var d, sig := DoubleHash(c.sha256, message), c.decodeSignature(signatureHex).value;
      || (c.parsePoint(Candidate(EvenPrefix, payload)).Some?
          && c.verifyEcdsa(d, sig, c.parsePoint(Candidate(EvenPrefix, payload)).value))
      || (c.parsePoint(Candidate(OddPrefix, payload)).Some?
          && c.verifyEcdsa(d, sig, c.parsePoint(Candidate(OddPrefix, payload)).value))
    // a payload that is no x-coordinate on the curve gives Ok(false), not an error
    ensures (&& c.decodeSignature(signatureHex).Some?
             && c.parsePoint(Candidate(EvenPrefix, payload)).None?
             && c.parsePoint(Candidate(OddPrefix, payload)).None?) ==> r == Ok(false)
  {
    match c.decodeSignature(signatureHex)
    case None => Err(MalformedSignature)
    case Some(sig) =>
      Ok(Decide(c.parsePoint(Candidate(EvenPrefix, payload)), c.parsePoint(Candidate(OddPrefix, payload)),
                c.verifyEcdsa, DoubleHash(c.sha256, message), sig))
  }

  /**
   * `verify_signature`, from the decoded address payload on: hash the message, read the
   * signature, build both candidates, parse both, and let the match decide.
   */
  method VerifySignature<P, K, S>(c: Crypto<P, K, S>, message: seq<byte>, signatureHex: seq<char>,
                                  payload: seq<byte>) returns (r: Result<bool, Failure>)
    ensures r == VerifyOutcome(c, message, signatureHex, payload)
  {
    var messageHash := DoubleSha256(c.sha256, message);
    var secpMessage := MessageFromSlice(messageHash);
    if secpMessage.None? {
      return Err(InvalidMessage);
    }
    var signature := c.decodeSignature(signatureHex);
    if signature.None? {
      return Err(MalformedSignature);
    }

    var evenPubkeyBytes := BuildCandidate(EvenPrefix, payload);
    var oddPubkeyBytes := BuildCandidate(OddPrefix, payload);

    var evenPubkeyResult := c.parsePoint(evenPubkeyBytes);
    var oddPubkeyResult := c.parsePoint(oddPubkeyBytes);

    var valid := Decide(evenPubkeyResult, oddPubkeyResult, c.verifyEcdsa, secpMessage.value, signature.value);
    return Ok(valid);
  }
}
