/**
 * Signing and then verifying with the tool's own key. The verifier rebuilds the public key
 * from the x-only payload, but the even candidate parses for every x-coordinate on the
 * curve, so the odd candidate is never tried: a signer whose public key has an odd y gets
 * "Invalid" on its own signature. The intended rule, accept when either candidate
 * verifies, is given here beside the rule as written.
 */
module ParityFinding {
  import opened Wrappers
  import opened Primitives
  import opened KaspaSignature

  /** The payload `derive_kaspa_key_and_address` yields for a secret key. */
  function AddressPayload<P, K, S>(c: Crypto<P, K, S>, secret: K): (payload: seq<byte>)
    requires DeriveKeyAndAddress(c, secret).Ok?
  {
    DeriveKeyAndAddress(c, secret).value.1
  }

  /**
   * As written: the tool's own signature is accepted exactly when its public key serialises
   * with the even prefix 0x02; with the odd prefix 0x03 the result is Ok(false).
   */
  lemma SignThenVerifyAsWritten<P(!new), K(!new), S(!new)>(c: Crypto<P, K, S>, message: seq<byte>, secret: K)
    requires Laws(c)
    ensures DeriveKeyAndAddress(c, secret).Ok?
    ensures VerifyOutcome(c, message, SignatureHex(c, message, secret), AddressPayload(c, secret))
            == Ok(c.serializePoint(c.publicKeyOf(secret))[0] == EvenPrefix)
  {
    var pub := c.publicKeyOf(secret);
    var key := c.serializePoint(pub);
    assert key[0] == EvenPrefix || key[0] == OddPrefix;
    var payload := AddressPayload(c, secret);
    var d := DoubleHash(c.sha256, message);
    var sig := c.signEcdsa(d, secret);
    assert c.decodeSignature(SignatureHex(c, message, secret)) == Some(sig);
    assert Candidate(key[0], payload) == key;
    assert c.parsePoint(key) == Some(pub);
    assert c.verifyEcdsa(d, sig, pub);
    if key[0] == OddPrefix {
      var evenKey := Candidate(EvenPrefix, payload);
      assert c.parsePoint(evenKey).Some?;
      var e := c.parsePoint(evenKey).value;
      assert c.serializePoint(e) == evenKey;
      assert c.serializePoint(e)[1..] == key[1..];
      assert e != pub by {
        assert evenKey[0] != key[0];
      }
      assert !c.verifyEcdsa(d, sig, e);
    }
  }

  /** The intended decision: valid when either parsed candidate verifies. */
  function DecideEitherParity<P(!new), S>(even: Option<P>, odd: Option<P>, verify: (Hash32, S, P) -> bool,
                                    digest: Hash32, sig: S): (valid: bool)
    ensures valid <==> exists p :: (even == Some(p) || odd == Some(p)) && verify(digest, sig, p)
  {
    (even.Some? && verify(digest, sig, even.value)) || (odd.Some? && verify(digest, sig, odd.value))
  }

  /**
   * The rule as written accepts only what the intended rule accepts, and rejects something
   * the intended rule accepts exactly when the even candidate parses but fails and the odd
   * candidate parses and verifies.
   */
  lemma AsWrittenMissesOnlyOddAcceptance<P(!new), S>(even: Option<P>, odd: Option<P>,
                                               verify: (Hash32, S, P) -> bool, digest: Hash32, sig: S)
    ensures Decide(even, odd, verify, digest, sig) ==> DecideEitherParity(even, odd, verify, digest, sig)
    ensures Decide(even, odd, verify, digest, sig) != DecideEitherParity(even, odd, verify, digest, sig)
            <==> && even.Some? && !verify(digest, sig, even.value)
                 && odd.Some? && verify(digest, sig, odd.value)
  {
  }

  /** Verification with the intended rule, otherwise as `verify_signature` does it. */
  function VerifyOutcomeEitherParity<P(!new), K, S>(c: Crypto<P, K, S>, message: seq<byte>, signatureHex: seq<char>,
                                              payload: seq<byte>): (r: Result<bool, Failure>)
    ensures r.Err? <==> c.decodeSignature(signatureHex).None?
    ensures r.Ok? && VerifyOutcome(c, message, signatureHex, payload) == Ok(true) ==> r.value
  {
    match c.decodeSignature(signatureHex)
    case None => Err(MalformedSignature)
    case Some(sig) =>
      var d := DoubleHash(c.sha256, message);
      var even := c.parsePoint(Candidate(EvenPrefix, payload));
      var odd := c.parsePoint(Candidate(OddPrefix, payload));
      AsWrittenMissesOnlyOddAcceptance(even, odd, c.verifyEcdsa, d, sig);
      Ok(DecideEitherParity(even, odd, c.verifyEcdsa, d, sig))
  }

  /** With the intended rule, every signature the tool makes verifies against its own address. */
  lemma SignThenVerifyEitherParity<P(!new), K(!new), S(!new)>(c: Crypto<P, K, S>, message: seq<byte>, secret: K)
    requires PointEncoding(c) && EcdsaComplete(c) && SignatureText(c)
    ensures DeriveKeyAndAddress(c, secret).Ok?
    ensures VerifyOutcomeEitherParity(c, message, SignatureHex(c, message, secret), AddressPayload(c, secret))
            == Ok(true)
  {
    var pub := c.publicKeyOf(secret);
    var key := c.serializePoint(pub);
    assert key[0] == EvenPrefix || key[0] == OddPrefix;
    var payload := AddressPayload(c, secret);
    var d := DoubleHash(c.sha256, message);
    var sig := c.signEcdsa(d, secret);
    assert c.decodeSignature(SignatureHex(c, message, secret)) == Some(sig);
    assert Candidate(key[0], payload) == key;
    assert c.parsePoint(key) == Some(pub);
    assert c.verifyEcdsa(d, sig, pub);
  }

  /**
   * Against a payload other than the signer's address payload, a signature is accepted, by
   * either rule, only through a different key whose x-coordinate is that payload and which
   * verifies the signature. Such keys exist (public-key recovery computes one from the
   * signature), so rejection of every other address is not claimed.
   */
  lemma WrongPayloadNeedsAnotherKey<P(!new), K(!new), S(!new)>(c: Crypto<P, K, S>, message: seq<byte>,
                                                               secret: K, payload: seq<byte>)
    requires PointEncoding(c)
    requires DeriveKeyAndAddress(c, secret).Ok? && payload != AddressPayload(c, secret)
    ensures var signatureHex := SignatureHex(c, message, secret);
            VerifyOutcome(c, message, signatureHex, payload) == Ok(true) ==>
              VerifyOutcomeEitherParity(c, message, signatureHex, payload) == Ok(true)
    ensures VerifyOutcomeEitherParity(c, message, SignatureHex(c, message, secret), payload) == Ok(true) ==>
              exists p :: && p != c.publicKeyOf(secret)
                          && c.serializePoint(p)[1..] == payload
                          && c.decodeSignature(SignatureHex(c, message, secret)).Some?
                          && c.verifyEcdsa(DoubleHash(c.sha256, message),
                                           c.decodeSignature(SignatureHex(c, message, secret)).value, p)
  {
    var signatureHex := SignatureHex(c, message, secret);
    var pub := c.publicKeyOf(secret);
    if VerifyOutcomeEitherParity(c, message, signatureHex, payload) == Ok(true) {
      var d := DoubleHash(c.sha256, message);
      var sig := c.decodeSignature(signatureHex).value;
      var prefix: byte :| && c.parsePoint(Candidate(prefix, payload)).Some?
                          && c.verifyEcdsa(d, sig, c.parsePoint(Candidate(prefix, payload)).value)
                          && (prefix == EvenPrefix || prefix == OddPrefix);
      var e := c.parsePoint(Candidate(prefix, payload)).value;
      assert Candidate(prefix, payload)[0] == prefix;
      assert c.serializePoint(e) == Candidate(prefix, payload);
      assert c.serializePoint(e)[1..] == payload;
      assert c.serializePoint(pub)[1..] == AddressPayload(c, secret);
    }
  }
}
