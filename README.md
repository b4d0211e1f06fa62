# Kaspa message signature tool: x-only keys, candidate keys and the verification rule

The tool signs a text message with the secp256k1 key at `m/44'/111111'/0'/0/0` and checks
such a signature against a Kaspa address. A Kaspa public-key address carries only the
32-byte x-coordinate of the key. This model covers the logic the tool implements itself:

- **x-only extraction** (`KaspaSignature.XOnly`, `KaspaSignature.DeriveKeyAndAddress`). The 33-byte
  compressed public key must start with 0x02 or 0x03. The payload is the 32 bytes after that
  prefix. Any other prefix is a panic, modelled as `Err(UnexpectedPublicKeyFormat)`.
- **candidate keys** (`KaspaSignature.BuildCandidate`). The verifier rebuilds `0x02 ++ payload`
  and `0x03 ++ payload`.
- **the decision** (`KaspaSignature.Decide`). The two parse results are matched with
  the even arm first. When the even key parses, its verdict is final.
- **the digest** (`KaspaSignature.DoubleSha256`, through the incremental hasher
  `Primitives.Sha256Hasher`). The digest is SHA-256 of SHA-256 of the message bytes. Signing
  (`KaspaSignature.SignMessage`) and verification (`KaspaSignature.VerifySignature`) both use it.

The primitives come from other libraries: SHA-256, point parsing and serialisation, public
keys, ECDSA, and the signature's hex/compact text form. They are the fields of a
`Primitives.Crypto` value that every operation receives. The core's own contracts assume
nothing about these fields. Only the sign-then-verify lemmas assume properties of the real
primitives, each lemma only the ones it uses (`Primitives.Laws` is all of them):
- a point's compressed form parses back to that point; a 0x02/0x03-prefixed byte string
  parses only when it is 33 bytes long, and then it is the compressed form of the point it
  yields (65-byte uncompressed and hybrid forms are not constrained);
- serialised keys start with 0x02 or 0x03;
- an x-coordinate on the curve parses with both prefixes or with neither, because secp256k1
  has no point with y = 0;
- a signature verifies under its signer's key;
- of the two keys with the signer's x-coordinate, only the signer's own key verifies its
  signature (keys with other x-coordinates, such as one recovered from the signature, are
  not constrained);
- signature text decodes back to the signature.

`ToyCurve` gives a two-point curve that satisfies all of these laws. This shows the laws are
consistent with each other.

## Model

| member | source | states |
|---|---|---|
| KaspaSignature.XOnly | kaspa_signature_verification/src/main.rs:159-163 | a payload exists exactly when the prefix is 0x02 or 0x03; it is the 32 bytes after the prefix, and the prefix followed by the payload gives back the key; any other prefix is the panic |
| KaspaSignature.XOnlyForgetsOnlyParity | kaspa_signature_verification/src/main.rs:159-163 | two well-formed keys have the same payload exactly when they are equal or are the 0x02 and 0x03 forms of one x-coordinate: the payload loses the parity and nothing else |
| KaspaSignature.DeriveKeyAndAddress | kaspa_signature_verification/src/main.rs:154-167 | the address payload of a secret key's serialised public key exists exactly when that key has a 0x02/0x03 prefix, is 32 bytes, rebuilds the serialised key with its own prefix, and the key returned beside it is the input secret key |
| KaspaSignature.BuildCandidate | kaspa_signature_verification/src/main.rs:218-224 | `vec![prefix]` extended by the payload has length 1 + payload length, starts with the prefix, and dropping the prefix gives back the payload |
| KaspaSignature.CandidatesDifferOnlyInPrefix | kaspa_signature_verification/src/main.rs:218-224 | the even and odd candidates have the same length, begin with 0x02 and 0x03, agree at every later index, and both end in the payload |
| KaspaSignature.Decide | kaspa_signature_verification/src/main.rs:231-252 | true only if a candidate that parsed verifies; when the even candidate parses, the result is its verdict alone; the odd candidate decides only when the even one does not parse; neither parsing gives false |
| KaspaSignature.OddIgnoredWhenEvenParses | kaspa_signature_verification/src/main.rs:232-239 | once the even candidate parses, the odd parse result cannot change the verdict |
| Primitives.Sha256Hasher.constructor | kaspa_signature_verification/src/main.rs:256 | a new hasher has absorbed nothing |
| Primitives.Sha256Hasher.Update | kaspa_signature_verification/src/main.rs:257 | `update` appends its bytes to what the hasher has absorbed |
| Primitives.Sha256Hasher.Finalize | kaspa_signature_verification/src/main.rs:258 | `finalize` yields the digest of everything absorbed |
| KaspaSignature.DoubleSha256 | kaspa_signature_verification/src/main.rs:255-265 | the 32-byte output is the hash of the 32-byte hash of the message bytes; the final `copy_from_slice` copies every digest byte into the output buffer |
| KaspaSignature.MessageFromSlice | kaspa_signature_verification/src/main.rs:209 | a secp256k1 message is made exactly from a 32-byte slice, so the double hash always converts |
| KaspaSignature.SignMessage | kaspa_signature_verification/src/main.rs:170-188 | signing never fails; it returns the hex text of the ECDSA signature over the double hash of the message |
| KaspaSignature.VerifyOutcome | kaspa_signature_verification/src/main.rs:190-253 | an unreadable signature is the only error; Ok(true) only when a candidate that parsed verifies the signature over the double hash; a payload with neither candidate on the curve gives Ok(false) |
| KaspaSignature.VerifySignature | kaspa_signature_verification/src/main.rs:190-253 | the step-by-step verifier (hash, message, signature text, both candidates, both parses, match) returns exactly `VerifyOutcome` |
| ParityFinding.SignThenVerifyAsWritten | kaspa_signature_verification/src/main.rs:84-88 | under the primitive properties above, the tool's own signature verifies against its own address payload exactly when its public key has the even prefix 0x02; with 0x03 the result is Ok(false) |
| ParityFinding.DecideEitherParity | kaspa_signature_verification/src/main.rs:231-252 | the intended rule: valid exactly when some point that either candidate parsed to verifies the signature over the digest |
| ParityFinding.AsWrittenMissesOnlyOddAcceptance | kaspa_signature_verification/src/main.rs:231-252 | the rule as written accepts only what the intended rule accepts, and they differ exactly when the even key parses but fails and the odd key parses and verifies |
| ParityFinding.VerifyOutcomeEitherParity | kaspa_signature_verification/src/main.rs:190-253 | verification with the intended rule fails only on an unreadable signature and accepts everything the rule as written accepts |
| ParityFinding.SignThenVerifyEitherParity | kaspa_signature_verification/src/main.rs:84-88 | assuming only canonical point encoding, signer-key verification and the signature text round trip, with the intended rule every signature the tool makes verifies against its own address payload |
| ParityFinding.WrongPayloadNeedsAnotherKey | kaspa_signature_verification/src/main.rs:218-252 | against a payload other than the signer's, the tool's signature is accepted (as written, or by the intended rule) only through a key other than the signer's whose x-coordinate is that payload and which verifies the signature |
| ToyCurve.OddSignerRejected | kaspa_signature_verification/src/main.rs:231-252 | on a concrete curve that obeys the laws, the odd-parity signer's signature of the empty message is rejected as written (Ok(false)) and accepted by the intended rule |

## Left out

- Interactive I/O and menu dispatch (`main`, `verify_signature_flow`, `sign_message_flow`, lines 12-94) are reading and printing lines. The sign-then-verify self-check at lines 84-88 is stated as the `ParityFinding` lemmas.
- Mnemonic generation and seed derivation (lines 96-127) use a random number generator and the `bip39` library.
- HD derivation along `m/44'/111111'/0'/0/0` and `SecretKey::from_slice` (lines 137-151) belong to `kaspa_bip32` and `secp256k1`. The derived secret key is an opaque input of `DeriveKeyAndAddress`.
- Address encoding and decoding (`Address::new`, `Address::constructor`, lines 165 and 196) use an external codec. The model works on the 32-byte payload: `DeriveKeyAndAddress` returns it, and `VerifySignature` takes it. A malformed address string is not modelled; its handling is inside `Address::constructor`.
- `message.as_bytes()` is the UTF-8 encoding of the text. The model takes the message as those bytes.
- Elliptic-curve arithmetic, point decompression, ECDSA, SHA-256 internals, and hex and compact signature codecs are foreign code. Each is a field of `Primitives.Crypto`.
- `Primitives.SameXOnlySigner` idealises ECDSA. With the signer's x-coordinate, the negated key also verifies when the digest is 0 modulo the group order, and another point can verify when its x-coordinate is congruent to r modulo the order without being equal. Both events have negligible probability, and the law leaves them out.
- No lemma claims that a signature is rejected against every other address. Public-key recovery computes, from any signature, a key with another x-coordinate that verifies it. `WrongPayloadNeedsAnotherKey` states only that acceptance needs such a key.
- KaspaSignature.SignMessage: `Message::from_slice` and `sign_ecdsa` never fail here, so the result is always `Ok`. The dead error branch is kept only because the source has it.

## Findings

| source | as written | input that shows it | evidently intended | confidence | as-written member | corrected member |
|---|---|---|---|---|---|---|
| kaspa_signature_verification/src/main.rs:231-249 | the first arm `(Ok(even_pubkey), _)` matches whenever `0x02 ++ x` parses. Its failed verification falls through to `Ok(false)`, and `0x03 ++ x` is never tried. Every x-coordinate on secp256k1 has both an even and an odd y, so the even candidate always parses for a real address. | any secret key whose public key serialises as `0x03 ++ x` (about half of all keys), signed then verified by the tool itself (lines 84-88). With the two-point curve of `ToyCurve`, the odd point signing the empty message gives `Ok(false)`. | verify against both candidates and accept when either verifies | high; not executed | ParityFinding.SignThenVerifyAsWritten | ParityFinding.DecideEitherParity |

`KaspaSignature.VerifySignature` keeps the rule as written, since it models what the code does.
`ParityFinding.VerifyOutcomeEitherParity` uses the corrected rule, and
`ParityFinding.SignThenVerifyEitherParity` proves that rule's round trip.
