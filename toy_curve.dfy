/**
 * A two-point stand-in for secp256k1 (one x-coordinate, zero, with an even and an odd y)
 * with an ideal signature scheme. It obeys every law in `Primitives.Laws`, so the laws are
 * consistent, and it gives a concrete signer that the verifier as written rejects.
 */
module ToyCurve {
  import opened Wrappers
  import opened Primitives
  import opened KaspaSignature
  import opened ParityFinding

  function Zero32(): Hash32 {
    seq(32, i => 0)
  }

  /** A point is its y parity (true for odd); a secret key is its own public key. */
  function ToySerialize(odd: bool): Bytes33 {
    [if odd then OddPrefix else EvenPrefix] + Zero32()
  }

  function ToyParse(a: seq<byte>): Option<bool> {
    if |a| == 33 && (a[0] == EvenPrefix || a[0] == OddPrefix) && a[1..] == Zero32()
    then Some(a[0] == OddPrefix)
    else None
  }

  function ToySignature(odd: bool): seq<char> {
    if odd then "odd" else "even"
  }

  function Toy(): Crypto<bool, bool, seq<char>> {
    Crypto(
      _ => Zero32(),
      ToyParse,
      ToySerialize,
      k => k,
      (d, k) => ToySignature(k),
      (d, s, p) => s == ToySignature(p),
      s => s,
      s => Some(s))
  }

  lemma ToyObeysLaws()
    ensures Laws(Toy())
  {
    var c := Toy();
    forall p: bool ensures c.parsePoint(c.serializePoint(p)) == Some(p) {
      assert ToySerialize(p)[1..] == Zero32();
    }
    forall a | c.parsePoint(a).Some? ensures c.serializePoint(c.parsePoint(a).value) == a {
      assert [a[0]] + a[1..] == a;
    }
    forall x: seq<byte> | |x| == 32
      ensures c.parsePoint([EvenPrefix] + x).Some? <==> c.parsePoint([OddPrefix] + x).Some?
    {
      assert ([EvenPrefix] + x)[1..] == x == ([OddPrefix] + x)[1..];
    }
  }

  /** The odd-parity signer signs the empty message; its own address rejects the signature. */
  lemma OddSignerRejected()
    ensures DeriveKeyAndAddress(Toy(), true) == Ok((true, Zero32()))
    ensures VerifyOutcome(Toy(), [], SignatureHex(Toy(), [], true), Zero32()) == Ok(false)
    ensures VerifyOutcomeEitherParity(Toy(), [], SignatureHex(Toy(), [], true), Zero32()) == Ok(true)
  {
    ToyObeysLaws();
    SignThenVerifyAsWritten(Toy(), [], true);
    SignThenVerifyEitherParity(Toy(), [], true);
  }
}
