/** Proof of knowledge of the secret key behind a public key: a Schnorr
    proof of knowledge of the discrete logarithm of `pk` to the base `g2`
    (bbs_plus/src/setup.rs, `PoKSecretKeyInPublicKeyG1`/`G2`), made
    non-interactive by hashing the challenge contribution. */
module KeyPoK {
  import opened Group
  import Encoding
  import opened Setup

  /** Prover state after `init`: the commitment `t = base * blinding`,
      and the secrets it was made from. */
  datatype Protocol = Protocol(t: Elem, blinding: Scalar, secret: Scalar)

  /** The proof: the commitment and the response. */
  datatype Proof = Proof(t: Elem, response: Scalar)

  /** Fiat–Shamir hash from the serialised contribution to a challenge,
      left uninterpreted. */
  type PoKChallengeOracle = seq<Elem> -> Scalar

  /** `init`: commit to a fresh blinding. */
  function Init(secret: Scalar, blinding: Scalar, base: Elem): (p: Protocol)
  {
    Protocol(base * blinding, blinding, secret)
  }

  /** The challenge contribution serialises the base, the public value
      `y` and the commitment `t`, in that order. */
  function ChallengeContribution(base: Elem, y: Elem, t: Elem): seq<Elem>
  {
    [base, y, t]
  }

  /** The prover's challenge contribution. */
  function ProtocolContribution(p: Protocol, base: Elem, y: Elem): seq<Elem>
  {
    ChallengeContribution(base, y, p.t)
  }

  /** `gen_proof`: the response is `blinding + challenge * witness`. */
  function GenProof(p: Protocol, challenge: Scalar): (proof: Proof)
  {
    Proof(p.t, p.blinding + challenge * p.secret)
  }

  /** The verifier's challenge contribution, rebuilt from the proof. */
  function ProofContribution(proof: Proof, base: Elem, y: Elem): seq<Elem>
  {
    ChallengeContribution(base, y, proof.t)
  }

  /** `verify`: `base * response == t + y * challenge`. */
  function Verify(proof: Proof, y: Elem, base: Elem, challenge: Scalar): bool
  {
    base * proof.response == proof.t + y * challenge
  }

  /** The round trip of the secret-key proof: with `pk = g2 * sk`, the
      prover's and the verifier's challenge contributions agree, so do the
      challenges hashed from them, and the proof verifies. */
  lemma SecretKeyProofVerifies(seed: seq<Encoding.byte>, fieldFromSeed: FieldFromSeed, params: SignatureParams,
                               blinding: Scalar, oracle: PoKChallengeOracle)
    ensures var sk := SecretKeyFromSeed(seed, fieldFromSeed);
            var pk := PublicKeyFromSecretKey(sk, params);
            var protocol := Init(sk.value, blinding, params.g2);
            var cp := oracle(ProtocolContribution(protocol, params.g2, pk.point));
            var proof := GenProof(protocol, cp);
            var cv := oracle(ProofContribution(proof, params.g2, pk.point));
            && ProtocolContribution(protocol, params.g2, pk.point) == ProofContribution(proof, params.g2, pk.point)
            && cp == cv
            && Verify(proof, pk.point, params.g2, cv)
  {
    var sk := SecretKeyFromSeed(seed, fieldFromSeed);
    var base := params.g2;
    var protocol := Init(sk.value, blinding, base);
    var y := PublicKeyFromSecretKey(sk, params).point;
    var c := oracle(ProtocolContribution(protocol, base, y));
    var proof := GenProof(protocol, c);
    calc {
      base * proof.response;
      base * (blinding + c * sk.value);
      base * blinding + c * (base * sk.value);
      proof.t + y * c;
    }
  }

  /** Against a public value other than `base * secret`, an honestly made
      proof is rejected for every non-zero challenge. */
  lemma WrongKeyRejected(secret: Scalar, blinding: Scalar, base: Elem, y: Elem, challenge: Scalar)
    requires challenge != 0 && y != base * secret
    ensures !Verify(GenProof(Init(secret, blinding, base), challenge), y, base, challenge)
  {
    var proof := GenProof(Init(secret, blinding, base), challenge);
    assert base * proof.response == base * blinding + challenge * (base * secret);
    MulCancel(challenge, y, base * secret);
  }

  /** `init`, `gen_proof` and `verify` fit together: an honestly made
      proof is accepted against `y` exactly when `y` is `base` times the
      secret, or the challenge is zero. */
  lemma HonestProofAcceptedIff(secret: Scalar, blinding: Scalar, base: Elem, y: Elem, challenge: Scalar)
    ensures Verify(GenProof(Init(secret, blinding, base), challenge), y, base, challenge)
            <==> challenge == 0 || y == base * secret
  {
    var proof := GenProof(Init(secret, blinding, base), challenge);
    assert base * proof.response == base * blinding + challenge * (base * secret);
    if challenge != 0 && y != base * secret {
      MulCancel(challenge, y, base * secret);
    }
  }
}
