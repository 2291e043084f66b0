/** What the composed proof guarantees: an honest prover's proof verifies
    (completeness); a wrong commitment, a false equality claim or a
    tampered response is rejected whenever the challenge is non-zero;
    and the verifier re-derives exactly the prover's challenge. */
module CompositeProperties {
  import opened Wrappers
  import opened Group
  import opened Encoding
  import opened Statements
  import opened CompositeProof

  /** The sub-proofs the prover makes: statement `i`'s commitment `t`
      commits to its blindings, the verifier's challenge is the one the
      prover answered, and every response is `blinding + c * witness`. */
  lemma ProveOutput(spec: ProofSpec, ws: seq<Witness>, rnd: Randomness, nonce: Option<seq<byte>>,
                    oracle: ChallengeOracle)
    requires WellFormed(spec) && Aligned(spec, ws)
    ensures Prove(spec, ws, rnd, nonce, oracle).Success?
    ensures var p := Prove(spec, ws, rnd, nonce, oracle).value;
            var n := |spec.statements|;
            && ShapeMatches(spec, p)
            && Challenge(spec, p, nonce, oracle)
               == oracle(Transcript(spec, seq(n, i requires 0 <= i < n => Msm(Bases(spec, i), Blindings(spec, rnd, i))), nonce))
            && (forall i | 0 <= i < n ::
                  p.statementProofs[i].t == Msm(Bases(spec, i), Blindings(spec, rnd, i)))
            && (forall i, j | 0 <= i < n && 0 <= j < |ws[i].scalars| ::
                  p.statementProofs[i].responses[j]
                  == Blinding(spec.metaStatements, rnd, i, j) + Challenge(spec, p, nonce, oracle) * ws[i].scalars[j])
  {
    var n := |spec.statements|;
    var ts := seq(n, i requires 0 <= i < n => Msm(Bases(spec, i), Blindings(spec, rnd, i)));
    var p := Prove(spec, ws, rnd, nonce, oracle).value;
    assert Commitments(p) == ts;
  }

  /** When every witness opens its commitment, every statement's Schnorr
      check passes on the prover's proof, whatever the equality classes
      claim. */
  lemma HonestStatementsHold(spec: ProofSpec, ws: seq<Witness>, rnd: Randomness, nonce: Option<seq<byte>>,
                             oracle: ChallengeOracle)
    requires WellFormed(spec) && Aligned(spec, ws) && OpensAll(spec, ws)
    ensures Prove(spec, ws, rnd, nonce, oracle).Success?
    ensures var p := Prove(spec, ws, rnd, nonce, oracle).value;
            ShapeMatches(spec, p) && AllStatementsHold(spec, p, Challenge(spec, p, nonce, oracle))
  {
    ProveOutput(spec, ws, rnd, nonce, oracle);
    var p := Prove(spec, ws, rnd, nonce, oracle).value;
    var c := Challenge(spec, p, nonce, oracle);
    forall i | 0 <= i < |spec.statements|
      ensures StatementHolds(spec, p, c, i)
    {
      var bl := Blindings(spec, rnd, i);
      MsmLinear(Bases(spec, i), bl, ws[i].scalars, c, p.statementProofs[i].responses);
    }
  }

  /** Completeness: when every witness opens its commitment and every
      equality class links really equal witnesses, the prover succeeds and
      the verifier accepts, whatever the randomness and the challenge. */
  lemma Completeness(spec: ProofSpec, ws: seq<Witness>, rnd: Randomness, nonce: Option<seq<byte>>,
                     oracle: ChallengeOracle)
    requires WellFormed(spec) && Aligned(spec, ws)
    requires OpensAll(spec, ws) && EqualitiesHold(spec, ws)
    ensures Prove(spec, ws, rnd, nonce, oracle).Success?
    ensures Verify(spec, Prove(spec, ws, rnd, nonce, oracle).value, nonce, oracle).Pass?
  {
    ProveOutput(spec, ws, rnd, nonce, oracle);
    HonestStatementsHold(spec, ws, rnd, nonce, oracle);
    var p := Prove(spec, ws, rnd, nonce, oracle).value;
    forall k | 0 <= k < |spec.metaStatements|
      ensures ClassAgrees(spec, p, k)
    {
      forall a, b | a in spec.metaStatements[k].refs && b in spec.metaStatements[k].refs
        ensures ResponseAt(p, a) == ResponseAt(p, b)
      {
        ClassOfMember(spec.metaStatements, a, k);
        ClassOfMember(spec.metaStatements, b, k);
        assert WitnessAt(ws, a) == WitnessAt(ws, b);
      }
    }
  }

  /** A witness that does not open its statement's commitment: the prover
      still returns a proof, and the verifier rejects it whenever the
      challenge is non-zero, naming an invalid statement. */
  lemma WrongCommitmentRejected(spec: ProofSpec, ws: seq<Witness>, rnd: Randomness, nonce: Option<seq<byte>>,
                                oracle: ChallengeOracle, i: nat)
    requires WellFormed(spec) && Aligned(spec, ws)
    requires i < |spec.statements| && Msm(Bases(spec, i), ws[i].scalars) != spec.statements[i].commitment
    ensures Prove(spec, ws, rnd, nonce, oracle).Success?
    ensures var p := Prove(spec, ws, rnd, nonce, oracle).value;
            Challenge(spec, p, nonce, oracle) != 0 ==>
              Verify(spec, p, nonce, oracle).Fail? && Verify(spec, p, nonce, oracle).error.StatementInvalid?
  {
    ProveOutput(spec, ws, rnd, nonce, oracle);
    var p := Prove(spec, ws, rnd, nonce, oracle).value;
    var c := Challenge(spec, p, nonce, oracle);
    if c != 0 {
      var bl := Blindings(spec, rnd, i);
      var sp := p.statementProofs[i];
      MsmLinear(Bases(spec, i), bl, ws[i].scalars, c, sp.responses);
      MulCancel(c, Msm(Bases(spec, i), ws[i].scalars), spec.statements[i].commitment);
      assert !StatementHolds(spec, p, c, i);
    }
  }

  /** A false equality claim: two members `a` and `b` of one class whose
      witnesses differ. The prover still returns a proof, and the
      verifier rejects it whenever the challenge is non-zero. When every
      witness opens its own commitment, so that each statement on its own
      is fine, the rejection comes from the cross-statement equality
      check. */
  lemma FalseEqualityRejected(spec: ProofSpec, ws: seq<Witness>, rnd: Randomness, nonce: Option<seq<byte>>,
                              oracle: ChallengeOracle, k: nat, a: WitnessRef, b: WitnessRef)
    requires WellFormed(spec) && Aligned(spec, ws)
    requires k < |spec.metaStatements| && a in spec.metaStatements[k].refs && b in spec.metaStatements[k].refs
    requires WitnessAt(ws, a) != WitnessAt(ws, b)
    ensures Prove(spec, ws, rnd, nonce, oracle).Success?
    ensures var p := Prove(spec, ws, rnd, nonce, oracle).value;
            Challenge(spec, p, nonce, oracle) != 0 ==> Verify(spec, p, nonce, oracle).Fail?
    ensures var p := Prove(spec, ws, rnd, nonce, oracle).value;
            Challenge(spec, p, nonce, oracle) != 0 && OpensAll(spec, ws) ==>
              Verify(spec, p, nonce, oracle).Fail? && Verify(spec, p, nonce, oracle).error.EqualityViolation?
  {
    ProveOutput(spec, ws, rnd, nonce, oracle);
    var p := Prove(spec, ws, rnd, nonce, oracle).value;
    var c := Challenge(spec, p, nonce, oracle);
    if c != 0 {
      ClassOfMember(spec.metaStatements, a, k);
      ClassOfMember(spec.metaStatements, b, k);
      MulCancel(c, WitnessAt(ws, a), WitnessAt(ws, b));
      assert ResponseAt(p, a) != ResponseAt(p, b);
      assert !ClassAgrees(spec, p, k);
      if OpensAll(spec, ws) {
        HonestStatementsHold(spec, ws, rnd, nonce, oracle);
      }
    }
  }

  /** Tamper sensitivity: changing one response of an accepted proof, at a
      base that is not the identity, makes the verifier reject it as an
      invalid statement. The
      challenge does not depend on the responses, so the statement's
      check moves by the base times the change. */
  lemma TamperedResponseRejected(spec: ProofSpec, proof: Proof, nonce: Option<seq<byte>>, oracle: ChallengeOracle,
                                 i: nat, j: nat, v: Scalar)
    requires Verify(spec, proof, nonce, oracle).Pass?
    requires i < |proof.statementProofs| && j < |proof.statementProofs[i].responses|
    requires v != proof.statementProofs[i].responses[j]
    requires KeysResolve(spec) && i < |spec.statements| && j < |Bases(spec, i)| && Bases(spec, i)[j] != 0
    ensures var sp := proof.statementProofs[i];
            var tampered := Proof(proof.statementProofs[i := sp.(responses := sp.responses[j := v])]);
            Verify(spec, tampered, nonce, oracle).Fail? && Verify(spec, tampered, nonce, oracle).error.StatementInvalid?
  {
    var sp := proof.statementProofs[i];
    var tampered := Proof(proof.statementProofs[i := sp.(responses := sp.responses[j := v])]);
    assert Commitments(tampered) == Commitments(proof);
    var c := Challenge(spec, proof, nonce, oracle);
    assert ShapeMatches(spec, tampered);
    assert Challenge(spec, tampered, nonce, oracle) == c;
    var bases := Bases(spec, i);
    MsmUpdate(bases, sp.responses, j, v);
    MulCancel(bases[j], v - sp.responses[j], 0);
    assert StatementHolds(spec, proof, c, i);
    assert !StatementHolds(spec, tampered, c, i);
  }
}
