/** The scenarios of the Pedersen-commitment tests of the proof system
    (proof_system/tests/ped_comm.rs), stated for every choice of bases,
    scalars, randomness, nonce and challenge oracle that meets the tests'
    set-up. */
module PedCommScenarios {
  import opened Wrappers
  import opened Group
  import opened Encoding
  import opened Statements
  import opened CompositeProof
  import opened CompositeProperties

  /** The ASCII bytes of "test", the context of every scenario. */
  const CONTEXT: seq<byte> := [116, 101, 115, 116]

  /** The classes (0,3)=(1,1) and (0,0)=(1,4). */
  const TRUE_CLASSES: seq<MetaStatement> :=
    [WitnessEquality({(0, 3), (1, 1)}), WitnessEquality({(0, 0), (1, 4)})]

  /** The classes (0,3)=(1,0) and (0,0)=(1,4); the first does not hold. */
  const FALSE_CLASSES: seq<MetaStatement> :=
    [WitnessEquality({(0, 3), (1, 0)}), WitnessEquality({(0, 0), (1, 4)})]

  /** Two statements with inline commitment keys. */
  function InlineSpec(bases1: seq<Elem>, c1: Elem, bases2: seq<Elem>, c2: Elem, metas: seq<MetaStatement>): ProofSpec
  {
    ProofSpec([PedersenCommitment(Inline(bases1), c1), PedersenCommitment(Inline(bases2), c2)],
              metas, [], Some(CONTEXT))
  }

  /** The set-up of the first test: five and ten bases, witnesses with
      `scalars2[1] == scalars1[3]` and `scalars2[4] == scalars1[0]`. */
  ghost predicate InlineSetup(bases1: seq<Elem>, scalars1: seq<Scalar>, bases2: seq<Elem>, scalars2: seq<Scalar>)
  {
    && |bases1| == |scalars1| == 5 && |bases2| == |scalars2| == 10
    && scalars2[1] == scalars1[3] && scalars2[4] == scalars1[0]
  }

  lemma InlineSpecWellFormed(bases1: seq<Elem>, c1: Elem, bases2: seq<Elem>, c2: Elem, metas: seq<MetaStatement>)
    requires |bases1| == 5 && |bases2| == 10
    requires metas == TRUE_CLASSES || metas == FALSE_CLASSES
    ensures var spec := InlineSpec(bases1, c1, bases2, c2, metas);
            WellFormed(spec) && Validate(spec).Pass?
            && Bases(spec, 0) == bases1 && Bases(spec, 1) == bases2
  {
    var spec := InlineSpec(bases1, c1, bases2, c2, metas);
    assert KeysResolve(spec);
    assert metas[0].refs !! metas[1].refs;
  }

  /** The first test's honest run: `validate` passes, the prover succeeds
      and the verifier accepts. */
  lemma InlineKeysProofVerifies(bases1: seq<Elem>, scalars1: seq<Scalar>, bases2: seq<Elem>, scalars2: seq<Scalar>,
                                rnd: Randomness, nonce: Option<seq<byte>>, oracle: ChallengeOracle)
    requires InlineSetup(bases1, scalars1, bases2, scalars2)
    ensures var spec := InlineSpec(bases1, Msm(bases1, scalars1), bases2, Msm(bases2, scalars2), TRUE_CLASSES);
            var ws := [PedersenCommitmentWitness(scalars1), PedersenCommitmentWitness(scalars2)];
            && Validate(spec).Pass?
            && Prove(spec, ws, rnd, nonce, oracle).Success?
            && Verify(spec, Prove(spec, ws, rnd, nonce, oracle).value, nonce, oracle).Pass?
  {
    var spec := InlineSpec(bases1, Msm(bases1, scalars1), bases2, Msm(bases2, scalars2), TRUE_CLASSES);
    var ws := [PedersenCommitmentWitness(scalars1), PedersenCommitmentWitness(scalars2)];
    InlineSpecWellFormed(bases1, Msm(bases1, scalars1), bases2, Msm(bases2, scalars2), TRUE_CLASSES);
    assert Aligned(spec, ws);
    assert EqualitiesHold(spec, ws);
    Completeness(spec, ws, rnd, nonce, oracle);
  }

  /** The first test's wrong commitment: the second statement carries the
      first statement's commitment. `validate` still passes and the prover
      still returns a proof, which the verifier rejects as an invalid
      statement whenever the challenge is non-zero. */
  lemma InlineKeysWrongCommitmentRejected(bases1: seq<Elem>, scalars1: seq<Scalar>, bases2: seq<Elem>, scalars2: seq<Scalar>,
                                          rnd: Randomness, nonce: Option<seq<byte>>, oracle: ChallengeOracle)
    requires InlineSetup(bases1, scalars1, bases2, scalars2)
    requires Msm(bases2, scalars2) != Msm(bases1, scalars1)
    ensures var spec := InlineSpec(bases1, Msm(bases1, scalars1), bases2, Msm(bases1, scalars1), TRUE_CLASSES);
            var ws := [PedersenCommitmentWitness(scalars1), PedersenCommitmentWitness(scalars2)];
            && Validate(spec).Pass?
            && Prove(spec, ws, rnd, nonce, oracle).Success?
            && var p := Prove(spec, ws, rnd, nonce, oracle).value;
               Challenge(spec, p, nonce, oracle) != 0 ==>
                 Verify(spec, p, nonce, oracle).Fail? && Verify(spec, p, nonce, oracle).error.StatementInvalid?
  {
    var spec := InlineSpec(bases1, Msm(bases1, scalars1), bases2, Msm(bases1, scalars1), TRUE_CLASSES);
    var ws := [PedersenCommitmentWitness(scalars1), PedersenCommitmentWitness(scalars2)];
    InlineSpecWellFormed(bases1, Msm(bases1, scalars1), bases2, Msm(bases1, scalars1), TRUE_CLASSES);
    assert Aligned(spec, ws);
    WrongCommitmentRejected(spec, ws, rnd, nonce, oracle, 1);
  }

  /** The first test's false equality claim (0,3)=(1,0) over unequal
      scalars: the prover still returns a proof, which the verifier
      rejects whenever the challenge is non-zero. Both witnesses open
      their commitments, so the rejection is an equality violation. */
  lemma InlineKeysFalseEqualityRejected(bases1: seq<Elem>, scalars1: seq<Scalar>, bases2: seq<Elem>, scalars2: seq<Scalar>,
                                        rnd: Randomness, nonce: Option<seq<byte>>, oracle: ChallengeOracle)
    requires InlineSetup(bases1, scalars1, bases2, scalars2)
    requires scalars1[3] != scalars2[0]
    ensures var spec := InlineSpec(bases1, Msm(bases1, scalars1), bases2, Msm(bases2, scalars2), FALSE_CLASSES);
            var ws := [PedersenCommitmentWitness(scalars1), PedersenCommitmentWitness(scalars2)];
            && Prove(spec, ws, rnd, nonce, oracle).Success?
            && var p := Prove(spec, ws, rnd, nonce, oracle).value;
               Challenge(spec, p, nonce, oracle) != 0 ==>
                 Verify(spec, p, nonce, oracle).Fail? && Verify(spec, p, nonce, oracle).error.EqualityViolation?
  {
    var spec := InlineSpec(bases1, Msm(bases1, scalars1), bases2, Msm(bases2, scalars2), FALSE_CLASSES);
    var ws := [PedersenCommitmentWitness(scalars1), PedersenCommitmentWitness(scalars2)];
    InlineSpecWellFormed(bases1, Msm(bases1, scalars1), bases2, Msm(bases2, scalars2), FALSE_CLASSES);
    assert Aligned(spec, ws);
    assert OpensAll(spec, ws);
    assert (0, 3) in FALSE_CLASSES[0].refs && (1, 0) in FALSE_CLASSES[0].refs;
    FalseEqualityRejected(spec, ws, rnd, nonce, oracle, 0, (0, 3), (1, 0));
  }

  /** Three statements sharing the commitment key of setup parameter 0,
      with the classes (0,3)=(1,1) and (0,0)=(1,4). */
  function SharedKeySpec(bases: seq<Elem>, c1: Elem, c2: Elem, c3: Elem): ProofSpec
  {
    ProofSpec([PedersenCommitment(SetupRef(0), c1), PedersenCommitment(SetupRef(0), c2),
               PedersenCommitment(SetupRef(0), c3)],
              TRUE_CLASSES, [PedersenCommitmentKey(bases)], Some(CONTEXT))
  }

  lemma SharedKeySpecWellFormed(bases: seq<Elem>, c1: Elem, c2: Elem, c3: Elem)
    requires |bases| == 5
    ensures var spec := SharedKeySpec(bases, c1, c2, c3);
            WellFormed(spec) && Validate(spec).Pass?
            && Bases(spec, 0) == bases && Bases(spec, 1) == bases && Bases(spec, 2) == bases
  {
    var spec := SharedKeySpec(bases, c1, c2, c3);
    assert KeysResolve(spec);
    assert TRUE_CLASSES[0].refs !! TRUE_CLASSES[1].refs;
  }

  /** The witnesses of the second test fit and open their statements. */
  lemma SharedKeyWitnessesOpen(bases: seq<Elem>, scalars1: seq<Scalar>, scalars2: seq<Scalar>, scalars3: seq<Scalar>)
    requires |bases| == 5 && |scalars1| == 5 && |scalars2| == 5 && |scalars3| == 5
    ensures var spec := SharedKeySpec(bases, Msm(bases, scalars1), Msm(bases, scalars2), Msm(bases, scalars3));
            var ws := [PedersenCommitmentWitness(scalars1), PedersenCommitmentWitness(scalars2),
                       PedersenCommitmentWitness(scalars3)];
            WellFormed(spec) && Aligned(spec, ws) && OpensAll(spec, ws)
  {
    var spec := SharedKeySpec(bases, Msm(bases, scalars1), Msm(bases, scalars2), Msm(bases, scalars3));
    var ws := [PedersenCommitmentWitness(scalars1), PedersenCommitmentWitness(scalars2),
               PedersenCommitmentWitness(scalars3)];
    SharedKeySpecWellFormed(bases, Msm(bases, scalars1), Msm(bases, scalars2), Msm(bases, scalars3));
    forall i | 0 <= i < 3
      ensures |ws[i].scalars| == |Bases(spec, i)|
      ensures Msm(Bases(spec, i), ws[i].scalars) == spec.statements[i].commitment
    {
      assert i == 0 || i == 1 || i == 2;
    }
  }

  /** Witnesses that repeat the shared values satisfy both true equality
      classes, whatever the statements. */
  lemma TrueClassesHold(spec: ProofSpec, ws: seq<Witness>)
    requires WellFormed(spec) && Aligned(spec, ws)
    requires spec.metaStatements == TRUE_CLASSES
    requires |ws| >= 2 && |ws[0].scalars| == 5 && |ws[1].scalars| == 5
    requires ws[1].scalars[1] == ws[0].scalars[3] && ws[1].scalars[4] == ws[0].scalars[0]
    ensures EqualitiesHold(spec, ws)
  {
    forall k, a, b | 0 <= k < 2 && a in TRUE_CLASSES[k].refs && b in TRUE_CLASSES[k].refs
      ensures WitnessAt(ws, a) == WitnessAt(ws, b)
    {
      if k == 0 {
        assert a == (0, 3) || a == (1, 1);
        assert b == (0, 3) || b == (1, 1);
      } else {
        assert a == (0, 0) || a == (1, 4);
        assert b == (0, 0) || b == (1, 4);
      }
    }
  }

  /** The second test: statements that reference a shared commitment key
      validate, prove and verify. */
  lemma SharedKeyProofVerifies(bases: seq<Elem>, scalars1: seq<Scalar>, scalars2: seq<Scalar>, scalars3: seq<Scalar>,
                               rnd: Randomness, nonce: Option<seq<byte>>, oracle: ChallengeOracle)
    requires |bases| == 5 && |scalars1| == 5 && |scalars2| == 5 && |scalars3| == 5
    requires scalars2[1] == scalars1[3] && scalars2[4] == scalars1[0]
    ensures var spec := SharedKeySpec(bases, Msm(bases, scalars1), Msm(bases, scalars2), Msm(bases, scalars3));
            var ws := [PedersenCommitmentWitness(scalars1), PedersenCommitmentWitness(scalars2),
                       PedersenCommitmentWitness(scalars3)];
            && Validate(spec).Pass?
            && Prove(spec, ws, rnd, nonce, oracle).Success?
            && Verify(spec, Prove(spec, ws, rnd, nonce, oracle).value, nonce, oracle).Pass?
  {
    var spec := SharedKeySpec(bases, Msm(bases, scalars1), Msm(bases, scalars2), Msm(bases, scalars3));
    var ws := [PedersenCommitmentWitness(scalars1), PedersenCommitmentWitness(scalars2),
               PedersenCommitmentWitness(scalars3)];
    SharedKeyWitnessesOpen(bases, scalars1, scalars2, scalars3);
    TrueClassesHold(spec, ws);
    Completeness(spec, ws, rnd, nonce, oracle);
  }
}
