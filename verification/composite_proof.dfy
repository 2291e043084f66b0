/** The composed proof over Pedersen-commitment statements: one Schnorr
    sub-proof per statement, a single Fiat–Shamir challenge over all of
    them, and one shared blinding per equality class so that linked
    witnesses give equal responses. */
module CompositeProof {
  import opened Wrappers
  import opened Group
  import opened Encoding
  import opened Statements

  /** One serialised item of the Fiat–Shamir transcript. */
  datatype TranscriptItem = PointItem(point: Elem) | BytesItem(bytes: seq<byte>)

  /** Fiat–Shamir hash of a transcript to a challenge, left uninterpreted. */
  type ChallengeOracle = seq<TranscriptItem> -> Scalar

  /** The prover's randomness: the blinding drawn for each equality class
      and the blinding drawn for each witness outside every class. */
  datatype Randomness = Randomness(shared: nat -> Scalar, own: (nat, nat) -> Scalar)

  /** The sub-proof of one statement: the commitment `t` to the blindings
      and one response per witness. */
  datatype StatementProof = StatementProof(t: Elem, responses: seq<Scalar>)

  /** A composed proof. It carries no challenge: the verifier always
      recomputes it. */
  datatype Proof = Proof(statementProofs: seq<StatementProof>)

  /** The first equality class from `k` on that contains `r`, if any. */
  function ClassOf(metas: seq<MetaStatement>, r: WitnessRef, k: nat): (c: Option<nat>)
    requires k <= |metas|
    ensures c.Some? ==> k <= c.value < |metas| && r in metas[c.value].refs
    ensures c.Some? ==> forall j | k <= j < c.value :: r !in metas[j].refs
    ensures c.None? ==> forall j | k <= j < |metas| :: r !in metas[j].refs
    decreases |metas| - k
  {
    if k == |metas| then None
    else if r in metas[k].refs then Some(k)
    else ClassOf(metas, r, k + 1)
  }

  /** With disjoint classes, a reference in class `k` belongs to class `k`
      and to no other. */
  lemma ClassOfMember(metas: seq<MetaStatement>, r: WitnessRef, k: nat)
    requires ClassesDisjoint(metas)
    requires k < |metas| && r in metas[k].refs
    ensures ClassOf(metas, r, 0) == Some(k)
  {
  }

  /** The blinding of witness `(i, j)`: its class's shared blinding, or
      its own fresh blinding when it is in no class. */
  function Blinding(metas: seq<MetaStatement>, rnd: Randomness, i: nat, j: nat): Scalar
  {
    match ClassOf(metas, (i, j), 0)
    case Some(k) => rnd.shared(k)
    case None => rnd.own(i, j)
  }

  /** The blindings of statement `i`, one per base. With disjoint classes,
      every member of class `k` is blinded by the class's shared value, so
      linked witnesses get equal blindings; a witness in no class gets its
      own. */
  function Blindings(spec: ProofSpec, rnd: Randomness, i: nat): (bl: seq<Scalar>)
    requires KeysResolve(spec) && i < |spec.statements|
    ensures |bl| == |Bases(spec, i)|
    ensures ClassesDisjoint(spec.metaStatements) ==>
              forall k, j | 0 <= k < |spec.metaStatements| && 0 <= j < |bl| && (i, j) in spec.metaStatements[k].refs ::
                bl[j] == rnd.shared(k)
    ensures forall j | 0 <= j < |bl| && (forall k | 0 <= k < |spec.metaStatements| :: (i, j) !in spec.metaStatements[k].refs) ::
              bl[j] == rnd.own(i, j)
  {
    seq(|Bases(spec, i)|, j requires 0 <= j => Blinding(spec.metaStatements, rnd, i, j))
  }

  /** The Schnorr responses `blinding + c * witness`, one per witness. */
  function Responses(blindings: seq<Scalar>, w: seq<Scalar>, c: Scalar): (s: seq<Scalar>)
    requires |blindings| == |w|
    ensures |s| == |w|
  {
    seq(|w|, j requires 0 <= j < |w| => blindings[j] + c * w[j])
  }

  /** The responses are linear in the witness: against any bases, their
      multi-scalar multiplication is that of the blindings plus `c` times
      that of the witness, the identity the verifier's check rests on. */
  lemma ResponsesLinear(bases: seq<Elem>, blindings: seq<Scalar>, w: seq<Scalar>, c: Scalar)
    requires |bases| == |blindings| == |w|
    ensures Msm(bases, Responses(blindings, w, c)) == Msm(bases, blindings) + c * Msm(bases, w)
  {
    MsmLinear(bases, blindings, w, c, Responses(blindings, w, c));
  }

  /** The serialisation of a list of group elements. */
  function Points(es: seq<Elem>): (items: seq<TranscriptItem>)
    ensures |items| == |es|
    ensures forall j | 0 <= j < |es| :: items[j] == PointItem(es[j])
  {
    seq(|es|, j requires 0 <= j < |es| => PointItem(es[j]))
  }

  /** An optional byte string as transcript items. */
  function OptionalBytes(b: Option<seq<byte>>): seq<TranscriptItem>
  {
    match b
    case None => []
    case Some(bytes) => [BytesItem(bytes)]
  }

  /** The challenge contribution of statement `i`: its bases, its
      commitment and its sub-proof commitment `t`. */
  function Contribution(spec: ProofSpec, i: nat, t: Elem): seq<TranscriptItem>
    requires KeysResolve(spec) && i < |spec.statements|
  {
    Points(Bases(spec, i)) + [PointItem(spec.statements[i].commitment), PointItem(t)]
  }

  /** The contributions of statements `i` onwards, in statement order. */
  function Contributions(spec: ProofSpec, ts: seq<Elem>, i: nat): seq<TranscriptItem>
    requires KeysResolve(spec) && |ts| == |spec.statements| && i <= |ts|
    decreases |ts| - i
  {
    if i == |ts| then [] else Contribution(spec, i, ts[i]) + Contributions(spec, ts, i + 1)
  }

  /** The whole transcript: every statement's contribution in statement
      order, then the context, then the nonce. */
  function Transcript(spec: ProofSpec, ts: seq<Elem>, nonce: Option<seq<byte>>): seq<TranscriptItem>
    requires KeysResolve(spec) && |ts| == |spec.statements|
  {
    Contributions(spec, ts, 0) + OptionalBytes(spec.context) + OptionalBytes(nonce)
  }

  /** The sub-proof commitments a proof carries. */
  function Commitments(proof: Proof): (ts: seq<Elem>)
    ensures |ts| == |proof.statementProofs|
    ensures forall i | 0 <= i < |ts| :: ts[i] == proof.statementProofs[i].t
  {
    seq(|proof.statementProofs|, i requires 0 <= i < |proof.statementProofs| => proof.statementProofs[i].t)
  }

  /** The proof has one sub-proof per statement and one response per base. */
  predicate ShapeMatches(spec: ProofSpec, proof: Proof)
    requires KeysResolve(spec)
  {
    && |proof.statementProofs| == |spec.statements|
    && forall i | 0 <= i < |spec.statements| :: |proof.statementProofs[i].responses| == |Bases(spec, i)|
  }

  /** The challenge the verifier derives from a proof. */
  function Challenge(spec: ProofSpec, proof: Proof, nonce: Option<seq<byte>>, oracle: ChallengeOracle): Scalar
    requires KeysResolve(spec) && |proof.statementProofs| == |spec.statements|
  {
    oracle(Transcript(spec, Commitments(proof), nonce))
  }

  /** `ProofG1::new`: validates the specification and the witnesses, then
      commits to the blindings of every statement, derives one challenge
      from all commitments and answers it. The prover never checks that
      the witnesses open the commitments or satisfy the equalities. */
  function Prove(spec: ProofSpec, ws: seq<Witness>, rnd: Randomness, nonce: Option<seq<byte>>,
                 oracle: ChallengeOracle): (r: Result<Proof, ProofSystemError>)
    ensures r.Success? <==> WellFormed(spec) && Aligned(spec, ws)
    ensures r.Failure? && !WellFormed(spec) ==> r.error == Malformed
    ensures r.Failure? && WellFormed(spec) ==> r.error == CheckWitnesses(spec, ws).error
    ensures r.Success? ==> ShapeMatches(spec, r.value)
  {
    match Validate(spec)
    case Fail(e) => Failure(e)
    case Pass =>
      match CheckWitnesses(spec, ws)
      case Fail(e) => Failure(e)
      case Pass =>
        var n := |spec.statements|;
        var ts := seq(n, i requires 0 <= i < n => Msm(Bases(spec, i), Blindings(spec, rnd, i)));
        var c := oracle(Transcript(spec, ts, nonce));
        Success(Proof(seq(n, i requires 0 <= i < n =>
          StatementProof(ts[i], Responses(Blindings(spec, rnd, i), ws[i].scalars, c)))))
  }

  /** The Schnorr check of statement `i`:
      `sum of bases[j] * responses[j] == t + c * commitment`. */
  predicate StatementHolds(spec: ProofSpec, proof: Proof, c: Scalar, i: nat)
    requires KeysResolve(spec) && ShapeMatches(spec, proof) && i < |spec.statements|
  {
    var sp := proof.statementProofs[i];
    Msm(Bases(spec, i), sp.responses) == sp.t + c * spec.statements[i].commitment
  }

  /** The response a proof gives for a witness reference. */
  function ResponseAt(proof: Proof, r: WitnessRef): Scalar
    requires r.0 < |proof.statementProofs| && r.1 < |proof.statementProofs[r.0].responses|
  {
    proof.statementProofs[r.0].responses[r.1]
  }

  /** All members of class `k` have the same response. */
  predicate ClassAgrees(spec: ProofSpec, proof: Proof, k: nat)
    requires WellFormed(spec) && ShapeMatches(spec, proof) && k < |spec.metaStatements|
  {
    forall a, b | a in spec.metaStatements[k].refs && b in spec.metaStatements[k].refs ::
      ResponseAt(proof, a) == ResponseAt(proof, b)
  }

  /** The first statement from `i` on whose check fails, if any. */
  function FirstInvalidStatement(spec: ProofSpec, proof: Proof, c: Scalar, i: nat): (r: Option<nat>)
    requires KeysResolve(spec) && ShapeMatches(spec, proof) && i <= |spec.statements|
    ensures r.None? <==> forall j | i <= j < |spec.statements| :: StatementHolds(spec, proof, c, j)
    ensures r.Some? ==> i <= r.value < |spec.statements| && !StatementHolds(spec, proof, c, r.value)
    ensures r.Some? ==> forall j | i <= j < r.value :: StatementHolds(spec, proof, c, j)
    decreases |spec.statements| - i
  {
    if i == |spec.statements| then None
    else if !StatementHolds(spec, proof, c, i) then Some(i)
    else FirstInvalidStatement(spec, proof, c, i + 1)
  }

  /** The first class from `k` on whose responses disagree, if any. */
  function FirstViolatedClass(spec: ProofSpec, proof: Proof, k: nat): (r: Option<nat>)
    requires WellFormed(spec) && ShapeMatches(spec, proof) && k <= |spec.metaStatements|
    ensures r.None? <==> forall j | k <= j < |spec.metaStatements| :: ClassAgrees(spec, proof, j)
    ensures r.Some? ==> k <= r.value < |spec.metaStatements| && !ClassAgrees(spec, proof, r.value)
    ensures r.Some? ==> forall j | k <= j < r.value :: ClassAgrees(spec, proof, j)
    decreases |spec.metaStatements| - k
  {
    if k == |spec.metaStatements| then None
    else if !ClassAgrees(spec, proof, k) then Some(k)
    else FirstViolatedClass(spec, proof, k + 1)
  }

  /** Every statement's Schnorr check passes under challenge `c`. */
  ghost predicate AllStatementsHold(spec: ProofSpec, proof: Proof, c: Scalar)
    requires KeysResolve(spec) && ShapeMatches(spec, proof)
  {
    forall i | 0 <= i < |spec.statements| :: StatementHolds(spec, proof, c, i)
  }

  /** Every equality class's responses agree. */
  ghost predicate AllClassesAgree(spec: ProofSpec, proof: Proof)
    requires WellFormed(spec) && ShapeMatches(spec, proof)
  {
    forall k | 0 <= k < |spec.metaStatements| :: ClassAgrees(spec, proof, k)
  }

  /** `Proof::verify`: accepts exactly when the specification is well
      formed, the proof has the right shape, every statement's check
      passes under the recomputed challenge and every class's responses
      agree. Otherwise it reports the first failure: `Malformed`,
      `ShapeMismatch`, the first invalid statement, or the first class
      whose responses disagree. */
  function Verify(spec: ProofSpec, proof: Proof, nonce: Option<seq<byte>>, oracle: ChallengeOracle): (r: Outcome<ProofSystemError>)
    ensures r.Pass? <==> WellFormed(spec) && ShapeMatches(spec, proof)
                         && AllStatementsHold(spec, proof, Challenge(spec, proof, nonce, oracle))
                         && AllClassesAgree(spec, proof)
    ensures r.Fail? ==> r.error.Malformed? || r.error.ShapeMismatch? || r.error.StatementInvalid?
                        || r.error.EqualityViolation?
    ensures r.Fail? && r.error.Malformed? ==> !WellFormed(spec)
    ensures r.Fail? && r.error.ShapeMismatch? ==> WellFormed(spec) && !ShapeMatches(spec, proof)
    ensures r.Fail? && r.error.StatementInvalid? ==>
              WellFormed(spec) && ShapeMatches(spec, proof) && r.error.index < |spec.statements|
              && !StatementHolds(spec, proof, Challenge(spec, proof, nonce, oracle), r.error.index)
              && forall j | 0 <= j < r.error.index :: StatementHolds(spec, proof, Challenge(spec, proof, nonce, oracle), j)
    ensures r.Fail? && r.error.EqualityViolation? ==>
              WellFormed(spec) && ShapeMatches(spec, proof) && r.error.classIndex < |spec.metaStatements|
              && AllStatementsHold(spec, proof, Challenge(spec, proof, nonce, oracle))
              && !ClassAgrees(spec, proof, r.error.classIndex)
              && forall j | 0 <= j < r.error.classIndex :: ClassAgrees(spec, proof, j)
  {
    if Validate(spec).Fail? then Fail(Malformed)
    else if !ShapeMatches(spec, proof) then Fail(ShapeMismatch)
    else
      var c := Challenge(spec, proof, nonce, oracle);
      match FirstInvalidStatement(spec, proof, c, 0)
      case Some(i) => Fail(StatementInvalid(i))
      case None =>
        match FirstViolatedClass(spec, proof, 0)
        case Some(k) => Fail(EqualityViolation(k))
        case None => Pass
  }
}
