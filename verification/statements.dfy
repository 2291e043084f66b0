/** Statements, witnesses and meta-statements of a composed proof, and the
    structural validation of a proof specification. The only statement
    kind modelled is knowledge of the opening of a Pedersen commitment
    `C = sum of bases[j] * w[j]`; its commitment key is given inline or by
    reference to a shared setup parameter. */
module Statements {
  import opened Wrappers
  import opened Group
  import opened Encoding

  /** A setup parameter shared between statements. */
  datatype SetupParams = PedersenCommitmentKey(bases: seq<Elem>)

  /** Where a statement takes its commitment key from. */
  datatype CommitmentKey = Inline(bases: seq<Elem>) | SetupRef(index: nat)

  /** "I know scalars opening `commitment` under the key". */
  datatype Statement = PedersenCommitment(key: CommitmentKey, commitment: Elem)

  /** The secret opening of a Pedersen-commitment statement. */
  datatype Witness = PedersenCommitmentWitness(scalars: seq<Scalar>)

  /** Witness `w` of statement `s`, written `(s, w)`. */
  type WitnessRef = (nat, nat)

  /** A claim that all the referenced witnesses are one and the same
      scalar: an equality class. */
  datatype MetaStatement = WitnessEquality(refs: set<WitnessRef>)

  /** What is to be proved: the statements, the equality classes over their
      witnesses, the shared setup parameters and an optional context
      bound into the challenge. */
  datatype ProofSpec = ProofSpec(statements: seq<Statement>, metaStatements: seq<MetaStatement>,
                                 setupParams: seq<SetupParams>, context: Option<seq<byte>>)

  datatype ProofSystemError =
    | Malformed                      // the specification is structurally invalid
    | TypeMismatch(index: nat)       // witness `index` does not fit statement `index`
    | ShapeMismatch                  // the proof's shape does not fit the specification
    | StatementInvalid(index: nat)   // statement `index` does not verify
    | EqualityViolation(classIndex: nat)  // that equality class has unequal responses

  /** The commitment key of a statement, looked up among the setup
      parameters when it is given by reference. */
  function ResolveKey(setup: seq<SetupParams>, key: CommitmentKey): Option<seq<Elem>>
  {
    match key
    case Inline(bases) => Some(bases)
    case SetupRef(i) => if i < |setup| then Some(setup[i].bases) else None
  }

  /** Every statement's commitment key can be found. */
  ghost predicate KeysResolve(spec: ProofSpec)
  {
    forall i | 0 <= i < |spec.statements| :: ResolveKey(spec.setupParams, spec.statements[i].key).Some?
  }

  /** The commitment key of statement `i`. */
  function Bases(spec: ProofSpec, i: nat): seq<Elem>
    requires KeysResolve(spec) && i < |spec.statements|
  {
    ResolveKey(spec.setupParams, spec.statements[i].key).value
  }

  /** Every witness reference names a statement and one of its witnesses. */
  ghost predicate RefsInBounds(spec: ProofSpec)
    requires KeysResolve(spec)
  {
    forall k, r | 0 <= k < |spec.metaStatements| && r in spec.metaStatements[k].refs ::
      r.0 < |spec.statements| && r.1 < |Bases(spec, r.0)|
  }

  /** No witness reference appears in two equality classes. */
  ghost predicate ClassesDisjoint(metas: seq<MetaStatement>)
  {
    forall k1, k2 | 0 <= k1 < k2 < |metas| :: metas[k1].refs !! metas[k2].refs
  }

  /** A specification a proof can be made for. */
  ghost predicate WellFormed(spec: ProofSpec)
  {
    KeysResolve(spec) && RefsInBounds(spec) && ClassesDisjoint(spec.metaStatements)
  }

  /** Walks the classes in order, keeping the union of the classes seen so
      far; a class meeting that union overlaps an earlier one. */
  function DisjointFrom(metas: seq<MetaStatement>, seen: set<WitnessRef>): (ok: bool)
    ensures ok <==> ClassesDisjoint(metas) && forall k | 0 <= k < |metas| :: metas[k].refs !! seen
    decreases |metas|
  {
    if metas == [] then true
    else
      var ok := metas[0].refs !! seen && DisjointFrom(metas[1..], seen + metas[0].refs);
      assert forall k | 1 <= k < |metas| :: metas[k] == metas[1..][k - 1];
      ok
  }

  /** Every statement's key resolves, scanning from statement `i` on. */
  function AllKeysResolve(spec: ProofSpec, i: nat): (ok: bool)
    requires i <= |spec.statements|
    ensures ok <==> forall j | i <= j < |spec.statements| ::
                      ResolveKey(spec.setupParams, spec.statements[j].key).Some?
    decreases |spec.statements| - i
  {
    i == |spec.statements|
    || (ResolveKey(spec.setupParams, spec.statements[i].key).Some? && AllKeysResolve(spec, i + 1))
  }

  /** Every reference of class `k` and of the classes after it is in
      bounds. */
  function AllRefsInBounds(spec: ProofSpec, k: nat): (ok: bool)
    requires KeysResolve(spec) && k <= |spec.metaStatements|
    ensures ok <==> forall k', r | k <= k' < |spec.metaStatements| && r in spec.metaStatements[k'].refs ::
                      r.0 < |spec.statements| && r.1 < |Bases(spec, r.0)|
    decreases |spec.metaStatements| - k
  {
    k == |spec.metaStatements|
    || ((forall r | r in spec.metaStatements[k].refs ::
           r.0 < |spec.statements| && r.1 < |Bases(spec, r.0)|)
        && AllRefsInBounds(spec, k + 1))
  }

  /** `ProofSpec::validate`: a structural check only. It looks at keys,
      references and classes, never at commitments or witnesses, and
      fails with `Malformed`. */
  function Validate(spec: ProofSpec): (r: Outcome<ProofSystemError>)
    ensures r.Pass? <==> WellFormed(spec)
    ensures r.Fail? ==> r.error == Malformed
  {
    if !AllKeysResolve(spec, 0) then Fail(Malformed)
    else if !AllRefsInBounds(spec, 0) then Fail(Malformed)
    else if !DisjointFrom(spec.metaStatements, {}) then Fail(Malformed)
    else Pass
  }

  /** Validation ignores the commitments: replacing the commitment of any
      statement does not change its verdict. */
  lemma ValidateIgnoresCommitments(spec: ProofSpec, i: nat, c: Elem)
    requires i < |spec.statements|
    ensures var stmts := spec.statements[i := PedersenCommitment(spec.statements[i].key, c)];
            Validate(spec.(statements := stmts)) == Validate(spec)
  {
    var spec' := spec.(statements := spec.statements[i := PedersenCommitment(spec.statements[i].key, c)]);
    assert forall j | 0 <= j < |spec.statements| :: spec'.statements[j].key == spec.statements[j].key;
    assert KeysResolve(spec') <==> KeysResolve(spec);
    if KeysResolve(spec) {
      assert forall j | 0 <= j < |spec.statements| :: Bases(spec', j) == Bases(spec, j);
    }
  }

  /** Each witness supplies one scalar per base of its statement. */
  ghost predicate Aligned(spec: ProofSpec, ws: seq<Witness>)
    requires KeysResolve(spec)
  {
    |ws| == |spec.statements| && forall i | 0 <= i < |ws| :: |ws[i].scalars| == |Bases(spec, i)|
  }

  /** The first statement from `i` on whose witness has the wrong number of
      scalars, if any. */
  function FirstMisfit(spec: ProofSpec, ws: seq<Witness>, i: nat): (r: Option<nat>)
    requires KeysResolve(spec) && |ws| == |spec.statements| && i <= |ws|
    ensures r.None? <==> forall j | i <= j < |ws| :: |ws[j].scalars| == |Bases(spec, j)|
    ensures r.Some? ==> i <= r.value < |ws| && |ws[r.value].scalars| != |Bases(spec, r.value)|
    ensures r.Some? ==> forall j | i <= j < r.value :: |ws[j].scalars| == |Bases(spec, j)|
    decreases |ws| - i
  {
    if i == |ws| then None
    else if |ws[i].scalars| != |Bases(spec, i)| then Some(i)
    else FirstMisfit(spec, ws, i + 1)
  }

  /** The prover's check that the witnesses fit the statements: a wrong
      number of witnesses is `Malformed`, a witness with the wrong number
      of scalars is `TypeMismatch` at the first such position. */
  function CheckWitnesses(spec: ProofSpec, ws: seq<Witness>): (r: Outcome<ProofSystemError>)
    requires KeysResolve(spec)
    ensures r.Pass? <==> Aligned(spec, ws)
    ensures r.Fail? && |ws| != |spec.statements| ==> r.error == Malformed
    ensures r.Fail? && |ws| == |spec.statements| ==>
              r.error.TypeMismatch? && r.error.index < |ws|
              && |ws[r.error.index].scalars| != |Bases(spec, r.error.index)|
              && forall j | 0 <= j < r.error.index :: |ws[j].scalars| == |Bases(spec, j)|
  {
    if |ws| != |spec.statements| then Fail(Malformed)
    else match FirstMisfit(spec, ws, 0)
      case Some(i) => Fail(TypeMismatch(i))
      case None => Pass
  }

  /** The witness a reference names. */
  function WitnessAt(ws: seq<Witness>, r: WitnessRef): Scalar
    requires r.0 < |ws| && r.1 < |ws[r.0].scalars|
  {
    ws[r.0].scalars[r.1]
  }

  /** Every witness opens its statement's commitment. */
  ghost predicate OpensAll(spec: ProofSpec, ws: seq<Witness>)
    requires KeysResolve(spec) && Aligned(spec, ws)
  {
    forall i | 0 <= i < |ws| :: Msm(Bases(spec, i), ws[i].scalars) == spec.statements[i].commitment
  }

  /** Within every equality class the referenced witnesses really are
      equal. */
  ghost predicate EqualitiesHold(spec: ProofSpec, ws: seq<Witness>)
    requires WellFormed(spec) && Aligned(spec, ws)
  {
    forall k, a, b | 0 <= k < |spec.metaStatements| && a in spec.metaStatements[k].refs
                     && b in spec.metaStatements[k].refs ::
      WitnessAt(ws, a) == WitnessAt(ws, b)
  }
}
