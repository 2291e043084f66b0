# BBS+ setup and composed Pedersen-commitment proofs, in Dafny

This project models two pieces of a pairing-based anonymous-credential
library over a toy algebra, and proves properties of the model.

1. **BBS+ setup** (`bbs_plus/src/setup.rs`). This covers:
   - signature parameters `g1, g2, h_0, h[..]`, derived by hashing a label (`new`) or drawn from a random number generator (`generate_using_rng`);
   - the parameter and public-key validity checks;
   - the Pedersen commitment to an index-keyed message map (`commit_to_messages`) and `b = g1 + commitment`;
   - deterministic key derivation (`pk = g2 * sk`);
   - the Schnorr proof of knowledge of the secret key behind a public key.
2. **Composed proofs over Pedersen-commitment statements** (the behaviour `proof_system/tests/ped_comm.rs` fixes). This covers:
   - statements whose commitment key is given inline or by reference to a shared setup parameter;
   - witness-equality classes over `(statement, witness)` references;
   - structural validation of a proof specification;
   - a prover that makes one Schnorr sub-proof per statement under one Fiat–Shamir challenge, with one shared blinding per equality class;
   - a verifier that rechecks every statement and compares the responses within every class.

The algebra (module `Group`):
- Group elements and scalars are integers.
- The group operation is `+`, "scalar times point" is `*`, and the identity is 0.
- Multi-scalar multiplication `Msm` is the sum of the pairwise products.

Every identity the protocols rely on holds in this model as it does in the
real groups, for example the linearity `Msm(b, r + c*w) == Msm(b, r) + c*Msm(b, w)`.

The following are function-typed parameters, never given a definition:
- hashing to the curve;
- hashing a seed to a field element;
- the Fiat–Shamir hash.

Randomness is an explicit input: a stream with a position (`Setup.Rng`) for
the setup, and the blinding per class and per witness
(`CompositeProof.Randomness`) for the prover.

A Rust `BTreeMap<usize, Fr>` of messages is a `map<nat, Scalar>`. Its
iteration order is `SortedMap.Ascending(keys)`, the ascending sequence of
its keys. The commitment computed by walking that order is proved equal to
`KeySum`, an order-independent reference sum over the key set.

Modules, in dependency order:
- `Wrappers`
- `Group`
- `Encoding`: bytes, little-endian `u64`
- `SortedMap`
- `Setup`
- `KeyPoK`
- `Statements`
- `CompositeProof`
- `CompositeProperties`
- `PedCommScenarios`: the two tests of `ped_comm.rs`, stated for all bases, scalars, randomness, nonces and challenge oracles that meet each test's set-up.

The source of the proof system's prover and verifier is not part of this
model; only its test is. The modelled design is a Schnorr protocol:
- the commitment is `t = Msm(bases, blindings)`;
- the responses are `blinding + c * witness`;
- the check is `Msm(bases, responses) == t + c * C`, plus equal responses within every class.

Where the prover or verifier had to pick an order or an error name, the
choice is documented on the member (`Prove`, `Verify`, `CheckWitnesses`).
The rejection results hold whenever the challenge is non-zero, which is the
toy-algebra counterpart of "with overwhelming probability".

## Model

| member | source | states |
|---|---|---|
| Setup.HInput | bbs_plus/src/setup.rs:138-142 | The `h_i` hash input starts with the label, is 13 bytes longer than it, and its last eight bytes decode back to `i` whenever `i` fits in a `u64`. |
| Encoding.FromLeLeBytes | bbs_plus/src/setup.rs:138-142 | Decoding the little-endian bytes of a value below 256^n gives the value back. The `i as u64` part of each hash input is therefore lossless. |
| Encoding.U64LeInjective | bbs_plus/src/setup.rs:138-142 | Two indices below 2^64 with equal `u64` encodings are equal. |
| Setup.HashInputsDistinct | bbs_plus/src/setup.rs:132-146 | The `g1` hash input differs from every `h_i` input. Distinct indices give distinct `h_i` inputs, so no two elements of `new` come from one hash input. |
| Setup.New | bbs_plus/src/setup.rs:129-165 | Requires a non-zero message count. `h` has exactly that many elements. `g1` is the hash of `label ‖ " : g1"`, `g2` is the other-group hash of `label ‖ " : g2"`, `h_0` is the element hashed with index 0, and `h[k]` is the element hashed with index `k + 1`. |
| Setup.GenerateUsingRng | bbs_plus/src/setup.rs:168-183 | Requires a non-zero message count. `h` is the first `message_count` draws, followed by `g1`, `g2` and `h_0` in draw order. The generator advances by exactly `message_count + 3`. |
| Setup.SupportedMessageCount | bbs_plus/src/setup.rs:195-198 | The count is `h.len()`. For every message map and blinding, `commit_to_messages` succeeds exactly when every message index is below this count. |
| Setup.ParamsSupportRequestedCount | bbs_plus/src/setup.rs:129-198 | `supported_message_count` of the parameters from `new` and from `generate_using_rng` equals the requested count. Parameters from `new` are valid when the hash never yields the identity. |
| Setup.AnyZero | bbs_plus/src/setup.rs:189-192 | True exactly when some element of the sequence is the identity. |
| Setup.IsValid | bbs_plus/src/setup.rs:185-193 | Valid exactly when `g1`, `g2`, `h_0` and every `h[i]` are non-zero. |
| SortedMap.SetMin | bbs_plus/src/setup.rs:225-230 | The element returned is in the set and at most every element of it. |
| SortedMap.Ascending | bbs_plus/src/setup.rs:225-230 | The order in which a `BTreeMap` with key set `s` is walked. It has as many elements as `s`, holds exactly the elements of `s`, and is strictly increasing. |
| SortedMap.KeySumRemove | bbs_plus/src/setup.rs:200-204 | The reference sum `Σ h[k]·m[k]` over a key set does not depend on which key is taken out first. |
| SortedMap.GatheredSum | bbs_plus/src/setup.rs:226-242 | For any key order without repeated keys, ascending or not, the multi-scalar multiplication of the gathered `(h[k], m[k])` pairs equals the order-independent `KeySum`. |
| Setup.GatherTerms | bbs_plus/src/setup.rs:225-238 | The sequential loop. It fails exactly when some key is `>= h.len()`, and the key reported is the first such key in walk order. On success there is one `(h[k], m[k])` pair per key, in walk order. |
| Setup.FirstOffendingIsSmallest | bbs_plus/src/setup.rs:210-238 | In an ascending walk, the first key at or above the bound is the smallest key of the set at or above it. |
| Setup.NoneOffending | bbs_plus/src/setup.rs:210-238 | If the ascending walk meets no key at or above the bound, the set has none. |
| Setup.CommitmentTerms | bbs_plus/src/setup.rs:200-243 | Fails with `InvalidMessageIdx(i)` exactly when some key is `>= h.len()`, and `i` is the smallest such key. On success, bases and scalars both have length `messages.len() + 1`, the message pairs come in ascending key order, and `(h_0, blinding)` is last. |
| Setup.CommitmentSum | bbs_plus/src/setup.rs:240-242 | The multi-scalar multiplication of terms laid out this way equals `h_0·blinding + Σ_{i ∈ keys} h[i]·m_i`. |
| Setup.CommitToMessages | bbs_plus/src/setup.rs:200-243 | `commit_to_messages`. It errors iff some key is `>= h.len()`, reporting the smallest such key. Otherwise the result equals `h_0·blinding + Σ_{i ∈ keys} h[i]·m_i`. |
| Setup.B | bbs_plus/src/setup.rs:245-255 | Errors exactly when `commit_to_messages` errors, with the same error. Otherwise it equals that commitment plus `g1`, that is, `g1 + h_0·s + Σ h[i]·m_i`. |
| Setup.PublicKeyFromSecretKey | bbs_plus/src/setup.rs:284-296 | `generate_using_secret_key`: the public key is `g2 · sk`. It passes `is_valid`, that is, it is not the identity, exactly when both `sk` and `g2` are non-zero. |
| Setup.SeedKeypairDerivation | bbs_plus/src/setup.rs:333-343 | The seed keypair's secret is the seed hashed to a scalar under the salt `"BBS-SIG-KEYGEN-SALT-"`, as `SecretKey::generate_using_seed` at lines 84-93 does. Its public key is `g2` times that scalar, and is valid exactly when the scalar and `g2` are non-zero. This matches the test at lines 427-439. |
| Setup.RngKeypairDerivation | bbs_plus/src/setup.rs:345-352 | The generator keypair's secret is the next draw and its public key is `g2` times it. The public key is valid exactly when the draw and `g2` are non-zero. The generator advances by exactly one draw. |
| KeyPoK.SecretKeyProofVerifies | bbs_plus/src/setup.rs:481-521 | With `pk = g2·sk` from a seed, the prover's and the verifier's challenge contributions are equal, so the two challenges are equal, and the proof verifies against `pk`. |
| KeyPoK.WrongKeyRejected | bbs_plus/src/setup.rs:375-376 | An honest proof is rejected for every non-zero challenge when checked against any public value other than `base · secret`. |
| KeyPoK.HonestProofAcceptedIff | bbs_plus/src/setup.rs:494-519 | `init`, `gen_proof` and `verify` fit together. A proof made honestly for a secret is accepted against `y` exactly when `y = base · secret` or the challenge is zero. |
| Statements.DisjointFrom | proof_system/tests/ped_comm.rs:58-68 | The union-accumulating walk accepts exactly when the classes are pairwise disjoint and none meets the set already seen. |
| Statements.AllRefsInBounds | proof_system/tests/ped_comm.rs:58-68 | True exactly when every reference of every class names an existing statement and one of its witnesses. |
| Statements.Validate | proof_system/tests/ped_comm.rs:78-84 | Passes exactly when every key resolves, every reference is in bounds and the classes are disjoint. It fails only with `Malformed`. |
| Statements.ValidateIgnoresCommitments | proof_system/tests/ped_comm.rs:101-119 | Validation is structural: replacing a statement's commitment never changes its verdict. |
| Statements.FirstMisfit | proof_system/tests/ped_comm.rs:70-72 | Finds the first witness whose length differs from its statement's number of bases, or none when all fit. |
| Statements.CheckWitnesses | proof_system/tests/ped_comm.rs:70-95 | Passes exactly when the witnesses align with the statements. A count mismatch is `Malformed`. Otherwise the error is `TypeMismatch(i)` for the first misfitting witness `i`. |
| CompositeProof.ClassOf | proof_system/tests/ped_comm.rs:58-68 | Returns the first class containing a reference, or reports that no class contains it. |
| CompositeProof.Blindings | proof_system/tests/ped_comm.rs:89-95 | Gives one blinding per base. With disjoint classes, every member of class `k` gets that class's shared blinding, so linked witnesses are blinded alike. A witness in no class gets its own blinding. |
| CompositeProof.ResponsesLinear | proof_system/tests/ped_comm.rs:89-99 | The responses `blinding + c · witness` are linear. Against any bases, their multi-scalar multiplication equals that of the blindings plus `c` times that of the witness. |
| CompositeProof.Prove | proof_system/tests/ped_comm.rs:89-95 | Succeeds exactly when the specification is well formed and the witnesses align, without checking openings or equalities. An ill-formed specification gives `Malformed`. For a well-formed specification the error is the one witness checking reports: `Malformed` for a wrong witness count, otherwise `TypeMismatch` at the first misfitting witness. A proof always has the specification's shape. |
| CompositeProof.FirstInvalidStatement | proof_system/tests/ped_comm.rs:99 | Finds the first statement whose Schnorr check fails, or none when all pass. Every statement before the one returned passes. |
| CompositeProof.FirstViolatedClass | proof_system/tests/ped_comm.rs:99 | Finds the first class whose responses disagree, or none when all agree. Every class before the one returned agrees. |
| CompositeProof.Verify | proof_system/tests/ped_comm.rs:99-158 | Accepts exactly when the specification is well formed, the shape matches, every statement passes under the recomputed challenge, and every class's responses agree. Each error kind implies its cause. `StatementInvalid(i)` names the first failing statement, and `EqualityViolation(k)` names the first class that disagrees, after every statement has passed. |
| CompositeProperties.ProveOutput | proof_system/tests/ped_comm.rs:89-97 | Describes an honest proof: `t_i = Msm(bases_i, blindings_i)`, each response is `blinding + c·w`, and the verifier's recomputed challenge is the one the prover answered. |
| CompositeProperties.HonestStatementsHold | proof_system/tests/ped_comm.rs:89-99 | When every witness opens its commitment, every statement's check passes on the honest proof. |
| CompositeProperties.Completeness | proof_system/tests/ped_comm.rs:84-99 | Suppose the witnesses open their commitments and every class links equal witnesses. Then proving succeeds and verification passes for any randomness, nonce and challenge oracle. |
| CompositeProperties.WrongCommitmentRejected | proof_system/tests/ped_comm.rs:101-128 | The prover still succeeds when a witness does not open its commitment. The verifier then rejects with `StatementInvalid` whenever the challenge is non-zero. |
| CompositeProperties.FalseEqualityRejected | proof_system/tests/ped_comm.rs:130-158 | The prover still succeeds when a class links unequal witnesses, and the verifier rejects whenever the challenge is non-zero. If each witness still opens its own commitment, the rejection is `EqualityViolation`. |
| CompositeProperties.TamperedResponseRejected | proof_system/tests/ped_comm.rs:97-99 | Changing one response of an accepted proof at a non-identity base makes the verifier reject with `StatementInvalid`. |
| PedCommScenarios.InlineSpecWellFormed | proof_system/tests/ped_comm.rs:46-84 | The first test's specification, with either set of classes, is well formed and validates. |
| PedCommScenarios.InlineKeysProofVerifies | proof_system/tests/ped_comm.rs:18-99 | First test: `validate` passes, the prover succeeds and the verifier accepts. |
| PedCommScenarios.InlineKeysWrongCommitmentRejected | proof_system/tests/ped_comm.rs:101-128 | First test with the second statement carrying `commitment_1`. `validate` passes and the prover succeeds. The verifier rejects with `StatementInvalid` whenever the challenge is non-zero. |
| PedCommScenarios.InlineKeysFalseEqualityRejected | proof_system/tests/ped_comm.rs:130-158 | First test with the class `(0,3)=(1,0)` over unequal scalars. The prover succeeds, and the verifier rejects with `EqualityViolation` whenever the challenge is non-zero. |
| PedCommScenarios.SharedKeySpecWellFormed | proof_system/tests/ped_comm.rs:194-242 | Three statements referencing setup key 0 validate, and each resolves to the shared bases. |
| PedCommScenarios.SharedKeyWitnessesOpen | proof_system/tests/ped_comm.rs:167-230 | The three witnesses fit the shared key and open their commitments. |
| PedCommScenarios.TrueClassesHold | proof_system/tests/ped_comm.rs:172-175 | Witnesses with `scalars_2[1] = scalars_1[3]` and `scalars_2[4] = scalars_1[0]` satisfy both classes. |
| PedCommScenarios.SharedKeyProofVerifies | proof_system/tests/ped_comm.rs:161-258 | Second test: `validate` passes, the prover succeeds and the verifier accepts. |

## Left out

- Elliptic-curve and pairing arithmetic, `batch_normalization` and the internals of multi-scalar multiplication are replaced by the integer group. Results about non-zero elements (`PublicKeyFromSecretKey`, the rejection lemmas) use integer cancellation, which prime-order groups share.
- Hash-to-curve (`projective_group_elem_from_try_and_incr`), `field_elem_from_seed` and the Fiat–Shamir hash are parameters. "A different label gives different parameters" (setup.rs:416-418) rests on collision resistance and is not stated. `HashInputsDistinct` shows only that the hash inputs differ.
- "The same label gives the same parameters" and "the same seed gives the same key" hold because `New` and `SecretKeyFromSeed` are functions. They have no separate lemma.
- `rayon`/`cfg_iter!` parallelism is not modelled. Both branches of `commit_to_messages` walk the map in ascending order and reject the first offending key, and the model follows that shared sequential meaning.
- `usize` and `u64` widths are not modelled. Indices are `nat`. `U64Le` truncates modulo 2^64 like `i as u64`, and `HashInputsDistinct` assumes indices below 2^64, which a `usize` message count guarantees.
- Serialization (`CanonicalSerialize`, `serde`, `test_serialization!`), `Zeroize` and `Drop` have no observable effect on the modelled values.
- Failure of the random number generator is not modelled: draws always succeed.
- Setup.New and Setup.GenerateUsingRng take a non-zero message count as a precondition, where the source panics on `assert_ne!(message_count, 0)` (setup.rs:130 and 172). The panic itself is not modelled.
- Probabilistic soundness is not modelled. `WrongCommitmentRejected`, `FalseEqualityRejected`, `WrongKeyRejected` and the scenario rejections assume a non-zero challenge instead of a random one.
- The `G1` and `G2` variants of the parameters, public keys, keypairs and secret-key proofs are one macro instantiated twice. Each is modelled once.
- The Schnorr proof of knowledge (`impl_proof_of_knowledge_of_discrete_log!`) is defined in another crate that is not part of this model. `KeyPoK` follows the standard Schnorr protocol, with the challenge contribution serialising base, public value and commitment in that order.
- The proof system's prover and verifier source is not part of this model. The following choices are therefore the model's own:
  - Validation order: keys, then references, then class disjointness.
  - A wrong witness count is `Malformed` and a witness of the wrong length is `TypeMismatch(i)`.
  - The challenge transcript is each statement's bases, commitment and `t` in statement order, then the context, then the nonce.
  - The proof carries no challenge, so a `ChallengeMismatch` error cannot arise and is not modelled.
  - Rejection of a proof whose sub-proof commitment `t` was altered is not stated. Altering `t` changes the recomputed challenge, and the challenge oracle is unconstrained, so some oracles accept the altered proof. The real verifier rejects it only with overwhelming probability.
- Statement kinds other than Pedersen commitments, and any other meta-statements, are not modelled.
- `CompositeProof.Verify` does not model the order in which a real verifier might interleave its checks. It reports the first failing statement before any class.
