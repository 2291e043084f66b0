/** BBS+ signature parameters, secret and public keys, and the Pedersen
    commitment to messages built from the parameters (bbs_plus/src/setup.rs).
    The G1 and G2 variants of the parameters, public keys and keypairs are
    two instances of one generic definition and are modelled once: in the
    toy group both "groups" are the integers. */
module Setup {
  import opened Wrappers
  import opened Group
  import opened Encoding
  import opened SortedMap

  /** Parameters for signing `|h|` messages: `g1`, `h0` and `h` live in the
      signature group, `g2` in the other group of the pairing. */
  datatype SignatureParams = SignatureParams(g1: Elem, g2: Elem, h0: Elem, h: seq<Elem>)

  datatype BBSPlusError = InvalidMessageIdx(idx: nat)

  /** Hash-to-curve into one of the groups (a try-and-increment hash in the
      real system), left uninterpreted. */
  type HashToGroup = seq<byte> -> Elem

  /** A random number generator: the stream of group elements or scalars it
      would produce, and how many of them have been drawn so far. */
  datatype Rng = Rng(stream: nat -> int, pos: nat)

  /** Draws the next value from the generator. */
  function Next(rng: Rng): (r: (int, Rng))
    ensures r.0 == rng.stream(rng.pos)
    ensures r.1 == Rng(rng.stream, rng.pos + 1)
  {
    (rng.stream(rng.pos), rng.(pos := rng.pos + 1))
  }

  /** Draws `n` values in order. */
  function DrawMany(rng: Rng, n: nat): (r: (seq<int>, Rng))
    ensures |r.0| == n
    ensures forall k | 0 <= k < n :: r.0[k] == rng.stream(rng.pos + k)
    ensures r.1 == Rng(rng.stream, rng.pos + n)
    decreases n
  {
    if n == 0 then ([], rng)
    else
      var (first, rng1) := Next(rng);
      var (rest, rng2) := DrawMany(rng1, n - 1);
      ([first] + rest, rng2)
  }

  // The ASCII bytes of " : g1", " : g2" and " : h_".
  const G1_SUFFIX: seq<byte> := [32, 58, 32, 103, 49]
  const G2_SUFFIX: seq<byte> := [32, 58, 32, 103, 50]
  const H_SUFFIX: seq<byte> := [32, 58, 32, 104, 95]

  /** Hash input for `g1`: the label followed by " : g1". */
  function G1Input(labelBytes: seq<byte>): seq<byte>
  {
    labelBytes + G1_SUFFIX
  }

  /** Hash input for `g2`: the label followed by " : g2". */
  function G2Input(labelBytes: seq<byte>): seq<byte>
  {
    labelBytes + G2_SUFFIX
  }

  /** Hash input for the `i`-th element of the `h` family (`h_0` is index
      0): the label, " : h_", then `i as u64` in little-endian bytes. */
  function HInput(labelBytes: seq<byte>, i: nat): (input: seq<byte>)
    ensures |input| == |labelBytes| + |H_SUFFIX| + 8
    ensures input[..|labelBytes|] == labelBytes
    ensures i < Pow256(8) ==> FromLe(input[|labelBytes| + |H_SUFFIX|..]) == i
  {
    var input := labelBytes + H_SUFFIX + U64Le(i);
    assert input[|labelBytes| + |H_SUFFIX|..] == U64Le(i);
    if i < Pow256(8) then FromLeLeBytes(i, 8); input else input
  }

  /** The hash inputs of `new` are pairwise distinct: the `g1` input differs
      from every `h` input, and distinct indices below 2^64 give distinct
      `h` inputs. */
  lemma HashInputsDistinct(labelBytes: seq<byte>, i: nat, j: nat)
    requires i < Pow256(8) && j < Pow256(8)
    ensures G1Input(labelBytes) != HInput(labelBytes, i)
    ensures HInput(labelBytes, i) == HInput(labelBytes, j) ==> i == j
  {
    assert |G1Input(labelBytes)| != |HInput(labelBytes, i)|;
    if HInput(labelBytes, i) == HInput(labelBytes, j) {
      var n := |labelBytes| + |H_SUFFIX|;
      assert HInput(labelBytes, i)[n..] == U64Le(i);
      assert HInput(labelBytes, j)[n..] == U64Le(j);
      U64LeInjective(i, j);
    }
  }

  /** `SignatureParams::new`: parameters derived by hashing a public label,
      so that nobody knows discrete logarithms between them. The `g1`
      element is hashed first and removed from the front of the list, so
      `h0` is the element hashed with index 0 and `h[k]` the element
      hashed with index `k + 1`. A message count of 0 is refused (the
      source asserts it). */
  function New(labelBytes: seq<byte>, messageCount: nat, hashSig: HashToGroup, hashOther: HashToGroup): (p: SignatureParams)
    requires messageCount != 0
    ensures |p.h| == messageCount
    ensures p.g1 == hashSig(G1Input(labelBytes))
    ensures p.g2 == hashOther(G2Input(labelBytes))
    ensures p.h0 == hashSig(HInput(labelBytes, 0))
    ensures forall k | 0 <= k < messageCount :: p.h[k] == hashSig(HInput(labelBytes, k + 1))
  {
    var hs := seq(messageCount + 1, i requires 0 <= i <= messageCount => hashSig(HInput(labelBytes, i)));
    var elems := [hashSig(G1Input(labelBytes))] + hs;
    var g1 := elems[0];
    var rest := elems[1..];
    var h0 := rest[0];
    SignatureParams(g1, hashOther(G2Input(labelBytes)), h0, rest[1..])
  }

  /** `SignatureParams::generate_using_rng`: the `h` family is drawn first,
      then `g1`, `g2` and `h0`, in that order. A message count of 0 is
      refused (the source asserts it). Returns the generator advanced past
      the values drawn. */
  function GenerateUsingRng(rng: Rng, messageCount: nat): (r: (SignatureParams, Rng))
    requires messageCount != 0
    ensures |r.0.h| == messageCount
    ensures forall k | 0 <= k < messageCount :: r.0.h[k] == rng.stream(rng.pos + k)
    ensures r.0.g1 == rng.stream(rng.pos + messageCount)
    ensures r.0.g2 == rng.stream(rng.pos + messageCount + 1)
    ensures r.0.h0 == rng.stream(rng.pos + messageCount + 2)
    ensures r.1 == Rng(rng.stream, rng.pos + messageCount + 3)
  {
    var (h, rng1) := DrawMany(rng, messageCount);
    var (g1, rng2) := Next(rng1);
    var (g2, rng3) := Next(rng2);
    var (h0, rng4) := Next(rng3);
    (SignatureParams(g1, g2, h0, h), rng4)
  }

  /** True iff some element of `s` is the identity. */
  function AnyZero(s: seq<Elem>): (b: bool)
    ensures b <==> exists i | 0 <= i < |s| :: s[i] == 0
  {
    if s == [] then false
    else if s[0] == 0 then true
    else
      var b := AnyZero(s[1..]);
      assert b <==> exists i | 1 <= i < |s| :: s[i] == 0 by {
        assert forall i | 1 <= i < |s| :: s[i] == s[1..][i - 1];
      }
      b
  }

  /** `is_valid`: the parameters may be used only if none of their elements
      is the identity. */
  function IsValid(p: SignatureParams): (valid: bool)
    ensures valid <==> p.g1 != 0 && p.g2 != 0 && p.h0 != 0
                       && forall i | 0 <= i < |p.h| :: p.h[i] != 0
  {
    !(p.g1 == 0 || p.g2 == 0 || p.h0 == 0 || AnyZero(p.h))
  }

  /** `supported_message_count`: the number of messages the parameters can
      sign, one per element of `h`. */
  function SupportedMessageCount(p: SignatureParams): (n: nat)
    ensures n == |p.h|
    ensures forall messages: map<nat, Scalar>, blinding: Scalar ::
              CommitToMessages(p, messages, blinding).Success? <==> forall i | i in messages :: i < n
  {
    |p.h|
  }

  /** Parameters made by `new` or `generate_using_rng` support exactly the
      requested number of messages, and `new` gives valid parameters when
      the hash never lands on the identity. */
  lemma ParamsSupportRequestedCount(labelBytes: seq<byte>, messageCount: nat, hashSig: HashToGroup,
                                    hashOther: HashToGroup, rng: Rng)
    requires messageCount != 0
    ensures SupportedMessageCount(New(labelBytes, messageCount, hashSig, hashOther)) == messageCount
    ensures SupportedMessageCount(GenerateUsingRng(rng, messageCount).0) == messageCount
    ensures (forall x :: hashSig(x) != 0) && (forall x :: hashOther(x) != 0)
            ==> IsValid(New(labelBytes, messageCount, hashSig, hashOther))
  {
  }

  /** The bases and scalars of a commitment, in the order multi-scalar
      multiplication receives them. */
  datatype Terms = Terms(bases: seq<Elem>, scalars: seq<Scalar>)

  /** Some key of `keys` is at least `n`. */
  predicate AnyAtLeast(keys: seq<nat>, n: nat)
  {
    exists j | 0 <= j < |keys| :: keys[j] >= n
  }

  /** `x` is the first key of `keys` that is at least `n`. */
  predicate FirstAtLeast(keys: seq<nat>, n: nat, x: nat)
  {
    exists j | 0 <= j < |keys| :: keys[j] == x >= n && forall j' | 0 <= j' < j :: keys[j'] < n
  }

  /** Walks `keys` in order, pairing `h[k]` with message `m[k]`; the first
      key that is not below `|h|` stops the walk with `InvalidMessageIdx`. */
  function GatherTerms(h: seq<Elem>, m: map<nat, Scalar>, keys: seq<nat>): (r: Result<Terms, BBSPlusError>)
    requires forall j | 0 <= j < |keys| :: keys[j] in m
    ensures r.Failure? <==> AnyAtLeast(keys, |h|)
    ensures r.Failure? ==> FirstAtLeast(keys, |h|, r.error.idx)
    ensures r.Success? ==> |r.value.bases| == |keys| == |r.value.scalars|
    ensures r.Success? ==> Pairs(h, m, keys, r.value.bases, r.value.scalars)
    decreases |keys|
  {
    if keys == [] then Success(Terms([], []))
    else if keys[0] >= |h| then Failure(InvalidMessageIdx(keys[0]))
    else
      WalkStep(keys, |h|);
      match GatherTerms(h, m, keys[1..])
      case Failure(e) =>
        FirstAtLeastStep(keys, |h|, e.idx);
        Failure(e)
      case Success(t) =>
        PairsCons(h, m, keys, t.bases, t.scalars);
        Success(Terms([h[keys[0]]] + t.bases, [m[keys[0]]] + t.scalars))
  }

  /** One step of the walk: the tail of `keys`, after a first key below
      `n`, holds a key at least `n` exactly when `keys` does. */
  lemma WalkStep(keys: seq<nat>, n: nat)
    requires |keys| > 0 && keys[0] < n
    ensures forall j | 0 <= j < |keys| - 1 :: keys[1..][j] == keys[j + 1]
    ensures AnyAtLeast(keys, n) <==> AnyAtLeast(keys[1..], n)
  {
    var tail := keys[1..];
    if AnyAtLeast(keys, n) {
      var j :| 0 <= j < |keys| && keys[j] >= n;
      assert tail[j - 1] == keys[j];
    }
    if AnyAtLeast(tail, n) {
      var j :| 0 <= j < |tail| && tail[j] >= n;
      assert keys[j + 1] == tail[j];
    }
  }

  /** The first key at least `n` of the tail is the first of `keys` when
      the first key of `keys` is below `n`. */
  lemma FirstAtLeastStep(keys: seq<nat>, n: nat, x: nat)
    requires |keys| > 0 && keys[0] < n
    requires FirstAtLeast(keys[1..], n, x)
    ensures FirstAtLeast(keys, n, x)
  {
    var tail := keys[1..];
    var j :| 0 <= j < |tail| && tail[j] == x >= n && forall j' | 0 <= j' < j :: tail[j'] < n;
    assert keys[j + 1] == x;
    forall j' | 0 <= j' < j + 1 ensures keys[j'] < n {
      if j' > 0 {
        assert keys[j'] == tail[j' - 1];
      }
    }
  }

  /** In an ascending walk of the keys `s`, the first key that is not
      below `n` is the smallest such key of `s`. */
  lemma FirstOffendingIsSmallest(s: set<nat>, n: nat, x: nat)
    requires exists j | 0 <= j < |Ascending(s)| :: Ascending(s)[j] == x >= n && forall j' | 0 <= j' < j :: Ascending(s)[j'] < n
    ensures x in s && x >= n
    ensures forall i | i in s && i >= n :: x <= i
  {
    var keys := Ascending(s);
    var j :| 0 <= j < |keys| && keys[j] == x >= n && forall j' | 0 <= j' < j :: keys[j'] < n;
    assert x in s by {
      assert x in keys;
    }
    forall i | i in s && i >= n ensures x <= i {
      assert i in keys;
      var k :| 0 <= k < |keys| && keys[k] == i;
      IncreasingOrder(keys, j, k);
    }
  }

  /** If the walk meets no key at or above `n`, no key of `s` is. */
  lemma NoneOffending(s: set<nat>, n: nat)
    requires !AnyAtLeast(Ascending(s), n)
    ensures forall i | i in s :: i < n
  {
    var keys := Ascending(s);
    forall i | i in s ensures i < n {
      assert i in keys;
    }
  }

  /** The bases and scalars `commit_to_messages` hands to multi-scalar
      multiplication: one `(h[i], m[i])` pair per message, in ascending
      index order, then `(h0, blinding)` last. */
  function CommitmentTerms(p: SignatureParams, messages: map<nat, Scalar>, blinding: Scalar): (r: Result<Terms, BBSPlusError>)
    ensures r.Failure? <==> exists i | i in messages :: i >= |p.h|
    ensures r.Failure? ==> r.error.idx in messages && r.error.idx >= |p.h|
    ensures r.Failure? ==> forall i | i in messages && i >= |p.h| :: r.error.idx <= i
    ensures r.Success? ==> |r.value.bases| == |r.value.scalars| == |messages| + 1
    ensures r.Success? ==> r.value.bases[|messages|] == p.h0 && r.value.scalars[|messages|] == blinding
    ensures r.Success? ==> Pairs(p.h, messages, Ascending(messages.Keys), r.value.bases, r.value.scalars)
  {
    var keys := Ascending(messages.Keys);
    AscendingKeys(messages);
    match GatherTerms(p.h, messages, keys)
    case Failure(e) =>
      FirstOffendingIsSmallest(messages.Keys, |p.h|, e.idx);
      Failure(e)
    case Success(t) =>
      NoneOffending(messages.Keys, |p.h|);
      PairsSnoc(p.h, messages, keys, t.bases, t.scalars, p.h0, blinding);
      SnocKeepsPrefix(t.bases, p.h0);
      SnocKeepsPrefix(t.scalars, blinding);
      Success(Terms(t.bases + [p.h0], t.scalars + [blinding]))
  }

  /** The ascending walk of a map's keys visits exactly its keys. */
  lemma AscendingKeys(messages: map<nat, Scalar>)
    ensures |Ascending(messages.Keys)| == |messages|
    ensures forall j | 0 <= j < |Ascending(messages.Keys)| :: Ascending(messages.Keys)[j] in messages
  {
    assert |messages.Keys| == |messages|;
  }

  /** `commit_to_messages`: the Pedersen commitment
      `h0 * blinding + sum of h[i] * m[i]` over the message indices `i`,
      or `InvalidMessageIdx(i)` for the smallest index `i` that the
      parameters do not support. */
  function CommitToMessages(p: SignatureParams, messages: map<nat, Scalar>, blinding: Scalar): (r: Result<Elem, BBSPlusError>)
    ensures r.Failure? <==> exists i | i in messages :: i >= |p.h|
    ensures r.Failure? ==> r.error.idx in messages && r.error.idx >= |p.h|
    ensures r.Failure? ==> forall i | i in messages && i >= |p.h| :: r.error.idx <= i
    ensures r.Success? ==> r.value == p.h0 * blinding + KeySum(p.h, messages, messages.Keys)
  {
    match CommitmentTerms(p, messages, blinding)
    case Failure(e) => Failure(e)
    case Success(t) =>
      CommitmentSum(p, messages, blinding, t);
      Success(Msm(t.bases, t.scalars))
  }

  /** The multi-scalar multiplication of terms laid out as
      `CommitmentTerms` lays them out is the order-independent sum of the
      messages' terms plus `h0 * blinding`. */
  lemma CommitmentSum(p: SignatureParams, messages: map<nat, Scalar>, blinding: Scalar, t: Terms)
    requires forall i | i in messages :: i < |p.h|
    requires |t.bases| == |t.scalars| == |messages| + 1
    requires t.bases[|messages|] == p.h0 && t.scalars[|messages|] == blinding
    requires Pairs(p.h, messages, Ascending(messages.Keys), t.bases, t.scalars)
    ensures Msm(t.bases, t.scalars) == p.h0 * blinding + KeySum(p.h, messages, messages.Keys)
  {
    var keys := Ascending(messages.Keys);
    assert |keys| == |messages|;
    MsmLast(t.bases, t.scalars);
    PairsTake(p.h, messages, keys, t.bases, t.scalars);
    assert NoDuplicates(keys);
    GatheredSum(p.h, messages, keys, t.bases[..|keys|], t.scalars[..|keys|]);
    ElementsAscending(messages.Keys);
  }

  /** `b`: the commitment to the messages plus `g1`, failing exactly when
      the commitment fails and with the same error. */
  function B(p: SignatureParams, messages: map<nat, Scalar>, s: Scalar): (r: Result<Elem, BBSPlusError>)
    ensures r.Failure? <==> CommitToMessages(p, messages, s).Failure?
    ensures r.Failure? ==> r.error == CommitToMessages(p, messages, s).error
    ensures r.Success? ==> r.value == p.g1 + CommitToMessages(p, messages, s).value
    ensures r.Success? ==> r.value == p.g1 + p.h0 * s + KeySum(p.h, messages, messages.Keys)
  {
    match CommitToMessages(p, messages, s)
    case Failure(e) => Failure(e)
    case Success(c) => Success(c + p.g1)
  }

  /** A signer's secret key: a scalar. */
  datatype SecretKey = SecretKey(value: Scalar)

  /** A signer's public key: `g2` of the parameters times the secret key. */
  datatype PublicKey = PublicKey(point: Elem)

  datatype Keypair = Keypair(secretKey: SecretKey, publicKey: PublicKey)

  /** Derivation of a scalar from a seed and a salt (hash-to-field in the
      real system), left uninterpreted. */
  type FieldFromSeed = (seq<byte>, seq<byte>) -> Scalar

  /** The ASCII bytes of "BBS-SIG-KEYGEN-SALT-". */
  const KEYGEN_SALT: seq<byte> :=
    [66, 66, 83, 45, 83, 73, 71, 45, 75, 69, 89, 71, 69, 78, 45, 83, 65, 76, 84, 45]

  /** `SecretKey::generate_using_seed`: the seed hashed to a scalar under
      the key-generation salt; the same seed always gives the same key. */
  function SecretKeyFromSeed(seed: seq<byte>, fieldFromSeed: FieldFromSeed): SecretKey
  {
    SecretKey(fieldFromSeed(seed, KEYGEN_SALT))
  }

  /** `generate_using_secret_key`: the public key `g2 * sk`. It is valid
      exactly when neither the secret key nor `g2` is zero. */
  function PublicKeyFromSecretKey(sk: SecretKey, p: SignatureParams): (pk: PublicKey)
    ensures pk.point == p.g2 * sk.value
    ensures PublicKeyIsValid(pk) <==> sk.value != 0 && p.g2 != 0
  {
    if sk.value != 0 && p.g2 != 0 then
      MulCancel(p.g2, sk.value, 0);
      PublicKey(p.g2 * sk.value)
    else
      PublicKey(p.g2 * sk.value)
  }

  /** `PublicKey::is_valid`: the key is not the identity. */
  function PublicKeyIsValid(pk: PublicKey): bool
  {
    pk.point != 0
  }

  /** `Keypair::generate_using_seed`: the secret key derived from the seed
      and the public key derived from that secret key, `pk = g2 * sk`. */
  function KeypairFromSeed(seed: seq<byte>, p: SignatureParams, fieldFromSeed: FieldFromSeed): Keypair
  {
    var sk := SecretKeyFromSeed(seed, fieldFromSeed);
    Keypair(sk, PublicKeyFromSecretKey(sk, p))
  }

  /** `Keypair::generate_using_rng`: the secret key is the next scalar the
      generator yields, the public key is `g2` times it. */
  function KeypairFromRng(rng: Rng, p: SignatureParams): (Keypair, Rng)
  {
    var (x, rng1) := Next(rng);
    var sk := SecretKey(x);
    (Keypair(sk, PublicKeyFromSecretKey(sk, p)), rng1)
  }

  /** A keypair from a seed holds the seed hashed under the key-generation
      salt as its secret and `g2` times that scalar as its public key,
      which is valid exactly when the scalar and `g2` are non-zero. */
  lemma SeedKeypairDerivation(seed: seq<byte>, p: SignatureParams, fieldFromSeed: FieldFromSeed)
    ensures var kp := KeypairFromSeed(seed, p, fieldFromSeed);
            var x := fieldFromSeed(seed, KEYGEN_SALT);
            && kp.secretKey.value == x
            && kp.publicKey.point == p.g2 * x
            && (PublicKeyIsValid(kp.publicKey) <==> x != 0 && p.g2 != 0)
  {
  }

  /** A keypair from a generator holds the next draw as its secret and
      `g2` times it as its public key, valid exactly when both are
      non-zero, and the generator moves on by one draw. */
  lemma RngKeypairDerivation(rng: Rng, p: SignatureParams)
    ensures var r := KeypairFromRng(rng, p);
            var x := rng.stream(rng.pos);
            && r.0.secretKey.value == x
            && r.0.publicKey.point == p.g2 * x
            && (PublicKeyIsValid(r.0.publicKey) <==> x != 0 && p.g2 != 0)
            && r.1 == Rng(rng.stream, rng.pos + 1)
  {
  }
}
