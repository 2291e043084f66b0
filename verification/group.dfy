/** A toy model of the prime-order groups and the scalar field that the
    signature scheme and the composed proofs work in. Group elements and
    scalars are both integers: the group operation is `+`, "scalar times
    point" is `*` and the identity element is 0. Every algebraic identity
    the protocols rely on (linearity of multi-scalar multiplication, the
    Schnorr verification equation) holds in this model as in the real
    groups. */
module Group {

  /** A scalar of the field the group is defined over. */
  type Scalar = int

  /** A group element (a curve point in the real system). */
  type Elem = int

  /** Multi-scalar multiplication: the sum of `bases[i] * scalars[i]`. */
  function Msm(bases: seq<Elem>, scalars: seq<Scalar>): Elem
    requires |bases| == |scalars|
    decreases |bases|
  {
    if |bases| == 0 then 0 else bases[0] * scalars[0] + Msm(bases[1..], scalars[1..])
  }

  /** Appending one more base/scalar pair adds its product to the sum. */
  lemma {:induction false} MsmSnoc(bases: seq<Elem>, scalars: seq<Scalar>, b: Elem, s: Scalar)
    requires |bases| == |scalars|
    ensures Msm(bases + [b], scalars + [s]) == Msm(bases, scalars) + b * s
    decreases |bases|
  {
    if |bases| == 0 {
      assert bases + [b] == [b] && scalars + [s] == [s];
    } else {
      assert (bases + [b])[1..] == bases[1..] + [b];
      assert (scalars + [s])[1..] == scalars[1..] + [s];
      MsmSnoc(bases[1..], scalars[1..], b, s);
    }
  }

  /** The last term of a multi-scalar multiplication split off. */
  lemma MsmLast(bases: seq<Elem>, scalars: seq<Scalar>)
    requires |bases| == |scalars| > 0
    ensures Msm(bases, scalars)
            == Msm(bases[..|bases| - 1], scalars[..|bases| - 1]) + bases[|bases| - 1] * scalars[|bases| - 1]
  {
    var n := |bases| - 1;
    SplitLast(bases);
    SplitLast(scalars);
    MsmSnoc(bases[..n], scalars[..n], bases[n], scalars[n]);
  }

  /** A non-empty sequence is its prefix followed by its last element. */
  lemma SplitLast<T>(a: seq<T>)
    requires |a| > 0
    ensures a == a[..|a| - 1] + [a[|a| - 1]]
  {
  }

  /** The identity every Schnorr-style check rests on: committing to the
      responses `s = r + c·w` gives the commitment to `r` plus `c` times
      the commitment to `w`. */
  lemma {:induction false} MsmLinear(bases: seq<Elem>, r: seq<Scalar>, w: seq<Scalar>, c: Scalar, s: seq<Scalar>)
    requires |bases| == |r| == |w| == |s|
    requires forall j | 0 <= j < |s| :: s[j] == r[j] + c * w[j]
    ensures Msm(bases, s) == Msm(bases, r) + c * Msm(bases, w)
    decreases |bases|
  {
    if |bases| > 0 {
      MsmLinear(bases[1..], r[1..], w[1..], c, s[1..]);
      assert bases[0] * s[0] == bases[0] * r[0] + c * (bases[0] * w[0]) by {
        assert s[0] == r[0] + c * w[0];
      }
    }
  }

  /** Replacing the scalar at position `j` by `v` moves the sum by
      `bases[j] * (v - scalars[j])`. */
  lemma {:induction false} MsmUpdate(bases: seq<Elem>, scalars: seq<Scalar>, j: nat, v: Scalar)
    requires |bases| == |scalars| && j < |scalars|
    ensures Msm(bases, scalars[j := v]) == Msm(bases, scalars) + bases[j] * (v - scalars[j])
    decreases |bases|
  {
    if j == 0 {
      assert scalars[j := v][1..] == scalars[1..];
    } else {
      assert scalars[j := v][1..] == scalars[1..][j - 1 := v];
      MsmUpdate(bases[1..], scalars[1..], j - 1, v);
    }
  }

  /** A non-zero factor can be cancelled: `c·x == c·y` forces `x == y`. */
  lemma MulCancel(c: Scalar, x: int, y: int)
    requires c != 0 && x != y
    ensures c * x != c * y
  {
    assert c * x - c * y == c * (x - y);
  }
}
