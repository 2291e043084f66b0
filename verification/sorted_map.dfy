/** An ordered map from message index to scalar, the model of a Rust
    `BTreeMap<usize, _>`: a `map` together with the ascending order in
    which iterating over it visits its keys. Also the order-independent
    reference sum `KeySum` that the ordered walk is proved to compute. */
module SortedMap {
  import opened Group

  /** Every element is smaller than every element after it. */
  predicate StrictlyIncreasing(ks: seq<nat>)
  {
    forall i, j | 0 <= i < j < |ks| :: ks[i] < ks[j]
  }

  /** No element occurs twice. */
  predicate NoDuplicates(ks: seq<nat>)
  {
    forall i, j | 0 <= i < j < |ks| :: ks[i] != ks[j]
  }

  /** `m` is at most every element of `s`. */
  predicate LowerBound(m: nat, s: set<nat>)
  {
    forall x | x in s :: m <= x
  }

  /** In a strictly increasing sequence, order of positions is order of
      elements. */
  lemma IncreasingOrder(ks: seq<nat>, a: nat, b: nat)
    requires StrictlyIncreasing(ks) && a < |ks| && b < |ks|
    ensures ks[a] <= ks[b] <==> a <= b
  {
  }

  lemma {:induction false} MinExists(s: set<nat>)
    requires s != {}
    ensures exists m :: m in s && LowerBound(m, s)
    decreases s
  {
    var y :| y in s;
    var rest := s - {y};
    if rest == {} {
      assert LowerBound(y, s) by {
        forall x | x in s ensures y <= x {
          assert x !in rest;
        }
      }
    } else {
      MinExists(rest);
      var m :| m in rest && LowerBound(m, rest);
      var lo := if y < m then y else m;
      assert LowerBound(lo, s) by {
        forall x | x in s ensures lo <= x {
          if x != y {
            assert x in rest;
          }
        }
      }
    }
  }

  /** The least element of a non-empty set. */
  function SetMin(s: set<nat>): (m: nat)
    requires s != {}
    ensures m in s && forall x | x in s :: m <= x
  {
    MinExists(s);
    var m :| m in s && LowerBound(m, s);
    m
  }

  /** The keys of `s` in ascending order: the order in which iterating a
      `BTreeMap` with key set `s` visits them. */
  function Ascending(s: set<nat>): (ks: seq<nat>)
    ensures |ks| == |s|
    ensures forall k :: k in ks <==> k in s
    ensures StrictlyIncreasing(ks)
    decreases |s|
  {
    if s == {} then []
    else
      var m := SetMin(s);
      var rest := Ascending(s - {m});
      assert forall i | 0 <= i < |rest| :: m < rest[i] by {
        forall i | 0 <= i < |rest| ensures m < rest[i] {
          assert rest[i] in s - {m};
        }
      }
      [m] + rest
  }

  /** Some element of a non-empty set; a fixed but unspecified choice. */
  ghost function Pick(s: set<nat>): (k: nat)
    requires s != {}
    ensures k in s
  {
    var k :| k in s; k
  }

  /** The sum of `h[k] * m[k]` over the keys `ks`, taken in no particular
      order: the mathematical meaning of a Pedersen commitment to the
      messages in `m`. */
  ghost function KeySum(h: seq<Elem>, m: map<nat, Scalar>, ks: set<nat>): Elem
    requires forall k | k in ks :: k in m && k < |h|
    decreases ks
  {
    if ks == {} then 0
    else
      var k := Pick(ks);
      h[k] * m[k] + KeySum(h, m, ks - {k})
  }

  /** `KeySum` does not depend on the order: any key can be taken out first. */
  lemma {:induction false} KeySumRemove(h: seq<Elem>, m: map<nat, Scalar>, ks: set<nat>, k: nat)
    requires forall x | x in ks :: x in m && x < |h|
    requires k in ks
    ensures KeySum(h, m, ks) == h[k] * m[k] + KeySum(h, m, ks - {k})
    decreases ks
  {
    var p := Pick(ks);
    if k != p {
      calc {
        KeySum(h, m, ks);
        h[p] * m[p] + KeySum(h, m, ks - {p});
        { KeySumRemove(h, m, ks - {p}, k); }
        h[p] * m[p] + h[k] * m[k] + KeySum(h, m, ks - {p} - {k});
        { assert ks - {p} - {k} == ks - {k} - {p};
          KeySumRemove(h, m, ks - {k}, p); }
        h[k] * m[k] + KeySum(h, m, ks - {k});
      }
    }
  }

  /** The set of elements of a key sequence. */
  function Elements(keys: seq<nat>): (s: set<nat>)
    ensures forall k :: k in s <==> k in keys
  {
    set k | k in keys
  }

  /** The ascending walk of a set visits exactly its elements. */
  lemma ElementsAscending(s: set<nat>)
    ensures Elements(Ascending(s)) == s
  {
  }

  /** `bases` and `scalars` begin with one `(h[k], m[k])` term per key of
      `keys`, in the order of `keys`. */
  predicate Pairs(h: seq<Elem>, m: map<nat, Scalar>, keys: seq<nat>, bases: seq<Elem>, scalars: seq<Scalar>)
  {
    && |keys| <= |bases| && |keys| <= |scalars|
    && forall j | 0 <= j < |keys| ::
         keys[j] in m && keys[j] < |h| && bases[j] == h[keys[j]] && scalars[j] == m[keys[j]]
  }

  /** Terms appended after a layout leave it intact. */
  lemma PairsSnoc(h: seq<Elem>, m: map<nat, Scalar>, keys: seq<nat>, bases: seq<Elem>, scalars: seq<Scalar>,
                  b: Elem, s: Scalar)
    requires Pairs(h, m, keys, bases, scalars)
    ensures Pairs(h, m, keys, bases + [b], scalars + [s])
  {
    SnocKeepsPrefix(bases, b);
    SnocKeepsPrefix(scalars, s);
  }

  /** A term for the first key placed before a layout of the other keys
      lays out all of them. */
  lemma PairsCons(h: seq<Elem>, m: map<nat, Scalar>, keys: seq<nat>, bases: seq<Elem>, scalars: seq<Scalar>)
    requires |keys| > 0 && keys[0] in m && keys[0] < |h|
    requires Pairs(h, m, keys[1..], bases, scalars)
    ensures Pairs(h, m, keys, [h[keys[0]]] + bases, [m[keys[0]]] + scalars)
  {
    var bs := [h[keys[0]]] + bases;
    var ss := [m[keys[0]]] + scalars;
    forall j | 0 <= j < |keys|
      ensures keys[j] in m && keys[j] < |h| && bs[j] == h[keys[j]] && ss[j] == m[keys[j]]
    {
      if j > 0 {
        assert keys[j] == keys[1..][j - 1];
        assert bs[j] == bases[j - 1] && ss[j] == scalars[j - 1];
      }
    }
  }

  /** Dropping the terms after a layout leaves it intact. */
  lemma PairsTake(h: seq<Elem>, m: map<nat, Scalar>, keys: seq<nat>, bases: seq<Elem>, scalars: seq<Scalar>)
    requires Pairs(h, m, keys, bases, scalars)
    ensures Pairs(h, m, keys, bases[..|keys|], scalars[..|keys|])
  {
  }

  lemma SnocKeepsPrefix<T>(a: seq<T>, x: T)
    ensures |a + [x]| == |a| + 1 && (a + [x])[|a|] == x
    ensures forall j | 0 <= j < |a| :: (a + [x])[j] == a[j]
  {
  }


  /** Walking keys in any duplicate-free order and summing `h[k] * m[k]`
      by multi-scalar multiplication gives the order-independent `KeySum`. */
  lemma {:induction false} GatheredSum(h: seq<Elem>, m: map<nat, Scalar>, keys: seq<nat>,
                                      bases: seq<Elem>, scalars: seq<Scalar>)
    requires NoDuplicates(keys)
    requires |bases| == |keys| && |scalars| == |keys|
    requires Pairs(h, m, keys, bases, scalars)
    ensures Msm(bases, scalars) == KeySum(h, m, Elements(keys))
    decreases |keys|
  {
    var ks := Elements(keys);
    if |keys| == 0 {
      assert ks == {};
    } else {
      var tail := keys[1..];
      var rest := Elements(tail);
      assert NoDuplicates(tail) by {
        forall i, j | 0 <= i < j < |tail| ensures tail[i] != tail[j] {
          assert tail[i] == keys[i + 1] && tail[j] == keys[j + 1];
        }
      }
      assert keys[0] !in tail by {
        forall i | 0 <= i < |tail| ensures tail[i] != keys[0] {
          assert tail[i] == keys[i + 1];
        }
      }
      assert ks - {keys[0]} == rest by {
        assert keys == [keys[0]] + tail;
      }
      GatheredSum(h, m, tail, bases[1..], scalars[1..]);
      assert forall x | x in ks :: x in m && x < |h|;
      KeySumRemove(h, m, ks, keys[0]);
      calc {
        Msm(bases, scalars);
        bases[0] * scalars[0] + Msm(bases[1..], scalars[1..]);
        h[keys[0]] * m[keys[0]] + KeySum(h, m, rest);
        h[keys[0]] * m[keys[0]] + KeySum(h, m, ks - {keys[0]});
        KeySum(h, m, ks);
      }
    }
  }
}
