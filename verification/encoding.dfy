/** Bytes and the little-endian integer encoding used when hashing indices
    into the inputs of hash-to-curve. */
module Encoding {

  newtype byte = x: int | 0 <= x < 256

  /** 256 to the power `n`: the number of values `n` bytes can encode. */
  function Pow256(n: nat): nat
  {
    if n == 0 then 1 else 256 * Pow256(n - 1)
  }

  /** The `n` least significant bytes of `x`, least significant first.
      Bytes above the `n`-th are dropped, so a value that does not fit in
      `n` bytes is truncated modulo `Pow256(n)`, as a cast to a narrower
      unsigned integer type does. */
  function LeBytes(x: nat, n: nat): (bs: seq<byte>)
    ensures |bs| == n
  {
    if n == 0 then [] else [(x % 256) as byte] + LeBytes(x / 256, n - 1)
  }

  /** Reads a little-endian unsigned integer back from bytes. */
  function FromLe(bs: seq<byte>): nat
  {
    if bs == [] then 0 else bs[0] as nat + 256 * FromLe(bs[1..])
  }

  /** Decoding an encoding of a value that fits gives the value back. */
  lemma {:induction false} FromLeLeBytes(x: nat, n: nat)
    requires x < Pow256(n)
    ensures FromLe(LeBytes(x, n)) == x
  {
    if n > 0 {
      var q := x / 256;
      assert x == 256 * q + x % 256;
      assert q < Pow256(n - 1);
      FromLeLeBytes(q, n - 1);
      assert LeBytes(x, n)[1..] == LeBytes(q, n - 1);
    }
  }

  /** The eight-byte little-endian encoding of `i as u64`, as the byte
      serialisation of a `u64` writes it. */
  function U64Le(i: nat): (bs: seq<byte>)
    ensures |bs| == 8
  {
    LeBytes(i, 8)
  }

  /** Two indices below 2^64 with the same encoding are the same index. */
  lemma U64LeInjective(i: nat, j: nat)
    requires i < Pow256(8) && j < Pow256(8)
    requires U64Le(i) == U64Le(j)
    ensures i == j
  {
    FromLeLeBytes(i, 8);
    FromLeLeBytes(j, 8);
  }
}
