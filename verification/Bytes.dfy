/** Bytes, digests and the uninterpreted hash shared by every module. */
module Bytes {

  datatype Option<T> = None | Some(value: T)

  type byte = x: int | 0 <= x < 256

  type Bytes = seq<byte>

  const MAX_U64: nat := 0xFFFF_FFFF_FFFF_FFFF
  const TWO_64: nat := 0x1_0000_0000_0000_0000

  type uint64 = x: int | 0 <= x <= MAX_U64

  /** 64-bit arithmetic. */
  function U64(n: int): (r: nat)
    ensures r <= MAX_U64 && (0 <= n <= MAX_U64 ==> r == n)
  {
    n % TWO_64
  }

  /** A 32-byte hash value. */
  type Digest = d: Bytes | |d| == 32 witness seq(32, _ => 0)

  const ZERO_DIGEST: Digest :=
    [0, 0, 0, 0, 0, 0, 0, 0, 0, 0, 0, 0, 0, 0, 0, 0,
     0, 0, 0, 0, 0, 0, 0, 0, 0, 0, 0, 0, 0, 0, 0, 0]

  /** SHA-256 stays uninterpreted: every member that hashes takes the hash as a parameter, and no
      member assumes more of it than that it is a function. */
  type Hash = Bytes -> Digest

  /** Two concatenations that agree and whose first parts are equally long agree part by part. */
  lemma SplitConcat<T>(a: seq<T>, b: seq<T>, c: seq<T>, d: seq<T>)
    requires a + b == c + d
    requires |a| == |c|
    ensures a == c && b == d
  {
    assert a == (a + b)[..|a|] && b == (a + b)[|a|..];
    assert c == (c + d)[..|c|] && d == (c + d)[|c|..];
  }
}
