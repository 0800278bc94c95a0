/** Bytes, 32-byte SSZ roots, and powers of two. */
module Bytes {
  type byte = b: int | 0 <= b < 256

  const ROOT_LENGTH := 32

  type Root = r: seq<byte> | |r| == 32 witness Zeros(32)

  const ZERO_ROOT: Root := Zeros(32)

  function Zeros(n: nat): (z: seq<byte>)
    ensures |z| == n
  {
    seq(n, _ => 0)
  }

  function Pow2(n: nat): (p: nat)
    ensures p > 0
  {
    if n == 0 then 1 else 2 * Pow2(n - 1)
  }

  lemma {:induction false} Pow2Monotone(a: nat, b: nat)
    requires a <= b
    ensures Pow2(a) <= Pow2(b)
    decreases b
  {
    if a < b {
      Pow2Monotone(a, b - 1);
    }
  }

  function DepthFrom(n: nat, d: nat): (r: nat)
    requires d > 0 ==> Pow2(d - 1) < n
    ensures Pow2(r) >= n
    ensures r > 0 ==> Pow2(r - 1) < n
    decreases n - Pow2(d)
  {
    if Pow2(d) >= n then d else DepthFrom(n, d + 1)
  }

  /** Least d with 2^d >= n: the depth of the tree that holds n leaves. */
  function Depth(n: nat): (d: nat)
    ensures Pow2(d) >= n
    ensures d > 0 ==> Pow2(d - 1) < n
  {
    DepthFrom(n, 0)
  }

  lemma DepthUnique(n: nat, d: nat)
    requires Pow2(d) >= n && (d > 0 ==> Pow2(d - 1) < n)
    ensures Depth(n) == d
  {
    if Depth(n) < d {
      Pow2Monotone(Depth(n), d - 1);
    } else if d < Depth(n) {
      Pow2Monotone(d, Depth(n) - 1);
    }
  }
}
