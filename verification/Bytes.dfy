/** Bytes, integers as little-endian machines lay them out, and the limits of C++ integers. */
module Bytes {
  type byte = x: int | 0 <= x < 256

  function Pow256(k: nat): nat { if k == 0 then 1 else 256 * Pow256(k - 1) }

  /** The low `k` bytes of `n`, least significant first. */
  function LE(n: nat, k: nat): (s: seq<byte>)
    ensures |s| == k
  {
    if k == 0 then [] else [n % 256] + LE(n / 256, k - 1)
  }

  function FromLE(s: seq<byte>): nat
  {
    if s == [] then 0 else s[0] + 256 * FromLE(s[1..])
  }

  lemma {:induction false} FromLEOfLE(n: nat, k: nat)
    requires n < Pow256(k)
    ensures FromLE(LE(n, k)) == n
  {
    if k > 0 {
      FromLEOfLE(n / 256, k - 1);
      assert LE(n, k)[1..] == LE(n / 256, k - 1);
    }
  }

  lemma LeastSignificantFirst()
    ensures LE(0x0403_0201, 4) == [1, 2, 3, 4]
  {
    assert LE(0x04, 1) == [4];
    assert LE(0x0403, 2) == [3] + LE(0x04, 1);
    assert LE(0x0403_02, 3) == [2] + LE(0x0403, 2);
  }

  const INT_MAX := 0x7fff_ffff
  const U32_LIMIT := 0x1_0000_0000
  const U64_LIMIT := 0x1_0000_0000_0000_0000

  lemma Limits()
    ensures Pow256(1) == 256 && Pow256(4) == U32_LIMIT && Pow256(8) == U64_LIMIT
  {
  }
}
