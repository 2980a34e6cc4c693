/**
 * Bytes and the little-endian layout of the unsigned integers that the trace writer
 * copies raw into its stream (`uint8_t`, `uint32_t`, `uint64_t`).
 */
module Bytes {

  newtype byte = x: int | 0 <= x < 256

  /** A byte string: the contents of a `std::string` or of a stream. */
  type Text = seq<byte>

  function Pow256(n: nat): (r: nat)
    ensures r >= 1
  {
    if n == 0 then 1 else 256 * Pow256(n - 1)
  }

  const U32Limit: nat := 0x1_0000_0000
  const U64Limit: nat := 0x1_0000_0000_0000_0000

  lemma Pow256Values()
    ensures Pow256(1) == 256 && Pow256(4) == U32Limit && Pow256(8) == U64Limit
  {
  }

  /** The `n` bytes of `v`, least significant first. */
  function LittleEndian(v: nat, n: nat): (r: seq<byte>)
    requires v < Pow256(n)
    ensures |r| == n
  {
    if n == 0 then [] else [(v % 256) as byte] + LittleEndian(v / 256, n - 1)
  }

  /** The unsigned value whose little-endian bytes are `s`. */
  function FromLittleEndian(s: seq<byte>): (v: nat)
    ensures v < Pow256(|s|)
  {
    if s == [] then 0 else s[0] as nat + 256 * FromLittleEndian(s[1..])
  }

  lemma {:induction false} FromLittleEndianInverse(v: nat, n: nat)
    requires v < Pow256(n)
    ensures FromLittleEndian(LittleEndian(v, n)) == v
  {
    if n > 0 {
      var s := LittleEndian(v, n);
      assert s[1..] == LittleEndian(v / 256, n - 1);
      FromLittleEndianInverse(v / 256, n - 1);
    }
  }

  function U8(v: nat): (r: seq<byte>)
    requires v < 256
    ensures |r| == 1 && r[0] as nat == v
  {
    [v as byte]
  }

  function U32(v: nat): (r: seq<byte>)
    requires v < U32Limit
    ensures |r| == 4 && FromLittleEndian(r) == v
  {
    Pow256Values();
    FromLittleEndianInverse(v, 4);
    LittleEndian(v, 4)
  }

  function U64(v: nat): (r: seq<byte>)
    requires v < U64Limit
    ensures |r| == 8 && FromLittleEndian(r) == v
  {
    Pow256Values();
    FromLittleEndianInverse(v, 8);
    LittleEndian(v, 8)
  }

  /** The bytes of a string literal: the low eight bits of each character (all of them for ASCII). */
  function Ascii(s: string): (r: Text)
    ensures |r| == |s|
    ensures forall i :: 0 <= i < |s| ==> r[i] as int == s[i] as int % 256
  {
    seq(|s|, i requires 0 <= i < |s| => (s[i] as int % 256) as byte)
  }

  // Slices of concatenations, proved once so that layout proofs need not re-derive them.

  lemma SliceOfConcatLeft<T>(a: seq<T>, b: seq<T>, i: nat, j: nat)
    requires i <= j <= |a|
    ensures (a + b)[i..j] == a[i..j]
  {
  }

  lemma SliceOfConcatRight<T>(a: seq<T>, b: seq<T>, i: nat, j: nat)
    requires i <= j <= |b|
    ensures (a + b)[|a| + i .. |a| + j] == b[i..j]
  {
  }

  lemma SliceOfSlice<T>(s: seq<T>, i: nat, j: nat, k: nat, l: nat)
    requires i <= j <= |s| && k <= l <= j - i
    ensures s[i..j][k..l] == s[i + k .. i + l]
  {
    forall x | 0 <= x < l - k
      ensures s[i..j][k..l][x] == s[i + k .. i + l][x]
    {
      assert s[i..j][k..l][x] == s[i..j][k + x] == s[i + k + x];
    }
  }

  /** A prefix one longer is the prefix and the next element. */
  lemma PrefixExtend<T>(s: seq<T>, i: nat)
    requires i < |s|
    ensures s[..i + 1] == s[..i] + [s[i]]
  {
  }
}
