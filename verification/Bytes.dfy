/**
 Bytes, and the little-endian reading of a run of bytes.
 */
module Bytes {
  type byte = b: int | 0 <= b < 256

  /** 256 to the power k. */
  function Pow256(k: nat): (p: nat)
    ensures p > 0
  {
    if k == 0 then 1 else 256 * Pow256(k - 1)
  }

  lemma {:induction false} Pow256Monotonic(j: nat, k: nat)
    requires j <= k
    ensures Pow256(j) <= Pow256(k)
    decreases k - j
  {
    if j < k {
      Pow256Monotonic(j + 1, k);
    }
  }

  /** The number that `s` spells, least significant byte first. */
  function LittleEndian(s: seq<byte>): nat {
    if s == [] then 0 else s[0] + 256 * LittleEndian(s[1..])
  }

  /** The `k` low bytes of `v`, least significant first. */
  function ToLittleEndian(v: nat, k: nat): (s: seq<byte>)
    ensures |s| == k
  {
    if k == 0 then [] else [v % 256] + ToLittleEndian(v / 256, k - 1)
  }

  lemma {:induction false} LittleEndianBound(s: seq<byte>)
    ensures LittleEndian(s) < Pow256(|s|)
  {
    if s != [] {
      LittleEndianBound(s[1..]);
    }
  }

  lemma {:induction false} LittleEndianRoundTrip(v: nat, k: nat)
    requires v < Pow256(k)
    ensures LittleEndian(ToLittleEndian(v, k)) == v
  {
    if k > 0 {
      LittleEndianRoundTrip(v / 256, k - 1);
      assert ToLittleEndian(v, k)[1..] == ToLittleEndian(v / 256, k - 1);
    }
  }

  /** The number of bytes needed to write `r`. */
  function ByteLen(r: nat): nat {
    if r == 0 then 0 else 1 + ByteLen(r / 256)
  }

  /** `ByteLen(r)` is the least k with r < 256^k. */
  lemma {:induction false} ByteLenLeast(r: nat, k: nat)
    ensures ByteLen(r) <= k <==> r < Pow256(k)
  {
    if r > 0 && k > 0 {
      ByteLenLeast(r / 256, k - 1);
    }
  }
}
